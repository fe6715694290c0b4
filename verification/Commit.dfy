/** What the upload and delete protocol guarantees over whole runs. */
module Commit {
  import opened Prelude
  import opened Names
  import opened Metadata
  import opened Vaults
  import opened Store
  import Multipart

  // ---------- Committed drops ----------

  lemma PresentIffCommitted(env: Env, s: State, hex: string)
    requires Inv(env, s) && hex in s.requests
    ensures IsHex(hex) && Admissible(env, s.requests[hex])
    ensures LocOf(s.requests[hex], hex, Payload) in s.files <==> hex in s.committed && hex !in s.deleted
  {
    assert DropOk(env, s.requests[hex], DropOf(s, hex));
  }

  /** In every reachable state a payload file is there exactly for the drops that were committed and
      not deleted. */
  lemma PayloadsAreCommittedDrops(env: Env, actions: seq<Action>, hex: string)
    requires Exec(env, actions).Some? && hex in Exec(env, actions).value.requests
    ensures var s := Exec(env, actions).value;
            LocOf(s.requests[hex], hex, Payload) in s.files <==> hex in s.committed && hex !in s.deleted
  {
    RunKeepsInv(env, actions);
    PresentIffCommitted(env, Exec(env, actions).value, hex);
  }

  /** A complete drop: the payload holds what was uploaded, and a complete sidecar lies beside it. */
  ghost predicate Complete(env: Env, s: State, hex: string) {
    && hex in s.requests && Admissible(env, s.requests[hex])
    && var payload, sidecar := LocOf(s.requests[hex], hex, Payload), LocOf(s.requests[hex], hex, Sidecar);
       && payload in s.files && PayloadComplete(env, s.requests[hex], s.files[payload])
       && sidecar in s.files && SidecarComplete(env, s.requests[hex], s.files[sidecar])
  }

  /** The payload of a committed, undeleted drop is whole; its sidecar is there, and whole, unless a
      delete was aimed at it. */
  lemma DropHolds(env: Env, s: State, hex: string)
    requires Inv(env, s) && hex in s.committed && hex !in s.deleted
    ensures hex in s.requests && Admissible(env, s.requests[hex]) && BodyOutcome(env, s.requests[hex]).Ok?
    ensures var payload := LocOf(s.requests[hex], hex, Payload);
            payload in s.files && PayloadComplete(env, s.requests[hex], s.files[payload])
    ensures Complete(env, s, hex) <==> hex !in s.stripped
    ensures LocOf(s.requests[hex], hex, Sidecar) in s.files <==> hex !in s.stripped
  {
    assert DropOk(env, s.requests[hex], DropOf(s, hex));
  }

  lemma OwnerOfPayloadPath(env: Env, s: State, loc: Loc)
    requires Inv(env, s) && loc in s.files && IsPayloadPath(loc.name)
    ensures exists hex :: Owns(s.requests, loc, hex, Payload) && hex in s.committed && hex !in s.deleted
  {
    var hex, kind :| Owns(s.requests, loc, hex, kind);
    DropNameRoles(hex);
    assert kind == Payload;
    assert DropOk(env, s.requests[hex], DropOf(s, hex));
  }

  /**
   The commit invariant. Whatever uploads and deletes are in flight, whichever of them have failed and
   whenever the process crashed: every file with a payload name is the complete payload of some upload,
   and its complete sidecar lies beside it exactly if the run holds no delete aimed at that sidecar.
   */
  lemma CommitInvariant(env: Env, actions: seq<Action>, loc: Loc)
    requires Exec(env, actions).Some?
    requires loc in Exec(env, actions).value.files && IsPayloadPath(loc.name)
    ensures exists hex :: IsWhole(env, Exec(env, actions).value, loc, hex)
              && (Complete(env, Exec(env, actions).value, hex) <==> !exists k :: Removes(env, actions, k, hex, Sidecar))
  {
    RunKeepsInv(env, actions);
    var s := Exec(env, actions).value;
    OwnerOfPayloadPath(env, s, loc);
    var hex :| Owns(s.requests, loc, hex, Payload) && hex in s.committed && hex !in s.deleted;
    DropHolds(env, s, hex);
    MarkMeansRemoved(env, actions, hex, Sidecar);
    assert IsWhole(env, s, loc, hex);
  }

  /** The file is the complete payload of this upload. */
  ghost predicate IsWhole(env: Env, s: State, loc: Loc, hex: string) {
    && Owns(s.requests, loc, hex, Payload) && Admissible(env, s.requests[hex])
    && loc in s.files && PayloadComplete(env, s.requests[hex], s.files[loc])
  }

  /** The size that a complete sidecar records is the length of the payload exactly when all payload
      parts of the body but the last were empty. */
  lemma RecordedSizeIff(env: Env, r: Request)
    requires Admissible(env, r) && BodyOutcome(env, r).Ok?
    ensures BodyOutcome(env, r).value.filesize == Some(|PayloadBytes(r)|) <==> Multipart.OnlyLastFileHasBytes(r.fields)
    ensures BodyOutcome(env, r).value.filesize.Some?
  {
    Multipart.FileSizeFits(r.fields);
    Multipart.SizeIsPayloadLengthIff(r.fields);
  }

  // ---------- Nothing changes behind a committed drop ----------

  ghost predicate Extends(s: State, s': State) {
    && (forall hex :: hex in s.requests ==> hex in s'.requests && s'.requests[hex] == s.requests[hex])
    && s.committed <= s'.committed && s.deleted <= s'.deleted && s.cleaned <= s'.cleaned
    && s.stripped <= s'.stripped && s.folders <= s'.folders
  }

  lemma PutExtends(s: State, hex: string, d: Drop)
    requires hex in s.requests
    requires (hex in s.committed ==> d.committed) && (hex in s.deleted ==> d.deleted)
    requires (hex in s.cleaned ==> d.cleaned) && (hex in s.stripped ==> d.stripped)
    ensures Extends(s, Put(s, hex, d))
  {}

  /** A step of an upload takes back no commit and no cleanup, and deletes nothing. */
  lemma StepIsMonotone(env: Env, r: Request, d: Drop, op: Op)
    requires Admissible(env, r) && DropOk(env, r, d) && StepDrop(env, r, d, op).Some?
    ensures var d' := StepDrop(env, r, d, op).value;
            && d'.deleted == d.deleted && d'.stripped == d.stripped
            && (d.committed ==> d'.committed) && (d.cleaned ==> d'.cleaned)
  {}

  /** The drop that a step puts, and its marks. */
  lemma StepMarks(env: Env, s: State, hex: string, op: Op) returns (d: Drop)
    requires Inv(env, s) && StepUpload(env, s, hex, op).Some?
    ensures hex in s.requests && StepUpload(env, s, hex, op).value == Put(s, hex, d)
    ensures d.deleted == (hex in s.deleted) && d.stripped == (hex in s.stripped)
    ensures (hex in s.committed ==> d.committed) && (hex in s.cleaned ==> d.cleaned)
  {
    StepIsMonotone(env, s.requests[hex], DropOf(s, hex), op);
    d := StepDrop(env, s.requests[hex], DropOf(s, hex), op).value;
  }

  lemma PutKeepsMarks(s: State, hex: string, d: Drop)
    requires hex in s.requests && d.deleted == (hex in s.deleted) && d.stripped == (hex in s.stripped)
    ensures Put(s, hex, d).deleted == s.deleted && Put(s, hex, d).stripped == s.stripped
  {}

  lemma UploadExtends(env: Env, s: State, hex: string, op: Op)
    requires Inv(env, s) && StepUpload(env, s, hex, op).Some?
    ensures Extends(s, StepUpload(env, s, hex, op).value)
    ensures StepUpload(env, s, hex, op).value.deleted == s.deleted && StepUpload(env, s, hex, op).value.stripped == s.stripped
  {
    var d := StepMarks(env, s, hex, op);
    PutKeepsMarks(s, hex, d);
    PutExtends(s, hex, d);
  }

  /** No step takes back a request, a commit, a deletion, a cleanup or a directory. */
  lemma NextExtends(env: Env, s: State, a: Action)
    requires Inv(env, s) && Next(env, s, a).Some?
    ensures Extends(s, Next(env, s, a).value)
  {
    match a
    case Upload(hex, op) => UploadExtends(env, s, hex, op);
    case Begin(hex, request) => BeginExtends(env, s, hex, request);
    case MakeFolder(_) => OtherExtends(env, s, a);
    case DeleteMain(_, _) => OtherExtends(env, s, a);
    case DeleteStart(_, _) => OtherExtends(env, s, a);
    case DeleteSidecar(_, _) => OtherExtends(env, s, a);
    case Crash => OtherExtends(env, s, a);
  }

  lemma OtherExtends(env: Env, s: State, a: Action)
    requires !a.Upload? && !a.Begin? && Next(env, s, a).Some?
    ensures Extends(s, Next(env, s, a).value)
  {
    SameRequestsExtend(s, Next(env, s, a).value);
  }

  lemma BeginExtends(env: Env, s: State, hex: string, request: Request)
    requires BeginUpload(env, s, hex, request).Some?
    ensures Extends(s, BeginUpload(env, s, hex, request).value)
  {}

  lemma SameRequestsExtend(s: State, s': State)
    requires s'.requests == s.requests && s'.committed == s.committed && s'.cleaned == s.cleaned
    requires s.deleted <= s'.deleted && s.stripped <= s'.stripped && s.folders <= s'.folders
    ensures Extends(s, s')
  {}

  lemma ExecPrefix(env: Env, actions: seq<Action>)
    requires actions != [] && Exec(env, actions).Some?
    ensures Exec(env, actions[..|actions| - 1]).Some?
    ensures Next(env, Exec(env, actions[..|actions| - 1]).value, actions[|actions| - 1]) == Exec(env, actions)
  {}

  lemma {:induction false} RunExtends(env: Env, actions: seq<Action>, n: nat)
    requires n <= |actions| && Exec(env, actions).Some?
    ensures Exec(env, actions[..n]).Some?
    ensures Extends(Exec(env, actions[..n]).value, Exec(env, actions).value)
    decreases |actions|
  {
    if n < |actions| {
      var init := actions[..|actions| - 1];
      ExecPrefix(env, actions);
      assert init[..n] == actions[..n];
      RunExtends(env, init, n);
      RunKeepsInv(env, init);
      NextExtends(env, Exec(env, init).value, actions[|actions| - 1]);
    } else {
      assert actions[..n] == actions;
    }
  }

  /** As long as a committed drop has not been deleted, its payload file is there and never changes. */
  lemma PayloadsAreStable(env: Env, actions: seq<Action>, n: nat, hex: string)
    requires n <= |actions| && Exec(env, actions).Some? && Exec(env, actions[..n]).Some?
    requires hex in Exec(env, actions[..n]).value.committed && hex !in Exec(env, actions).value.deleted
    ensures var s, s' := Exec(env, actions[..n]).value, Exec(env, actions).value;
            && hex in s.requests
            && var loc := LocOf(s.requests[hex], hex, Payload);
               loc in s.files && loc in s'.files && s.files[loc] == s'.files[loc]
  {
    RunExtends(env, actions, n);
    RunKeepsInv(env, actions);
    RunKeepsInv(env, actions[..n]);
    DropHolds(env, Exec(env, actions[..n]).value, hex);
    DropHolds(env, Exec(env, actions).value, hex);
  }

  // ---------- What the marks mean ----------

  /** `deleted` marks removed payloads, `stripped` removed sidecars. */
  function MarkOf(s: State, kind: Kind): set<string>
    requires kind == Payload || kind == Sidecar
  {
    if kind == Payload then s.deleted else s.stripped
  }

  /** A delete handler removes the file it was aimed at, and that is this file of this drop. */
  ghost predicate Takes(s: State, a: Action, hex: string, kind: Kind) {
    && a.DeleteMain? && a.ok && hex in s.requests && LocOf(s.requests[hex], hex, kind) in s.files
    && a.id in s.deletions && s.deletions[a.id] == Checked(LocOf(s.requests[hex], hex, kind))
  }

  /** Action `k` of the run does. */
  ghost predicate Removes(env: Env, actions: seq<Action>, k: int, hex: string, kind: Kind) {
    && 0 <= k < |actions| && Exec(env, actions[..k]).Some?
    && Takes(Exec(env, actions[..k]).value, actions[k], hex, kind)
  }

  lemma RemovesPrefix(env: Env, actions: seq<Action>, n: nat, k: int, hex: string, kind: Kind)
    requires n <= |actions| && k < n
    ensures Removes(env, actions[..n], k, hex, kind) <==> Removes(env, actions, k, hex, kind)
  {
    if 0 <= k { assert actions[..n][..k] == actions[..k]; }
  }

  /** Only a delete aimed at that very file sets a mark. */
  lemma OnlyDeletesMark(env: Env, s: State, a: Action, hex: string, kind: Kind)
    requires kind == Payload || kind == Sidecar
    requires Inv(env, s) && Next(env, s, a).Some?
    ensures hex in MarkOf(Next(env, s, a).value, kind) <==> hex in MarkOf(s, kind) || Takes(s, a, hex, kind)
  {
    match a
    case Upload(h, op) => UploadExtends(env, s, h, op);
    case DeleteMain(id, ok) => RemovalMarks(s, id, ok, hex, kind);
    case _ => OthersMarkNothing(env, s, a);
  }

  lemma RemovalMarks(s: State, id: nat, ok: bool, hex: string, kind: Kind)
    requires (kind == Payload || kind == Sidecar) && RemoveMain(s, id, ok).Some?
    ensures hex in MarkOf(RemoveMain(s, id, ok).value, kind) <==> hex in MarkOf(s, kind) || Takes(s, DeleteMain(id, ok), hex, kind)
  {}

  lemma OthersMarkNothing(env: Env, s: State, a: Action)
    requires !a.Upload? && !a.DeleteMain? && Next(env, s, a).Some?
    ensures Next(env, s, a).value.deleted == s.deleted && Next(env, s, a).value.stripped == s.stripped
  {}

  /** A payload counts as deleted, and a sidecar as stripped, exactly if the run holds a delete that was
      aimed at that file and removed it. */
  lemma {:induction false} MarkMeansRemoved(env: Env, actions: seq<Action>, hex: string, kind: Kind)
    requires kind == Payload || kind == Sidecar
    requires Exec(env, actions).Some?
    ensures hex in MarkOf(Exec(env, actions).value, kind) <==> exists k :: Removes(env, actions, k, hex, kind)
  {
    if actions != [] {
      var n := |actions| - 1;
      ExecPrefix(env, actions);
      var s := Exec(env, actions[..n]).value;
      RunKeepsInv(env, actions[..n]);
      MarkMeansRemoved(env, actions[..n], hex, kind);
      OnlyDeletesMark(env, s, actions[n], hex, kind);
      assert Removes(env, actions, n, hex, kind) <==> Takes(s, actions[n], hex, kind);
      if hex in MarkOf(s, kind) {
        var k :| Removes(env, actions[..n], k, hex, kind);
        RemovesPrefix(env, actions, n, k, hex, kind);
      } else {
        forall k | 0 <= k < n ensures !Removes(env, actions, k, hex, kind) {
          RemovesPrefix(env, actions, n, k, hex, kind);
        }
      }
    }
  }

  /** Only its last rename commits a drop. */
  lemma CommitsByRename(env: Env, s: State, a: Action, hex: string)
    requires Inv(env, s) && Next(env, s, a).Some?
    ensures hex in Next(env, s, a).value.committed <==> hex in s.committed || a == Upload(hex, RenamePayload)
  {
    match a
    case Upload(h, op) => UploadCommits(env, s, h, op, hex);
    case MakeFolder(_) =>
    case Begin(_, _) =>
    case DeleteStart(_, _) =>
    case DeleteMain(_, _) =>
    case DeleteSidecar(_, _) =>
    case Crash =>
  }

  lemma UploadCommits(env: Env, s: State, h: string, op: Op, hex: string)
    requires StepUpload(env, s, h, op).Some?
    ensures hex in StepUpload(env, s, h, op).value.committed <==> hex in s.committed || (h == hex && op == RenamePayload)
  {
    StepCommitsByRename(env, s.requests[h], DropOf(s, h), op);
    PutCommits(s, h, StepDrop(env, s.requests[h], DropOf(s, h), op).value, hex);
  }

  lemma PutCommits(s: State, h: string, d: Drop, hex: string)
    requires h in s.requests
    ensures hex in Put(s, h, d).committed <==> if hex == h then d.committed else hex in s.committed
  {}

  lemma StepCommitsByRename(env: Env, r: Request, d: Drop, op: Op)
    requires Admissible(env, r) && StepDrop(env, r, d, op).Some?
    ensures StepDrop(env, r, d, op).value.committed <==> d.committed || op == RenamePayload
  {}

  /** A drop counts as committed exactly if the run holds the rename of its payload. */
  lemma {:induction false} CommittedMeansRenamed(env: Env, actions: seq<Action>, hex: string)
    requires Exec(env, actions).Some?
    ensures hex in Exec(env, actions).value.committed <==> Upload(hex, RenamePayload) in actions
  {
    if actions != [] {
      var n := |actions| - 1;
      ExecPrefix(env, actions);
      CommittedMeansRenamed(env, actions[..n], hex);
      RunKeepsInv(env, actions[..n]);
      CommitsByRename(env, Exec(env, actions[..n]).value, actions[n], hex);
      assert actions == actions[..n] + [actions[n]];
    }
  }

  // ---------- Runs of one upload ----------

  ghost function RunOps(env: Env, r: Request, d: Drop, ops: seq<Op>): Option<Drop>
    requires Admissible(env, r)
    decreases |ops|
  {
    if ops == [] then Some(d)
    else match StepDrop(env, r, d, ops[0])
      case None => None
      case Some(next) => RunOps(env, r, next, ops[1..])
  }

  function UploadActions(hex: string, ops: seq<Op>): seq<Action> {
    if ops == [] then [] else [Upload(hex, ops[0])] + UploadActions(hex, ops[1..])
  }

  ghost function ExecFrom(env: Env, s: State, actions: seq<Action>): Option<State>
    decreases |actions|
  {
    if actions == [] then Some(s)
    else match Next(env, s, actions[0])
      case None => None
      case Some(next) => ExecFrom(env, next, actions[1..])
  }

  /** No step of these creates a file where a directory is. */
  ghost predicate Fits(folders: set<Folder>, r: Request, hex: string, ops: seq<Op>) {
    forall op :: op in ops && Creates(op).Some? ==> Place(LocOf(r, hex, Creates(op).value)) !in folders
  }

  /** Steps of one upload, taken in a store, act on its drop as they would alone. */
  lemma {:induction false} UploadRuns(env: Env, s: State, hex: string, ops: seq<Op>)
    requires hex in s.requests && IsHex(hex) && Admissible(env, s.requests[hex])
    requires RunOps(env, s.requests[hex], DropOf(s, hex), ops).Some? && Fits(s.folders, s.requests[hex], hex, ops)
    ensures ExecFrom(env, s, UploadActions(hex, ops)).Some?
    ensures var s' := ExecFrom(env, s, UploadActions(hex, ops)).value;
            && s'.requests == s.requests && s'.folders == s.folders
            && DropOf(s', hex) == RunOps(env, s.requests[hex], DropOf(s, hex), ops).value
            && forall loc :: (forall kind :: loc != LocOf(s.requests[hex], hex, kind)) ==> Read(s'.files, loc) == Read(s.files, loc)
    decreases |ops|
  {
    if ops != [] {
      var d := StepDrop(env, s.requests[hex], DropOf(s, hex), ops[0]).value;
      var actions := UploadActions(hex, ops);
      assert ops[0] in ops;
      assert actions[0] == Upload(hex, ops[0]) && actions[1..] == UploadActions(hex, ops[1..]);
      PutFiles(s, hex, d);
      assert Next(env, s, actions[0]) == Some(Put(s, hex, d));
      UploadRuns(env, Put(s, hex, d), hex, ops[1..]);
    }
  }

  lemma {:induction false} ExecFromKeepsInv(env: Env, s: State, actions: seq<Action>)
    requires Inv(env, s) && ExecFrom(env, s, actions).Some?
    ensures Inv(env, ExecFrom(env, s, actions).value)
    decreases |actions|
  {
    if actions != [] {
      NextKeepsInv(env, s, actions[0]);
      ExecFromKeepsInv(env, Next(env, s, actions[0]).value, actions[1..]);
    }
  }

  lemma {:induction false} RunOpsDeleteNothing(env: Env, r: Request, d: Drop, ops: seq<Op>)
    requires Admissible(env, r) && RunOps(env, r, d, ops).Some?
    ensures RunOps(env, r, d, ops).value.deleted == d.deleted && RunOps(env, r, d, ops).value.stripped == d.stripped
    decreases |ops|
  {
    if ops != [] {
      StepDeletesNothing(env, r, d, ops[0]);
      RunOpsDeleteNothing(env, r, StepDrop(env, r, d, ops[0]).value, ops[1..]);
    }
  }

  lemma StepDeletesNothing(env: Env, r: Request, d: Drop, op: Op)
    requires Admissible(env, r) && StepDrop(env, r, d, op).Some?
    ensures StepDrop(env, r, d, op).value.deleted == d.deleted && StepDrop(env, r, d, op).value.stripped == d.stripped
  {}

  /** The guard, run to the end with both removals succeeding. */
  const GUARD := [Fail, RemoveMetaTmp(true), RemovePayloadTmp(true)]

  lemma RunOpsOne(env: Env, r: Request, d: Drop, op: Op, rest: seq<Op>, next: Drop)
    requires Admissible(env, r) && StepDrop(env, r, d, op) == Some(next)
    ensures RunOps(env, r, d, [op] + rest) == RunOps(env, r, next, rest)
  {
    assert ([op] + rest)[1..] == rest;
  }

  lemma GuardOnDrop(env: Env, r: Request, d: Drop)
    requires Admissible(env, r) && d.pc.Some? && !d.pc.value.CleanMeta? && !d.pc.value.CleanPayload?
    ensures RunOps(env, r, d, GUARD) == Some(d.(pc := None, payloadTmp := None, sidecarTmp := None, cleaned := true))
  {
    var d1 := d.(pc := Some(CleanMeta));
    var d2 := d1.(pc := Some(CleanPayload(true)), sidecarTmp := None);
    var d3 := d2.(pc := None, payloadTmp := None, cleaned := true);
    RunOpsOne(env, r, d2, RemovePayloadTmp(true), [], d3);
    RunOpsOne(env, r, d1, RemoveMetaTmp(true), [RemovePayloadTmp(true)], d2);
    RunOpsOne(env, r, d, Fail, [RemoveMetaTmp(true), RemovePayloadTmp(true)], d1);
    assert [Fail] + [RemoveMetaTmp(true), RemovePayloadTmp(true)] == GUARD;
    assert [RemoveMetaTmp(true)] + [RemovePayloadTmp(true)] == [RemoveMetaTmp(true), RemovePayloadTmp(true)];
    assert [RemovePayloadTmp(true)] + [] == [RemovePayloadTmp(true)];
  }

  /**
   Failed uploads clean up. Let an upload fail after any of its steps, in any reachable state: once the
   guard has removed both files, no temporary file and no payload of it is left; a sidecar is left
   exactly if the failure came between the two renames and nobody has deleted it.
   */
  lemma FailedUploadLeavesNothing(env: Env, actions: seq<Action>, hex: string)
    requires Exec(env, actions).Some? && hex in Exec(env, actions).value.jobs
    requires !Exec(env, actions).value.jobs[hex].CleanMeta? && !Exec(env, actions).value.jobs[hex].CleanPayload?
    ensures var s := Exec(env, actions).value;
            && hex in s.requests
            && var end := ExecFrom(env, s, UploadActions(hex, GUARD));
               && end.Some? && end.value.requests == s.requests
               && LocOf(s.requests[hex], hex, Payload) !in end.value.files
               && LocOf(s.requests[hex], hex, PayloadTmp) !in end.value.files
               && LocOf(s.requests[hex], hex, SidecarTmp) !in end.value.files
               && (LocOf(s.requests[hex], hex, Sidecar) in end.value.files <==> s.jobs[hex] == MetaRenamed && hex !in s.stripped)
               && hex in end.value.cleaned
  {
    RunKeepsInv(env, actions);
    GuardInStore(env, Exec(env, actions).value, hex);
  }

  lemma GuardInStore(env: Env, s: State, hex: string)
    requires Inv(env, s) && hex in s.jobs && !s.jobs[hex].CleanMeta? && !s.jobs[hex].CleanPayload?
    ensures hex in s.requests
    ensures var end := ExecFrom(env, s, UploadActions(hex, GUARD));
            && end.Some? && end.value.requests == s.requests
            && LocOf(s.requests[hex], hex, Payload) !in end.value.files
            && LocOf(s.requests[hex], hex, PayloadTmp) !in end.value.files
            && LocOf(s.requests[hex], hex, SidecarTmp) !in end.value.files
            && (LocOf(s.requests[hex], hex, Sidecar) in end.value.files <==> s.jobs[hex] == MetaRenamed && hex !in s.stripped)
            && hex in end.value.cleaned
  {
    var r, d := s.requests[hex], DropOf(s, hex);
    RunningSidecar(env, r, d);
    var end := GuardRuns(env, s, hex, GUARD);
    FilesOfDrop(end, hex, d.(pc := None, payloadTmp := None, sidecarTmp := None, cleaned := true));
  }

  lemma GuardRuns(env: Env, s: State, hex: string, guard: seq<Op>) returns (end: State)
    requires Inv(env, s) && hex in s.requests && hex in s.jobs && !s.jobs[hex].CleanMeta? && !s.jobs[hex].CleanPayload?
    requires guard == GUARD
    ensures ExecFrom(env, s, UploadActions(hex, guard)) == Some(end) && end.requests == s.requests
    ensures DropOf(end, hex) == DropOf(s, hex).(pc := None, payloadTmp := None, sidecarTmp := None, cleaned := true)
  {
    GuardOnDrop(env, s.requests[hex], DropOf(s, hex));
    GuardCreatesNothing();
    assert Fits(s.folders, s.requests[hex], hex, guard);
    UploadRuns(env, s, hex, guard);
    end := ExecFrom(env, s, UploadActions(hex, guard)).value;
  }

  lemma GuardCreatesNothing()
    ensures forall op :: op in GUARD ==> Creates(op) == None
  {}

  /** While an upload runs it has no payload, and a sidecar only between its renames. */
  lemma RunningSidecar(env: Env, r: Request, d: Drop)
    requires Admissible(env, r) && DropOk(env, r, d) && d.pc.Some? && !d.pc.value.CleanMeta? && !d.pc.value.CleanPayload?
    ensures d.payload == None && (d.sidecar.Some? <==> d.pc == Some(MetaRenamed) && !d.stripped)
  {}

  /** And nothing of it ever comes back: in every later state of the run the three files are absent. */
  lemma CleanedStaysClean(env: Env, actions: seq<Action>, n: nat, hex: string)
    requires n <= |actions| && Exec(env, actions).Some? && Exec(env, actions[..n]).Some?
    requires hex in Exec(env, actions[..n]).value.cleaned
    ensures var s := Exec(env, actions).value;
            && hex in s.requests
            && LocOf(s.requests[hex], hex, Payload) !in s.files
            && LocOf(s.requests[hex], hex, PayloadTmp) !in s.files
            && LocOf(s.requests[hex], hex, SidecarTmp) !in s.files
  {
    RunExtends(env, actions, n);
    RunKeepsInv(env, actions);
    var s := Exec(env, actions).value;
    assert DropOk(env, s.requests[hex], DropOf(s, hex));
  }

  /** The steps of an upload that meets no failure. */
  function AllSteps(r: Request, order: seq<string>): seq<Op> {
    [CreateMeta] + ([CreatePayload] + ([Feed(|PayloadBytes(r)|)] + ([ClosePayload] + LastSteps(order))))
  }

  function LastSteps(order: seq<string>): seq<Op> {
    [WriteMeta(order)] + ([RenameMeta] + ([RenamePayload] + []))
  }

  lemma FreshDropCommits(env: Env, r: Request, order: seq<string>)
    requires Admissible(env, r) && BodyOutcome(env, r).Ok?
    requires IsOrder(order, BodyOutcome(env, r).value.extended.Keys)
    ensures RunOps(env, r, FRESH, AllSteps(r, order)).Some? && RunOps(env, r, FRESH, AllSteps(r, order)).value.committed
  {
    var key, meta, ops := env.vaults[r.vault].recipient, BodyOutcome(env, r).value, AllSteps(r, order);
    var d0 := FRESH;
    var d1 := d0.(pc := Some(MetaCreated), sidecarTmp := Some(Open(Record([]))));
    var d2 := d1.(pc := Some(Streaming(0)), payloadTmp := Some(Open(Data([]))));
    var d3 := d2.(pc := Some(Streaming(|PayloadBytes(r)|)), payloadTmp := Some(Open(Data([] + PayloadBytes(r)[0..|PayloadBytes(r)|]))));
    var d4 := d3.(pc := Some(PayloadClosed), payloadTmp := Some(Seal(d3.payloadTmp.value, key)));
    var d5 := d4.(pc := Some(MetaClosed), sidecarTmp := Some(Closed(key, Record(ToPairs(meta, order)))));
    var d6 := d5.(pc := Some(MetaRenamed), sidecar := d5.sidecarTmp, sidecarTmp := None);
    var d7 := d6.(pc := None, payload := d6.payloadTmp, payloadTmp := None, committed := true);
    RunOpsOne(env, r, d6, RenamePayload, [], d7);
    RunOpsOne(env, r, d5, RenameMeta, [RenamePayload] + [], d6);
    RunOpsOne(env, r, d4, WriteMeta(order), [RenameMeta] + ([RenamePayload] + []), d5);
    RunOpsOne(env, r, d3, ClosePayload, LastSteps(order), d4);
    RunOpsOne(env, r, d2, Feed(|PayloadBytes(r)|), [ClosePayload] + LastSteps(order), d3);
    RunOpsOne(env, r, d1, CreatePayload, [Feed(|PayloadBytes(r)|)] + ([ClosePayload] + LastSteps(order)), d2);
    RunOpsOne(env, r, d0, CreateMeta, [CreatePayload] + ([Feed(|PayloadBytes(r)|)] + ([ClosePayload] + LastSteps(order))), d1);
  }

  // ---------- Which uploads can be carried through ----------

  /** The directories of a request, outermost first: create_dir_all makes the first `n` of them. */
  function FolderAt(r: Request, n: nat): Folder
    requires n <= |DirOf(r)|
  {
    Folder(r.vault, DirOf(r)[..n])
  }

  function FoldersUpTo(r: Request, n: nat): set<Folder>
    requires n <= |DirOf(r)|
  {
    if n == 0 then {} else FoldersUpTo(r, n - 1) + {FolderAt(r, n)}
  }

  function FolderActions(r: Request, n: nat): seq<Action>
    requires n <= |DirOf(r)|
  {
    if n == 0 then [] else FolderActions(r, n - 1) + [MakeFolder(FolderAt(r, n))]
  }

  /** Some directory of the request would have to be where a file is, or to have a name that the operating
      system does not take. */
  ghost predicate Blocked(files: map<Loc, Content>, r: Request, n: nat)
    requires n <= |DirOf(r)|
  {
    exists m :: 0 < m <= n && IsBarred(files, FolderAt(r, m))
  }

  lemma {:induction false} ExecFromAppend(env: Env, s: State, a: seq<Action>, b: seq<Action>)
    ensures ExecFrom(env, s, a + b) == match ExecFrom(env, s, a) { case None => None case Some(t) => ExecFrom(env, t, b) }
    decreases |a|
  {
    if a == [] {
      assert a + b == b;
    } else {
      assert (a + b)[1..] == a[1..] + b && (a + b)[0] == a[0];
      match Next(env, s, a[0])
      case None =>
      case Some(next) => ExecFromAppend(env, next, a[1..], b);
    }
  }

  lemma ExecFromOne(env: Env, s: State, a: Action, rest: seq<Action>)
    ensures ExecFrom(env, s, [a] + rest) == match Next(env, s, a) { case None => None case Some(next) => ExecFrom(env, next, rest) }
  {
    assert ([a] + rest)[1..] == rest;
  }

  lemma {:induction false} FolderIn(r: Request, n: nat, m: nat)
    requires 0 < m <= n <= |DirOf(r)|
    ensures FolderAt(r, m) in FoldersUpTo(r, n)
  {
    if m < n { FolderIn(r, n - 1, m); }
  }

  /** What making the first `n` directories leads to. */
  ghost function AfterFolders(s: State, r: Request, n: nat): Option<State>
    requires n <= |DirOf(r)|
  {
    if Blocked(s.files, r, n) then None else Some(s.(folders := s.folders + FoldersUpTo(r, n)))
  }

  /** Making the directories one after another works exactly if none of them is barred. */
  lemma {:induction false} FoldersRun(env: Env, s: State, r: Request, n: nat)
    requires Admissible(env, r) && n <= |DirOf(r)|
    ensures ExecFrom(env, s, FolderActions(r, n)) == AfterFolders(s, r, n)
  {
    if n == 0 {
      assert s.folders + {} == s.folders;
    } else {
      FoldersRun(env, s, r, n - 1);
      OneMoreFolder(env, s, r, n, FolderActions(r, n - 1));
    }
  }

  lemma OneMoreFolder(env: Env, s: State, r: Request, n: nat, before: seq<Action>)
    requires Admissible(env, r) && 0 < n <= |DirOf(r)|
    requires ExecFrom(env, s, before) == AfterFolders(s, r, n - 1)
    ensures ExecFrom(env, s, before + [MakeFolder(FolderAt(r, n))]) == AfterFolders(s, r, n)
  {
    ExecFromAppend(env, s, before, [MakeFolder(FolderAt(r, n))]);
    BlockedStep(s.files, r, n);
    if !Blocked(s.files, r, n - 1) {
      var t := s.(folders := s.folders + FoldersUpTo(r, n - 1));
      OneFolderRuns(env, t, r, n);
      assert t.folders + {FolderAt(r, n)} == s.folders + FoldersUpTo(r, n);
    }
  }

  lemma BlockedStep(files: map<Loc, Content>, r: Request, n: nat)
    requires 0 < n <= |DirOf(r)|
    ensures Blocked(files, r, n) <==> Blocked(files, r, n - 1) || IsBarred(files, FolderAt(r, n))
  {}

  lemma OneFolderRuns(env: Env, t: State, r: Request, n: nat)
    requires Admissible(env, r) && 0 < n <= |DirOf(r)| && FoldersUpTo(r, n - 1) <= t.folders
    ensures ExecFrom(env, t, [MakeFolder(FolderAt(r, n))]) ==
            if IsBarred(t.files, FolderAt(r, n)) then None else Some(t.(folders := t.folders + {FolderAt(r, n)}))
  {
    LastFolder(env, t, r, n);
    ExecFromOne(env, t, MakeFolder(FolderAt(r, n)), []);
    AppendNothing([MakeFolder(FolderAt(r, n))]);
  }

  lemma LastFolder(env: Env, t: State, r: Request, n: nat)
    requires Admissible(env, r) && 0 < n <= |DirOf(r)| && FoldersUpTo(r, n - 1) <= t.folders
    ensures MakeOne(env, t, FolderAt(r, n)) ==
            if IsBarred(t.files, FolderAt(r, n)) then None else Some(t.(folders := t.folders + {FolderAt(r, n)}))
  {
    if r.subpath.Some? { ComponentsOfValid(r.subpath.value); }
    if n > 1 {
      FolderIn(r, n - 1, n - 1);
      assert DirOf(r)[..n][..n - 1] == DirOf(r)[..n - 1];
    }
    assert forall c :: c in DirOf(r)[..n] ==> c in DirOf(r);
  }

  /** A whole upload, from its first directory on. */
  function UploadRun(hex: string, r: Request, ops: seq<Op>): seq<Action> {
    FolderActions(r, |DirOf(r)|) + ([Begin(hex, r)] + UploadActions(hex, ops))
  }

  ghost predicate Commits(env: Env, s: State, hex: string, r: Request, ops: seq<Op>) {
    var end := ExecFrom(env, s, UploadRun(hex, r, ops));
    end.Some? && hex in end.value.committed
  }

  /** The name has never been used, for an upload or for a directory. */
  ghost predicate IsNewName(s: State, r: Request, hex: string) {
    IsHex(hex) && hex !in s.requests && forall kind :: Place(LocOf(r, hex, kind)) !in s.folders
  }

  /** The state in which the upload begins. */
  function AtBegin(s: State, hex: string, r: Request): State {
    s.(folders := s.folders + FoldersUpTo(r, |DirOf(r)|),
       requests := s.requests[hex := r],
       jobs := s.jobs[hex := Named])
  }

  lemma {:induction false} FoldersAreShort(r: Request, n: nat, folder: Folder)
    requires n <= |DirOf(r)| && folder in FoldersUpTo(r, n)
    ensures |folder.path| <= n
  {
    if folder != FolderAt(r, n) { FoldersAreShort(r, n - 1, folder); }
  }

  /** Behind its directories an upload begins, under a new name with nothing in its way. */
  lemma UploadBegins(env: Env, s: State, hex: string, r: Request, ops: seq<Op>)
    requires Inv(env, s) && IsNewName(s, r, hex) && Admissible(env, r)
    ensures Blocked(s.files, r, |DirOf(r)|) ==> ExecFrom(env, s, UploadRun(hex, r, ops)).None?
    ensures !Blocked(s.files, r, |DirOf(r)|) ==>
              ExecFrom(env, s, UploadRun(hex, r, ops)) == ExecFrom(env, AtBegin(s, hex, r), UploadActions(hex, ops))
    ensures !Blocked(s.files, r, |DirOf(r)|) ==> Inv(env, AtBegin(s, hex, r))
  {
    var n := |DirOf(r)|;
    FoldersRun(env, s, r, n);
    ExecFromAppend(env, s, FolderActions(r, n), [Begin(hex, r)] + UploadActions(hex, ops));
    if !Blocked(s.files, r, n) {
      ExecFromKeepsInv(env, s, FolderActions(r, n));
      BeginsBehindFolders(env, s, hex, r, UploadActions(hex, ops));
    }
  }

  lemma BeginsBehindFolders(env: Env, s: State, hex: string, r: Request, rest: seq<Action>)
    requires Inv(env, s.(folders := s.folders + FoldersUpTo(r, |DirOf(r)|)))
    requires IsHex(hex) && hex !in s.requests && Admissible(env, r)
    ensures ExecFrom(env, s.(folders := s.folders + FoldersUpTo(r, |DirOf(r)|)), [Begin(hex, r)] + rest) ==
            ExecFrom(env, AtBegin(s, hex, r), rest)
    ensures Inv(env, AtBegin(s, hex, r))
  {
    var t := s.(folders := s.folders + FoldersUpTo(r, |DirOf(r)|));
    forall m | 0 < m <= |DirOf(r)| ensures Folder(r.vault, DirOf(r)[..m]) in t.folders { FolderIn(r, |DirOf(r)|, m); }
    assert BeginUpload(env, t, hex, r) == Some(AtBegin(s, hex, r));
    ExecFromOne(env, t, Begin(hex, r), rest);
    BeginKeepsInv(env, t, hex, r);
  }

  /** It begins without files, and no directory is where one of them will be. */
  lemma BeginsFresh(env: Env, s: State, hex: string, r: Request)
    requires Inv(env, s) && IsNewName(s, r, hex)
    ensures DropOf(AtBegin(s, hex, r), hex) == FRESH
    ensures forall kind :: Place(LocOf(r, hex, kind)) !in AtBegin(s, hex, r).folders
  {
    var n := |DirOf(r)|;
    FreshNameHasNoFiles(s, hex, r);
    FreshDrop(AtBegin(s, hex, r), hex, r);
    forall kind ensures Place(LocOf(r, hex, kind)) !in AtBegin(s, hex, r).folders {
      if Place(LocOf(r, hex, kind)) in FoldersUpTo(r, n) { FoldersAreShort(r, n, Place(LocOf(r, hex, kind))); }
    }
  }

  lemma SomeOrder(keys: set<string>) returns (order: seq<string>)
    ensures IsOrder(order, keys)
    decreases |keys|
  {
    if keys == {} {
      order := [];
    } else {
      var k :| k in keys;
      var rest := SomeOrder(keys - {k});
      order := [k] + rest;
    }
  }

  /**
   Which uploads can be carried through. In every reachable state and under every new name, an admissible
   request can be brought to its commit exactly if its body is good and no directory of its subpath would
   have to be where a file is, the configuration file included, or has a name that the operating system
   does not take.
   */
  lemma UploadCommitsIff(env: Env, actions: seq<Action>, hex: string, r: Request)
    requires Exec(env, actions).Some? && Admissible(env, r) && IsNewName(Exec(env, actions).value, r, hex)
    ensures (exists ops :: Commits(env, Exec(env, actions).value, hex, r, ops)) <==>
            BodyOutcome(env, r).Ok? && !Blocked(Exec(env, actions).value.files, r, |DirOf(r)|)
  {
    RunKeepsInv(env, actions);
    var s := Exec(env, actions).value;
    if ops :| Commits(env, s, hex, r, ops) {
      CommitNeedsGoodBody(env, s, hex, r, ops);
    }
    if BodyOutcome(env, r).Ok? && !Blocked(s.files, r, |DirOf(r)|) {
      var order := SomeOrder(BodyOutcome(env, r).value.extended.Keys);
      AllStepsCommit(env, s, hex, r, order);
    }
  }

  lemma CommitNeedsGoodBody(env: Env, s: State, hex: string, r: Request, ops: seq<Op>)
    requires Inv(env, s) && IsNewName(s, r, hex) && Admissible(env, r) && Commits(env, s, hex, r, ops)
    ensures BodyOutcome(env, r).Ok? && !Blocked(s.files, r, |DirOf(r)|)
  {
    UploadBegins(env, s, hex, r, ops);
    CommittedIsGood(env, AtBegin(s, hex, r), UploadActions(hex, ops), hex);
  }

  lemma CommittedIsGood(env: Env, s: State, actions: seq<Action>, hex: string)
    requires Inv(env, s) && hex in s.requests && ExecFrom(env, s, actions).Some?
    requires hex in ExecFrom(env, s, actions).value.committed
    ensures BodyOutcome(env, s.requests[hex]).Ok?
  {
    ExecFromKeepsInv(env, s, actions);
    ExecFromExtends(env, s, actions);
    CommittedBody(env, ExecFrom(env, s, actions).value, hex);
  }

  lemma CommittedBody(env: Env, s: State, hex: string)
    requires Inv(env, s) && hex in s.committed
    ensures hex in s.requests && Admissible(env, s.requests[hex]) && BodyOutcome(env, s.requests[hex]).Ok?
  {
    assert DropOk(env, s.requests[hex], DropOf(s, hex));
  }

  lemma {:induction false} ExecFromExtends(env: Env, s: State, actions: seq<Action>)
    requires Inv(env, s) && ExecFrom(env, s, actions).Some?
    ensures Extends(s, ExecFrom(env, s, actions).value)
    decreases |actions|
  {
    if actions != [] {
      NextKeepsInv(env, s, actions[0]);
      NextExtends(env, s, actions[0]);
      ExecFromExtends(env, Next(env, s, actions[0]).value, actions[1..]);
    }
  }

  lemma AllStepsCommit(env: Env, s: State, hex: string, r: Request, order: seq<string>)
    requires Inv(env, s) && IsNewName(s, r, hex) && Admissible(env, r) && BodyOutcome(env, r).Ok?
    requires !Blocked(s.files, r, |DirOf(r)|) && IsOrder(order, BodyOutcome(env, r).value.extended.Keys)
    ensures Commits(env, s, hex, r, AllSteps(r, order))
  {
    var ops, begun := AllSteps(r, order), AtBegin(s, hex, r);
    UploadBegins(env, s, hex, r, ops);
    BeginsFresh(env, s, hex, r);
    FreshDropCommits(env, r, order);
    assert Fits(begun.folders, r, hex, ops);
    UploadRuns(env, begun, hex, ops);
    assert DropOf(ExecFrom(env, begun, UploadActions(hex, ops)).value, hex).committed;
  }

  // ---------- Deleting a sidecar directly ----------

  /** A payload without its sidecar. */
  predicate Naked(s: State, hex: string) {
    && hex in s.requests && LocOf(s.requests[hex], hex, Payload) in s.files
    && LocOf(s.requests[hex], hex, Sidecar) !in s.files
  }

  /** The upload stands between its renames and can still do the second. */
  predicate AboutToCommit(s: State, hex: string) {
    && hex in s.requests && hex in s.jobs && s.jobs[hex] == MetaRenamed
    && LocOf(s.requests[hex], hex, PayloadTmp) in s.files
    && Place(LocOf(s.requests[hex], hex, Payload)) !in s.folders
  }

  /** The payload of such a drop is not there and will never be; `taken`: a directory is in its place. */
  predicate DeadDrop(d: Drop, taken: bool) {
    && d.payload.None?
    && match d.pc
       case None => true
       case Some(pc) => pc.CleanMeta? || pc.CleanPayload? || (pc.MetaRenamed? && (d.payloadTmp.None? || taken))
  }

  predicate Dead(s: State, hex: string) {
    hex in s.requests && DeadDrop(DropOf(s, hex), Place(LocOf(s.requests[hex], hex, Payload)) in s.folders)
  }

  lemma StepKeepsDeadDrop(env: Env, r: Request, d: Drop, op: Op, taken: bool)
    requires Admissible(env, r) && DeadDrop(d, taken) && StepDrop(env, r, d, op).Some? && !(taken && op == RenamePayload)
    ensures DeadDrop(StepDrop(env, r, d, op).value, taken)
  {}

  lemma StepKeepsDead(env: Env, s: State, h: string, op: Op, hex: string)
    requires Inv(env, s) && Dead(s, hex) && StepUpload(env, s, h, op).Some?
    ensures Dead(StepUpload(env, s, h, op).value, hex)
  {
    var d := StepDrop(env, s.requests[h], DropOf(s, h), op).value;
    if h == hex {
      StepKeepsDeadDrop(env, s.requests[hex], DropOf(s, hex), op, Place(LocOf(s.requests[hex], hex, Payload)) in s.folders);
      PutFiles(s, hex, d);
    } else {
      PutFrame(s, h, d, hex);
    }
  }

  /** Fewer files, fewer jobs and more directories leave it dead. */
  lemma DeadFrame(s: State, s': State, hex: string)
    requires Dead(s, hex) && Shrinks(s, s', hex)
    ensures Dead(s', hex)
  {}

  predicate Shrinks(s: State, s': State, hex: string)
    requires hex in s.requests
  {
    && hex in s'.requests && s'.requests[hex] == s.requests[hex] && s.folders <= s'.folders
    && (hex in s'.jobs ==> hex in s.jobs && s'.jobs[hex] == s.jobs[hex])
    && forall loc :: loc in s'.files ==> loc in s.files
  }

  lemma OthersShrink(env: Env, s: State, a: Action, hex: string)
    requires hex in s.requests && !a.Upload? && Next(env, s, a).Some?
    ensures Shrinks(s, Next(env, s, a).value, hex)
  {}

  lemma NextKeepsDead(env: Env, s: State, a: Action, hex: string)
    requires Inv(env, s) && Dead(s, hex) && Next(env, s, a).Some?
    ensures Dead(Next(env, s, a).value, hex)
  {
    if a.Upload? {
      StepKeepsDead(env, s, a.hex, a.op, hex);
    } else {
      OthersShrink(env, s, a, hex);
      DeadFrame(s, Next(env, s, a).value, hex);
    }
  }

  lemma {:induction false} DeadStaysDead(env: Env, s: State, actions: seq<Action>, hex: string)
    requires Inv(env, s) && Dead(s, hex) && ExecFrom(env, s, actions).Some?
    ensures Dead(ExecFrom(env, s, actions).value, hex)
    decreases |actions|
  {
    if actions != [] {
      NextKeepsInv(env, s, actions[0]);
      NextKeepsDead(env, s, actions[0], hex);
      DeadStaysDead(env, Next(env, s, actions[0]).value, actions[1..], hex);
    }
  }

  ghost predicate LeadsToNaked(env: Env, s: State, rest: seq<Action>, hex: string) {
    ExecFrom(env, s, rest).Some? && Naked(ExecFrom(env, s, rest).value, hex)
  }

  /**
   The delete handlers do not look at the suffix, so a sidecar can be deleted first. From the state after
   that, some continuation shows a payload without its sidecar exactly if the payload is there already,
   or its upload stands between its two renames and can still do the second.
   */
  lemma SidecarDeletionBreaks(env: Env, s: State, hex: string)
    requires Inv(env, s) && hex in s.requests && LocOf(s.requests[hex], hex, Sidecar) in s.files
    ensures (exists rest :: LeadsToNaked(env, AfterRemoval(s, hex, Sidecar, true), rest, hex)) <==>
            LocOf(s.requests[hex], hex, Payload) in s.files || AboutToCommit(s, hex)
  {
    var s' := AfterRemoval(s, hex, Sidecar, true);
    RemoveKeepsInv(env, s, hex, Sidecar, true);
    if LocOf(s.requests[hex], hex, Payload) in s.files {
      NakedAtOnce(env, s, s', hex);
    } else if AboutToCommit(s, hex) {
      StillAboutToCommit(s, s', hex);
      NakedAfterRename(env, s', hex);
    } else {
      SidecarOfTheDead(env, s, hex);
      NeverNaked(env, s', hex);
    }
  }

  lemma NakedAtOnce(env: Env, s: State, s': State, hex: string)
    requires hex in s.requests && IsHex(hex) && s' == AfterRemoval(s, hex, Sidecar, true)
    requires LocOf(s.requests[hex], hex, Payload) in s.files
    ensures LeadsToNaked(env, s', [], hex)
  {
    FourLocs(s.requests[hex], hex);
  }

  lemma StillAboutToCommit(s: State, s': State, hex: string)
    requires hex in s.requests && IsHex(hex) && s' == AfterRemoval(s, hex, Sidecar, true) && AboutToCommit(s, hex)
    ensures AboutToCommit(s', hex) && LocOf(s'.requests[hex], hex, Sidecar) !in s'.files
  {
    FourLocs(s.requests[hex], hex);
  }

  lemma NeverNaked(env: Env, s: State, hex: string)
    requires Inv(env, s) && Dead(s, hex)
    ensures forall rest :: !LeadsToNaked(env, s, rest, hex)
  {
    forall rest | ExecFrom(env, s, rest).Some? ensures !LeadsToNaked(env, s, rest, hex) {
      DeadStaysDead(env, s, rest, hex);
    }
  }

  lemma SidecarOfTheDead(env: Env, s: State, hex: string)
    requires Inv(env, s) && hex in s.requests && LocOf(s.requests[hex], hex, Sidecar) in s.files
    requires LocOf(s.requests[hex], hex, Payload) !in s.files && !AboutToCommit(s, hex)
    ensures Dead(AfterRemoval(s, hex, Sidecar, true), hex)
  {
    assert DropOk(env, s.requests[hex], DropOf(s, hex));
    assert Dead(s, hex);
    DeadFrame(s, AfterRemoval(s, hex, Sidecar, true), hex);
  }

  lemma NakedAfterRename(env: Env, s: State, hex: string)
    requires AboutToCommit(s, hex) && LocOf(s.requests[hex], hex, Sidecar) !in s.files
    requires IsHex(hex) && Admissible(env, s.requests[hex])
    ensures LeadsToNaked(env, s, [Upload(hex, RenamePayload)], hex)
  {
    var s' := NakedRename(env, s, hex);
    assert Next(env, s, Upload(hex, RenamePayload)) == Some(s');
    ExecFromOne(env, s, Upload(hex, RenamePayload), []);
    AppendNothing([Upload(hex, RenamePayload)]);
  }

  lemma NakedRename(env: Env, s: State, hex: string) returns (s': State)
    requires AboutToCommit(s, hex) && LocOf(s.requests[hex], hex, Sidecar) !in s.files
    requires IsHex(hex) && Admissible(env, s.requests[hex])
    ensures StepUpload(env, s, hex, RenamePayload) == Some(s') && Naked(s', hex)
  {
    var d := DropOf(s, hex);
    var d' := d.(pc := None, payload := d.payloadTmp, payloadTmp := None, committed := true);
    s' := Put(s, hex, d');
    RenamedDrop(env, s.requests[hex], d, d');
    StepIs(env, s, hex, RenamePayload, d');
    NakedPut(s, hex, d');
  }

  lemma NakedPut(s: State, hex: string, d: Drop)
    requires hex in s.requests && IsHex(hex) && d.payload.Some? && d.sidecar.None?
    ensures Naked(Put(s, hex, d), hex)
  {
    PutFiles(s, hex, d);
    FilesOfDrop(Put(s, hex, d), hex, d);
  }

  lemma StepIs(env: Env, s: State, hex: string, op: Op, d': Drop)
    requires hex in s.requests && Admissible(env, s.requests[hex])
    requires Creates(op).Some? ==> Place(LocOf(s.requests[hex], hex, Creates(op).value)) !in s.folders
    requires StepDrop(env, s.requests[hex], DropOf(s, hex), op) == Some(d')
    ensures StepUpload(env, s, hex, op) == Some(Put(s, hex, d'))
  {}

  lemma RenamedDrop(env: Env, r: Request, d: Drop, d': Drop)
    requires Admissible(env, r) && d.pc == Some(MetaRenamed) && d.payloadTmp.Some?
    requires d' == d.(pc := None, payload := d.payloadTmp, payloadTmp := None, committed := true)
    ensures StepDrop(env, r, d, RenamePayload) == Some(d')
  {}

  lemma FilesOfDrop(s: State, hex: string, d: Drop)
    requires hex in s.requests && DropOf(s, hex) == d
    ensures LocOf(s.requests[hex], hex, Payload) in s.files <==> d.payload.Some?
    ensures LocOf(s.requests[hex], hex, Sidecar) in s.files <==> d.sidecar.Some?
    ensures LocOf(s.requests[hex], hex, PayloadTmp) in s.files <==> d.payloadTmp.Some?
    ensures LocOf(s.requests[hex], hex, SidecarTmp) in s.files <==> d.sidecarTmp.Some?
    ensures (hex in s.committed <==> d.committed) && (hex in s.cleaned <==> d.cleaned)
  {}
}
