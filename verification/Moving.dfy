/**
 Where a run of the step system ends that the code goes on with: a rename that finds a directory in the
 place of its temporary file. It moves the directory, and with it the drops below.
 */
module Moving {
  import opened Prelude
  import opened Text
  import opened Names
  import opened Vaults
  import opened Store
  import opened Commit

  // ---------- How it comes to that ----------

  /** This temporary file has been created and is still to be renamed. */
  predicate Awaits(pc: Pc, kind: Kind) {
    match kind
    case SidecarTmp => pc.MetaCreated? || pc.Streaming? || pc.PayloadClosed? || pc.MetaClosed?
    case PayloadTmp => pc.Streaming? || pc.PayloadClosed? || pc.MetaClosed? || pc.MetaRenamed?
    case _ => false
  }

  /** The upload still needs this file, and it is not there. */
  predicate Misses(s: State, hex: string, kind: Kind) {
    hex in s.requests && hex in s.jobs && Awaits(s.jobs[hex], kind) && LocOf(s.requests[hex], hex, kind) !in s.files
  }

  predicate IsMissing(d: Drop, kind: Kind) {
    d.pc.Some? && Awaits(d.pc.value, kind) && FileOf(d, kind).None?
  }

  lemma MissesItsFile(s: State, hex: string, kind: Kind)
    requires hex in s.requests
    ensures Misses(s, hex, kind) <==> IsMissing(DropOf(s, hex), kind)
  {}

  lemma StepMakesNoneMissing(env: Env, r: Request, d: Drop, op: Op, kind: Kind)
    requires Admissible(env, r) && StepDrop(env, r, d, op).Some? && IsMissing(StepDrop(env, r, d, op).value, kind)
    ensures IsMissing(d, kind)
  {}

  lemma UploadMakesNoneMissing(env: Env, s: State, h: string, op: Op, hex: string, kind: Kind)
    requires Inv(env, s) && StepUpload(env, s, h, op).Some? && Misses(StepUpload(env, s, h, op).value, hex, kind)
    ensures Misses(s, hex, kind)
  {
    var d := StepDrop(env, s.requests[h], DropOf(s, h), op).value;
    MissesItsFile(s, hex, kind);
    MissesItsFile(Put(s, h, d), hex, kind);
    if h == hex {
      PutFiles(s, hex, d);
      StepMakesNoneMissing(env, s.requests[hex], DropOf(s, hex), op, kind);
    } else {
      PutFrame(s, h, d, hex);
    }
  }

  /** The removal of a sidecar takes no temporary file. */
  lemma SidecarIsNoTemporary(name: string, hex: string, kind: Kind)
    requires IsHex(hex) && (kind == SidecarTmp || kind == PayloadTmp) && SidecarFor(name).Some?
    ensures SidecarFor(name).value != DropName(kind, hex)
  {
    DropNameRoles(hex);
    SuffixOf(TrimEndMatches(name, ".age"), ".meta.age");
  }

  lemma DeleteMainMisses(s: State, id: nat, ok: bool, hex: string, kind: Kind)
    requires RemoveMain(s, id, ok).Some? && Misses(RemoveMain(s, id, ok).value, hex, kind)
    ensures Misses(s, hex, kind) || Takes(s, DeleteMain(id, ok), hex, kind)
  {}

  lemma DeleteSidecarMisses(s: State, id: nat, ok: bool, hex: string, kind: Kind)
    requires RemoveSidecar(s, id, ok).Some? && Misses(RemoveSidecar(s, id, ok).value, hex, kind)
    requires hex in s.requests && IsHex(hex)
    ensures Misses(s, hex, kind)
  {
    var name := s.deletions[id].loc.name;
    if SidecarFor(name).Some? { SidecarIsNoTemporary(name, hex, kind); }
  }

  lemma OtherMisses(env: Env, s: State, a: Action, hex: string, kind: Kind)
    requires !a.Upload? && !a.DeleteMain? && !a.DeleteSidecar? && Next(env, s, a).Some? && Misses(Next(env, s, a).value, hex, kind)
    ensures Misses(s, hex, kind)
  {}

  lemma NextMisses(env: Env, s: State, a: Action, hex: string, kind: Kind)
    requires Inv(env, s) && Next(env, s, a).Some? && Misses(Next(env, s, a).value, hex, kind)
    ensures Misses(s, hex, kind) || Takes(s, a, hex, kind)
  {
    match a
    case Upload(h, op) => UploadMakesNoneMissing(env, s, h, op, hex, kind);
    case DeleteMain(id, ok) => DeleteMainMisses(s, id, ok, hex, kind);
    case DeleteSidecar(id, ok) => DeleteSidecarMisses(s, id, ok, hex, kind);
    case _ => OtherMisses(env, s, a, hex, kind);
  }

  /** Only a delete aimed at that very file takes it away from the upload. */
  lemma {:induction false} MissingMeansRemoved(env: Env, actions: seq<Action>, hex: string, kind: Kind)
    requires Exec(env, actions).Some? && Misses(Exec(env, actions).value, hex, kind)
    ensures exists k :: Removes(env, actions, k, hex, kind)
  {
    if actions != [] {
      var n := |actions| - 1;
      ExecPrefix(env, actions);
      var s, a := Exec(env, actions[..n]).value, actions[n];
      RunKeepsInv(env, actions[..n]);
      NextMisses(env, s, a, hex, kind);
      if Takes(s, a, hex, kind) {
        assert Removes(env, actions, n, hex, kind);
      } else {
        MissingMeansRemoved(env, actions[..n], hex, kind);
        var k :| Removes(env, actions[..n], k, hex, kind);
        RemovesPrefix(env, actions, n, k, hex, kind);
      }
    }
  }

  lemma FoldersByMaking(env: Env, s: State, a: Action, folder: Folder)
    requires Next(env, s, a).Some? && folder in Next(env, s, a).value.folders
    ensures folder in s.folders || a == MakeFolder(folder)
  {}

  /** A directory that is new since the `n`th action has been made since then. */
  lemma {:induction false} FolderWasMade(env: Env, actions: seq<Action>, n: nat, folder: Folder)
    requires n <= |actions| && Exec(env, actions).Some? && Exec(env, actions[..n]).Some?
    requires folder !in Exec(env, actions[..n]).value.folders && folder in Exec(env, actions).value.folders
    ensures exists j :: n <= j < |actions| && actions[j] == MakeFolder(folder)
    decreases |actions|
  {
    assert actions[..|actions|] == actions;
    if n < |actions| {
      var last := |actions| - 1;
      ExecPrefix(env, actions);
      FoldersByMaking(env, Exec(env, actions[..last]).value, actions[last], folder);
      if folder in Exec(env, actions[..last]).value.folders {
        assert actions[..last][..n] == actions[..n];
        FolderWasMade(env, actions[..last], n, folder);
      }
    }
  }

  /** The next step of the upload is a rename, and it meets a directory. */
  predicate MeetsFolder(s: State, hex: string, op: Op) {
    && hex in s.requests && hex in s.jobs
    && (op == RenameMeta || op == RenamePayload)
    && s.jobs[hex] == (if op == RenameMeta then MetaClosed else MetaRenamed)
    && Place(LocOf(s.requests[hex], hex, From(op))) in s.folders
  }

  function From(op: Op): Kind {
    if op == RenameMeta then SidecarTmp else PayloadTmp
  }

  function To(op: Op): Kind {
    if op == RenameMeta then Sidecar else Payload
  }

  /** First a delete was aimed at the temporary file of the running upload, whose name no answer has told,
      and then a directory was made in its place. */
  ghost predicate WasReplaced(env: Env, actions: seq<Action>, hex: string, kind: Kind, folder: Folder) {
    exists k, j :: 0 <= k < j < |actions| && Removes(env, actions, k, hex, kind) && actions[j] == MakeFolder(folder)
  }

  /** A rename meets a directory only where that has happened. */
  lemma FolderIsAReplacement(env: Env, actions: seq<Action>, hex: string, op: Op)
    requires Exec(env, actions).Some? && MeetsFolder(Exec(env, actions).value, hex, op)
    ensures var s := Exec(env, actions).value;
            WasReplaced(env, actions, hex, From(op), Place(LocOf(s.requests[hex], hex, From(op))))
  {
    var s := Exec(env, actions).value;
    var loc := LocOf(s.requests[hex], hex, From(op));
    RunKeepsInv(env, actions);
    assert loc !in s.files;
    MissingMeansRemoved(env, actions, hex, From(op));
    var k :| Removes(env, actions, k, hex, From(op));
    RunExtends(env, actions, k);
    RunKeepsInv(env, actions[..k]);
    FolderWasMade(env, actions, k, Place(loc));
    var j :| k <= j < |actions| && actions[j] == MakeFolder(Place(loc));
    assert actions[k].DeleteMain?;
  }

  // ---------- Who loses what ----------

  /** The file lies below this directory. */
  predicate Below(loc: Loc, folder: Folder) {
    loc.vault == folder.vault && folder.path <= loc.dir
  }

  predicate FolderBelow(f: Folder, folder: Folder) {
    f.vault == folder.vault && folder.path <= f.path
  }

  /** Where a file is found after the directory has been renamed. */
  function Rebased(loc: Loc, from: Folder, to: Folder): Loc
    requires Below(loc, from)
  {
    loc.(dir := to.path + loc.dir[|from.path|..])
  }

  lemma RebasedInjective(from: Folder, to: Folder)
    ensures forall a: Loc, b: Loc :: Below(a, from) && Below(b, from) && Rebased(a, from, to) == Rebased(b, from, to) ==> a == b
  {
    forall a: Loc, b: Loc | Below(a, from) && Below(b, from) && Rebased(a, from, to) == Rebased(b, from, to)
      ensures a == b
    {
      var x, y := a.dir[|from.path|..], b.dir[|from.path|..];
      assert x == (to.path + x)[|to.path|..] == (to.path + y)[|to.path|..] == y;
      assert a.dir == from.path + x && b.dir == from.path + y;
    }
  }

  function MovedFiles(files: map<Loc, Content>, from: Folder, to: Folder): map<Loc, Content> {
    RebasedInjective(from, to);
    (map loc | loc in files && !Below(loc, from) :: files[loc])
    + map loc | loc in files && Below(loc, from) :: Rebased(loc, from, to) := files[loc]
  }

  function MovedFolders(folders: set<Folder>, from: Folder, to: Folder): set<Folder> {
    (set f | f in folders && !FolderBelow(f, from))
    + set f | f in folders && FolderBelow(f, from) :: f.(path := to.path + f.path[|from.path|..])
  }

  /** A directory can be renamed to a name that nothing has, or to that of an empty directory. */
  predicate CanMove(s: State, to: Folder)
    requires to.path != []
  {
    && FileAt(to) !in s.files
    && (forall loc :: loc in s.files ==> !Below(loc, to))
    && (forall f :: f in s.folders && FolderBelow(f, to) ==> f == to)
  }

  function Source(s: State, hex: string, op: Op): Folder
    requires hex in s.requests
  {
    Place(LocOf(s.requests[hex], hex, From(op)))
  }

  function Target(s: State, hex: string, op: Op): Folder
    requires hex in s.requests
  {
    Place(LocOf(s.requests[hex], hex, To(op)))
  }

  /** The state after the rename; the upload goes on as if it had renamed its file. */
  function AfterMove(s: State, hex: string, op: Op): State
    requires MeetsFolder(s, hex, op)
  {
    s.(files := MovedFiles(s.files, Source(s, hex, op), Target(s, hex, op)),
       folders := MovedFolders(s.folders, Source(s, hex, op), Target(s, hex, op)),
       jobs := if op == RenameMeta then s.jobs[hex := MetaRenamed] else s.jobs - {hex},
       committed := if op == RenameMeta then s.committed else s.committed + {hex})
  }

  lemma SourceIsNotTarget(s: State, hex: string, op: Op)
    requires hex in s.requests && IsHex(hex)
    ensures |Source(s, hex, op).path| == |Target(s, hex, op).path| && Source(s, hex, op).path != Target(s, hex, op).path
  {
    DropNamesDistinct(From(op), hex, To(op), hex);
    var a, b := Source(s, hex, op).path, Target(s, hex, op).path;
    assert a[|a| - 1] != b[|b| - 1];
  }

  lemma OtherPrefix(dir: seq<string>, from: seq<string>, to: seq<string>)
    requires from <= dir && |from| == |to| && from != to
    ensures to + dir[|from|..] != dir
  {
    assert (to + dir[|from|..])[..|to|] == to;
  }

  /** A rebased file has the name it had, so it can only be the file of the same drop, at another place. */
  lemma RebasedIsElsewhere(s: State, hex: string, op: Op, h: string, kind: Kind, loc: Loc)
    requires FilesOwned(s) && hex in s.requests && h in s.requests && forall x :: x in s.requests ==> IsHex(x)
    requires loc in s.files && Below(loc, Source(s, hex, op))
    ensures Rebased(loc, Source(s, hex, op), Target(s, hex, op)) != LocOf(s.requests[h], h, kind)
  {
    var from, to := Source(s, hex, op), Target(s, hex, op);
    var moved := Rebased(loc, from, to);
    SourceIsNotTarget(s, hex, op);
    OtherPrefix(loc.dir, from.path, to.path);
    var owner, k :| Owns(s.requests, loc, owner, k);
    DropNamesDistinct(k, owner, kind, h);
  }

  /** Of the files that drops have at their own places, exactly those below the directory are gone. */
  lemma OwnFilesAfterMove(s: State, hex: string, op: Op, h: string, kind: Kind)
    requires FilesOwned(s) && MeetsFolder(s, hex, op) && h in s.requests && forall x :: x in s.requests ==> IsHex(x)
    ensures var loc := LocOf(s.requests[h], h, kind);
            Read(AfterMove(s, hex, op).files, loc) == if Below(loc, Source(s, hex, op)) then None else Read(s.files, loc)
  {
    var loc, from, to := LocOf(s.requests[h], h, kind), Source(s, hex, op), Target(s, hex, op);
    forall a | a in s.files && Below(a, from) ensures Rebased(a, from, to) != loc {
      RebasedIsElsewhere(s, hex, op, h, kind, a);
    }
  }

  /** The drop is committed and no delete has taken its payload, yet that is not where it was uploaded to. */
  predicate IsLost(s: State, hex: string) {
    hex in s.requests && hex in s.committed && hex !in s.deleted && LocOf(s.requests[hex], hex, Payload) !in s.files
  }

  /**
   Who loses what when a rename meets a directory. Every file below the directory is found, unchanged,
   below the new name. The payloads that are not where they were uploaded to, although nobody deleted
   them, are exactly those below the old name, and that of the upload itself if this was its second
   rename. After the first, the upload has no sidecar, although nobody deleted it.
   */
  lemma MoveLoses(env: Env, s: State, hex: string, op: Op)
    requires Inv(env, s) && MeetsFolder(s, hex, op) && CanMove(s, Target(s, hex, op))
    ensures forall loc :: loc in s.files && Below(loc, Source(s, hex, op)) ==>
              Read(AfterMove(s, hex, op).files, Rebased(loc, Source(s, hex, op), Target(s, hex, op))) == Some(s.files[loc])
    ensures forall h :: IsLost(AfterMove(s, hex, op), h) <==>
              (h == hex && op == RenamePayload)
              || (h in s.committed && h !in s.deleted && Below(LocOf(s.requests[h], h, Payload), Source(s, hex, op)))
    ensures op == RenameMeta ==>
              LocOf(s.requests[hex], hex, Sidecar) !in AfterMove(s, hex, op).files && hex !in AfterMove(s, hex, op).stripped
  {
    MovedFilesAreFound(s.files, Source(s, hex, op), Target(s, hex, op));
    forall h ensures IsLost(AfterMove(s, hex, op), h) <==>
                     (h == hex && op == RenamePayload)
                     || (h in s.committed && h !in s.deleted && Below(LocOf(s.requests[h], h, Payload), Source(s, hex, op)))
    {
      if h in s.requests { LostIff(env, s, hex, op, h); }
    }
    MoverHasNothing(env, s, hex);
    OwnFilesAfterMove(s, hex, op, hex, Sidecar);
  }

  lemma MovedFilesAreFound(files: map<Loc, Content>, from: Folder, to: Folder)
    ensures forall loc :: loc in files && Below(loc, from) ==>
              Read(MovedFiles(files, from, to), Rebased(loc, from, to)) == Some(files[loc])
  {
    RebasedInjective(from, to);
  }

  /** While it runs it is not committed, and without a sidecar before its first rename. */
  lemma MoverHasNothing(env: Env, s: State, hex: string)
    requires Inv(env, s) && hex in s.jobs
    ensures hex in s.requests && hex !in s.committed && hex !in s.deleted && LocOf(s.requests[hex], hex, Payload) !in s.files
    ensures s.jobs[hex] == MetaClosed ==> LocOf(s.requests[hex], hex, Sidecar) !in s.files && hex !in s.stripped
  {
    assert DropOk(env, s.requests[hex], DropOf(s, hex));
  }

  lemma LostIff(env: Env, s: State, hex: string, op: Op, h: string)
    requires Inv(env, s) && MeetsFolder(s, hex, op) && h in s.requests
    ensures IsLost(AfterMove(s, hex, op), h) <==>
              (h == hex && op == RenamePayload)
              || (h in s.committed && h !in s.deleted && Below(LocOf(s.requests[h], h, Payload), Source(s, hex, op)))
  {
    PresentIffCommitted(env, s, h);
    MoverHasNothing(env, s, hex);
    LostByPlace(s, hex, op, h);
  }

  lemma LostByPlace(s: State, hex: string, op: Op, h: string)
    requires FilesOwned(s) && MeetsFolder(s, hex, op) && h in s.requests && forall x :: x in s.requests ==> IsHex(x)
    requires hex !in s.committed && hex !in s.deleted && LocOf(s.requests[hex], hex, Payload) !in s.files
    requires LocOf(s.requests[h], h, Payload) in s.files <==> h in s.committed && h !in s.deleted
    ensures IsLost(AfterMove(s, hex, op), h) <==>
              (h == hex && op == RenamePayload)
              || (h in s.committed && h !in s.deleted && Below(LocOf(s.requests[h], h, Payload), Source(s, hex, op)))
  {
    OwnFilesAfterMove(s, hex, op, h, Payload);
  }

  /** And if its payload's temporary file is there, the upload goes on to show a payload without sidecar,
      which no delete was aimed at. */
  lemma MoveUndoesTheCommitInvariant(env: Env, s: State, hex: string)
    requires Inv(env, s) && MeetsFolder(s, hex, RenameMeta) && CanMove(s, Target(s, hex, RenameMeta))
    requires LocOf(s.requests[hex], hex, PayloadTmp) in s.files && Place(LocOf(s.requests[hex], hex, Payload)) !in s.folders
    ensures AboutToCommit(AfterMove(s, hex, RenameMeta), hex)
    ensures LeadsToNaked(env, AfterMove(s, hex, RenameMeta), [Upload(hex, RenamePayload)], hex)
    ensures hex !in AfterMove(s, hex, RenameMeta).stripped
  {
    var s' := AfterMove(s, hex, RenameMeta);
    MoverHasNothing(env, s, hex);
    OwnFilesAfterMove(s, hex, RenameMeta, hex, Sidecar);
    MoverIsAboutToCommit(s, hex);
    NakedAfterRename(env, s', hex);
  }

  lemma MoverIsAboutToCommit(s: State, hex: string)
    requires FilesOwned(s) && MeetsFolder(s, hex, RenameMeta) && forall x :: x in s.requests ==> IsHex(x)
    requires LocOf(s.requests[hex], hex, PayloadTmp) in s.files && Place(LocOf(s.requests[hex], hex, Payload)) !in s.folders
    ensures AboutToCommit(AfterMove(s, hex, RenameMeta), hex)
  {
    OwnFilesAfterMove(s, hex, RenameMeta, hex, PayloadTmp);
    NewFolders(s, hex);
  }

  lemma NewFolders(s: State, hex: string)
    requires MeetsFolder(s, hex, RenameMeta) && IsHex(hex) && Place(LocOf(s.requests[hex], hex, Payload)) !in s.folders
    ensures Place(LocOf(s.requests[hex], hex, Payload)) !in AfterMove(s, hex, RenameMeta).folders
  {
    var from, to := Source(s, hex, RenameMeta), Target(s, hex, RenameMeta);
    var place := Place(LocOf(s.requests[hex], hex, Payload));
    DropNamesDistinct(Payload, hex, Sidecar, hex);
    forall f | f in s.folders && FolderBelow(f, from) ensures f.(path := to.path + f.path[|from.path|..]) != place {
      assert (to.path + f.path[|from.path|..])[|to.path| - 1] == DropName(Sidecar, hex);
      assert place.path[|to.path| - 1] == DropName(Payload, hex);
    }
  }
}
