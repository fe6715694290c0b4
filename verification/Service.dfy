/**
 The whole service: files and sessions together. What was uploaded is what a live session reads back,
 whatever else happens, however it was chunked and whichever range is asked for.
 */
module Service {
  import opened Prelude
  import opened Crypto
  import opened Names
  import opened Metadata
  import opened Vaults
  import opened Store
  import opened Commit
  import opened Listing
  import opened Download
  import opened Reading
  import Handlers
  import HttpRange
  import Multipart
  import Sessions
  import WalkDir

  // ---------- Runs of the service ----------

  datatype World = World(store: State, table: Sessions.Table)

  /** A step of an upload or delete, a call on the session table, or the death of the process, which
      stops all handlers and forgets all sessions. */
  datatype Event = OnDisk(action: Action) | OnTable(call: Sessions.Timed) | Death(now: nat)

  ghost function Happen(env: Env, w: World, e: Event): Option<World> {
    match e
    case OnDisk(action) =>
      if action.Crash? then None
      else (match Next(env, w.store, action) case None => None case Some(s) => Some(w.(store := s)))
    case OnTable(call) => if call.call.Restart? then None else Some(w.(table := Sessions.Apply(env, w.table, call)))
    case Death(now) => Some(World(AfterCrash(w.store), map[]))
  }

  ghost function History(env: Env, events: seq<Event>): Option<World> {
    if events == [] then Some(World(INIT, map[]))
    else
      match History(env, events[..|events| - 1])
      case None => None
      case Some(w) => Happen(env, w, events[|events| - 1])
  }

  function ActionOf(e: Event): seq<Action> {
    match e
    case OnDisk(action) => [action]
    case OnTable(_) => []
    case Death(_) => [Crash]
  }

  function ActionsOf(events: seq<Event>): seq<Action> {
    if events == [] then [] else ActionsOf(events[..|events| - 1]) + ActionOf(events[|events| - 1])
  }

  function CallOf(e: Event): seq<Sessions.Timed> {
    match e
    case OnDisk(_) => []
    case OnTable(call) => [call]
    case Death(now) => [Sessions.At(now, Sessions.Restart)]
  }

  function CallsOf(events: seq<Event>): seq<Sessions.Timed> {
    if events == [] then [] else CallsOf(events[..|events| - 1]) + CallOf(events[|events| - 1])
  }

  lemma ExecSnoc(env: Env, actions: seq<Action>, a: Action)
    ensures Exec(env, actions + [a]) == match Exec(env, actions) { case None => None case Some(s) => Next(env, s, a) }
  {
    assert (actions + [a])[..|actions|] == actions;
  }

  lemma CallsSnoc(env: Env, calls: seq<Sessions.Timed>, c: Sessions.Timed)
    ensures Sessions.Run(env, calls + [c]) == Sessions.Apply(env, Sessions.Run(env, calls), c)
  {
    assert (calls + [c])[..|calls|] == calls;
  }

  lemma FilesStep(env: Env, actions: seq<Action>, w: World, e: Event)
    requires Exec(env, actions) == Some(w.store) && Happen(env, w, e).Some?
    ensures Exec(env, actions + ActionOf(e)) == Some(Happen(env, w, e).value.store)
  {
    match e
    case OnDisk(action) =>
      assert ActionOf(e) == [action];
      ExecSnoc(env, actions, action);
    case OnTable(_) =>
      assert ActionOf(e) == [];
      AppendNothing(actions);
    case Death(_) =>
      assert ActionOf(e) == [Crash];
      ExecSnoc(env, actions, Crash);
  }

  lemma TableStep(env: Env, calls: seq<Sessions.Timed>, w: World, e: Event)
    requires Sessions.Run(env, calls) == w.table && Happen(env, w, e).Some?
    ensures Sessions.Run(env, calls + CallOf(e)) == Happen(env, w, e).value.table
  {
    match e
    case OnDisk(_) =>
      assert CallOf(e) == [];
      AppendNothing(calls);
    case OnTable(call) =>
      assert CallOf(e) == [call];
      CallsSnoc(env, calls, call);
    case Death(now) =>
      assert CallOf(e) == [Sessions.At(now, Sessions.Restart)];
      CallsSnoc(env, calls, Sessions.At(now, Sessions.Restart));
  }

  /** The files see only the disk steps of a run, the session table only the calls. */
  lemma {:induction false} Projects(env: Env, events: seq<Event>)
    requires History(env, events).Some?
    ensures Exec(env, ActionsOf(events)) == Some(History(env, events).value.store)
    ensures Sessions.Run(env, CallsOf(events)) == History(env, events).value.table
  {
    if events != [] {
      var init, last := events[..|events| - 1], events[|events| - 1];
      var w := History(env, init).value;
      Projects(env, init);
      FilesStep(env, ActionsOf(init), w, last);
      TableStep(env, CallsOf(init), w, last);
    }
  }

  // ---------- Moments of a run ----------

  lemma {:induction false} ActionsPrefix(events: seq<Event>, n: nat)
    requires n <= |events|
    ensures ActionsOf(events[..n]) <= ActionsOf(events)
    decreases |events|
  {
    if n < |events| {
      var init := events[..|events| - 1];
      assert init[..n] == events[..n];
      ActionsPrefix(init, n);
    } else {
      assert events[..n] == events;
    }
  }

  lemma {:induction false} HistoryPrefix(env: Env, events: seq<Event>, n: nat)
    requires n <= |events| && History(env, events).Some?
    ensures History(env, events[..n]).Some?
    decreases |events|
  {
    if n < |events| {
      var init := events[..|events| - 1];
      assert init[..n] == events[..n];
      HistoryPrefix(env, init, n);
    } else {
      assert events[..n] == events;
    }
  }

  /** Along a run, a committed drop keeps its request, and stays committed. */
  lemma HistoryExtends(env: Env, events: seq<Event>, n: nat)
    requires n <= |events| && History(env, events).Some?
    ensures History(env, events[..n]).Some?
    ensures Extends(History(env, events[..n]).value.store, History(env, events).value.store)
  {
    HistoryPrefix(env, events, n);
    ActionsPrefix(events, n);
    Projects(env, events);
    Projects(env, events[..n]);
    var m := |ActionsOf(events[..n])|;
    assert ActionsOf(events)[..m] == ActionsOf(events[..n]);
    RunExtends(env, ActionsOf(events), m);
  }

  /** The world after the first `n` events. */
  ghost function WorldAt(env: Env, events: seq<Event>, n: nat): World
    requires n <= |events| && History(env, events).Some?
  {
    HistoryPrefix(env, events, n);
    History(env, events[..n]).value
  }

  lemma LaterExtends(env: Env, events: seq<Event>, m: nat, n: nat)
    requires m <= n <= |events| && History(env, events).Some?
    ensures Inv(env, WorldAt(env, events, m).store)
    ensures Extends(WorldAt(env, events, m).store, WorldAt(env, events, n).store)
  {
    HistoryPrefix(env, events, n);
    HistoryPrefix(env, events, m);
    assert events[..n][..m] == events[..m];
    HistoryExtends(env, events[..n], m);
    HistoryKeepsInv(env, events[..m]);
  }

  lemma HistoryKeepsInv(env: Env, events: seq<Event>)
    requires History(env, events).Some?
    ensures Inv(env, History(env, events).value.store)
  {
    Projects(env, events);
    RunKeepsInv(env, ActionsOf(events));
  }

  /** A session of the vault that was opened at most an hour ago and not closed since. */
  ghost predicate LiveSession(env: Env, calls: seq<Sessions.Timed>, vault: string, now: nat) {
    exists i :: Sessions.OpenSince(env, calls, vault, i) && now <= calls[i].now + Sessions.LIFETIME
  }

  ghost predicate ClockRuns(calls: seq<Sessions.Timed>, now: nat) {
    Sessions.Monotone(calls) && (calls != [] ==> calls[|calls| - 1].now <= now)
  }

  /** A check that passes in a run gives the key of the vault. */
  lemma CheckGivesKey(env: Env, events: seq<Event>, vault: string, now: nat)
    requires History(env, events).Some? && Sessions.Check(History(env, events).value.table, vault, now).Ok?
    ensures vault in env.vaults
    ensures Public(Sessions.Check(History(env, events).value.table, vault, now).value) == env.vaults[vault].recipient
  {
    Projects(env, events);
    Sessions.SessionsHoldVaultKeys(env, CallsOf(events), vault);
  }

  /** It passes exactly in a live session. */
  lemma CheckIff(env: Env, events: seq<Event>, vault: string, now: nat)
    requires History(env, events).Some? && ClockRuns(CallsOf(events), now)
    ensures Sessions.Check(History(env, events).value.table, vault, now).Ok? <==> LiveSession(env, CallsOf(events), vault, now)
  {
    Projects(env, events);
    Sessions.LazyExpiryIsEager(env, CallsOf(events), vault, now);
  }

  // ---------- What can be read back ----------

  /** How many events precede each step of a download: the session check, the look for the payload, its
      opening, the reading of the sidecar, and the second opening. */
  datatype Times = Times(check: nat, seen: nat, first: nat, sidecar: nat, again: nat)

  ghost predicate InTime(env: Env, events: seq<Event>, t: Times) {
    History(env, events).Some? && t.check <= t.seen <= t.first <= t.sidecar <= t.again <= |events|
  }

  ghost function MomentsAt(env: Env, events: seq<Event>, t: Times): (m: Moments)
    requires InTime(env, events, t)
    ensures Successive(env, m) && Fit(SightsOf(m))
  {
    var m := Moments(WorldAt(env, events, t.seen).store, WorldAt(env, events, t.first).store,
                     WorldAt(env, events, t.sidecar).store, WorldAt(env, events, t.again).store);
    LaterExtends(env, events, t.seen, t.first);
    LaterExtends(env, events, t.first, t.sidecar);
    LaterExtends(env, events, t.sidecar, t.again);
    LaterExtends(env, events, t.again, t.again);
    MomentsFit(env, m);
    m
  }

  /** What a download is answered whose steps fall at these moments of a run. */
  ghost function Downloaded(env: Env, events: seq<Event>, t: Times, vault: string, path: string, range: Option<string>, now: nat)
    : Result<Response, Refusal>
    requires InTime(env, events, t)
  {
    DownloadOutcome(env, SightsOf(MomentsAt(env, events, t)), WorldAt(env, events, t.check).table, vault, path, range, now)
  }

  /**
   Read after write, both ways. In any run of the service, under any clock, and with anything happening
   between its steps: a download with or without a range is answered `resp` exactly if the request is in
   order, the vault has a live session at the check, and some drop with a readable record is there at
   each step that needs it, and its upload deserves `resp`.
   */
  lemma DownloadIsExact(env: Env, events: seq<Event>, t: Times, vault: string, path: string, range: Option<string>, now: nat,
                        resp: Response)
    requires InTime(env, events, t) && ClockRuns(CallsOf(events[..t.check]), now)
    ensures Downloaded(env, events, t, vault, path, range, now) == Ok(resp) <==>
            && MayDownload(env, vault, path)
            && LiveSession(env, CallsOf(events[..t.check]), vault, now)
            && exists hex :: Yields(env, MomentsAt(env, events, t), vault, path, range, hex, resp)
  {
    HistoryPrefix(env, events, t.check);
    CheckIff(env, events[..t.check], vault, now);
    var check := Sessions.Check(WorldAt(env, events, t.check).table, vault, now);
    if MayDownload(env, vault, path) && check.Ok? {
      CheckGivesKey(env, events[..t.check], vault, now);
      ServedIff(env, MomentsAt(env, events, t), check.value, vault, path, range, resp);
    }
  }

  /** All steps at one moment. */
  function Now(n: nat): Times {
    Times(n, n, n, n, n)
  }

  /** Nothing happens between the steps. */
  function AtRest(s: State): Moments {
    Moments(s, s, s, s)
  }

  /** A download at the end of a run sees the world as it is then. */
  lemma DownloadedNow(env: Env, events: seq<Event>, vault: string, path: string, range: Option<string>, now: nat)
    requires History(env, events).Some?
    ensures var w := History(env, events).value;
            && WorldAt(env, events, |events|) == w && MomentsAt(env, events, Now(|events|)) == AtRest(w.store)
            && Fit(SightsOf(AtRest(w.store)))
            && Downloaded(env, events, Now(|events|), vault, path, range, now) ==
               DownloadOutcome(env, SightsOf(AtRest(w.store)), w.table, vault, path, range, now)
  {
    assert events[..|events|] == events;
  }

  /** A drop at rest is there exactly if its record can be read. */
  lemma AtRestIsThere(env: Env, s: State, vault: string, path: string, range: Option<string>, hex: string)
    requires Inv(env, s) && IsDropAt(s, vault, path, hex)
    ensures IsThere(env, AtRest(s), vault, path, range, hex) <==> IsReadable(env, s, hex)
  {
    DropHolds(env, s, hex);
  }

  /** The run holds no delete that removes the payload or, aimed at it, the sidecar of this drop. */
  ghost predicate Untouched(env: Env, actions: seq<Action>, hex: string) {
    forall k :: !Removes(env, actions, k, hex, Payload) && !Removes(env, actions, k, hex, Sidecar)
  }

  lemma UntouchedIff(env: Env, events: seq<Event>, hex: string)
    requires History(env, events).Some?
    ensures var s := History(env, events).value.store;
            Untouched(env, ActionsOf(events), hex) <==> hex !in s.deleted && hex !in s.stripped
  {
    Projects(env, events);
    MarkMeansRemoved(env, ActionsOf(events), hex, Payload);
    MarkMeansRemoved(env, ActionsOf(events), hex, Sidecar);
  }

  /** What is served of a drop that was once committed, when nothing happens between the steps. */
  lemma ServedAtRest(env: Env, s: State, identity: Identity, vault: string, path: string, hex: string)
    requires Inv(env, s) && Fit(SightsOf(AtRest(s))) && IsPayloadPath(path) && hex in s.committed
    requires hex in s.requests && PathLoc(vault, path) == LocOf(s.requests[hex], hex, Payload)
    requires vault in env.vaults && Public(identity) == env.vaults[vault].recipient
    requires Admissible(env, s.requests[hex]) && BodyOutcome(env, s.requests[hex]).Ok?
    requires BodyOutcome(env, s.requests[hex]).value.extended.Keys !! RESERVED
    ensures var served := ServeFile(SightsOf(AtRest(s)), identity, vault, path, None);
            && (served.Ok? <==> hex !in s.deleted && hex !in s.stripped && IsHeaderText(NameOf(env, s.requests[hex], hex)))
            && (served.Ok? ==> IsWholeAnswer(served.value, PayloadBytes(s.requests[hex]), NameOf(env, s.requests[hex], hex)))
  {
    DeservedWhole(env, s.requests[hex], hex, vault, path);
    if hex in s.deleted {
      PresentIffCommitted(env, s, hex);
    } else {
      ServedFromRest(env, s, identity, vault, path, None, hex);
    }
  }

  predicate IsWholeAnswer(resp: Response, bytes: seq<byte>, name: string) {
    resp.status == 200 && resp.body == Bytes(bytes) && resp.filename == Some(name)
  }

  /**
   What was uploaded is what is read back. A drop with a readable record is committed at some moment of a
   run. At its end, after any other uploads, deletes, failures, crashes, locks and unlocks, a live session
   downloads exactly the bytes of that upload if and only if no delete has removed the payload or was
   aimed at its sidecar, and the name of the download can stand in a header.
   */
  lemma UploadedIsReadBack(env: Env, events: seq<Event>, n: nat, hex: string, vault: string, path: string, now: nat)
    requires History(env, events).Some? && n <= |events|
    requires ClockRuns(CallsOf(events), now) && LiveSession(env, CallsOf(events), vault, now)
    requires MayDownload(env, vault, path)
    requires IsDropAt(WorldAt(env, events, n).store, vault, path, hex) && IsReadable(env, WorldAt(env, events, n).store, hex)
    ensures IsReadBack(env, events, WorldAt(env, events, n).store.requests[hex], hex, vault, path, now) <==>
            && Untouched(env, ActionsOf(events), hex)
            && IsHeaderText(NameOf(env, WorldAt(env, events, n).store.requests[hex], hex))
  {
    var r, s := WorldAt(env, events, n).store.requests[hex], History(env, events).value.store;
    LaterExtends(env, events, n, |events|);
    HistoryKeepsInv(env, events);
    UntouchedIff(env, events, hex);
    DownloadedNow(env, events, vault, path, None, now);
    CheckIff(env, events, vault, now);
    CheckGivesKey(env, events, vault, now);
    MayIffNotRefused(env, vault, path);
    ServedAtRest(env, s, Sessions.Check(History(env, events).value.table, vault, now).value, vault, path, hex);
  }

  /** At the end of the run a download gives, with status 200, the whole payload of this request under its
      name. */
  ghost predicate IsReadBack(env: Env, events: seq<Event>, r: Request, hex: string, vault: string, path: string, now: nat)
    requires History(env, events).Some? && Admissible(env, r) && BodyOutcome(env, r).Ok?
  {
    var got := Downloaded(env, events, Now(|events|), vault, path, None, now);
    got.Ok? && IsWholeAnswer(got.value, PayloadBytes(r), NameOf(env, r, hex))
  }

  /** The recorded file name without directories; if there is none, that of the drop without its ending. */
  ghost function NameOf(env: Env, r: Request, hex: string): string
    requires Admissible(env, r) && BodyOutcome(env, r).Ok?
  {
    match BodyOutcome(env, r).value.filename
    case None => "drop-" + hex
    case Some(f) => (match FileName(f) case None => "drop-" + hex case Some(name) => name)
  }

  // ---------- Metadata ----------

  /** How many events precede each step of a metadata request. */
  datatype MetadataTimes = MetadataTimes(check: nat, seen: nat, first: nat, sized: nat)

  ghost predicate MetadataInTime(env: Env, events: seq<Event>, t: MetadataTimes) {
    History(env, events).Some? && t.check <= t.seen <= t.first <= t.sized <= |events|
  }

  ghost function InstantsAt(env: Env, events: seq<Event>, t: MetadataTimes): (i: Instants)
    requires MetadataInTime(env, events, t)
    ensures InOrder(env, i)
  {
    LaterExtends(env, events, t.seen, t.first);
    LaterExtends(env, events, t.first, t.sized);
    LaterExtends(env, events, t.sized, t.sized);
    Instants(WorldAt(env, events, t.seen).store, WorldAt(env, events, t.first).store, WorldAt(env, events, t.sized).store)
  }

  /**
   In any run, with anything happening between its steps, the metadata of a path is served exactly if a
   live session asks for it and the sidecar that the path leads to is seen, and there and readable when it
   is opened; it is then the record of the upload that wrote that sidecar, with the size on disk in place
   of the recorded one if the payload is there when its size is asked for.
   */
  lemma MetadataIsExact(env: Env, events: seq<Event>, t: MetadataTimes, vault: string, path: string, sizeOf: SizeOf, now: nat,
                        v: FileMetadata)
    requires MetadataInTime(env, events, t) && ClockRuns(CallsOf(events[..t.check]), now)
    ensures MetadataOutcome(env, GlancesOf(InstantsAt(env, events, t)), WorldAt(env, events, t.check).table,
                            vault, path, sizeOf, now) == Ok(v) <==>
            && MayReadMetadata(env, vault, path)
            && LiveSession(env, CallsOf(events[..t.check]), vault, now)
            && exists hex :: Describes(env, InstantsAt(env, events, t), vault, path, sizeOf, hex, v)
  {
    HistoryPrefix(env, events, t.check);
    CheckIff(env, events[..t.check], vault, now);
    var check := Sessions.Check(WorldAt(env, events, t.check).table, vault, now);
    if MayReadMetadata(env, vault, path) && check.Ok? {
      CheckGivesKey(env, events[..t.check], vault, now);
      DescribedIff(env, InstantsAt(env, events, t), check.value, vault, path, sizeOf, v);
    }
  }

  // ---------- The list handler ----------

  /** list_files: its session check evicts nothing. */
  method ListFiles(env: Env, files: map<Loc, Content>, table: Sessions.Table, name: string, sizeOf: SizeOf,
                   root: seq<WalkDir.Entry>, now: nat)
    returns (r: Result<seq<Listed>, Refusal>)
    ensures r.Err? <==> ListRefusal(env, table, name, now).Some?
    ensures r.Err? ==> r.error == ListRefusal(env, table, name, now).value
    ensures r.Ok? ==> Sessions.Check(table, name, now).Ok?
                      && IsListing(files, Sessions.Check(table, name, now).value, name, sizeOf, WalkDir.Visible(root, ""), r.value)
  {
    if !IsValidName(name) {
      return Err(InvalidPath);
    }
    if name !in env.vaults {
      return Err(VaultNotFound);
    }
    if !env.vaults[name].permissions.allowList {
      return Err(PermissionDenied);
    }
    if name !in table {
      return Err(Unauthorized(Sessions.Locked));
    }
    if now > table[name].expiresAt {
      return Err(Unauthorized(Sessions.Expired));
    }
    var listed := List(files, table[name].identity, name, sizeOf, root);
    r := Ok(listed);
  }

  function ListRefusal(env: Env, table: Sessions.Table, name: string, now: nat): Option<Refusal> {
    if !IsValidName(name) then Some(InvalidPath)
    else if name !in env.vaults then Some(VaultNotFound)
    else if !env.vaults[name].permissions.allowList then Some(PermissionDenied)
    else match Sessions.Check(table, name, now)
      case Err(why) => Some(Unauthorized(why))
      case Ok(_) => None
  }

  /** list_files answers with this listing. */
  ghost predicate IsAnswered(env: Env, w: World, vault: string, sizeOf: SizeOf, root: seq<WalkDir.Entry>, now: nat,
                             listed: seq<Listed>)
  {
    && ListRefusal(env, w.table, vault, now) == None
    && match Sessions.Check(w.table, vault, now)
       case Err(_) => false
       case Ok(identity) => IsListing(w.store.files, identity, vault, sizeOf, WalkDir.Visible(root, ""), listed)
  }

  /** The path is listed, with a name that can stand in a header. */
  ghost predicate Offers(listed: seq<Listed>, path: string) {
    exists e :: e in listed && e.path == path && IsHeaderText(NameFor(e.filename, path))
  }

  /** The record can be read, and its name can stand in a header. */
  ghost predicate IsOffered(env: Env, s: State, hex: string, path: string) {
    IsReadable(env, s, hex) && IsHeaderText(ResolvedName(BodyOutcome(env, s.requests[hex]).value, path))
  }

  lemma WhoIsOffered(env: Env, s: State, vault: string, sizeOf: SizeOf, listed: seq<Listed>, path: string)
    requires forall e :: e in listed <==> exists hex :: IsEntryOf(env, s, vault, sizeOf, hex, e)
    ensures Offers(listed, path) <==> exists hex :: IsPathOf(s, vault, hex, path) && IsOffered(env, s, hex, path)
  {
    if e :| e in listed && e.path == path && IsHeaderText(NameFor(e.filename, path)) {
      var hex :| IsEntryOf(env, s, vault, sizeOf, hex, e);
      assert IsPathOf(s, vault, hex, path);
    }
    if hex :| IsPathOf(s, vault, hex, path) && IsOffered(env, s, hex, path) {
      assert IsEntryOf(env, s, vault, sizeOf, hex, EntryOfDrop(env, s, hex, sizeOf));
      assert EntryOfDrop(env, s, hex, sizeOf) in listed;
    }
  }

  /**
   What is listed is what can be downloaded. In any reachable world with a session and the two
   permissions: a path is in the listing, with a name that can stand in a header, exactly if it is the
   path of an unhidden drop and a download of it at that moment succeeds.
   */
  lemma ListedIffDownloadable(env: Env, events: seq<Event>, vault: string, sizeOf: SizeOf, root: seq<WalkDir.Entry>, now: nat,
                              listed: seq<Listed>, path: string)
    requires History(env, events).Some? && Shows(root, History(env, events).value.store, vault)
    requires vault in env.vaults && env.vaults[vault].permissions.allowDownload
    requires IsAnswered(env, History(env, events).value, vault, sizeOf, root, now, listed)
    ensures Offers(listed, path) <==>
            && (exists hex :: IsPathOf(History(env, events).value.store, vault, hex, path))
            && Downloaded(env, events, Now(|events|), vault, path, None, now).Ok?
  {
    HistoryKeepsInv(env, events);
    CheckGivesKey(env, events, vault, now);
    DownloadedNow(env, events, vault, path, None, now);
    ListedIffGranted(env, History(env, events).value, vault, sizeOf, root, now, listed, path);
  }

  lemma ListedIffGranted(env: Env, w: World, vault: string, sizeOf: SizeOf, root: seq<WalkDir.Entry>, now: nat,
                         listed: seq<Listed>, path: string)
    requires Inv(env, w.store) && Shows(root, w.store, vault) && Fit(SightsOf(AtRest(w.store)))
    requires vault in env.vaults && env.vaults[vault].permissions.allowDownload
    requires IsAnswered(env, w, vault, sizeOf, root, now, listed)
    requires Public(Sessions.Check(w.table, vault, now).value) == env.vaults[vault].recipient
    ensures Offers(listed, path) <==>
            && (exists hex :: IsPathOf(w.store, vault, hex, path))
            && DownloadOutcome(env, SightsOf(AtRest(w.store)), w.table, vault, path, None, now).Ok?
  {
    ListedIffServed(env, w.store, vault, sizeOf, root, Sessions.Check(w.table, vault, now).value, listed, path);
    if hex :| IsPathOf(w.store, vault, hex, path) { DropPathsAreUsable(env, w.store, hex); }
  }

  lemma ListedIffServed(env: Env, s: State, vault: string, sizeOf: SizeOf, root: seq<WalkDir.Entry>, identity: Identity,
                        listed: seq<Listed>, path: string)
    requires Inv(env, s) && Shows(root, s, vault) && Fit(SightsOf(AtRest(s)))
    requires vault in env.vaults && Public(identity) == env.vaults[vault].recipient
    requires IsListing(s.files, identity, vault, sizeOf, WalkDir.Visible(root, ""), listed)
    ensures Offers(listed, path) <==>
            exists hex :: IsPathOf(s, vault, hex, path) && IsPayloadPath(path)
                          && ServeFile(SightsOf(AtRest(s)), identity, vault, path, None).Ok?
  {
    ListIsExact(env, s, vault, sizeOf, root, identity, listed);
    WhoIsOffered(env, s, vault, sizeOf, listed, path);
    forall hex | IsPathOf(s, vault, hex, path)
      ensures IsPayloadPath(path)
      ensures ServeFile(SightsOf(AtRest(s)), identity, vault, path, None).Ok? <==> IsOffered(env, s, hex, path)
    {
      PathIsServed(env, s, vault, path, identity, hex);
    }
  }

  lemma PathIsServed(env: Env, s: State, vault: string, path: string, identity: Identity, hex: string)
    requires Inv(env, s) && IsPathOf(s, vault, hex, path) && Fit(SightsOf(AtRest(s)))
    requires vault in env.vaults && Public(identity) == env.vaults[vault].recipient
    ensures IsPayloadPath(path)
    ensures ServeFile(SightsOf(AtRest(s)), identity, vault, path, None).Ok? <==> IsOffered(env, s, hex, path)
  {
    DropPathsAreUsable(env, s, hex);
    ServedFromRest(env, s, identity, vault, path, None, hex);
  }

  // ---------- Downloads in pieces, while the service runs ----------

  /** A request for [from, to) of a path, its steps at these moments, is granted this answer. */
  ghost predicate Granted(env: Env, events: seq<Event>, t: Times, now: nat, vault: string, path: string, from: int, to: int,
                          answer: Response)
  {
    && InTime(env, events, t) && 0 <= from < to
    && Downloaded(env, events, t, vault, path, Some(HttpRange.Print(from, to - 1)), now) == Ok(answer)
  }

  /** The path is that of this drop, which was uploaded by `r`. */
  predicate LeadsTo(s: State, vault: string, path: string, hex: string, r: Request) {
    hex in s.requests && s.requests[hex] == r && PathLoc(vault, path) == LocOf(r, hex, Payload)
  }

  /** Whoever is granted a piece of a path is granted it from the one drop that was ever there. */
  lemma GrantedFromDrop(env: Env, events: seq<Event>, t: Times, now: nat, vault: string, path: string, from: int, to: int,
                        answer: Response, hex: string, r: Request)
    requires History(env, events).Some? && Granted(env, events, t, now, vault, path, from, to, answer)
    requires LeadsTo(WorldAt(env, events, |events|).store, vault, path, hex, r)
    ensures IsPiece(env, r, path, from, to, answer)
  {
    var range := Some(HttpRange.Print(from, to - 1));
    var h := WhoYields(env, events, t, now, vault, path, range, answer);
    LaterExtends(env, events, t.sidecar, |events|);
    LaterExtends(env, events, |events|, |events|);
    SamePiece(env, MomentsAt(env, events, t), WorldAt(env, events, |events|).store, vault, path, from, to, h, answer, hex, r);
  }

  lemma WhoYields(env: Env, events: seq<Event>, t: Times, now: nat, vault: string, path: string, range: Option<string>,
                  answer: Response) returns (h: string)
    requires InTime(env, events, t) && Downloaded(env, events, t, vault, path, range, now) == Ok(answer)
    ensures Yields(env, MomentsAt(env, events, t), vault, path, range, h, answer)
  {
    HistoryPrefix(env, events, t.check);
    CheckGivesKey(env, events[..t.check], vault, now);
    var identity := Sessions.Check(WorldAt(env, events, t.check).table, vault, now).value;
    ServedIff(env, MomentsAt(env, events, t), identity, vault, path, range, answer);
    h :| Yields(env, MomentsAt(env, events, t), vault, path, range, h, answer);
  }

  lemma SamePiece(env: Env, m: Moments, last: State, vault: string, path: string, from: int, to: int, h: string,
                  answer: Response, hex: string, r: Request)
    requires Successive(env, m) && Inv(env, last) && Extends(m.sidecar, last) && LeadsTo(last, vault, path, hex, r)
    requires 0 <= from < to && Yields(env, m, vault, path, Some(HttpRange.Print(from, to - 1)), h, answer)
    ensures IsPiece(env, r, path, from, to, answer)
  {
    LocsDistinct(m.first.requests[h], h, Payload, r, hex, Payload);
  }

  /**
   A client fetches a payload in consecutive ranges, each with its steps at moments of its own in a run in
   which anything else may happen. If every request is granted, the pieces put together are exactly the
   uploaded bytes.
   */
  lemma PiecesMakeTheUpload(env: Env, events: seq<Event>, vault: string, path: string, hex: string, r: Request, cuts: seq<nat>,
                            times: seq<Times>, clocks: seq<nat>, answers: seq<Response>)
    requires History(env, events).Some? && LeadsTo(WorldAt(env, events, |events|).store, vault, path, hex, r)
    requires Multipart.OnlyLastFileHasBytes(r.fields) && IsPartition(cuts, |PayloadBytes(r)|)
    requires |answers| == |times| == |clocks| == |cuts| - 1
    requires forall i :: 0 <= i < |answers| ==>
               Granted(env, events, times[i], clocks[i], vault, path, cuts[i], cuts[i + 1], answers[i])
    ensures Received(answers) == PayloadBytes(r)
  {
    forall i | 0 <= i < |answers| ensures IsPiece(env, r, path, cuts[i], cuts[i + 1], answers[i]) {
      GrantedFromDrop(env, events, times[i], clocks[i], vault, path, cuts[i], cuts[i + 1], answers[i], hex, r);
    }
    PiecesOfUpload(env, r, path, cuts, answers);
  }

  ghost predicate IsPiece(env: Env, r: Request, path: string, from: int, to: int, answer: Response) {
    && 0 <= from < to && Admissible(env, r) && BodyOutcome(env, r).Ok?
    && answer == Deserved(env, r, path, Some(HttpRange.Print(from, to - 1)))
  }

  lemma PiecesOfUpload(env: Env, r: Request, path: string, cuts: seq<nat>, answers: seq<Response>)
    requires Multipart.OnlyLastFileHasBytes(r.fields) && |answers| == |cuts| - 1
    requires IsPartition(cuts, |PayloadBytes(r)|)
    requires forall i :: 0 <= i < |answers| ==> IsPiece(env, r, path, cuts[i], cuts[i + 1], answers[i])
    ensures Received(answers) == PayloadBytes(r)
  {
    var plain := PayloadBytes(r);
    forall i | 0 <= i < |cuts| ensures cuts[i] <= |plain| { CutsInside(cuts, |plain|, i); }
    assert forall i :: 0 <= i < |answers| ==> cuts[i] <= cuts[i + 1];
    forall i | 0 <= i < |answers| ensures Delivers(answers[i], plain[cuts[i]..cuts[i + 1]]) {
      assert IsPiece(env, r, path, cuts[i], cuts[i + 1], answers[i]);
      DeservedPiece(env, r, path, cuts, i);
    }
    PiecesCoverPrefix(plain, cuts, answers);
    assert plain[..|plain|] == plain;
  }

  lemma DeservedPiece(env: Env, r: Request, path: string, cuts: seq<nat>, i: nat)
    requires Admissible(env, r) && BodyOutcome(env, r).Ok?
    requires Multipart.OnlyLastFileHasBytes(r.fields) && IsPartition(cuts, |PayloadBytes(r)|) && i + 1 < |cuts|
    ensures cuts[i] < cuts[i + 1] <= |PayloadBytes(r)|
    ensures Delivers(Deserved(env, r, path, Some(HttpRange.Print(cuts[i], cuts[i + 1] - 1))), PayloadBytes(r)[cuts[i]..cuts[i + 1]])
  {
    var filename := ResolvedName(BodyOutcome(env, r).value, path);
    TileServes(PayloadBytes(r), cuts, i, filename);
    DeservedRangeIff(env, r, path, HttpRange.Print(cuts[i], cuts[i + 1] - 1));
  }

  // ---------- What is no vault ----------

  /** Whatever the environment does not hold is refused by every handler. */
  lemma RefusedEverywhere(env: Env, name: string, path: string, subpath: Option<string>, password: string,
                          table: Sessions.Table, files: map<Loc, Content>, folders: set<Folder>, locked: bool, now: nat)
    requires name !in env.vaults && IsValidName(name)
    ensures Handlers.UploadRefusal(env, name, subpath) == Some(Handlers.VaultNotFound)
    ensures Handlers.DeleteRefusal(env, files, folders, name, path, locked).Some?
    ensures ListRefusal(env, table, name, now) == Some(VaultNotFound)
    ensures PathRefusal(env, name, path, AllowsDownload).Some? && PathRefusal(env, name, path, AllowsMetadata).Some?
    ensures Sessions.UnlockOutcome(env, name, password) == Err(Sessions.VaultNotFound)
    ensures Sessions.LockOutcome(env, table, name) == Err(Sessions.VaultNotFound)
  {
    DeletesAreRefused(env, name, path, files, folders, locked);
  }

  lemma DeletesAreRefused(env: Env, name: string, path: string, files: map<Loc, Content>, folders: set<Folder>, locked: bool)
    requires name !in env.vaults
    ensures Handlers.DeleteRefusal(env, files, folders, name, path, locked).Some?
  {}

  // ---------- The handlers one after another ----------

  /** What a download is answered by a table that holds a key of the vault. */
  lemma AtRestIff(env: Env, s: State, table: Sessions.Table, vault: string, path: string, range: Option<string>, hex: string, now: nat)
    requires Inv(env, s) && IsDropAt(s, vault, path, hex) && Fit(SightsOf(AtRest(s)))
    requires vault in table && vault in env.vaults && Public(table[vault].identity) == env.vaults[vault].recipient
    ensures var got := DownloadOutcome(env, SightsOf(AtRest(s)), table, vault, path, range, now);
            if && MayDownload(env, vault, path) && now <= table[vault].expiresAt && IsReadable(env, s, hex)
            then got == Given(Deserved(env, s.requests[hex], path, range))
            else got.Err?
  {
    MayIffNotRefused(env, vault, path);
    if MayDownload(env, vault, path) {
      ServedFromRest(env, s, table[vault].identity, vault, path, range, hex);
      BehindChecks(env, SightsOf(AtRest(s)), table, vault, path, range, now);
    }
  }

  lemma ServedFromRest(env: Env, s: State, identity: Identity, vault: string, path: string, range: Option<string>, hex: string)
    requires Inv(env, s) && Fit(SightsOf(AtRest(s))) && IsPayloadPath(path) && IsDropAt(s, vault, path, hex)
    requires vault in env.vaults && Public(identity) == env.vaults[vault].recipient
    ensures var served := ServeFile(SightsOf(AtRest(s)), identity, vault, path, range);
            if IsReadable(env, s, hex) then served == Given(Deserved(env, s.requests[hex], path, range)) else served.Err?
  {
    AtRestIsThere(env, s, vault, path, range, hex);
    ServedFromDrop(env, AtRest(s), identity, vault, path, range, hex);
  }

  lemma BehindChecks(env: Env, sights: Sights, table: Sessions.Table, vault: string, path: string, range: Option<string>, now: nat)
    requires Fit(sights) && MayDownload(env, vault, path) && vault in table
    ensures DownloadOutcome(env, sights, table, vault, path, range, now) ==
            if now <= table[vault].expiresAt then ServeFile(sights, table[vault].identity, vault, path, range)
            else Err(Unauthorized(Sessions.Expired))
  {
    MayIffNotRefused(env, vault, path);
  }

  /** The password opens the vault, the request for the path is in order, and its answer can be built. */
  ghost predicate CanBeFetched(env: Env, s: State, hex: string, name: string, path: string, password: string, range: Option<string>) {
    && Sessions.UnlockOutcome(env, name, password).Ok? && MayDownload(env, name, path)
    && IsReadable(env, s, hex) && CanBuild(Deserved(env, s.requests[hex], path, range))
  }

  /** What the request deserves arrives. */
  ghost predicate Arrives(env: Env, q: Request, path: string, range: Option<string>, resp: Response) {
    Admissible(env, q) && BodyOutcome(env, q).Ok? && resp == Deserved(env, q, path, range)
  }

  lemma FetchIff(env: Env, s: State, table: Sessions.Table, name: string, path: string, range: Option<string>, hex: string,
                 password: string, unlockedAt: nat, now: nat)
    requires Inv(env, s) && IsDropAt(s, name, path, hex) && Fit(SightsOf(AtRest(s)))
    requires Sessions.UnlockOutcome(env, name, password).Ok? && name in table
    requires table[name] == Sessions.Session(Sessions.UnlockOutcome(env, name, password).value, unlockedAt + Sessions.LIFETIME)
    ensures var got := DownloadOutcome(env, SightsOf(AtRest(s)), table, name, path, range, now);
            && (got.Ok? <==> CanBeFetched(env, s, hex, name, path, password, range) && now <= unlockedAt + Sessions.LIFETIME)
            && (got.Ok? ==> Arrives(env, s.requests[hex], path, range, got.value))
  {
    AtRestIff(env, s, table, name, path, range, hex, now);
  }

  /** unlock and download_file in turn. */
  method UnlockAndDownload(env: Env, sights: Sights, faulty: bool, sessions: Sessions.SessionTable, ghost s: State, ghost hex: string,
                           name: string, path: string, password: string, unlockedAt: nat, range: Option<string>, now: nat)
    returns (r: Option<Response>)
    requires Inv(env, s) && sights == SightsOf(AtRest(s)) && Fit(sights) && IsDropAt(s, name, path, hex)
    modifies sessions
    ensures r.Some? ==> Arrives(env, s.requests[hex], path, range, r.value)
    ensures var fine := CanBeFetched(env, s, hex, name, path, password, range) && now <= unlockedAt + Sessions.LIFETIME;
            (r.Some? ==> fine) && (fine && !faulty ==> r.Some?)
  {
    var unlocked := sessions.Unlock(env, name, password, unlockedAt);
    if unlocked.Err? {
      return None;
    }
    FetchIff(env, s, sessions.table, name, path, range, hex, password, unlockedAt, now);
    var got := DownloadFile(env, sights, faulty, sessions, name, path, range, now);
    if got.Err? {
      return None;
    }
    r := Some(got.value);
  }

  /** Nothing is wrong with this request, its directories and its body. */
  ghost predicate CanBeUploaded(env: Env, files: map<Loc, Content>, q: Request) {
    Admissible(env, q) && !Blocked(files, q, |DirOf(q)|) && BodyOutcome(env, q).Ok?
  }

  /** Nor with its metadata keys, the answer to the download, the flags of its vault and the password. */
  ghost predicate AllInOrder(env: Env, files: map<Loc, Content>, q: Request, path: string, range: Option<string>, password: string) {
    && CanBeUploaded(env, files, q) && q.subpath != Some("") && BodyOutcome(env, q).value.extended.Keys !! RESERVED
    && CanBuild(Deserved(env, q, path, range))
    && env.vaults[q.vault].permissions.allowDownload && Sessions.UnlockOutcome(env, q.vault, password).Ok?
  }

  /** handle_upload on the disk of any reachable state. */
  method Upload(env: Env, disk: Handlers.Disk, ghost s: State, ghost q: Request,
                name: string, subpath: Option<string>, parts: seq<Multipart.Part>, tailBroken: bool, hex: string)
    returns (path: Option<string>, ghost s': State)
    requires Inv(env, s) && s.files == disk.files && s.folders == disk.folders
    requires q == Request(name, subpath, Multipart.WholeAll(parts), tailBroken) && IsNewName(s, q, hex)
    requires Multipart.SizesFit(q.fields) && |PayloadBytes(q)| <= U64_MAX
    modifies disk
    ensures if path.Some? then
              && CanBeUploaded(env, old(disk.files), q) && path.value == Handlers.UploadedPath(subpath, hex)
              && IsUploaded(env, s', disk.files, disk.folders, q, path.value, hex)
            else disk.faulty || !CanBeUploaded(env, old(disk.files), q)
  {
    NewNameIsUnused(env, s, q, hex);
    s' := s;
    var uploaded;
    ghost var trace;
    uploaded, trace := Handlers.HandleUpload(env, disk, name, subpath, true, parts, tailBroken, hex);
    if uploaded.Err? {
      if Admissible(env, q) && !disk.faulty {
        Handlers.SucceedsIff(env, s, hex, q, disk.files, disk.folders, true, uploaded, trace);
      }
      return None, s';
    }
    s' := AfterUpload(env, s, hex, q, disk.files, disk.folders, disk.faulty, uploaded.value, trace);
    path := Some(uploaded.value);
  }

  /** This state shows this disk, with the new drop at its path. */
  ghost predicate IsUploaded(env: Env, s: State, files: map<Loc, Content>, folders: set<Folder>, q: Request, path: string, hex: string) {
    && Inv(env, s) && s.files == files && s.folders == folders && hex in s.requests && s.requests[hex] == q
    && IsDropAt(s, q.vault, path, hex) && hex !in s.stripped && Fit(SightsOf(AtRest(s)))
    && IsPayloadPath(path) && (IsValidSubpath(path) <==> q.subpath != Some(""))
  }

  lemma FetchedIffInOrder(env: Env, s: State, files: map<Loc, Content>, before: map<Loc, Content>, folders: set<Folder>, q: Request,
                          path: string, hex: string, password: string, range: Option<string>)
    requires IsUploaded(env, s, files, folders, q, path, hex) && CanBeUploaded(env, before, q)
    ensures CanBeFetched(env, s, hex, q.vault, path, password, range) <==> AllInOrder(env, before, q, path, range, password)
  {}

  /** Upload, unlock and download on the disk of any reachable state: everything that runs between the form
      fields of the uploader and the body that the downloader receives. What arrives is what the upload
      deserves; on a disk without faults it arrives exactly if all is in order and the hour has not passed. */
  method UploadUnlockDownload(env: Env, disk: Handlers.Disk, sessions: Sessions.SessionTable, ghost s: State,
                              name: string, subpath: Option<string>, parts: seq<Multipart.Part>, tailBroken: bool, hex: string,
                              password: string, unlockedAt: nat, range: Option<string>, now: nat, ghost q: Request)
    returns (r: Option<Response>)
    requires Inv(env, s) && s.files == disk.files && s.folders == disk.folders
    requires q == Request(name, subpath, Multipart.WholeAll(parts), tailBroken) && IsNewName(s, q, hex)
    requires Multipart.SizesFit(q.fields) && |PayloadBytes(q)| <= U64_MAX
    modifies disk, sessions
    ensures r.Some? ==> Arrives(env, q, Handlers.UploadedPath(subpath, hex), range, r.value)
    ensures var fine := && AllInOrder(env, old(disk.files), q, Handlers.UploadedPath(subpath, hex), range, password)
                        && now <= unlockedAt + Sessions.LIFETIME;
            (r.Some? ==> fine) && (fine && !disk.faulty ==> r.Some?)
  {
    var path;
    ghost var s';
    path, s' := Upload(env, disk, s, q, name, subpath, parts, tailBroken, hex);
    if path.None? {
      return None;
    }
    FetchedIffInOrder(env, s', disk.files, old(disk.files), disk.folders, q, path.value, hex, password, range);
    var view := View(disk.files, disk.folders);
    r := UnlockAndDownload(env, Sights(view, view, view, view), disk.faulty, sessions, s', hex, name, path.value,
                           password, unlockedAt, range, now);
  }

  /** The state that a successful upload leads to. */
  lemma AfterUpload(env: Env, s: State, hex: string, q: Request, files: map<Loc, Content>, folders: set<Folder>,
                    faulty: bool, path: string, trace: Handlers.Trace) returns (s': State)
    requires Inv(env, s) && IsNewName(s, q, hex) && Admissible(env, q)
    requires Handlers.Explains(env, q, hex, s.files, s.folders, files, folders, faulty, true, Ok(path), trace)
    ensures IsUploaded(env, s', files, folders, q, path, hex)
    ensures path == Handlers.UploadedPath(q.subpath, hex) && !Blocked(s.files, q, |DirOf(q)|)
  {
    Handlers.PassableIsNotBlocked(env, s, q, |DirOf(q)|);
    s' := Handlers.NewUploadRuns(env, s, hex, q, trace.ops);
    Handlers.SameDropSameFiles(s', hex, q, s.files, files, trace.drop);
    Handlers.NewDropIsWhole(env, q, trace.ops);
    FilesOfDrop(s', hex, trace.drop);
    Handlers.UploadedPathIff(env, q, hex);
    MomentsFit(env, AtRest(s'));
  }

  lemma NewNameIsUnused(env: Env, s: State, q: Request, hex: string)
    requires Inv(env, s) && IsNewName(s, q, hex)
    ensures Handlers.IsUnused(s.files, s.folders, q, hex)
  {
    forall loc, kind: Kind | loc in s.files ensures loc.name != DropName(kind, hex) {
      var h, k := OwnerOf(s, loc);
      DropNamesDistinct(k, h, kind, hex);
    }
  }
}
