/**
 The download and metadata handlers. A request looks at the disk several times, and uploads and deletes
 go on in between; what it is answered depends on what it sees each time.
 */
module Reading {
  import opened Prelude
  import opened Text
  import opened Crypto
  import opened Names
  import opened Metadata
  import opened Vaults
  import opened Store
  import opened Commit
  import opened Listing
  import opened Download
  import Bodies
  import Config
  import HttpRange
  import Multipart
  import Sessions
  import Streams

  // ---------- The download handler ----------

  datatype Refusal =
    | InvalidPath
    | NotAPayload
    | VaultNotFound
    | PermissionDenied
    | Unauthorized(why: Sessions.AuthError)
    | FileNotFound
    | Internal

  /** A stored file as the decryptor meets it. An unfinished file does not decrypt to its end. */
  function AgeOf(c: Content): Streams.AgeFile {
    match c
    case Closed(recipient, Data(bytes)) => Streams.Sealed(recipient, bytes)
    case _ => Streams.NotAge
  }

  /** Unfinished files and records do not open; a finished payload opens for the key it was sealed for. */
  lemma AgeOfIs(identity: Identity, key: Recipient, plain: Plain)
    ensures !Streams.Opens(identity, AgeOf(Open(plain)))
    ensures Streams.Opens(identity, AgeOf(Closed(key, plain))) <==> plain.Data? && key == Public(identity)
    ensures plain.Data? ==> AgeOf(Closed(key, plain)).plain == plain.bytes
  {}

  /** The name a browser is told: the recorded one without directories, or the drop's own. */
  function ResolvedName(m: FileMetadata, path: string): string {
    NameFor(match m.filename { case None => None case Some(f) => FileName(f) }, path)
  }

  function NameFor(recorded: Option<string>, path: string): string {
    recorded.GetOr(match FileName(path) { case Some(n) => TrimEndMatches(n, ".age") case None => "file" })
  }

  /** What is answered for a payload and its record. */
  function Answer(plain: seq<byte>, m: FileMetadata, path: string, range: Option<string>): Response
    requires |plain| <= U64_MAX
  {
    var filename := ResolvedName(m, path);
    match range
    case None => WholeFile(filename, None, plain)
    case Some(header) =>
      match m.filesize
      case Some(total) => FastPath(plain, total, header, filename)
      case None => SimplePath(plain, header, filename)
  }

  /** The answer goes out if its headers can be built. */
  function Given(answer: Response): Result<Response, Refusal> {
    if CanBuild(answer) then Ok(answer) else Err(Internal)
  }

  /** The payload is opened a second time for a range that the recorded size allows. */
  predicate Reopens(m: FileMetadata, range: Option<string>) {
    range.Some? && m.filesize.Some? && HttpRange.ParseSingleRange(range.value, m.filesize.value).Some?
  }

  /** The checks of the reading handlers up to their session check. */
  function PathRefusal(env: Env, name: string, path: string, allowed: Config.Permissions -> bool): Option<Refusal> {
    if !IsValidName(name) || !IsValidSubpath(path) then Some(InvalidPath)
    else if !IsPayloadPath(path) then Some(NotAPayload)
    else if name !in env.vaults then Some(VaultNotFound)
    else if !allowed(env.vaults[name].permissions) then Some(PermissionDenied)
    else None
  }

  function AllowsDownload(p: Config.Permissions): bool {
    p.allowDownload
  }

  /** The request is in order: it names a payload in a vault. */
  predicate NamesPayload(env: Env, name: string, path: string) {
    IsValidName(name) && IsValidSubpath(path) && IsPayloadPath(path) && name in env.vaults
  }

  predicate MayDownload(env: Env, name: string, path: string) {
    NamesPayload(env, name, path) && env.vaults[name].permissions.allowDownload
  }

  predicate MayReadMetadata(env: Env, name: string, path: string) {
    NamesPayload(env, name, path) && env.vaults[name].permissions.allowMetadata
  }

  /** Both checks, each with its own flag; the first that fails decides. */
  lemma PathRefusalsInOrder(env: Env, name: string, path: string)
    ensures PathRefusal(env, name, path, AllowsDownload) ==
            FirstFailing([(IsValidName(name) && IsValidSubpath(path), InvalidPath), (IsPayloadPath(path), NotAPayload),
                          (name in env.vaults, VaultNotFound), (MayDownload(env, name, path), PermissionDenied)])
    ensures PathRefusal(env, name, path, AllowsMetadata) ==
            FirstFailing([(IsValidName(name) && IsValidSubpath(path), InvalidPath), (IsPayloadPath(path), NotAPayload),
                          (name in env.vaults, VaultNotFound), (MayReadMetadata(env, name, path), PermissionDenied)])
  {
    FirstOfFour((IsValidName(name) && IsValidSubpath(path), InvalidPath), (IsPayloadPath(path), NotAPayload),
                (name in env.vaults, VaultNotFound), (MayDownload(env, name, path), PermissionDenied));
    FirstOfFour((IsValidName(name) && IsValidSubpath(path), InvalidPath), (IsPayloadPath(path), NotAPayload),
                (name in env.vaults, VaultNotFound), (MayReadMetadata(env, name, path), PermissionDenied));
  }

  lemma MayIffNotRefused(env: Env, name: string, path: string)
    ensures MayDownload(env, name, path) <==> PathRefusal(env, name, path, AllowsDownload) == None
    ensures MayReadMetadata(env, name, path) <==> PathRefusal(env, name, path, AllowsMetadata) == None
  {}

  /** The disk at one moment. */
  datatype View = View(files: map<Loc, Content>, folders: set<Folder>)

  /** The disk as a download meets it: when it looks whether the payload exists, opens it, reads the
      sidecar, and opens the payload again for a range. */
  datatype Sights = Sights(seen: View, first: View, sidecar: View, again: View)

  /** Files with a payload name hold less than 2^64 bytes. */
  ghost predicate PayloadsFit(files: map<Loc, Content>) {
    forall loc :: loc in files && IsPayloadPath(loc.name) ==>
      match AgeOf(files[loc]) { case Sealed(_, plain) => |plain| <= U64_MAX case _ => true }
  }

  ghost predicate Fit(sights: Sights) {
    PayloadsFit(sights.first.files) && PayloadsFit(sights.again.files)
  }

  predicate CanOpen(files: map<Loc, Content>, identity: Identity, loc: Loc) {
    loc in files && Streams.Opens(identity, AgeOf(files[loc]))
  }

  /** The part of download_file behind the session check. */
  function ServeFile(sights: Sights, identity: Identity, name: string, path: string, range: Option<string>): Result<Response, Refusal>
    requires Fit(sights) && IsPayloadPath(path)
  {
    var loc := PathLoc(name, path);
    PathNamesPayload(name, path);
    if !Exists(sights.seen.files, sights.seen.folders, loc) then Err(FileNotFound)
    else if !CanOpen(sights.first.files, identity, loc) then Err(Internal)
    else
      match ReadSidecar(sights.sidecar.files, identity, loc)
      case None => Err(Internal)
      case Some(m) =>
        if !Reopens(m, range) then Given(Answer(AgeOf(sights.first.files[loc]).plain, m, path, range))
        else if !CanOpen(sights.again.files, identity, loc) then Err(Internal)
        else Given(Answer(AgeOf(sights.again.files[loc]).plain, m, path, range))
  }

  function DownloadOutcome(env: Env, sights: Sights, table: Sessions.Table, name: string, path: string,
                           range: Option<string>, now: nat): Result<Response, Refusal>
    requires Fit(sights)
  {
    match PathRefusal(env, name, path, AllowsDownload)
    case Some(refusal) => Err(refusal)
    case None =>
      match Sessions.Check(table, name, now)
      case Err(why) => Err(Unauthorized(why))
      case Ok(identity) => ServeFile(sights, identity, name, path, range)
  }

  /** Why a download is refused behind those checks: no session, an expired one, no such file. Whatever else
      goes wrong is an internal error. */
  lemma DownloadRefusals(env: Env, sights: Sights, table: Sessions.Table, name: string, path: string, range: Option<string>, now: nat)
    requires Fit(sights) && MayDownload(env, name, path)
    ensures var outcome := DownloadOutcome(env, sights, table, name, path, range, now);
            if name !in table then outcome == Err(Unauthorized(Sessions.Locked))
            else if table[name].expiresAt < now then outcome == Err(Unauthorized(Sessions.Expired))
            else if PathLoc(name, path) !in sights.seen.files && Place(PathLoc(name, path)) !in sights.seen.folders
            then outcome == Err(FileNotFound)
            else outcome.Ok? || outcome == Err(Internal)
  {
    MayIffNotRefused(env, name, path);
  }

  /** A path that looks like a payload leads to a file whose name does. */
  lemma PathNamesPayload(vault: string, path: string)
    requires IsPayloadPath(path)
    ensures IsPayloadPath(PathLoc(vault, path).name)
  {
    SuffixStaysInLastSegment(path);
  }

  lemma {:induction false} SuffixStaysInLastSegment(path: string)
    requires EndsWith(path, ".age")
    ensures var comps := Components(path);
            comps != [] && EndsWith(comps[|comps| - 1], ".age")
            && (EndsWith(comps[|comps| - 1], ".meta.age") ==> EndsWith(path, ".meta.age"))
    decreases |path|
  {
    match SplitOnce(path, '/')
    case None =>
    case Some((first, rest)) =>
      SuffixBehindSlash(first, rest);
      SuffixStaysInLastSegment(rest);
      var comps := Components(rest);
      assert Components(path)[|Components(path)| - 1] == comps[|comps| - 1];
  }

  lemma SuffixBehindSlash(first: string, rest: string)
    requires EndsWith(first + ['/'] + rest, ".age")
    ensures EndsWith(rest, ".age")
    ensures EndsWith(rest, ".meta.age") ==> EndsWith(first + ['/'] + rest, ".meta.age")
  {
    var path := first + ['/'] + rest;
    if |rest| < 4 {
      NotSuffix(path, ".age", 3 - |rest|);
    } else {
      assert path[|path| - 4..] == rest[|rest| - 4..];
    }
    if EndsWith(rest, ".meta.age") {
      assert path[|path| - 9..] == rest[|rest| - 9..];
    }
  }

  /** The part of download_file behind the session check; on a faulty disk any read may fail. */
  method Serve(sights: Sights, faulty: bool, identity: Identity, name: string, path: string, range: Option<string>)
    returns (r: Result<Response, Refusal>)
    requires Fit(sights) && IsPayloadPath(path)
    ensures (faulty && r == Err(Internal)) || r == ServeFile(sights, identity, name, path, range)
  {
    PathNamesPayload(name, path);
    var filepath := PathLoc(name, path);
    if filepath !in sights.seen.files && Place(filepath) !in sights.seen.folders {
      return Err(FileNotFound);
    }
    if filepath !in sights.first.files || !Streams.Opens(identity, AgeOf(sights.first.files[filepath])) {
      return Err(Internal);
    }
    var file := AgeOf(sights.first.files[filepath]);
    var metadata := ReadSidecar(sights.sidecar.files, identity, filepath);
    if metadata.None? {
      return Err(Internal);
    }
    if faulty {
      if * {
        return Err(Internal); // the sidecar could not be read to its end
      }
    }
    var filename := ResolvedName(metadata.value, path);
    var served;
    if range.None? {
      served := SendAll(identity, file, faulty, filename);
    } else if metadata.value.filesize.Some? {
      var total := metadata.value.filesize.value;
      if HttpRange.ParseSingleRange(range.value, total).Some? {
        if !CanOpen(sights.again.files, identity, filepath) {
          return Err(Internal);
        }
        file := AgeOf(sights.again.files[filepath]);
      }
      served := ServeFast(identity, file, faulty, total, range.value, filename);
    } else {
      served := ServeSimple(identity, file, faulty, range.value, filename);
    }
    r := if served.Ok? then Ok(served.value) else Err(Internal);
  }

  method SendAll(identity: Identity, file: Streams.AgeFile, faulty: bool, filename: string)
    returns (r: Result<Response, ServeError>)
    requires Streams.Opens(identity, file)
    ensures (faulty && r == Err(Unread(Streams.Io))) || r == Built(WholeFile(filename, None, file.plain))
  {
    var body := new Streams.Sink(false);
    var copied := Streams.DecryptAll(identity, file, faulty, body);
    if copied.Err? {
      return Err(Unread(copied.error));
    }
    assert body.bytes == file.plain;
    return Built(WholeFile(filename, None, body.bytes));
  }

  /** download_file: the answer, and the entry it may drop from the session table. */
  method DownloadFile(env: Env, sights: Sights, faulty: bool, sessions: Sessions.SessionTable, name: string, path: string,
                      range: Option<string>, now: nat)
    returns (r: Result<Response, Refusal>)
    requires Fit(sights)
    modifies sessions
    ensures (faulty && r == Err(Internal)) || r == DownloadOutcome(env, sights, old(sessions.table), name, path, range, now)
    ensures sessions.table == if PathRefusal(env, name, path, AllowsDownload).Some? then old(sessions.table)
                              else Sessions.Apply(env, old(sessions.table), Sessions.At(now, Sessions.EvictingCheck(name)))
  {
    if !IsValidName(name) || !IsValidSubpath(path) {
      return Err(InvalidPath);
    }
    if !EndsWith(path, ".age") || EndsWith(path, ".meta.age") {
      return Err(NotAPayload);
    }
    if name !in env.vaults {
      return Err(VaultNotFound);
    }
    if !env.vaults[name].permissions.allowDownload {
      return Err(PermissionDenied);
    }
    var check := sessions.CheckAndEvict(env, name, now);
    if check.Err? {
      return Err(Unauthorized(check.error));
    }
    r := Serve(sights, faulty, check.value, name, path, range);
  }

  // ---------- What a download is answered ----------

  /** The path leads to the payload of this drop, which is committed and not deleted. */
  predicate IsDropAt(s: State, vault: string, path: string, hex: string) {
    && hex in s.requests && PathLoc(vault, path) == LocOf(s.requests[hex], hex, Payload)
    && hex in s.committed && hex !in s.deleted
  }

  /** The sidecar of this drop is there and its record can be read. */
  ghost predicate HasRecord(env: Env, s: State, hex: string) {
    IsReadable(env, s, hex) && LocOf(s.requests[hex], hex, Sidecar) in s.files
  }

  lemma PayloadFits(env: Env, s: State, loc: Loc)
    requires Inv(env, s) && loc in s.files && IsPayloadPath(loc.name)
    ensures AgeOf(s.files[loc]).Sealed? && |AgeOf(s.files[loc]).plain| <= U64_MAX
  {
    OwnerOfPayloadPath(env, s, loc);
    var hex :| Owns(s.requests, loc, hex, Payload) && hex in s.committed && hex !in s.deleted;
    DropHolds(env, s, hex);
  }

  lemma ReachablePayloadsFit(env: Env, s: State)
    requires Inv(env, s)
    ensures PayloadsFit(s.files)
  {
    forall loc | loc in s.files && IsPayloadPath(loc.name)
      ensures AgeOf(s.files[loc]).Sealed? && |AgeOf(s.files[loc]).plain| <= U64_MAX
    {
      PayloadFits(env, s, loc);
    }
  }

  /** The answer that an upload deserves: computed from the uploaded fields alone. */
  ghost function Deserved(env: Env, r: Request, path: string, range: Option<string>): Response
    requires Admissible(env, r) && BodyOutcome(env, r).Ok?
  {
    Answer(PayloadBytes(r), BodyOutcome(env, r).value, path, range)
  }

  /** What is found behind a payload path in a reachable state is a drop. */
  lemma FoundIsDrop(env: Env, s: State, vault: string, path: string)
    requires Inv(env, s) && IsPayloadPath(path) && PathLoc(vault, path) in s.files
    ensures exists hex :: IsDropAt(s, vault, path, hex)
  {
    PathNamesPayload(vault, path);
    OwnerOfPayloadPath(env, s, PathLoc(vault, path));
    var hex :| Owns(s.requests, PathLoc(vault, path), hex, Payload) && hex in s.committed && hex !in s.deleted;
    assert IsDropAt(s, vault, path, hex);
  }

  /** With the vault key a drop opens to the bytes of its upload. */
  lemma DropOpens(env: Env, s: State, identity: Identity, vault: string, path: string, hex: string)
    requires Inv(env, s) && IsDropAt(s, vault, path, hex)
    requires vault in env.vaults && Public(identity) == env.vaults[vault].recipient
    ensures CanOpen(s.files, identity, PathLoc(vault, path))
    ensures AgeOf(s.files[PathLoc(vault, path)]).plain == PayloadBytes(s.requests[hex])
  {
    DropHolds(env, s, hex);
  }

  /** What reading the sidecar gives, wherever its drop stands. */
  lemma RecordIsRead(env: Env, s: State, identity: Identity, vault: string, path: string, hex: string)
    requires Inv(env, s) && hex in s.requests && PathLoc(vault, path) == LocOf(s.requests[hex], hex, Payload)
    requires vault in env.vaults && Public(identity) == env.vaults[vault].recipient
    ensures HasRecord(env, s, hex) <==> ReadSidecar(s.files, identity, PathLoc(vault, path)).Some?
    ensures HasRecord(env, s, hex) ==>
              ReadSidecar(s.files, identity, PathLoc(vault, path)) == Some(BodyOutcome(env, s.requests[hex]).value)
  {
    var loc := PathLoc(vault, path);
    DropNameRoles(hex);
    assert loc.(name := DropName(Sidecar, hex)) == LocOf(s.requests[hex], hex, Sidecar);
    if LocOf(s.requests[hex], hex, Sidecar) in s.files { SidecarIsRead(env, s, hex, identity, loc); }
  }

  /** The store at the moments of one download, in this order. */
  datatype Moments = Moments(seen: State, first: State, sidecar: State, again: State)

  ghost predicate Successive(env: Env, m: Moments) {
    && Inv(env, m.seen) && Inv(env, m.first) && Inv(env, m.sidecar) && Inv(env, m.again)
    && Extends(m.seen, m.first) && Extends(m.first, m.sidecar) && Extends(m.sidecar, m.again)
  }

  function ViewOf(s: State): View {
    View(s.files, s.folders)
  }

  function SightsOf(m: Moments): Sights {
    Sights(ViewOf(m.seen), ViewOf(m.first), ViewOf(m.sidecar), ViewOf(m.again))
  }

  /** The drop was there when it was looked for and opened, its record when it was read, and the payload
      still if it is opened again. */
  ghost predicate IsThere(env: Env, m: Moments, vault: string, path: string, range: Option<string>, hex: string) {
    && IsDropAt(m.seen, vault, path, hex) && IsDropAt(m.first, vault, path, hex) && HasRecord(env, m.sidecar, hex)
    && (Deserved(env, m.sidecar.requests[hex], path, range).status == 206 ==> IsDropAt(m.again, vault, path, hex))
  }

  /** The drop is there and deserves this answer, which can be built. */
  ghost predicate Yields(env: Env, m: Moments, vault: string, path: string, range: Option<string>, hex: string, resp: Response) {
    && IsThere(env, m, vault, path, range, hex)
    && resp == Deserved(env, m.sidecar.requests[hex], path, range) && CanBuild(resp)
  }

  /** A place that holds a file later was no directory before. */
  lemma SeenAsFile(env: Env, s: State, later: State, loc: Loc)
    requires Inv(env, later) && Extends(s, later) && loc in later.files
    ensures Exists(s.files, s.folders, loc) <==> loc in s.files
  {}

  lemma SameDropLater(env: Env, s: State, later: State, vault: string, path: string, hex: string)
    requires Inv(env, s) && Inv(env, later) && Extends(s, later) && IsPayloadPath(path)
    requires hex in later.requests && PathLoc(vault, path) == LocOf(later.requests[hex], hex, Payload)
    ensures PathLoc(vault, path) in s.files <==> IsDropAt(s, vault, path, hex)
  {
    if PathLoc(vault, path) in s.files {
      FoundIsDrop(env, s, vault, path);
      var h :| IsDropAt(s, vault, path, h);
      LocsDistinct(s.requests[h], h, Payload, later.requests[hex], hex, Payload);
    }
    if IsDropAt(s, vault, path, hex) { PresentIffCommitted(env, s, hex); }
  }

  lemma DropAtIsUnique(env: Env, s: State, vault: string, path: string, hex1: string, hex2: string)
    requires Inv(env, s) && IsDropAt(s, vault, path, hex1) && IsDropAt(s, vault, path, hex2)
    ensures hex1 == hex2
  {
    LocsDistinct(s.requests[hex1], hex1, Payload, s.requests[hex2], hex2, Payload);
  }

  lemma MomentsFit(env: Env, m: Moments)
    requires Successive(env, m)
    ensures Fit(SightsOf(m))
  {
    ReachablePayloadsFit(env, m.first);
    ReachablePayloadsFit(env, m.again);
  }

  /** A drop of the path can be opened exactly while it is there, and then shows its upload. */
  lemma OpensIff(env: Env, s: State, identity: Identity, vault: string, path: string, hex: string)
    requires Inv(env, s) && IsPayloadPath(path) && hex in s.requests && PathLoc(vault, path) == LocOf(s.requests[hex], hex, Payload)
    requires vault in env.vaults && Public(identity) == env.vaults[vault].recipient
    ensures CanOpen(s.files, identity, PathLoc(vault, path)) <==> IsDropAt(s, vault, path, hex)
    ensures IsDropAt(s, vault, path, hex) ==> AgeOf(s.files[PathLoc(vault, path)]).plain == PayloadBytes(s.requests[hex])
  {
    SameDropLater(env, s, s, vault, path, hex);
    if IsDropAt(s, vault, path, hex) { DropOpens(env, s, identity, vault, path, hex); }
  }

  /** What one given drop at the path makes of the request. */
  lemma ServedFromDrop(env: Env, m: Moments, identity: Identity, vault: string, path: string, range: Option<string>, hex: string)
    requires Successive(env, m) && Fit(SightsOf(m)) && IsPayloadPath(path) && IsDropAt(m.first, vault, path, hex)
    requires vault in env.vaults && Public(identity) == env.vaults[vault].recipient
    ensures var served := ServeFile(SightsOf(m), identity, vault, path, range);
            if IsThere(env, m, vault, path, range, hex) then served == Given(Deserved(env, m.sidecar.requests[hex], path, range))
            else served.Err?
  {
    var loc := PathLoc(vault, path);
    OpensIff(env, m.first, identity, vault, path, hex);
    OpensIff(env, m.again, identity, vault, path, hex);
    SeenAsFile(env, m.seen, m.first, loc);
    SameDropLater(env, m.seen, m.first, vault, path, hex);
    RecordIsRead(env, m.sidecar, identity, vault, path, hex);
    if HasRecord(env, m.sidecar, hex) { ReopensIff(env, m.sidecar.requests[hex], path, range); }
    ServeSteps(SightsOf(m), identity, vault, path, range);
  }

  /** The payload is opened again exactly for an answer that carries a part of it. */
  lemma ReopensIff(env: Env, r: Request, path: string, range: Option<string>)
    requires Admissible(env, r) && BodyOutcome(env, r).Ok?
    ensures Reopens(BodyOutcome(env, r).value, range) <==> Deserved(env, r, path, range).status == 206
  {
    RecordedSizeIff(env, r);
  }

  /** The steps of the handler, one after another. */
  lemma ServeSteps(sights: Sights, identity: Identity, vault: string, path: string, range: Option<string>)
    requires Fit(sights) && IsPayloadPath(path)
    ensures var loc := PathLoc(vault, path);
            var served, record := ServeFile(sights, identity, vault, path, range), ReadSidecar(sights.sidecar.files, identity, loc);
            if && Exists(sights.seen.files, sights.seen.folders, loc) && CanOpen(sights.first.files, identity, loc) && record.Some?
               && (Reopens(record.value, range) ==> CanOpen(sights.again.files, identity, loc))
            then
              var plain := AgeOf((if Reopens(record.value, range) then sights.again else sights.first).files[loc]).plain;
              |plain| <= U64_MAX && served == Given(Answer(plain, record.value, path, range))
            else served.Err?
  {
    PathNamesPayload(vault, path);
  }

  lemma OneYields(env: Env, m: Moments, vault: string, path: string, range: Option<string>, hex: string, h: string, resp: Response)
    requires Inv(env, m.first) && IsDropAt(m.first, vault, path, hex) && Yields(env, m, vault, path, range, h, resp)
    ensures h == hex
  {
    DropAtIsUnique(env, m.first, vault, path, h, hex);
  }

  lemma NoneYields(env: Env, m: Moments, vault: string, path: string, range: Option<string>, h: string, resp: Response)
    requires Inv(env, m.first) && Yields(env, m, vault, path, range, h, resp)
    ensures PathLoc(vault, path) in m.first.files
  {
    PresentIffCommitted(env, m.first, h);
  }

  lemma ServedByThis(env: Env, m: Moments, identity: Identity, vault: string, path: string, range: Option<string>, resp: Response,
                     hex: string)
    requires Successive(env, m) && Fit(SightsOf(m)) && IsPayloadPath(path) && IsDropAt(m.first, vault, path, hex)
    requires vault in env.vaults && Public(identity) == env.vaults[vault].recipient
    ensures ServeFile(SightsOf(m), identity, vault, path, range) == Ok(resp) <==> Yields(env, m, vault, path, range, hex, resp)
  {
    ServedFromDrop(env, m, identity, vault, path, range, hex);
    GivenIffYields(env, m, vault, path, range, resp, hex, ServeFile(SightsOf(m), identity, vault, path, range));
  }

  lemma GivenIffYields(env: Env, m: Moments, vault: string, path: string, range: Option<string>, resp: Response, hex: string,
                       served: Result<Response, Refusal>)
    requires IsThere(env, m, vault, path, range, hex) ==> served == Given(Deserved(env, m.sidecar.requests[hex], path, range))
    requires !IsThere(env, m, vault, path, range, hex) ==> served.Err?
    ensures served == Ok(resp) <==> Yields(env, m, vault, path, range, hex, resp)
  {}

  /** What is served is exactly what some drop yields. */
  lemma ServedIff(env: Env, m: Moments, identity: Identity, vault: string, path: string, range: Option<string>, resp: Response)
    requires Successive(env, m) && Fit(SightsOf(m)) && IsPayloadPath(path)
    requires vault in env.vaults && Public(identity) == env.vaults[vault].recipient
    ensures ServeFile(SightsOf(m), identity, vault, path, range) == Ok(resp) <==>
            exists hex :: Yields(env, m, vault, path, range, hex, resp)
  {
    var served := ServeFile(SightsOf(m), identity, vault, path, range);
    if PathLoc(vault, path) in m.first.files {
      FoundIsDrop(env, m.first, vault, path);
      var hex :| IsDropAt(m.first, vault, path, hex);
      ServedByThis(env, m, identity, vault, path, range, resp, hex);
      if h :| Yields(env, m, vault, path, range, h, resp) { OneYields(env, m, vault, path, range, hex, h, resp); }
    } else {
      assert served.Err?;
      if h :| Yields(env, m, vault, path, range, h, resp) { NoneYields(env, m, vault, path, range, h, resp); }
    }
  }

  /** Without a range: status 200, all bytes that were uploaded, and the name. */
  lemma DeservedWhole(env: Env, r: Request, hex: string, vault: string, path: string)
    requires Admissible(env, r) && BodyOutcome(env, r).Ok? && IsHex(hex) && PathLoc(vault, path) == LocOf(r, hex, Payload)
    ensures var answer := Deserved(env, r, path, None);
            && answer.status == 200 && answer.body == Bytes(PayloadBytes(r))
            && answer.filename == Some(match BodyOutcome(env, r).value.filename
                                       case None => "drop-" + hex
                                       case Some(f) => (match FileName(f) case None => "drop-" + hex case Some(name) => name))
            && answer.contentType == "application/octet-stream" && answer.contentLength == None && answer.contentRange == None
  {
    NameOfDownload(r, hex, vault, path, BodyOutcome(env, r).value);
  }

  /** With a range: what the header selects from as many bytes as the last payload part had, taken from all
      bytes that were uploaded, and the numbers that belong to it; or a refusal that names that size. */
  lemma DeservedRange(env: Env, r: Request, path: string, header: string)
    requires Admissible(env, r) && BodyOutcome(env, r).Ok?
    ensures exists total: u64 :: Bodies.IsLastSize(r.fields, total) &&
              match HttpRange.ParseSingleRange(header, total)
              case None => Deserved(env, r, path, Some(header)) == NotSatisfiable(total)
              case Some((start, end)) =>
                IsPartial(Deserved(env, r, path, Some(header)), start, end, total, ResolvedName(BodyOutcome(env, r).value, path),
                          PayloadBytes(r)[Min(start, |PayloadBytes(r)|)..Min(end + 1, |PayloadBytes(r)|)])
  {
    RecordedSizeIff(env, r);
    var m := BodyOutcome(env, r).value;
    var total := m.filesize.value;
    Bodies.RecordedIff(r.fields, r.tailBroken, env.json, "", total);
    FastPathIs(PayloadBytes(r), total, header, ResolvedName(m, path));
  }

  /** A record without a size, as another writer of sidecars might leave it: everything is decrypted, and the
      range is taken from that. */
  lemma SizelessRange(plain: seq<byte>, m: FileMetadata, path: string, header: string)
    requires |plain| <= U64_MAX && m.filesize == None
    ensures match HttpRange.ParseSingleRange(header, |plain|)
            case None => Answer(plain, m, path, Some(header)) == NotSatisfiable(|plain|)
            case Some((start, end)) =>
              IsPartial(Answer(plain, m, path, Some(header)), start, end, |plain|, ResolvedName(m, path), plain[start..end + 1])
  {
    SimplePathIs(plain, header, ResolvedName(m, path));
  }

  /** With a range the answer is that of decrypting everything and slicing, for some range exactly if
      for all ranges, and exactly if all payload parts of the upload but the last were empty. */
  lemma DeservedRangeIff(env: Env, r: Request, path: string, header: string)
    requires Admissible(env, r) && BodyOutcome(env, r).Ok?
    ensures Deserved(env, r, path, Some(header)) ==
              SimplePath(PayloadBytes(r), header, ResolvedName(BodyOutcome(env, r).value, path))
       <==> Multipart.OnlyLastFileHasBytes(r.fields)
  {
    RecordedSizeIff(env, r);
    var m := BodyOutcome(env, r).value;
    FastIsSimpleIff(PayloadBytes(r), m.filesize.value, header, ResolvedName(m, path));
  }

  /** No range reaches behind the length of the last payload part: that is the recorded size. */
  lemma RangesEndAtLastPart(env: Env, r: Request, path: string, header: string)
    requires Admissible(env, r) && BodyOutcome(env, r).Ok? && Deserved(env, r, path, Some(header)).status == 206
    ensures exists start, end :: 0 <= start <= end && end < Multipart.FileSize(r.fields).GetOr(0)
              && Deserved(env, r, path, Some(header)).body == Bytes(Streams.Slice(PayloadBytes(r), start, end))
  {
    RecordedSizeIff(env, r);
    var total := BodyOutcome(env, r).value.filesize.value;
    var range := HttpRange.ParseSingleRange(header, total);
    assert range.Some?;
    var (start, end) := range.value;
    assert 0 <= start <= end && end < total;
  }

  /** An upload of two payload parts of one byte each: both bytes are stored, the whole download gives both,
      and every range that is served gives the first one only; asking for the first byte is served. */
  lemma TwoPartsAreCut(env: Env, r: Request, a: byte, b: byte, name: string, path: string)
    requires Admissible(env, r) && BodyOutcome(env, r).Ok?
    requires r.fields == [Multipart.Field("file", Some(name), [a], false), Multipart.Field("file", None, [b], false)]
    ensures Deserved(env, r, path, None).body == Bytes([a, b])
    ensures forall header :: Deserved(env, r, path, Some(header)).status == 206 ==>
              Deserved(env, r, path, Some(header)).body == Bytes([a])
    ensures Deserved(env, r, path, Some(HttpRange.Print(0, 0))).status == 206
    ensures CanBuild(Deserved(env, r, path, Some(HttpRange.Print(0, 0)))) <==>
            IsHeaderText(ResolvedName(BodyOutcome(env, r).value, path))
  {
    TwoParts(r.fields, name, a, b);
    RecordedSizeIff(env, r);
    var m := BodyOutcome(env, r).value;
    assert m.filesize == Some(1);
    ShortSizeCutsTheBody(a, b, ResolvedName(m, path));
  }

  lemma TwoParts(fields: seq<Multipart.Field>, name: string, a: byte, b: byte)
    requires fields == [Multipart.Field("file", Some(name), [a], false), Multipart.Field("file", None, [b], false)]
    ensures Multipart.Payload(fields) == [a, b] && Multipart.FileSize(fields) == Some(1)
  {
    assert fields[..1] == [fields[0]] && fields[..1][..0] == [];
    assert Multipart.Payload(fields[..1]) == [] + [a];
  }

  /** The name that goes with a download: the recorded one without directories; a drop whose record has
      none is called by its own name without the ending. */
  lemma NameOfDownload(r: Request, hex: string, vault: string, path: string, m: FileMetadata)
    requires IsHex(hex) && PathLoc(vault, path) == LocOf(r, hex, Payload)
    ensures ResolvedName(m, path) ==
            match m.filename
            case None => "drop-" + hex
            case Some(f) => (match FileName(f) case None => "drop-" + hex case Some(name) => name)
  {
    var comps := Components(path);
    assert |DropName(Payload, hex)| == 41;
    assert comps != [] && comps[|comps| - 1] == DropName(Payload, hex) != "..";
    TrimmedDropName(hex);
  }

  lemma TrimmedDropName(hex: string)
    requires IsHex(hex)
    ensures TrimEndMatches(DropName(Payload, hex), ".age") == "drop-" + hex
  {
    var stem, name := "drop-" + hex, DropName(Payload, hex);
    SuffixOf(stem, ".age");
    assert stem[35] == hex[30];
    NotSuffix(stem, ".age", 2);
    assert name[..|name| - 4] == stem;
  }

  // ---------- The metadata handler ----------

  function AllowsMetadata(p: Config.Permissions): bool {
    p.allowMetadata
  }

  /** The disk as a metadata request meets it: when it looks for the sidecar, reads it, and asks for the
      size of the payload. */
  datatype Glances = Glances(seen: View, first: View, sized: View)

  /** Where the handler looks for the record: the repeated trimming makes `x.age.age` lead to that of `x.age`. */
  function SidecarLoc(vault: string, path: string): Loc
    requires IsPayloadPath(path)
  {
    PathNamesPayload(vault, path);
    var loc := PathLoc(vault, path);
    loc.(name := SidecarFor(loc.name).value)
  }

  /** download_metadata behind its session check; `sizeOf` is the size of a file on the disk. */
  function ServeMetadata(g: Glances, identity: Identity, name: string, path: string, sizeOf: SizeOf): Result<FileMetadata, Refusal>
    requires IsPayloadPath(path)
  {
    var loc := PathLoc(name, path);
    if !Exists(g.seen.files, g.seen.folders, SidecarLoc(name, path)) then Err(FileNotFound)
    else
      match ReadSidecar(g.first.files, identity, loc)
      case None => Err(Internal)
      case Some(m) => Ok(if Exists(g.sized.files, g.sized.folders, loc) then m.(filesize := Some(sizeOf(loc))) else m)
  }

  function MetadataOutcome(env: Env, g: Glances, table: Sessions.Table, name: string, path: string,
                           sizeOf: SizeOf, now: nat): Result<FileMetadata, Refusal>
  {
    match PathRefusal(env, name, path, AllowsMetadata)
    case Some(refusal) => Err(refusal)
    case None =>
      match Sessions.Check(table, name, now)
      case Err(why) => Err(Unauthorized(why))
      case Ok(identity) => ServeMetadata(g, identity, name, path, sizeOf)
  }

  /** download_metadata. */
  method DownloadMetadata(env: Env, g: Glances, faulty: bool, sessions: Sessions.SessionTable, name: string, path: string,
                          sizeOf: SizeOf, now: nat)
    returns (r: Result<FileMetadata, Refusal>)
    modifies sessions
    ensures (faulty && r == Err(Internal)) || r == MetadataOutcome(env, g, old(sessions.table), name, path, sizeOf, now)
    ensures sessions.table == if PathRefusal(env, name, path, AllowsMetadata).Some? then old(sessions.table)
                              else Sessions.Apply(env, old(sessions.table), Sessions.At(now, Sessions.EvictingCheck(name)))
  {
    if !IsValidName(name) || !IsValidSubpath(path) {
      return Err(InvalidPath);
    }
    if !EndsWith(path, ".age") || EndsWith(path, ".meta.age") {
      return Err(NotAPayload);
    }
    if name !in env.vaults {
      return Err(VaultNotFound);
    }
    if !env.vaults[name].permissions.allowMetadata {
      return Err(PermissionDenied);
    }
    var check := sessions.CheckAndEvict(env, name, now);
    if check.Err? {
      return Err(Unauthorized(check.error));
    }
    var encryptedFile, metadataFile := PathLoc(name, path), SidecarLoc(name, path);
    if metadataFile !in g.seen.files && Place(metadataFile) !in g.seen.folders {
      return Err(FileNotFound);
    }
    var read := ReadSidecar(g.first.files, check.value, encryptedFile);
    if read.None? {
      return Err(Internal);
    }
    if faulty {
      if * {
        return Err(Internal); // the sidecar could not be read to its end
      }
    }
    var metadata := read.value;
    if encryptedFile in g.sized.files || Place(encryptedFile) in g.sized.folders {
      metadata := metadata.(filesize := Some(sizeOf(encryptedFile)));
    }
    r := Ok(metadata);
  }

  /** Why a metadata request is refused behind its checks: no session, an expired one, no sidecar. Whatever
      else goes wrong is an internal error. */
  lemma MetadataRefusals(env: Env, g: Glances, table: Sessions.Table, name: string, path: string, sizeOf: SizeOf, now: nat)
    requires MayReadMetadata(env, name, path)
    ensures var outcome, sidecar := MetadataOutcome(env, g, table, name, path, sizeOf, now), SidecarLoc(name, path);
            if name !in table then outcome == Err(Unauthorized(Sessions.Locked))
            else if table[name].expiresAt < now then outcome == Err(Unauthorized(Sessions.Expired))
            else if sidecar !in g.seen.files && Place(sidecar) !in g.seen.folders then outcome == Err(FileNotFound)
            else outcome.Ok? || outcome == Err(Internal)
  {
    MayIffNotRefused(env, name, path);
  }

  /** The store at the moments of one metadata request. */
  datatype Instants = Instants(seen: State, first: State, sized: State)

  ghost predicate InOrder(env: Env, i: Instants) {
    && Inv(env, i.seen) && Inv(env, i.first) && Inv(env, i.sized)
    && Extends(i.seen, i.first) && Extends(i.first, i.sized)
  }

  function GlancesOf(i: Instants): Glances {
    Glances(ViewOf(i.seen), ViewOf(i.first), ViewOf(i.sized))
  }

  /** The record of this drop describes the path: its sidecar was seen, and readable when it was opened. */
  ghost predicate Describes(env: Env, i: Instants, vault: string, path: string, sizeOf: SizeOf, hex: string, v: FileMetadata)
    requires IsPayloadPath(path)
  {
    && SidecarLoc(vault, path) in i.seen.files && HasRecord(env, i.first, hex)
    && SidecarLoc(vault, path) == LocOf(i.first.requests[hex], hex, Sidecar)
    && var m, loc := BodyOutcome(env, i.first.requests[hex]).value, PathLoc(vault, path);
       v == if Exists(i.sized.files, i.sized.folders, loc) then m.(filesize := Some(sizeOf(loc))) else m
  }

  lemma OwnerOfSidecar(env: Env, s: State, vault: string, path: string) returns (hex: string)
    requires Inv(env, s) && IsPayloadPath(path) && SidecarLoc(vault, path) in s.files
    ensures hex in s.requests && SidecarLoc(vault, path) == LocOf(s.requests[hex], hex, Sidecar)
  {
    var kind;
    hex, kind := OwnerOf(s, SidecarLoc(vault, path));
    SidecarLocEnds(vault, path);
    OnlySidecarEndsSo(hex, kind);
  }

  lemma SidecarLocEnds(vault: string, path: string)
    requires IsPayloadPath(path)
    ensures EndsWith(SidecarLoc(vault, path).name, ".meta.age")
  {
    PathNamesPayload(vault, path);
    SuffixOf(TrimEndMatches(PathLoc(vault, path).name, ".age"), ".meta.age");
  }

  /** What is described is exactly what some readable sidecar records. */
  lemma DescribedIff(env: Env, i: Instants, identity: Identity, vault: string, path: string, sizeOf: SizeOf, v: FileMetadata)
    requires InOrder(env, i) && IsPayloadPath(path)
    requires vault in env.vaults && Public(identity) == env.vaults[vault].recipient
    ensures ServeMetadata(GlancesOf(i), identity, vault, path, sizeOf) == Ok(v) <==>
            exists hex :: Describes(env, i, vault, path, sizeOf, hex, v)
  {
    if SidecarLoc(vault, path) in i.first.files {
      var hex := OwnerOfSidecar(env, i.first, vault, path);
      PathNamesPayload(vault, path);
      SeenAsFile(env, i.seen, i.first, SidecarLoc(vault, path));
      SidecarIsRead(env, i.first, hex, identity, PathLoc(vault, path));
      forall h | Describes(env, i, vault, path, sizeOf, h, v) ensures h == hex {
        LocsDistinct(i.first.requests[h], h, Sidecar, i.first.requests[hex], hex, Sidecar);
      }
      if ServeMetadata(GlancesOf(i), identity, vault, path, sizeOf) == Ok(v) {
        assert Describes(env, i, vault, path, sizeOf, hex, v);
      }
    }
  }
}
