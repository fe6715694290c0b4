/**
 The upload and delete protocol on the file system, as a step system: any number of uploads and
 deletes in flight, each able to fail at any step, and a crash possible at any moment.
 */
module Store {
  import opened Prelude
  import opened Text
  import opened Crypto
  import opened Names
  import opened Metadata
  import opened Vaults
  import Multipart

  // ---------- Files and requests ----------

  /** A file: the vault it lies in, the directories below the vault, its name. */
  datatype Loc = Loc(vault: string, dir: seq<string>, name: string)

  /** A directory below a vault. */
  datatype Folder = Folder(vault: string, path: seq<string>)

  /** The place of a file, as a directory of the same name would have it. */
  function Place(loc: Loc): Folder {
    Folder(loc.vault, loc.dir + [loc.name])
  }

  function FileAt(folder: Folder): Loc
    requires folder.path != []
  {
    Loc(folder.vault, folder.path[..|folder.path| - 1], folder.path[|folder.path| - 1])
  }

  lemma FileAtPlace(loc: Loc, folder: Folder)
    requires folder.path != []
    ensures FileAt(folder) == loc <==> Place(loc) == folder
  {
    assert folder.path == folder.path[..|folder.path| - 1] + [folder.path[|folder.path| - 1]];
  }

  datatype Plain = Data(bytes: seq<byte>) | Record(pairs: seq<Pair>)

  /** Open: the encryptor has not been closed, the ciphertext is incomplete. */
  datatype Content = Open(written: Plain) | Closed(recipient: Recipient, plain: Plain)

  datatype Request = Request(vault: string, subpath: Option<string>, fields: seq<Multipart.Field>, tailBroken: bool)

  function DirOf(r: Request): (dir: seq<string>)
    ensures Proper(dir)
  {
    match r.subpath
    case None => []
    case Some(path) => Components(path)
  }

  function LocOf(r: Request, hex: string, kind: Kind): Loc {
    Loc(r.vault, DirOf(r), DropName(kind, hex))
  }

  /** Where a relative path points: `vaults_dir.join(name).join(path)`. */
  function PathLoc(vault: string, path: string): Loc {
    var comps := Components(path);
    if comps == [] then Loc(vault, [], "") else Loc(vault, comps[..|comps| - 1], comps[|comps| - 1])
  }

  /** The checks handle_upload makes before it picks a name. */
  ghost predicate Admissible(env: Env, r: Request) {
    && IsValidName(r.vault) && r.vault in env.vaults && env.vaults[r.vault].permissions.allowUpload
    && (r.subpath.Some? ==> env.vaults[r.vault].permissions.allowSubfolders && IsValidSubpath(r.subpath.value))
    && Multipart.SizesFit(r.fields) && |PayloadBytes(r)| <= U64_MAX
  }

  function PayloadBytes(r: Request): seq<byte> {
    Multipart.Payload(r.fields)
  }

  ghost function BodyOutcome(env: Env, r: Request): Result<FileMetadata, Multipart.UploadError>
    requires Admissible(env, r)
  {
    Multipart.Outcome(r.fields, r.tailBroken, env.json)
  }

  // ---------- One drop ----------

  /** Where an upload stands; the last two are the drop guard removing the temporary files. */
  datatype Pc =
    | Named
    | MetaCreated
    | Streaming(sent: nat)
    | PayloadClosed
    | MetaClosed
    | MetaRenamed
    | CleanMeta
    | CleanPayload(metaGone: bool)

  /** All that is known about one generated name: its upload if it still runs, its four files, and what
      has happened to it. `cleaned`: the guard ran and both removals succeeded. `stripped`: its sidecar
      was there and a delete aimed at the sidecar itself removed it. */
  datatype Drop = Drop(
    pc: Option<Pc>,
    payload: Option<Content>,
    sidecar: Option<Content>,
    payloadTmp: Option<Content>,
    sidecarTmp: Option<Content>,
    committed: bool,
    deleted: bool,
    cleaned: bool,
    stripped: bool)

  const FRESH := Drop(Some(Named), None, None, None, None, false, false, false, false)

  datatype Op =
    | CreateMeta
    | CreatePayload
    | Feed(count: nat)
    | ClosePayload
    | WriteMeta(order: seq<string>)
    | RenameMeta
    | RenamePayload
    | Fail
    | RemoveMetaTmp(ok: bool)
    | RemovePayloadTmp(ok: bool)

  function Append(c: Content, bytes: seq<byte>): Content {
    match c
    case Open(Data(written)) => Open(Data(written + bytes))
    case _ => c
  }

  function Seal(c: Content, recipient: Recipient): Content {
    match c
    case Open(written) => Closed(recipient, written)
    case _ => c
  }

  /** One step of handle_upload. A write goes nowhere visible if its file has been unlinked, and a
      rename needs its file; `None` means that the step is not possible here. (Where a directory has taken
      the place of the file, a rename is possible but no step of a run: see module Moving.) */
  ghost function StepDrop(env: Env, r: Request, d: Drop, op: Op): Option<Drop>
    requires Admissible(env, r)
  {
    var key := env.vaults[r.vault].recipient;
    match op
    case CreateMeta =>
      if d.pc == Some(Named) then Some(d.(pc := Some(MetaCreated), sidecarTmp := Some(Open(Record([]))))) else None
    case CreatePayload =>
      if d.pc == Some(MetaCreated) then Some(d.(pc := Some(Streaming(0)), payloadTmp := Some(Open(Data([]))))) else None
    case Feed(count) =>
      if d.pc.Some? && d.pc.value.Streaming? && d.pc.value.sent + count <= |PayloadBytes(r)| then
        var k := d.pc.value.sent;
        Some(d.(pc := Some(Streaming(k + count)),
                payloadTmp := if d.payloadTmp.None? then None else Some(Append(d.payloadTmp.value, PayloadBytes(r)[k..k + count]))))
      else None
    case ClosePayload =>
      if d.pc == Some(Streaming(|PayloadBytes(r)|)) && BodyOutcome(env, r).Ok? then
        Some(d.(pc := Some(PayloadClosed), payloadTmp := if d.payloadTmp.None? then None else Some(Seal(d.payloadTmp.value, key))))
      else None
    case WriteMeta(order) =>
      if d.pc == Some(PayloadClosed) && BodyOutcome(env, r).Ok? && IsOrder(order, BodyOutcome(env, r).value.extended.Keys) then
        Some(d.(pc := Some(MetaClosed),
                sidecarTmp := if d.sidecarTmp.None? then None else Some(Closed(key, Record(ToPairs(BodyOutcome(env, r).value, order))))))
      else None
    case RenameMeta =>
      if d.pc == Some(MetaClosed) && d.sidecarTmp.Some? then
        Some(d.(pc := Some(MetaRenamed), sidecar := d.sidecarTmp, sidecarTmp := None))
      else None
    case RenamePayload =>
      if d.pc == Some(MetaRenamed) && d.payloadTmp.Some? then
        Some(d.(pc := None, payload := d.payloadTmp, payloadTmp := None, committed := true))
      else None
    case Fail =>
      if d.pc.Some? && !d.pc.value.CleanMeta? && !d.pc.value.CleanPayload? then Some(d.(pc := Some(CleanMeta))) else None
    case RemoveMetaTmp(ok) =>
      if d.pc == Some(CleanMeta) then
        Some(d.(pc := Some(CleanPayload(ok)), sidecarTmp := if ok then None else d.sidecarTmp))
      else None
    case RemovePayloadTmp(ok) =>
      if d.pc.Some? && d.pc.value.CleanPayload? then
        Some(d.(pc := None, payloadTmp := if ok then None else d.payloadTmp, cleaned := d.pc.value.metaGone && ok))
      else None
  }

  // ---------- The whole store ----------

  function FileOf(d: Drop, kind: Kind): Option<Content> {
    match kind
    case Payload => d.payload
    case Sidecar => d.sidecar
    case PayloadTmp => d.payloadTmp
    case SidecarTmp => d.sidecarTmp
  }

  /** The file that a step makes appear. */
  function Creates(op: Op): Option<Kind> {
    match op
    case CreateMeta => Some(SidecarTmp)
    case CreatePayload => Some(PayloadTmp)
    case RenameMeta => Some(Sidecar)
    case RenamePayload => Some(Payload)
    case _ => None
  }

  /** Checked: the file was seen to exist. SidecarNext: it has been removed, its sidecar is next. */
  datatype Deletion = Checked(loc: Loc) | SidecarNext(loc: Loc)

  /** `requests` remembers every name ever generated; names are never generated twice. */
  datatype State = State(
    files: map<Loc, Content>,
    jobs: map<string, Pc>,
    deletions: map<nat, Deletion>,
    requests: map<string, Request>,
    committed: set<string>,
    deleted: set<string>,
    cleaned: set<string>,
    stripped: set<string>,
    folders: set<Folder>)

  const INIT := State(map[], map[], map[], map[], {}, {}, {}, {}, {})

  function Read(files: map<Loc, Content>, loc: Loc): Option<Content> {
    if loc in files then Some(files[loc]) else None
  }

  function Write(files: map<Loc, Content>, loc: Loc, c: Option<Content>): map<Loc, Content> {
    match c
    case None => files - {loc}
    case Some(content) => files[loc := content]
  }

  function DropOf(s: State, hex: string): Drop
    requires hex in s.requests
  {
    var r := s.requests[hex];
    Drop(if hex in s.jobs then Some(s.jobs[hex]) else None,
         Read(s.files, LocOf(r, hex, Payload)),
         Read(s.files, LocOf(r, hex, Sidecar)),
         Read(s.files, LocOf(r, hex, PayloadTmp)),
         Read(s.files, LocOf(r, hex, SidecarTmp)),
         hex in s.committed, hex in s.deleted, hex in s.cleaned, hex in s.stripped)
  }

  function Mark(names: set<string>, hex: string, b: bool): set<string> {
    if b then names + {hex} else names - {hex}
  }

  /** The store after one drop has changed. */
  function Put(s: State, hex: string, d: Drop): State
    requires hex in s.requests
  {
    var r := s.requests[hex];
    var f1 := Write(s.files, LocOf(r, hex, Payload), d.payload);
    var f2 := Write(f1, LocOf(r, hex, Sidecar), d.sidecar);
    var f3 := Write(f2, LocOf(r, hex, PayloadTmp), d.payloadTmp);
    var f4 := Write(f3, LocOf(r, hex, SidecarTmp), d.sidecarTmp);
    s.(files := f4,
       jobs := if d.pc.None? then s.jobs - {hex} else s.jobs[hex := d.pc.value],
       committed := Mark(s.committed, hex, d.committed),
       deleted := Mark(s.deleted, hex, d.deleted),
       cleaned := Mark(s.cleaned, hex, d.cleaned),
       stripped := Mark(s.stripped, hex, d.stripped))
  }

  datatype Action =
    | MakeFolder(folder: Folder)
    | Begin(hex: string, request: Request)
    | Upload(hex: string, op: Op)
    | DeleteStart(id: nat, loc: Loc)
    | DeleteMain(id: nat, ok: bool)
    | DeleteSidecar(id: nat, ok: bool)
    | Crash

  /** All directories on the way to the files of this request exist. */
  ghost predicate HasFolders(folders: set<Folder>, r: Request) {
    forall n :: 0 < n <= |DirOf(r)| ==> Folder(r.vault, DirOf(r)[..n]) in folders
  }

  /** The last name on the way to a directory. */
  function LastName(folder: Folder): string
    requires folder.path != []
  {
    folder.path[|folder.path| - 1]
  }

  /** No directory can be made where a file lies, and the configuration file always lies in its vault; nor
      under a name that the operating system does not take. */
  predicate IsBarred(files: map<Loc, Content>, folder: Folder)
    requires folder.path != []
  {
    FileAt(folder) in files || folder.path == [CONFIG_NAME] || !IsTakable(LastName(folder))
  }

  /** One directory of create_dir_all; one that exists is left alone. */
  ghost function MakeOne(env: Env, s: State, folder: Folder): Option<State> {
    if && folder.vault in env.vaults && env.vaults[folder.vault].permissions.allowUpload
       && env.vaults[folder.vault].permissions.allowSubfolders
       && folder.path != [] && Proper(folder.path) && NoDots(folder.path) && !IsBarred(s.files, folder)
       && (|folder.path| == 1 || folder.(path := folder.path[..|folder.path| - 1]) in s.folders)
    then Some(s.(folders := s.folders + {folder}))
    else None
  }

  ghost function BeginUpload(env: Env, s: State, hex: string, request: Request): Option<State> {
    if IsHex(hex) && hex !in s.requests && Admissible(env, request) && HasFolders(s.folders, request) then
      Some(s.(requests := s.requests[hex := request], jobs := s.jobs[hex := Named]))
    else None
  }

  /** A file cannot be created or renamed to where a directory is. */
  ghost function StepUpload(env: Env, s: State, hex: string, op: Op): Option<State> {
    if hex !in s.requests || !Admissible(env, s.requests[hex]) then None
    else if Creates(op).Some? && Place(LocOf(s.requests[hex], hex, Creates(op).value)) in s.folders then None
    else match StepDrop(env, s.requests[hex], DropOf(s, hex), op)
      case None => None
      case Some(d) => Some(Put(s, hex, d))
  }

  /** The delete handlers up to their existence check; they take any path to a file. */
  function StartDelete(env: Env, s: State, id: nat, loc: Loc): Option<State> {
    if id !in s.deletions && loc in s.files
       && loc.vault in env.vaults && env.vaults[loc.vault].permissions.allowDelete then
      Some(s.(deletions := s.deletions[id := Checked(loc)]))
    else None
  }

  /** Whose file of this kind it is. */
  function Owners(s: State, loc: Loc, kind: Kind): set<string> {
    set hex | hex in s.requests && LocOf(s.requests[hex], hex, kind) == loc
  }

  /** They remove the file itself; if that fails they stop. */
  function RemoveMain(s: State, id: nat, ok: bool): Option<State> {
    if id in s.deletions && s.deletions[id].Checked? then
      var loc := s.deletions[id].loc;
      if ok && loc in s.files then
        Some(s.(files := s.files - {loc},
                deleted := s.deleted + Owners(s, loc, Payload),
                stripped := s.stripped + Owners(s, loc, Sidecar),
                deletions := s.deletions[id := SidecarNext(loc)]))
      else Some(s.(deletions := s.deletions - {id}))
    else None
  }

  /** They remove its sidecar, if the name has one and the file exists; a failure is ignored. */
  function RemoveSidecar(s: State, id: nat, ok: bool): Option<State> {
    if id in s.deletions && s.deletions[id].SidecarNext? then
      var loc := s.deletions[id].loc;
      var sidecar := SidecarFor(loc.name);
      if ok && sidecar.Some? then
        Some(s.(files := s.files - {loc.(name := sidecar.value)}, deletions := s.deletions - {id}))
      else Some(s.(deletions := s.deletions - {id}))
    else None
  }

  /** The process dies: no guard runs, nothing continues, the files stay. */
  function AfterCrash(s: State): State {
    s.(jobs := map[], deletions := map[])
  }

  /** The effect of one action; `None` if it is not possible in this state. */
  ghost function Next(env: Env, s: State, a: Action): Option<State> {
    match a
    case MakeFolder(folder) => MakeOne(env, s, folder)
    case Begin(hex, request) => BeginUpload(env, s, hex, request)
    case Upload(hex, op) => StepUpload(env, s, hex, op)
    case DeleteStart(id, loc) => StartDelete(env, s, id, loc)
    case DeleteMain(id, ok) => RemoveMain(s, id, ok)
    case DeleteSidecar(id, ok) => RemoveSidecar(s, id, ok)
    case Crash => Some(AfterCrash(s))
  }

  /** The state after a whole run, if every action was possible. */
  ghost function Exec(env: Env, actions: seq<Action>): Option<State> {
    if actions == [] then Some(INIT)
    else
      match Exec(env, actions[..|actions| - 1])
      case None => None
      case Some(s) => Next(env, s, actions[|actions| - 1])
  }

  // ---------- The invariant ----------

  /** A finished payload file holds the uploaded bytes, sealed for the vault. */
  ghost predicate PayloadComplete(env: Env, r: Request, c: Content)
    requires Admissible(env, r)
  {
    BodyOutcome(env, r).Ok? && c == Closed(env.vaults[r.vault].recipient, Data(PayloadBytes(r)))
  }

  /** A finished sidecar holds the whole metadata record of the upload, sealed for the vault. */
  ghost predicate SidecarComplete(env: Env, r: Request, c: Content)
    requires Admissible(env, r)
  {
    && BodyOutcome(env, r).Ok?
    && exists order :: IsOrder(order, BodyOutcome(env, r).value.extended.Keys)
                    && c == Closed(env.vaults[r.vault].recipient, Record(ToPairs(BodyOutcome(env, r).value, order)))
  }

  /** What holds of a drop whose upload runs and has reached `pc`. */
  ghost predicate RunningOk(env: Env, r: Request, d: Drop, pc: Pc)
    requires Admissible(env, r)
  {
    match pc
       case Named => d.sidecar.None? && !d.stripped && d.payloadTmp.None? && d.sidecarTmp.None?
       case MetaCreated => d.sidecar.None? && !d.stripped && d.payloadTmp.None?
       case Streaming(sent) =>
         && d.sidecar.None? && !d.stripped && sent <= |PayloadBytes(r)|
         && (d.payloadTmp.Some? ==> d.payloadTmp.value == Open(Data(PayloadBytes(r)[..sent])))
       case PayloadClosed =>
         && d.sidecar.None? && !d.stripped && BodyOutcome(env, r).Ok?
         && (d.payloadTmp.Some? ==> PayloadComplete(env, r, d.payloadTmp.value))
       case MetaClosed =>
         && d.sidecar.None? && !d.stripped && BodyOutcome(env, r).Ok?
         && (d.payloadTmp.Some? ==> PayloadComplete(env, r, d.payloadTmp.value))
         && (d.sidecarTmp.Some? ==> SidecarComplete(env, r, d.sidecarTmp.value))
       case MetaRenamed =>
         && (d.sidecar.Some? <==> !d.stripped) && BodyOutcome(env, r).Ok?
         && (d.payloadTmp.Some? ==> PayloadComplete(env, r, d.payloadTmp.value))
       case CleanMeta => true
       case CleanPayload(metaGone) => metaGone ==> d.sidecarTmp.None?
  }

  /** What holds of every drop in every reachable state. */
  ghost predicate DropOk(env: Env, r: Request, d: Drop)
    requires Admissible(env, r)
  {
    && (d.payload.Some? <==> d.committed && !d.deleted)
    && (d.payload.Some? ==> PayloadComplete(env, r, d.payload.value) && (d.sidecar.Some? <==> !d.stripped))
    && (d.stripped ==> d.sidecar.None?)
    && (d.sidecar.Some? ==> SidecarComplete(env, r, d.sidecar.value))
    && (d.deleted ==> d.committed)
    && (d.committed ==> d.pc.None? && BodyOutcome(env, r).Ok?)
    && (d.cleaned ==> d.pc.None? && !d.committed && d.payloadTmp.None? && d.sidecarTmp.None?)
    && (d.pc.Some? ==> RunningOk(env, r, d, d.pc.value))
  }

  lemma StepKeepsDropOk(env: Env, r: Request, d: Drop, op: Op)
    requires Admissible(env, r) && DropOk(env, r, d) && StepDrop(env, r, d, op).Some?
    ensures DropOk(env, r, StepDrop(env, r, d, op).value)
  {
    var d' := StepDrop(env, r, d, op).value;
    match op
    case Feed(count) =>
      var k := d.pc.value.sent;
      assert PayloadBytes(r)[..k] + PayloadBytes(r)[k..k + count] == PayloadBytes(r)[..k + count];
    case ClosePayload =>
      assert PayloadBytes(r)[..|PayloadBytes(r)|] == PayloadBytes(r);
    case _ =>
  }

  ghost predicate Owns(requests: map<string, Request>, loc: Loc, hex: string, kind: Kind) {
    hex in requests && loc == LocOf(requests[hex], hex, kind)
  }

  /** A pending sidecar removal belongs to a payload that is gone, or to a file without a sidecar. */
  ghost predicate DeletionOk(s: State, del: Deletion) {
    del.SidecarNext? ==>
      exists hex, kind :: Owns(s.requests, del.loc, hex, kind) && (kind == Payload ==> hex in s.deleted)
  }

  ghost predicate NamesOk(env: Env, s: State) {
    && s.jobs.Keys <= s.requests.Keys && s.stripped <= s.requests.Keys
    && s.committed <= s.requests.Keys && s.deleted <= s.requests.Keys && s.cleaned <= s.requests.Keys
    && (forall hex :: hex in s.requests ==> IsHex(hex) && Admissible(env, s.requests[hex]))
  }

  ghost predicate DropsOk(env: Env, s: State)
    requires NamesOk(env, s)
  {
    forall hex :: hex in s.requests ==> DropOk(env, s.requests[hex], DropOf(s, hex))
  }

  ghost predicate FilesOwned(s: State) {
    forall loc :: loc in s.files ==> exists hex, kind :: Owns(s.requests, loc, hex, kind)
  }

  ghost predicate DeletionsOk(s: State) {
    forall id :: id in s.deletions ==> DeletionOk(s, s.deletions[id])
  }

  /** Directories hang together below their vault, have names that the operating system takes, and none is
      where the configuration file is. */
  ghost predicate Connected(folders: set<Folder>) {
    forall f :: f in folders ==>
      && f.path != [] && Proper(f.path) && NoDots(f.path) && f.path[0] != CONFIG_NAME && IsTakable(LastName(f))
      && (|f.path| > 1 ==> f.(path := f.path[..|f.path| - 1]) in folders)
  }

  /** No place is both a file and a directory, and every upload has its directories. */
  ghost predicate FoldersOk(s: State) {
    && Connected(s.folders)
    && (forall loc :: loc in s.files ==> Place(loc) !in s.folders)
    && (forall hex :: hex in s.requests ==> HasFolders(s.folders, s.requests[hex]))
  }

  ghost predicate Inv(env: Env, s: State) {
    NamesOk(env, s) && DropsOk(env, s) && FilesOwned(s) && DeletionsOk(s) && FoldersOk(s)
  }

  // ---------- Drops do not interfere ----------

  lemma LocsDistinct(r1: Request, hex1: string, kind1: Kind, r2: Request, hex2: string, kind2: Kind)
    requires IsHex(hex1) && IsHex(hex2) && LocOf(r1, hex1, kind1) == LocOf(r2, hex2, kind2)
    ensures kind1 == kind2 && hex1 == hex2
  {
    DropNamesDistinct(kind1, hex1, kind2, hex2);
  }

  /** Putting a drop changes exactly its own four files. */
  lemma PutFiles(s: State, hex: string, d: Drop)
    requires hex in s.requests && IsHex(hex)
    ensures DropOf(Put(s, hex, d), hex) == d
    ensures forall loc :: (forall kind :: loc != LocOf(s.requests[hex], hex, kind)) ==>
              Read(Put(s, hex, d).files, loc) == Read(s.files, loc)
  {
    PutOwn(s, hex, d);
    PutOthers(s, hex, d);
  }

  lemma PutOwn(s: State, hex: string, d: Drop)
    requires hex in s.requests && IsHex(hex)
    ensures DropOf(Put(s, hex, d), hex) == d
  {
    var r := s.requests[hex];
    FourLocs(r, hex);
    FourWrites(s.files, LocOf(r, hex, Payload), d.payload, LocOf(r, hex, Sidecar), d.sidecar,
               LocOf(r, hex, PayloadTmp), d.payloadTmp, LocOf(r, hex, SidecarTmp), d.sidecarTmp);
  }

  /** Written to four different places, four files can be read again. */
  lemma FourWrites(files: map<Loc, Content>, l1: Loc, c1: Option<Content>, l2: Loc, c2: Option<Content>,
                   l3: Loc, c3: Option<Content>, l4: Loc, c4: Option<Content>)
    requires l1 != l2 && l1 != l3 && l1 != l4 && l2 != l3 && l2 != l4 && l3 != l4
    ensures var after := Write(Write(Write(Write(files, l1, c1), l2, c2), l3, c3), l4, c4);
            Read(after, l1) == c1 && Read(after, l2) == c2 && Read(after, l3) == c3 && Read(after, l4) == c4
  {}

  lemma PutOthers(s: State, hex: string, d: Drop)
    requires hex in s.requests
    ensures forall loc :: (forall kind :: loc != LocOf(s.requests[hex], hex, kind)) ==>
              Read(Put(s, hex, d).files, loc) == Read(s.files, loc)
  {}

  lemma PutFrame(s: State, hex: string, d: Drop, other: string)
    requires hex in s.requests && IsHex(hex) && other in s.requests && IsHex(other) && hex != other
    ensures DropOf(Put(s, hex, d), other) == DropOf(s, other)
  {
    PutFiles(s, hex, d);
    forall k1: Kind, k2: Kind ensures LocOf(s.requests[other], other, k1) != LocOf(s.requests[hex], hex, k2) {
      DropNamesDistinct(k1, other, k2, hex);
    }
  }

  lemma PutKeepsFilesOwned(s: State, hex: string, d: Drop)
    requires FilesOwned(s) && hex in s.requests && IsHex(hex)
    ensures FilesOwned(Put(s, hex, d))
  {
    var s' := Put(s, hex, d);
    PutFiles(s, hex, d);
    forall loc | loc in s'.files ensures exists h, kind :: Owns(s'.requests, loc, h, kind) {
      if loc !in s.files {
        assert Read(s'.files, loc) != Read(s.files, loc);
        var kind :| loc == LocOf(s.requests[hex], hex, kind);
        assert Owns(s'.requests, loc, hex, kind);
      } else {
        var h, kind :| Owns(s.requests, loc, h, kind);
        assert Owns(s'.requests, loc, h, kind);
      }
    }
  }

  /** What deletions rely on only grows. */
  lemma DeletionsStayOk(s: State, s': State)
    requires DeletionsOk(s)
    requires s'.deletions.Items <= s.deletions.Items
    requires forall hex :: hex in s.requests ==> hex in s'.requests && s'.requests[hex] == s.requests[hex]
    requires s.deleted <= s'.deleted
    ensures DeletionsOk(s')
  {
    forall id | id in s'.deletions ensures DeletionOk(s', s'.deletions[id]) {
      assert (id, s'.deletions[id]) in s'.deletions.Items;
      var del := s.deletions[id];
      assert DeletionOk(s, del);
      if del.SidecarNext? {
        var hex, kind :| Owns(s.requests, del.loc, hex, kind) && (kind == Payload ==> hex in s.deleted);
        assert Owns(s'.requests, del.loc, hex, kind);
      }
    }
  }

  lemma PutKeepsDropsOk(env: Env, s: State, hex: string, d: Drop)
    requires NamesOk(env, s) && DropsOk(env, s) && hex in s.requests
    requires NamesOk(env, Put(s, hex, d)) && DropOk(env, s.requests[hex], d)
    ensures DropsOk(env, Put(s, hex, d))
  {
    var s' := Put(s, hex, d);
    forall other | other in s'.requests ensures DropOk(env, s'.requests[other], DropOf(s', other)) {
      if other == hex { PutFiles(s, hex, d); } else { PutFrame(s, hex, d, other); }
    }
  }

  lemma PutKeepsNamesOk(env: Env, s: State, hex: string, d: Drop)
    requires NamesOk(env, s) && hex in s.requests
    ensures NamesOk(env, Put(s, hex, d))
  {}

  /** What is written for one drop shows in its own files only. */
  lemma PutPresent(s: State, hex: string, d: Drop, loc: Loc)
    requires hex in s.requests && IsHex(hex) && loc in Put(s, hex, d).files
    ensures loc in s.files || exists kind :: loc == LocOf(s.requests[hex], hex, kind) && FileOf(d, kind).Some?
  {
    var s' := Put(s, hex, d);
    PutFiles(s, hex, d);
    if kind :| loc == LocOf(s.requests[hex], hex, kind) {
      assert Read(s'.files, loc) == FileOf(DropOf(s', hex), kind);
    } else {
      assert Read(s'.files, loc) == Read(s.files, loc);
    }
  }

  lemma PutKeepsFoldersOk(s: State, hex: string, d: Drop)
    requires FoldersOk(s) && hex in s.requests && IsHex(hex)
    requires forall kind :: FileOf(d, kind).Some? ==> Place(LocOf(s.requests[hex], hex, kind)) !in s.folders
    ensures FoldersOk(Put(s, hex, d))
  {
    forall loc | loc in Put(s, hex, d).files ensures Place(loc) !in s.folders { PutPresent(s, hex, d, loc); }
  }

  /** A drop may change to any other good drop that deletes no less and puts no file where a directory is. */
  lemma PutKeepsInv(env: Env, s: State, hex: string, d: Drop)
    requires Inv(env, s) && hex in s.requests && DropOk(env, s.requests[hex], d)
    requires hex in s.deleted ==> d.deleted
    requires forall kind :: FileOf(d, kind).Some? ==> Place(LocOf(s.requests[hex], hex, kind)) !in s.folders
    ensures Inv(env, Put(s, hex, d))
  {
    PutKeepsNamesOk(env, s, hex, d);
    PutKeepsDropsOk(env, s, hex, d);
    PutKeepsFilesOwned(s, hex, d);
    PutKeepsFoldersOk(s, hex, d);
    PutKeepsDeletionsOk(s, hex, d);
  }

  lemma PutKeepsDeletionsOk(s: State, hex: string, d: Drop)
    requires DeletionsOk(s) && hex in s.requests && (hex in s.deleted ==> d.deleted)
    ensures DeletionsOk(Put(s, hex, d))
  {
    DeletionsStayOk(s, Put(s, hex, d));
  }

  // ---------- Every action keeps the invariant ----------

  lemma FreshNameHasNoFiles(s: State, hex: string, request: Request)
    requires FilesOwned(s) && hex !in s.requests && IsHex(hex) && forall h :: h in s.requests ==> IsHex(h)
    ensures forall kind :: LocOf(request, hex, kind) !in s.files
  {
    forall kind: Kind ensures LocOf(request, hex, kind) !in s.files {
      if LocOf(request, hex, kind) in s.files {
        var h, k :| Owns(s.requests, LocOf(request, hex, kind), h, k);
        LocsDistinct(request, hex, kind, s.requests[h], h, k);
      }
    }
  }

  /** A drop sees only its own files and marks. */
  lemma SameDrop(s: State, s': State, hex: string)
    requires hex in s.requests && hex in s'.requests && s.requests[hex] == s'.requests[hex]
    requires s.files == s'.files
    requires (hex in s.jobs <==> hex in s'.jobs) && (hex in s.jobs ==> s.jobs[hex] == s'.jobs[hex])
    requires (hex in s.committed <==> hex in s'.committed) && (hex in s.deleted <==> hex in s'.deleted)
    requires (hex in s.cleaned <==> hex in s'.cleaned) && (hex in s.stripped <==> hex in s'.stripped)
    ensures DropOf(s', hex) == DropOf(s, hex)
  {}

  lemma BeginKeepsFilesOwned(s: State, hex: string, request: Request)
    requires FilesOwned(s) && hex !in s.requests
    ensures FilesOwned(s.(requests := s.requests[hex := request], jobs := s.jobs[hex := Named]))
  {
    var s' := s.(requests := s.requests[hex := request], jobs := s.jobs[hex := Named]);
    forall loc | loc in s'.files ensures exists h, kind :: Owns(s'.requests, loc, h, kind) {
      var h, kind :| Owns(s.requests, loc, h, kind);
      assert Owns(s'.requests, loc, h, kind);
    }
  }

  lemma FreshDrop(s: State, hex: string, request: Request)
    requires hex in s.requests && s.requests[hex] == request && hex in s.jobs && s.jobs[hex] == Named
    requires forall kind :: LocOf(request, hex, kind) !in s.files
    requires hex !in s.committed && hex !in s.deleted && hex !in s.cleaned && hex !in s.stripped
    ensures DropOf(s, hex) == FRESH
  {}

  lemma FreshDropOk(env: Env, s: State, hex: string, request: Request)
    requires Admissible(env, request) && hex in s.requests && s.requests[hex] == request
    requires DropOf(s, hex) == FRESH
    ensures DropOk(env, request, DropOf(s, hex))
  {}

  lemma BeginKeepsDropsOk(env: Env, s: State, hex: string, request: Request, s': State)
    requires NamesOk(env, s) && NamesOk(env, s') && DropsOk(env, s)
    requires FilesOwned(s) && hex !in s.requests && IsHex(hex) && Admissible(env, request)
    requires s' == s.(requests := s.requests[hex := request], jobs := s.jobs[hex := Named])
    ensures DropsOk(env, s')
  {
    FreshNameHasNoFiles(s, hex, request);
    FreshDrop(s', hex, request);
    FreshDropOk(env, s', hex, request);
    forall h | h in s'.requests ensures DropOk(env, s'.requests[h], DropOf(s', h)) {
      if h != hex { SameDrop(s, s', h); }
    }
  }

  lemma BeginKeepsNamesOk(env: Env, s: State, hex: string, request: Request, s': State)
    requires NamesOk(env, s) && IsHex(hex) && Admissible(env, request)
    requires s' == s.(requests := s.requests[hex := request], jobs := s.jobs[hex := Named])
    ensures NamesOk(env, s')
  {}

  lemma BeginKeepsInv(env: Env, s: State, hex: string, request: Request)
    requires Inv(env, s) && BeginUpload(env, s, hex, request).Some?
    ensures Inv(env, BeginUpload(env, s, hex, request).value)
  {
    var s' := BeginUpload(env, s, hex, request).value;
    BeginKeepsNamesOk(env, s, hex, request, s');
    BeginKeepsDropsOk(env, s, hex, request, s');
    BeginKeepsFilesOwned(s, hex, request);
    BeginKeepsFoldersOk(s, hex, request);
    DeletionsStayOk(s, s');
  }

  lemma BeginKeepsFoldersOk(s: State, hex: string, request: Request)
    requires FoldersOk(s) && hex !in s.requests && HasFolders(s.folders, request)
    ensures FoldersOk(s.(requests := s.requests[hex := request], jobs := s.jobs[hex := Named]))
  {}

  lemma StepKeepsInv(env: Env, s: State, hex: string, op: Op)
    requires Inv(env, s) && StepUpload(env, s, hex, op).Some?
    ensures Inv(env, StepUpload(env, s, hex, op).value)
  {
    var before := DropOf(s, hex);
    var d := StepDrop(env, s.requests[hex], before, op).value;
    StepKeepsDropOk(env, s.requests[hex], before, op);
    StepDeletesNothing(env, s.requests[hex], before, op);
    StepKeepsPlaces(env, s, hex, op);
    PutKeepsInv(env, s, hex, d);
  }

  /** The one file that a step makes appear is the one it creates. */
  lemma StepCreates(env: Env, r: Request, d: Drop, op: Op, kind: Kind)
    requires Admissible(env, r) && StepDrop(env, r, d, op).Some? && Creates(op) != Some(kind)
    ensures FileOf(StepDrop(env, r, d, op).value, kind).Some? ==> FileOf(d, kind).Some?
  {}

  lemma StepKeepsPlaces(env: Env, s: State, hex: string, op: Op)
    requires FoldersOk(s) && StepUpload(env, s, hex, op).Some?
    ensures var d := StepDrop(env, s.requests[hex], DropOf(s, hex), op).value;
            forall kind :: FileOf(d, kind).Some? ==> Place(LocOf(s.requests[hex], hex, kind)) !in s.folders
  {
    var r := s.requests[hex];
    var d := StepDrop(env, r, DropOf(s, hex), op).value;
    forall kind | FileOf(d, kind).Some? ensures Place(LocOf(r, hex, kind)) !in s.folders {
      if Creates(op) != Some(kind) {
        StepCreates(env, r, DropOf(s, hex), op, kind);
        PresentIsNoFolder(s, hex, kind);
      }
    }
  }

  lemma StepDeletesNothing(env: Env, r: Request, d: Drop, op: Op)
    requires Admissible(env, r) && StepDrop(env, r, d, op).Some?
    ensures StepDrop(env, r, d, op).value.deleted == d.deleted
  {}

  /** A body may arrive in pieces of any size: two pieces do what both at once would have done. */
  lemma FeedsAdd(env: Env, r: Request, d: Drop, a: nat, b: nat)
    requires Admissible(env, r) && DropOk(env, r, d) && StepDrop(env, r, d, Feed(a + b)).Some?
    ensures StepDrop(env, r, d, Feed(a)).Some?
    ensures StepDrop(env, r, StepDrop(env, r, d, Feed(a)).value, Feed(b)) == StepDrop(env, r, d, Feed(a + b))
  {
    var k, payload := d.pc.value.sent, PayloadBytes(r);
    AppendAssociates(payload[..k], payload[k..k + a], payload[k + a..k + a + b]);
    assert payload[k..k + a] + payload[k + a..k + a + b] == payload[k..k + (a + b)];
  }

  /** A drop with one file removed; `aimed`: by a delete aimed at that very file. */
  function Without(d: Drop, kind: Kind, aimed: bool): Drop {
    match kind
    case Payload => d.(payload := None, deleted := true)
    case Sidecar => d.(sidecar := None, stripped := d.stripped || aimed)
    case PayloadTmp => d.(payloadTmp := None)
    case SidecarTmp => d.(sidecarTmp := None)
  }

  lemma FourLocs(r: Request, hex: string)
    requires IsHex(hex)
    ensures forall k1: Kind, k2: Kind :: k1 != k2 ==> LocOf(r, hex, k1) != LocOf(r, hex, k2)
  {
    forall k1: Kind, k2: Kind | k1 != k2 ensures LocOf(r, hex, k1) != LocOf(r, hex, k2) {
      DropNamesDistinct(k1, hex, k2, hex);
    }
  }

  lemma WriteSame(files: map<Loc, Content>, loc: Loc)
    ensures Write(files, loc, Read(files, loc)) == files
  {}

  lemma FileAtLoc(s: State, hex: string, kind: Kind)
    requires hex in s.requests
    ensures FileOf(DropOf(s, hex), kind) == Read(s.files, LocOf(s.requests[hex], hex, kind))
  {}

  lemma WithoutOne(d: Drop, kind: Kind, aimed: bool, k: Kind)
    ensures FileOf(Without(d, kind, aimed), k) == if k == kind then None else FileOf(d, k)
  {}

  /** Writing a drop's files back with one of them missing removes just that file. */
  lemma RemoveOneFile(s: State, hex: string, kind: Kind, aimed: bool)
    requires hex in s.requests && IsHex(hex)
    ensures Put(s, hex, Without(DropOf(s, hex), kind, aimed)).files == s.files - {LocOf(s.requests[hex], hex, kind)}
  {
    var s' := Put(s, hex, Without(DropOf(s, hex), kind, aimed));
    var r, gone := s.requests[hex], LocOf(s.requests[hex], hex, kind);
    PutFiles(s, hex, Without(DropOf(s, hex), kind, aimed));
    FourLocs(r, hex);
    forall loc: Loc ensures Read(s'.files, loc) == Read(s.files - {gone}, loc) {
      if k :| loc == LocOf(r, hex, k) {
        FileAtLoc(s', hex, k);
        FileAtLoc(s, hex, k);
        WithoutOne(DropOf(s, hex), kind, aimed, k);
      }
    }
    MapsEqual(s'.files, s.files - {gone});
  }

  lemma MapsEqual(a: map<Loc, Content>, b: map<Loc, Content>)
    requires forall loc :: Read(a, loc) == Read(b, loc)
    ensures a == b
  {
    forall loc: Loc ensures (loc in a) == (loc in b) && (loc in a ==> a[loc] == b[loc]) {
      assert Read(a, loc) == Read(b, loc);
    }
  }

  lemma OnlyOwner(s: State, hex: string, kind: Kind, k: Kind)
    requires hex in s.requests && forall h :: h in s.requests ==> IsHex(h)
    ensures Owners(s, LocOf(s.requests[hex], hex, kind), k) == if kind == k then {hex} else {}
  {
    forall h | h in s.requests && LocOf(s.requests[h], h, k) == LocOf(s.requests[hex], hex, kind)
      ensures h == hex && kind == k
    {
      LocsDistinct(s.requests[h], h, k, s.requests[hex], hex, kind);
    }
  }

  /** The store after the removal of one file of a drop. */
  function AfterRemoval(s: State, hex: string, kind: Kind, aimed: bool): State
    requires hex in s.requests
  {
    s.(files := s.files - {LocOf(s.requests[hex], hex, kind)},
       deleted := if kind == Payload then s.deleted + {hex} else s.deleted,
       stripped := if kind == Sidecar && aimed then s.stripped + {hex} else s.stripped)
  }

  /** Removing one file is putting its drop without it. */
  lemma RemoveIsPut(s: State, hex: string, kind: Kind, aimed: bool)
    requires hex in s.requests && IsHex(hex)
    ensures Put(s, hex, Without(DropOf(s, hex), kind, aimed)) == AfterRemoval(s, hex, kind, aimed)
  {
    var d := Without(DropOf(s, hex), kind, aimed);
    RemoveOneFile(s, hex, kind, aimed);
    assert d.pc == (if hex in s.jobs then Some(s.jobs[hex]) else None);
    assert d.committed == (hex in s.committed) && d.cleaned == (hex in s.cleaned);
    assert d.deleted == (hex in s.deleted || kind == Payload);
    assert d.stripped == (hex in s.stripped || (kind == Sidecar && aimed));
  }

  /** Removing a file that is there keeps the invariant, and so does removing the sidecar of a payload
      that is gone. */
  lemma RemoveKeepsInv(env: Env, s: State, hex: string, kind: Kind, aimed: bool)
    requires Inv(env, s) && hex in s.requests
    requires if aimed then LocOf(s.requests[hex], hex, kind) in s.files else kind == Sidecar && hex in s.deleted
    ensures Inv(env, AfterRemoval(s, hex, kind, aimed))
  {
    var before := DropOf(s, hex);
    var d := Without(before, kind, aimed);
    assert DropOk(env, s.requests[hex], before);
    assert FileOf(before, kind) == Read(s.files, LocOf(s.requests[hex], hex, kind));
    WithoutOk(env, s.requests[hex], before, kind, aimed);
    WithoutPlaces(s, hex, kind, aimed);
    PutKeepsInv(env, s, hex, d);
    RemoveIsPut(s, hex, kind, aimed);
  }

  lemma WithoutLess(d: Drop, kind: Kind, aimed: bool, k: Kind)
    ensures FileOf(Without(d, kind, aimed), k).Some? ==> FileOf(d, k).Some?
  {}

  lemma PresentIsNoFolder(s: State, hex: string, kind: Kind)
    requires FoldersOk(s) && hex in s.requests && FileOf(DropOf(s, hex), kind).Some?
    ensures Place(LocOf(s.requests[hex], hex, kind)) !in s.folders
  {
    assert FileOf(DropOf(s, hex), kind) == Read(s.files, LocOf(s.requests[hex], hex, kind));
  }

  lemma WithoutPlaces(s: State, hex: string, kind: Kind, aimed: bool)
    requires FoldersOk(s) && hex in s.requests
    ensures forall k :: FileOf(Without(DropOf(s, hex), kind, aimed), k).Some? ==> Place(LocOf(s.requests[hex], hex, k)) !in s.folders
  {
    forall k | FileOf(Without(DropOf(s, hex), kind, aimed), k).Some? ensures Place(LocOf(s.requests[hex], hex, k)) !in s.folders {
      WithoutLess(DropOf(s, hex), kind, aimed, k);
      PresentIsNoFolder(s, hex, k);
    }
  }

  lemma WithoutOk(env: Env, r: Request, d: Drop, kind: Kind, aimed: bool)
    requires Admissible(env, r) && DropOk(env, r, d)
    requires if aimed then FileOf(d, kind).Some? else kind == Sidecar && d.deleted
    ensures DropOk(env, r, Without(d, kind, aimed))
  {}

  lemma ChangeDeletions(env: Env, s: State, deletions: map<nat, Deletion>)
    requires Inv(env, s) && forall id :: id in deletions ==> DeletionOk(s, deletions[id])
    ensures Inv(env, s.(deletions := deletions))
  {
    var s' := s.(deletions := deletions);
    forall h | h in s'.requests ensures DropOk(env, s'.requests[h], DropOf(s', h)) {
      SameDrop(s, s', h);
    }
    forall id | id in s'.deletions ensures DeletionOk(s', s'.deletions[id]) {
      assert DeletionOk(s, deletions[id]);
    }
  }

  /** Removing a file sets the mark of its owner. */
  lemma MarksOfRemoval(s: State, hex: string, kind: Kind)
    requires hex in s.requests && forall h :: h in s.requests ==> IsHex(h)
    ensures var loc, s' := LocOf(s.requests[hex], hex, kind), AfterRemoval(s, hex, kind, true);
            s'.deleted == s.deleted + Owners(s, loc, Payload) && s'.stripped == s.stripped + Owners(s, loc, Sidecar)
  {
    OnlyOwner(s, hex, kind, Payload);
    OnlyOwner(s, hex, kind, Sidecar);
  }

  lemma RemoveMainKeepsInv(env: Env, s: State, id: nat, ok: bool)
    requires Inv(env, s) && RemoveMain(s, id, ok).Some?
    ensures Inv(env, RemoveMain(s, id, ok).value)
  {
    var loc := s.deletions[id].loc;
    if ok && loc in s.files {
      var hex, kind :| Owns(s.requests, loc, hex, kind);
      RemoveKeepsInv(env, s, hex, kind, true);
      var s1 := AfterRemoval(s, hex, kind, true);
      MarksOfRemoval(s, hex, kind);
      assert Owns(s1.requests, loc, hex, kind);
      assert DeletionOk(s1, SidecarNext(loc));
      ChangeDeletions(env, s1, s1.deletions[id := SidecarNext(loc)]);
    } else {
      ChangeDeletions(env, s, s.deletions - {id});
    }
  }

  /** Only a payload name has a sidecar name, and that of a drop has its own. */
  lemma SidecarOfTarget(r: Request, hex: string, kind: Kind)
    requires IsHex(hex)
    ensures SidecarFor(LocOf(r, hex, kind).name).Some? <==> kind == Payload
    ensures kind == Payload ==>
              LocOf(r, hex, kind).(name := SidecarFor(LocOf(r, hex, kind).name).value) == LocOf(r, hex, Sidecar)
  {
    DropNameRoles(hex);
    NotSuffix(DropName(PayloadTmp, hex), ".age", 3);
    NotSuffix(DropName(SidecarTmp, hex), ".age", 3);
  }

  lemma RemoveSidecarKeepsInv(env: Env, s: State, id: nat, ok: bool)
    requires Inv(env, s) && RemoveSidecar(s, id, ok).Some?
    ensures Inv(env, RemoveSidecar(s, id, ok).value)
  {
    var loc := s.deletions[id].loc;
    assert DeletionOk(s, s.deletions[id]);
    var hex, kind :| Owns(s.requests, loc, hex, kind) && (kind == Payload ==> hex in s.deleted);
    SidecarOfTarget(s.requests[hex], hex, kind);
    if ok && kind == Payload {
      RemoveKeepsInv(env, s, hex, Sidecar, false);
      var s1 := AfterRemoval(s, hex, Sidecar, false);
      ChangeDeletions(env, s1, s1.deletions - {id});
    } else {
      ChangeDeletions(env, s, s.deletions - {id});
    }
  }

  lemma MakeOneKeepsInv(env: Env, s: State, folder: Folder)
    requires Inv(env, s) && MakeOne(env, s, folder).Some?
    ensures Inv(env, MakeOne(env, s, folder).value)
  {
    var s' := MakeOne(env, s, folder).value;
    FoldersStayOk(s, folder);
    forall h | h in s'.requests ensures DropOk(env, s'.requests[h], DropOf(s', h)) { SameDrop(s, s', h); }
    DeletionsStayOk(s, s');
  }

  lemma FoldersStayOk(s: State, folder: Folder)
    requires FoldersOk(s) && folder.path != [] && Proper(folder.path) && NoDots(folder.path) && !IsBarred(s.files, folder)
    requires |folder.path| == 1 || folder.(path := folder.path[..|folder.path| - 1]) in s.folders
    ensures FoldersOk(s.(folders := s.folders + {folder}))
  {
    forall loc | loc in s.files ensures Place(loc) !in s.folders + {folder} { FileAtPlace(loc, folder); }
    ConnectedGrows(s.folders, folder);
  }

  lemma ConnectedGrows(folders: set<Folder>, folder: Folder)
    requires Connected(folders) && folder.path != [] && Proper(folder.path) && folder.path != [CONFIG_NAME]
    requires NoDots(folder.path) && IsTakable(LastName(folder))
    requires |folder.path| == 1 || folder.(path := folder.path[..|folder.path| - 1]) in folders
    ensures Connected(folders + {folder})
  {
    if |folder.path| == 1 {
      assert folder.path == [folder.path[0]];
    } else {
      assert folder.path[..|folder.path| - 1][0] == folder.path[0];
    }
  }

  lemma CrashKeepsInv(env: Env, s: State)
    requires Inv(env, s)
    ensures Inv(env, AfterCrash(s))
  {
    var s' := AfterCrash(s);
    forall h | h in s'.requests ensures DropOk(env, s'.requests[h], DropOf(s', h)) {
      assert DropOk(env, s.requests[h], DropOf(s, h));
      assert DropOf(s', h) == DropOf(s, h).(pc := None);
    }
  }

  /** A crash takes no file and no directory with it, and nothing that was under way goes on. */
  lemma CrashStopsAll(env: Env, s: State, hex: string, op: Op, id: nat, ok: bool)
    ensures AfterCrash(s).files == s.files && AfterCrash(s).folders == s.folders
    ensures Next(env, AfterCrash(s), Upload(hex, op)) == None
    ensures Next(env, AfterCrash(s), DeleteMain(id, ok)) == None && Next(env, AfterCrash(s), DeleteSidecar(id, ok)) == None
  {}

  lemma NextKeepsInv(env: Env, s: State, a: Action)
    requires Inv(env, s) && Next(env, s, a).Some?
    ensures Inv(env, Next(env, s, a).value)
  {
    match a
    case MakeFolder(folder) => MakeOneKeepsInv(env, s, folder);
    case Begin(hex, request) => BeginKeepsInv(env, s, hex, request);
    case Upload(hex, op) => StepKeepsInv(env, s, hex, op);
    case DeleteStart(id, loc) => ChangeDeletions(env, s, s.deletions[id := Checked(loc)]);
    case DeleteMain(id, ok) => RemoveMainKeepsInv(env, s, id, ok);
    case DeleteSidecar(id, ok) => RemoveSidecarKeepsInv(env, s, id, ok);
    case Crash => CrashKeepsInv(env, s);
  }

  lemma {:induction false} RunKeepsInv(env: Env, actions: seq<Action>)
    requires Exec(env, actions).Some?
    ensures Inv(env, Exec(env, actions).value)
  {
    if actions != [] {
      var init := actions[..|actions| - 1];
      RunKeepsInv(env, init);
      NextKeepsInv(env, Exec(env, init).value, actions[|actions| - 1]);
    }
  }
}
