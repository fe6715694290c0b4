/**
 The upload and delete handlers as they run, on a disk that may be faulty: then any operation may fail.
 Each of their runs is a run of the step system of Store, so what holds there holds of this code; and
 on a disk without faults they fail only where the request is at fault.
 */
module Handlers {
  import opened Prelude
  import opened Crypto
  import opened Text
  import opened Names
  import opened Metadata
  import opened Vaults
  import opened Store
  import opened Commit
  import Multipart
  import Sessions
  import Streams

  class Disk {
    const faulty: bool
    var files: map<Loc, Content>
    var folders: set<Folder>

    constructor (files: map<Loc, Content>, folders: set<Folder>, faulty: bool)
      ensures this.files == files && this.folders == folders && this.faulty == faulty
    {
      this.files, this.folders, this.faulty := files, folders, faulty;
    }

    /** Makes one directory; its parent exists. */
    method MakeFolder(folder: Folder) returns (ok: bool)
      requires folder.path != []
      modifies `folders
      ensures folders == if ok then old(folders) + {folder} else old(folders)
      ensures ok ==> folder in old(folders) || !IsBarred(files, folder)
      ensures !ok ==> faulty || IsBarred(files, folder)
    {
      if folder in folders {
        return true;
      }
      if IsBarred(files, folder) {
        return false;
      }
      if faulty {
        if * {
          return false;
        }
      }
      folders := folders + {folder};
      return true;
    }

    /** Creates a file, or writes a whole one through an open handle. */
    method Save(loc: Loc, c: Content) returns (ok: bool)
      modifies `files
      ensures files == if ok then old(files)[loc := c] else old(files)
      ensures ok ==> Place(loc) !in folders
      ensures !ok ==> faulty || Place(loc) in folders
    {
      if Place(loc) in folders {
        return false;
      }
      if faulty {
        if * {
          return false;
        }
      }
      files := files[loc := c];
      return true;
    }

    /** What an open writer has put into its file so far. */
    method Fill(loc: Loc, bytes: seq<byte>)
      modifies `files
      ensures files == old(files)[loc := Open(Data(bytes))]
    {
      files := files[loc := Open(Data(bytes))];
    }

    /** Closing an encryptor completes its file. */
    method Close(loc: Loc, key: Recipient) returns (ok: bool)
      requires loc in files
      modifies `files
      ensures files == if ok then old(files)[loc := Seal(old(files)[loc], key)] else old(files)
      ensures !ok ==> faulty
    {
      if faulty {
        if * {
          return false;
        }
      }
      files := files[loc := Seal(files[loc], key)];
      return true;
    }

    /** Renames a file. */
    method Rename(from: Loc, to: Loc) returns (ok: bool)
      requires Place(from) !in folders
      modifies `files
      ensures ok ==> from in old(files) && files == (old(files) - {from})[to := old(files)[from]]
      ensures ok ==> Place(to) !in folders
      ensures !ok ==> files == old(files) && (faulty || from !in files || Place(to) in folders)
    {
      if from !in files || Place(to) in folders {
        return false;
      }
      if faulty {
        if * {
          return false;
        }
      }
      files := (files - {from})[to := files[from]];
      return true;
    }

    method Remove(loc: Loc) returns (ok: bool)
      modifies `files
      ensures ok ==> loc in old(files)
      ensures files == if ok then old(files) - {loc} else old(files)
      ensures files == if loc in files then old(files) else old(files) - {loc}
      ensures loc in files ==> faulty
    {
      if loc !in files {
        return false;
      }
      if faulty {
        if * {
          return false;
        }
      }
      files := files - {loc};
      return true;
    }
  }

  // ---------- One upload on a disk ----------

  datatype Refusal = InvalidName | VaultNotFound | PermissionDenied | SubfoldersNotAllowed | InvalidSubpath

  datatype UploadFailure =
    | Refused(refusal: Refusal)
    | NoFolder
    | DiskFailed
    | NotMultipart
    | BadBody(error: Multipart.UploadError)

  /** The checks handle_upload makes before it picks a name, in its order. */
  function UploadRefusal(env: Env, name: string, subpath: Option<string>): Option<Refusal> {
    if !IsValidName(name) then Some(InvalidName)
    else if name !in env.vaults then Some(VaultNotFound)
    else if !env.vaults[name].permissions.allowUpload then Some(PermissionDenied)
    else
      match subpath
      case None => None
      case Some(p) =>
        if !env.vaults[name].permissions.allowSubfolders then Some(SubfoldersNotAllowed)
        else if !IsValidSubpath(p) then Some(InvalidSubpath)
        else None
  }

  /** A request is refused exactly when it is not admissible. */
  lemma RefusedIffInadmissible(env: Env, r: Request)
    requires Multipart.SizesFit(r.fields) && |PayloadBytes(r)| <= U64_MAX
    ensures UploadRefusal(env, r.vault, r.subpath) == None <==> Admissible(env, r)
  {}

  /** The four files of this upload are those of `d`; no other file has changed. */
  ghost predicate OnDisk(r: Request, hex: string, before: map<Loc, Content>, files: map<Loc, Content>, d: Drop) {
    && (forall kind :: Read(files, LocOf(r, hex, kind)) == FileOf(d, kind))
    && forall loc :: (forall kind :: loc != LocOf(r, hex, kind)) ==> Read(files, loc) == Read(before, loc)
  }

  /** After the steps `ops` of the upload its drop is `d`, and that is what the disk shows. */
  ghost predicate Reached(env: Env, r: Request, hex: string, before: map<Loc, Content>, files: map<Loc, Content>,
                          ops: seq<Op>, d: Drop)
    requires Admissible(env, r)
  {
    RunOps(env, r, FRESH, ops) == Some(d) && OnDisk(r, hex, before, files, d)
  }

  lemma {:induction false} RunOpsSnoc(env: Env, r: Request, d: Drop, ops: seq<Op>, op: Op)
    requires Admissible(env, r) && RunOps(env, r, d, ops).Some?
    ensures RunOps(env, r, d, ops + [op]) == StepDrop(env, r, RunOps(env, r, d, ops).value, op)
    decreases |ops|
  {
    if ops == [] {
      assert ([op])[1..] == [];
      assert ops + [op] == [op];
    } else {
      assert (ops + [op])[1..] == ops[1..] + [op];
      RunOpsSnoc(env, r, StepDrop(env, r, d, ops[0]).value, ops[1..], op);
    }
  }

  lemma WritesOnDisk(r: Request, hex: string, before: map<Loc, Content>, files: map<Loc, Content>, d: Drop, d': Drop,
                     kind1: Kind, kind2: Kind, files': map<Loc, Content>)
    requires IsHex(hex) && OnDisk(r, hex, before, files, d)
    requires forall kind :: kind != kind1 && kind != kind2 ==> FileOf(d', kind) == FileOf(d, kind)
    requires files' == Write(Write(files, LocOf(r, hex, kind1), FileOf(d', kind1)), LocOf(r, hex, kind2), FileOf(d', kind2))
    ensures OnDisk(r, hex, before, files', d')
  {
    FourLocs(r, hex);
    forall kind ensures Read(files', LocOf(r, hex, kind)) == FileOf(d', kind) {
      assert Read(files, LocOf(r, hex, kind)) == FileOf(d, kind);
    }
  }

  /** One more step that changes at most two of the files, both on paper and on the disk. */
  lemma Advance(env: Env, r: Request, hex: string, before: map<Loc, Content>, files: map<Loc, Content>, ops: seq<Op>, d: Drop,
                op: Op, d': Drop, kind1: Kind, kind2: Kind, files': map<Loc, Content>)
    requires IsHex(hex) && Admissible(env, r) && Reached(env, r, hex, before, files, ops, d)
    requires StepDrop(env, r, d, op) == Some(d')
    requires forall kind :: kind != kind1 && kind != kind2 ==> FileOf(d', kind) == FileOf(d, kind)
    requires files' == Write(Write(files, LocOf(r, hex, kind1), FileOf(d', kind1)), LocOf(r, hex, kind2), FileOf(d', kind2))
    ensures Reached(env, r, hex, before, files', ops + [op], d')
  {
    RunOpsSnoc(env, r, FRESH, ops, op);
    WritesOnDisk(r, hex, before, files, d, d', kind1, kind2, files');
  }

  /** Some order in which a hash map hands out its keys. */
  method Traverse(m: map<string, Json>) returns (order: seq<string>)
    ensures IsOrder(order, m.Keys)
  {
    order := [];
    var rest := m.Keys;
    while rest != {}
      invariant rest <= m.Keys
      invariant forall k :: k in m.Keys <==> k in order || k in rest
      invariant forall k :: k in order ==> k !in rest
      invariant forall i, j :: 0 <= i < j < |order| ==> order[i] != order[j]
    {
      var k :| k in rest;
      order, rest := order + [k], rest - {k};
    }
  }

  /** An upload that has begun, neither ended nor given up. */
  predicate Live(d: Drop) {
    d.pc.Some? && !d.pc.value.CleanMeta? && !d.pc.value.CleanPayload? && !d.committed
  }

  function AtStreaming(): Drop {
    FRESH.(pc := Some(Streaming(0)), sidecarTmp := Some(Open(Record([]))), payloadTmp := Some(Open(Data([]))))
  }

  /** None of the four names is that of a directory. */
  ghost predicate Free(folders: set<Folder>, r: Request, hex: string) {
    forall kind :: Place(LocOf(r, hex, kind)) !in folders
  }

  /** Both temporary files, the one for the metadata first. */
  method OpenFiles(env: Env, disk: Disk, metaTmp: Loc, fileTmp: Loc, ghost r: Request, ghost hex: string)
    returns (ok: bool, ghost ops: seq<Op>, ghost d: Drop)
    requires Admissible(env, r) && IsHex(hex) && OnDisk(r, hex, disk.files, disk.files, FRESH) && Free(disk.folders, r, hex)
    requires metaTmp == LocOf(r, hex, SidecarTmp) && fileTmp == LocOf(r, hex, PayloadTmp)
    modifies disk`files
    ensures Reached(env, r, hex, old(disk.files), disk.files, ops, d) && Live(d)
    ensures if ok then d == AtStreaming() else disk.faulty
  {
    ghost var before := disk.files;
    ops, d := [], FRESH;
    var created := disk.Save(metaTmp, Open(Record([])));
    if !created {
      return false, ops, d;
    }
    ghost var d1 := d.(pc := Some(MetaCreated), sidecarTmp := Some(Open(Record([]))));
    Advance(env, r, hex, before, before, ops, d, CreateMeta, d1, SidecarTmp, SidecarTmp, disk.files);
    ops, d := ops + [CreateMeta], d1;
    ghost var middle := disk.files;
    created := disk.Save(fileTmp, Open(Data([])));
    if !created {
      return false, ops, d;
    }
    Advance(env, r, hex, before, middle, ops, d, CreatePayload, AtStreaming(), PayloadTmp, PayloadTmp, disk.files);
    ops, d := ops + [CreatePayload], AtStreaming();
    ok := true;
    if disk.faulty {
      ok := *; // the encryptor writes its header
    }
  }

  lemma FedPrefix(env: Env, r: Request, d: Drop, bytes: seq<byte>)
    requires Admissible(env, r) && d == AtStreaming() && bytes <= PayloadBytes(r)
    ensures StepDrop(env, r, d, Feed(|bytes|)) ==
            Some(d.(pc := Some(Streaming(|bytes|)), payloadTmp := Some(Open(Data(bytes)))))
  {
    assert [] + PayloadBytes(r)[0..0 + |bytes|] == bytes;
  }

  /** The body goes through the encryptor into the payload's temporary file. */
  method StreamBody(env: Env, disk: Disk, fileTmp: Loc, parts: seq<Multipart.Part>, tailBroken: bool,
                    ghost r: Request, ghost hex: string, ghost before: map<Loc, Content>, ghost ops0: seq<Op>)
    returns (m: Result<FileMetadata, Multipart.UploadError>, ghost ops: seq<Op>, ghost d: Drop)
    requires Admissible(env, r) && IsHex(hex) && fileTmp == LocOf(r, hex, PayloadTmp)
    requires r.fields == Multipart.WholeAll(parts) && r.tailBroken == tailBroken
    requires Reached(env, r, hex, before, disk.files, ops0, AtStreaming())
    modifies disk`files
    ensures Reached(env, r, hex, before, disk.files, ops, d) && Live(d)
    ensures (disk.faulty && m == Err(Multipart.WriteFailed)) || m == BodyOutcome(env, r)
    ensures m.Ok? ==> d == AtStreaming().(pc := Some(Streaming(|PayloadBytes(r)|)), payloadTmp := Some(Open(Data(PayloadBytes(r)))))
  {
    ghost var files0 := disk.files;
    var w := new Streams.Sink(disk.faulty);
    m := Multipart.HandleMultipart(parts, tailBroken, env.json, w);
    disk.Fill(fileTmp, w.bytes);
    assert [] + PayloadBytes(r) == PayloadBytes(r);
    FedPrefix(env, r, AtStreaming(), w.bytes);
    d := AtStreaming().(pc := Some(Streaming(|w.bytes|)), payloadTmp := Some(Open(Data(w.bytes))));
    Advance(env, r, hex, before, files0, ops0, AtStreaming(), Feed(|w.bytes|), d, PayloadTmp, PayloadTmp, disk.files);
    ops := ops0 + [Feed(|w.bytes|)];
  }

  function AtClosed(env: Env, r: Request, order: seq<string>, m: FileMetadata): Drop
    requires r.vault in env.vaults && forall k :: k in order ==> k in m.extended
  {
    var key := env.vaults[r.vault].recipient;
    FRESH.(pc := Some(MetaClosed),
           payloadTmp := Some(Closed(key, Data(PayloadBytes(r)))),
           sidecarTmp := Some(Closed(key, Record(ToPairs(m, order)))))
  }

  /** Both encryptors are closed: payload first, then the metadata record. */
  method CloseFiles(env: Env, disk: Disk, metaTmp: Loc, fileTmp: Loc, key: Recipient, m: FileMetadata,
                    ghost r: Request, ghost hex: string, ghost before: map<Loc, Content>, ghost ops0: seq<Op>, ghost d0: Drop)
    returns (ok: bool, ghost order: seq<string>, ghost ops: seq<Op>, ghost d: Drop)
    requires Admissible(env, r) && IsHex(hex) && Free(disk.folders, r, hex)
    requires BodyOutcome(env, r) == Ok(m) && key == env.vaults[r.vault].recipient
    requires metaTmp == LocOf(r, hex, SidecarTmp) && fileTmp == LocOf(r, hex, PayloadTmp)
    requires d0 == AtStreaming().(pc := Some(Streaming(|PayloadBytes(r)|)), payloadTmp := Some(Open(Data(PayloadBytes(r)))))
    requires Reached(env, r, hex, before, disk.files, ops0, d0)
    modifies disk`files
    ensures Reached(env, r, hex, before, disk.files, ops, d) && Live(d)
    ensures if ok then IsOrder(order, m.extended.Keys) && d == AtClosed(env, r, order, m) else disk.faulty
  {
    ops, d, order := ops0, d0, [];
    ghost var files0 := disk.files;
    assert Read(files0, fileTmp) == FileOf(d, PayloadTmp);
    var saved := disk.Close(fileTmp, key);
    if !saved {
      return false, order, ops, d;
    }
    ghost var d1 := d.(pc := Some(PayloadClosed), payloadTmp := Some(Closed(key, Data(PayloadBytes(r)))));
    Advance(env, r, hex, before, files0, ops, d, ClosePayload, d1, PayloadTmp, PayloadTmp, disk.files);
    ops, d := ops + [ClosePayload], d1;
    ghost var files1 := disk.files;
    var traversal := Traverse(m.extended);
    order := traversal;
    saved := disk.Save(metaTmp, Closed(key, Record(ToPairs(m, traversal))));
    if !saved {
      return false, order, ops, d;
    }
    Advance(env, r, hex, before, files1, ops, d, WriteMeta(order), AtClosed(env, r, order, m), SidecarTmp, SidecarTmp, disk.files);
    ops, d := ops + [WriteMeta(order)], AtClosed(env, r, order, m);
    ok := true;
  }

  lemma AdvanceByRename(env: Env, r: Request, hex: string, before: map<Loc, Content>, files: map<Loc, Content>, ops: seq<Op>,
                        d: Drop, op: Op, d': Drop, from: Kind, to: Kind, files': map<Loc, Content>)
    requires IsHex(hex) && Admissible(env, r) && Reached(env, r, hex, before, files, ops, d)
    requires StepDrop(env, r, d, op) == Some(d') && from != to
    requires FileOf(d, from).Some? && FileOf(d', from) == None && FileOf(d', to) == FileOf(d, from)
    requires forall kind :: kind != from && kind != to ==> FileOf(d', kind) == FileOf(d, kind)
    requires LocOf(r, hex, from) in files
    requires files' == (files - {LocOf(r, hex, from)})[LocOf(r, hex, to) := files[LocOf(r, hex, from)]]
    ensures Reached(env, r, hex, before, files', ops + [op], d')
  {
    assert Read(files, LocOf(r, hex, from)) == FileOf(d, from);
    Advance(env, r, hex, before, files, ops, d, op, d', from, to, files');
  }

  /** The two renames: the sidecar appears before the payload. */
  method RenameFiles(env: Env, disk: Disk, metaTmp: Loc, fileTmp: Loc, meta: Loc, file: Loc,
                     ghost r: Request, ghost hex: string, ghost before: map<Loc, Content>, ghost ops0: seq<Op>, ghost d0: Drop)
    returns (ok: bool, ghost ops: seq<Op>, ghost d: Drop)
    requires Admissible(env, r) && IsHex(hex)
    requires metaTmp == LocOf(r, hex, SidecarTmp) && fileTmp == LocOf(r, hex, PayloadTmp)
    requires meta == LocOf(r, hex, Sidecar) && file == LocOf(r, hex, Payload)
    requires Free(disk.folders, r, hex)
    requires d0.pc == Some(MetaClosed) && d0.sidecarTmp.Some? && d0.payloadTmp.Some? && Live(d0)
    requires Reached(env, r, hex, before, disk.files, ops0, d0)
    modifies disk`files
    ensures Reached(env, r, hex, before, disk.files, ops, d)
    ensures if ok then d.committed && d.pc == None else Live(d) && disk.faulty
  {
    ops, d := ops0, d0;
    ghost var files0 := disk.files;
    var renamed := disk.Rename(metaTmp, meta);
    if !renamed {
      return false, ops, d;
    }
    ghost var d1 := d.(pc := Some(MetaRenamed), sidecar := d.sidecarTmp, sidecarTmp := None);
    AdvanceByRename(env, r, hex, before, files0, ops, d, RenameMeta, d1, SidecarTmp, Sidecar, disk.files);
    ops, d := ops + [RenameMeta], d1;
    ghost var files1 := disk.files;
    renamed := disk.Rename(fileTmp, file);
    if !renamed {
      return false, ops, d;
    }
    ghost var d2 := d.(pc := None, payload := d.payloadTmp, payloadTmp := None, committed := true);
    AdvanceByRename(env, r, hex, before, files1, ops, d, RenamePayload, d2, PayloadTmp, Payload, disk.files);
    ops, d := ops + [RenamePayload], d2;
    ok := true;
  }

  /** One removal by the drop guard; that the file is gone afterwards is what counts. */
  lemma GuardRemoves(env: Env, r: Request, hex: string, before: map<Loc, Content>, files: map<Loc, Content>, ops: seq<Op>, d: Drop,
                     op: Op, d': Drop, kind: Kind, files': map<Loc, Content>, gone: bool)
    requires IsHex(hex) && Admissible(env, r) && Reached(env, r, hex, before, files, ops, d)
    requires StepDrop(env, r, d, op) == Some(d') && FileOf(d', kind) == if gone then None else FileOf(d, kind)
    requires forall k :: k != kind ==> FileOf(d', k) == FileOf(d, k)
    requires files' == if gone then files - {LocOf(r, hex, kind)} else files
    ensures Reached(env, r, hex, before, files', ops + [op], d')
  {
    assert Read(files, LocOf(r, hex, kind)) == FileOf(d, kind);
    WriteSame(files, LocOf(r, hex, kind));
    assert files' == Write(files, LocOf(r, hex, kind), FileOf(d', kind));
    Advance(env, r, hex, before, files, ops, d, op, d', kind, kind, files');
  }

  function GuardOps(metaGone: bool, fileGone: bool): seq<Op> {
    [Fail, RemoveMetaTmp(metaGone), RemovePayloadTmp(fileGone)]
  }

  function Cleaned(d: Drop, metaGone: bool, fileGone: bool): Drop {
    d.(pc := None,
       sidecarTmp := if metaGone then None else d.sidecarTmp,
       payloadTmp := if fileGone then None else d.payloadTmp,
       cleaned := metaGone && fileGone)
  }

  function Gone(files: map<Loc, Content>, loc: Loc, gone: bool): map<Loc, Content> {
    if gone then files - {loc} else files
  }

  lemma GuardStarts(env: Env, r: Request, hex: string, before: map<Loc, Content>, files: map<Loc, Content>, ops: seq<Op>, d: Drop)
    requires IsHex(hex) && Admissible(env, r) && Reached(env, r, hex, before, files, ops, d) && Live(d)
    ensures Reached(env, r, hex, before, files, ops + [Fail], d.(pc := Some(CleanMeta)))
  {
    GuardRemoves(env, r, hex, before, files, ops, d, Fail, d.(pc := Some(CleanMeta)), SidecarTmp, files, false);
  }

  lemma GuardTakesMeta(env: Env, r: Request, hex: string, before: map<Loc, Content>, files: map<Loc, Content>, ops: seq<Op>, d: Drop,
                       gone: bool)
    requires IsHex(hex) && Admissible(env, r) && Reached(env, r, hex, before, files, ops, d) && d.pc == Some(CleanMeta)
    ensures Reached(env, r, hex, before, Gone(files, LocOf(r, hex, SidecarTmp), gone), ops + [RemoveMetaTmp(gone)],
                    d.(pc := Some(CleanPayload(gone)), sidecarTmp := if gone then None else d.sidecarTmp))
  {
    GuardRemoves(env, r, hex, before, files, ops, d, RemoveMetaTmp(gone),
                 d.(pc := Some(CleanPayload(gone)), sidecarTmp := if gone then None else d.sidecarTmp),
                 SidecarTmp, Gone(files, LocOf(r, hex, SidecarTmp), gone), gone);
  }

  lemma GuardTakesPayload(env: Env, r: Request, hex: string, before: map<Loc, Content>, files: map<Loc, Content>, ops: seq<Op>, d: Drop,
                          metaGone: bool, gone: bool)
    requires IsHex(hex) && Admissible(env, r) && Reached(env, r, hex, before, files, ops, d) && d.pc == Some(CleanPayload(metaGone))
    ensures Reached(env, r, hex, before, Gone(files, LocOf(r, hex, PayloadTmp), gone), ops + [RemovePayloadTmp(gone)],
                    d.(pc := None, payloadTmp := if gone then None else d.payloadTmp, cleaned := metaGone && gone))
  {
    GuardRemoves(env, r, hex, before, files, ops, d, RemovePayloadTmp(gone),
                 d.(pc := None, payloadTmp := if gone then None else d.payloadTmp, cleaned := metaGone && gone),
                 PayloadTmp, Gone(files, LocOf(r, hex, PayloadTmp), gone), gone);
  }

  /** The three steps of the guard. */
  lemma GuardRan(env: Env, r: Request, hex: string, before: map<Loc, Content>, files: map<Loc, Content>, ops: seq<Op>, d: Drop,
                 metaGone: bool, fileGone: bool)
    requires IsHex(hex) && Admissible(env, r) && Reached(env, r, hex, before, files, ops, d) && Live(d)
    ensures Reached(env, r, hex, before,
                    Gone(Gone(files, LocOf(r, hex, SidecarTmp), metaGone), LocOf(r, hex, PayloadTmp), fileGone),
                    ops + GuardOps(metaGone, fileGone), Cleaned(d, metaGone, fileGone))
  {
    var d1 := d.(pc := Some(CleanMeta));
    var d2 := d1.(pc := Some(CleanPayload(metaGone)), sidecarTmp := if metaGone then None else d1.sidecarTmp);
    var files1 := Gone(files, LocOf(r, hex, SidecarTmp), metaGone);
    GuardStarts(env, r, hex, before, files, ops, d);
    GuardTakesMeta(env, r, hex, before, files, ops + [Fail], d1, metaGone);
    GuardTakesPayload(env, r, hex, before, files1, ops + [Fail] + [RemoveMetaTmp(metaGone)], d2, metaGone, fileGone);
    assert ops + [Fail] + [RemoveMetaTmp(metaGone)] + [RemovePayloadTmp(fileGone)] == ops + GuardOps(metaGone, fileGone);
  }

  /** The drop guard of an upload that did not succeed: it tries both removals and ignores their outcome. */
  method CleanUp(env: Env, disk: Disk, metaTmp: Loc, fileTmp: Loc,
                 ghost r: Request, ghost hex: string, ghost before: map<Loc, Content>, ghost ops0: seq<Op>, ghost d0: Drop)
    returns (ghost ops: seq<Op>, ghost d: Drop)
    requires Admissible(env, r) && IsHex(hex) && Live(d0)
    requires metaTmp == LocOf(r, hex, SidecarTmp) && fileTmp == LocOf(r, hex, PayloadTmp)
    requires Reached(env, r, hex, before, disk.files, ops0, d0)
    modifies disk`files
    ensures Reached(env, r, hex, before, disk.files, ops, d) && d.pc == None && !d.committed
    ensures d.cleaned <==> metaTmp !in disk.files && fileTmp !in disk.files
    ensures !disk.faulty ==> d.cleaned
  {
    assert metaTmp != fileTmp by { FourLocs(r, hex); }
    ghost var files := disk.files;
    var _ := disk.Remove(metaTmp);
    ghost var metaGone := metaTmp !in disk.files;
    var _ := disk.Remove(fileTmp);
    ghost var fileGone := fileTmp !in disk.files;
    GuardRan(env, r, hex, before, files, ops0, d0, metaGone, fileGone);
    assert disk.files == Gone(Gone(files, metaTmp, metaGone), fileTmp, fileGone);
    ops, d := ops0 + GuardOps(metaGone, fileGone), Cleaned(d0, metaGone, fileGone);
  }

  lemma NothingYet(s: map<Loc, Content>, r: Request, hex: string)
    requires forall kind :: LocOf(r, hex, kind) !in s
    ensures OnDisk(r, hex, s, s, FRESH)
  {}

  /** Everything between taking out the drop guard and disarming it. */
  method WriteDrop(env: Env, disk: Disk, metaTmp: Loc, fileTmp: Loc, meta: Loc, file: Loc, key: Recipient, isMultipart: bool,
                   parts: seq<Multipart.Part>, tailBroken: bool, ghost r: Request, ghost hex: string)
    returns (result: Result<(), UploadFailure>, ghost ops: seq<Op>, ghost d: Drop)
    requires Admissible(env, r) && IsHex(hex) && OnDisk(r, hex, disk.files, disk.files, FRESH) && Free(disk.folders, r, hex)
    requires metaTmp == LocOf(r, hex, SidecarTmp) && fileTmp == LocOf(r, hex, PayloadTmp)
    requires meta == LocOf(r, hex, Sidecar) && file == LocOf(r, hex, Payload) && key == env.vaults[r.vault].recipient
    requires r.fields == Multipart.WholeAll(parts) && r.tailBroken == tailBroken
    modifies disk`files
    ensures Reached(env, r, hex, old(disk.files), disk.files, ops, d)
    ensures if result.Ok? then d.committed && d.pc == None else Live(d)
    ensures result.Err? ==> IsReason(env, r, disk.faulty, isMultipart, result.error)
    ensures result.Ok? ==> isMultipart && BodyOutcome(env, r).Ok?
  {
    ghost var before := disk.files;
    var ready;
    ready, ops, d := OpenFiles(env, disk, metaTmp, fileTmp, r, hex);
    if !ready {
      return Err(DiskFailed), ops, d;
    }
    if !isMultipart {
      return Err(NotMultipart), ops, d;
    }
    var m;
    m, ops, d := StreamBody(env, disk, fileTmp, parts, tailBroken, r, hex, before, ops);
    if m.Err? {
      return Err(BadBody(m.error)), ops, d;
    }
    ghost var order;
    var closed;
    closed, order, ops, d := CloseFiles(env, disk, metaTmp, fileTmp, key, m.value, r, hex, before, ops, d);
    if !closed {
      return Err(DiskFailed), ops, d;
    }
    var renamed;
    renamed, ops, d := RenameFiles(env, disk, metaTmp, fileTmp, meta, file, r, hex, before, ops, d);
    if !renamed {
      return Err(DiskFailed), ops, d;
    }
    result := Ok(());
  }

  /** Why an admitted upload fails: a fault of the disk, the wrong content type, or the body itself. */
  ghost predicate IsReason(env: Env, r: Request, faulty: bool, isMultipart: bool, e: UploadFailure)
    requires Admissible(env, r)
  {
    || (faulty && e in {DiskFailed, BadBody(Multipart.WriteFailed)})
    || (!isMultipart && e == NotMultipart)
    || (isMultipart && e.BadBody? && BodyOutcome(env, r) == Err(e.error))
  }

  /** How an upload names its own drop in the answer. */
  function UploadedPath(subpath: Option<string>, hex: string): string {
    match subpath
    case None => DropName(Payload, hex)
    case Some(p) => p + "/" + DropName(Payload, hex)
  }

  /** The four names as handle_upload spells them. */
  lemma NamesOfDrop(hex: string)
    requires IsHex(hex)
    ensures SidecarFor(DropName(Payload, hex)) == Some(DropName(Sidecar, hex))
    ensures DropName(Payload, hex) + ".tmp" == DropName(PayloadTmp, hex)
    ensures DropName(Sidecar, hex) + ".tmp" == DropName(SidecarTmp, hex)
  {
    DropNameRoles(hex);
    assert "drop-" + hex + ".age" + ".tmp" == "drop-" + hex + ".age.tmp";
    assert "drop-" + hex + ".meta.age" + ".tmp" == "drop-" + hex + ".meta.age.tmp";
  }

  /** The same with the drop guard: whatever fails, it runs. */
  method WriteOrCleanUp(env: Env, disk: Disk, metaTmp: Loc, fileTmp: Loc, meta: Loc, file: Loc, key: Recipient, isMultipart: bool,
                        parts: seq<Multipart.Part>, tailBroken: bool, ghost r: Request, ghost hex: string)
    returns (result: Result<(), UploadFailure>, ghost ops: seq<Op>, ghost d: Drop)
    requires Admissible(env, r) && IsHex(hex) && OnDisk(r, hex, disk.files, disk.files, FRESH) && Free(disk.folders, r, hex)
    requires metaTmp == LocOf(r, hex, SidecarTmp) && fileTmp == LocOf(r, hex, PayloadTmp)
    requires meta == LocOf(r, hex, Sidecar) && file == LocOf(r, hex, Payload) && key == env.vaults[r.vault].recipient
    requires r.fields == Multipart.WholeAll(parts) && r.tailBroken == tailBroken
    modifies disk`files
    ensures Reached(env, r, hex, old(disk.files), disk.files, ops, d) && d.pc == None && (result.Ok? <==> d.committed)
    ensures result.Err? ==> IsReason(env, r, disk.faulty, isMultipart, result.error) && (disk.faulty || d.cleaned)
    ensures result.Ok? ==> isMultipart && BodyOutcome(env, r).Ok?
  {
    result, ops, d := WriteDrop(env, disk, metaTmp, fileTmp, meta, file, key, isMultipart, parts, tailBroken, r, hex);
    if result.Err? {
      ops, d := CleanUp(env, disk, metaTmp, fileTmp, r, hex, old(disk.files), ops, d);
    }
  }

  predicate HoldsNul(dir: seq<string>) {
    exists c :: c in dir && '\0' in c
  }

  /** create_dir_all: the directories from the outermost on, up to the first that cannot be made. */
  method MakeFolders(disk: Disk, vault: string, dir: seq<string>, ghost r: Request) returns (ok: bool, ghost made: nat)
    requires r.vault == vault && DirOf(r) == dir
    modifies disk`folders
    ensures made <= |dir| && (ok <==> made == |dir|)
    ensures disk.folders == old(disk.folders) + FoldersUpTo(r, made) && Passable(disk.files, old(disk.folders), r, made)
    ensures !ok ==> disk.faulty || IsBarred(disk.files, FolderAt(r, made + 1)) || (made == 0 && HoldsNul(dir))
  {
    made := 0;
    if HoldsNul(dir) {
      return false, made; // the standard library refuses the path as a whole
    }
    for i := 0 to |dir|
      invariant made == i && disk.folders == old(disk.folders) + FoldersUpTo(r, i)
      invariant Passable(disk.files, old(disk.folders), r, i)
    {
      ok := disk.MakeFolder(Folder(vault, dir[..i + 1]));
      if !ok {
        return;
      }
      if FolderAt(r, i + 1) in FoldersUpTo(r, i) { FoldersAreShort(r, i, FolderAt(r, i + 1)); }
      made := i + 1;
    }
    ok := true;
  }

  /** The first `n` directories of a request exist, or nothing is in their way. */
  ghost predicate Passable(files: map<Loc, Content>, folders: set<Folder>, r: Request, n: nat)
    requires n <= |DirOf(r)|
  {
    forall m :: 0 < m <= n ==> FolderAt(r, m) in folders || !IsBarred(files, FolderAt(r, m))
  }

  /** How an admitted run ends: at a directory that cannot be made, or with a drop of its own. */
  datatype Trace = Stopped(made: nat) | Ran(ops: seq<Op>, drop: Drop)

  /** What a finished run has to do with its answer and the disk; `files0` and `folders0` were there before. */
  ghost predicate Explains(env: Env, r: Request, hex: string, files0: map<Loc, Content>, folders0: set<Folder>,
                           files: map<Loc, Content>, folders: set<Folder>, faulty: bool, isMultipart: bool,
                           answer: Result<string, UploadFailure>, trace: Trace)
    requires Admissible(env, r)
  {
    match trace
    case Stopped(made) =>
      && answer == Err(NoFolder) && files == files0 && made < |DirOf(r)|
      && folders == folders0 + FoldersUpTo(r, made) && Passable(files0, folders0, r, made)
      && (faulty || IsBarred(files0, FolderAt(r, made + 1)) || (made == 0 && HoldsNul(DirOf(r))))
    case Ran(ops, d) =>
      && folders == folders0 + FoldersUpTo(r, |DirOf(r)|) && Passable(files0, folders0, r, |DirOf(r)|)
      && Reached(env, r, hex, files0, files, ops, d)
      && d.pc == None
      && (d.committed ==> answer == Ok(UploadedPath(r.subpath, hex)))
      && (answer.Ok? <==> d.committed)
      && (answer.Ok? ==> isMultipart && BodyOutcome(env, r).Ok?)
      && (answer.Err? ==> IsReason(env, r, faulty, isMultipart, answer.error) && (faulty || d.cleaned))
  }

  /** A name that no file and no directory has. */
  ghost predicate IsUnused(files: map<Loc, Content>, folders: set<Folder>, r: Request, hex: string) {
    && IsHex(hex) && Free(folders, r, hex)
    && forall loc :: loc in files ==> forall kind :: loc.name != DropName(kind, hex)
  }

  /** handle_upload behind its checks: the directories, the four names, the drop, the answer. */
  method Receive(env: Env, disk: Disk, name: string, subpath: Option<string>, dir: seq<string>, key: Recipient, isMultipart: bool,
                 parts: seq<Multipart.Part>, tailBroken: bool, hex: string, ghost r: Request)
    returns (answer: Result<string, UploadFailure>, ghost trace: Trace)
    requires r == Request(name, subpath, Multipart.WholeAll(parts), tailBroken) && dir == DirOf(r)
    requires Admissible(env, r) && key == env.vaults[name].recipient && IsUnused(disk.files, disk.folders, r, hex)
    modifies disk
    ensures Explains(env, r, hex, old(disk.files), old(disk.folders), disk.files, disk.folders, disk.faulty, isMultipart, answer, trace)
  {
    ghost var made;
    var ready;
    ready, made := MakeFolders(disk, name, dir, r);
    if !ready {
      return Err(NoFolder), Stopped(made);
    }
    StillFree(old(disk.folders), r, hex);
    NamesOfDrop(hex);
    var dropName := DropName(Payload, hex);
    var metaName := SidecarFor(dropName).value;
    var metaTmp, fileTmp := Loc(name, dir, metaName + ".tmp"), Loc(name, dir, dropName + ".tmp");
    NothingYet(disk.files, r, hex);
    ghost var ops, d;
    var result;
    result, ops, d := WriteOrCleanUp(env, disk, metaTmp, fileTmp, Loc(name, dir, metaName), Loc(name, dir, dropName),
                                     key, isMultipart, parts, tailBroken, r, hex);
    trace := Ran(ops, d);
    if result.Err? {
      return Err(result.error), trace;
    }
    answer := Ok(if subpath.Some? then subpath.value + "/" + dropName else dropName);
  }

  /** handle_upload. */
  method HandleUpload(env: Env, disk: Disk, name: string, subpath: Option<string>, isMultipart: bool,
                      parts: seq<Multipart.Part>, tailBroken: bool, hex: string)
    returns (answer: Result<string, UploadFailure>, ghost trace: Trace)
    requires Multipart.SizesFit(Multipart.WholeAll(parts)) && |Multipart.Payload(Multipart.WholeAll(parts))| <= U64_MAX
    requires IsUnused(disk.files, disk.folders, Request(name, subpath, Multipart.WholeAll(parts), tailBroken), hex)
    modifies disk
    ensures var r := Request(name, subpath, Multipart.WholeAll(parts), tailBroken);
            var refusal := UploadRefusal(env, name, subpath);
            if refusal.Some? then
              answer == Err(Refused(refusal.value)) && disk.files == old(disk.files) && disk.folders == old(disk.folders)
            else
              Admissible(env, r) && Explains(env, r, hex, old(disk.files), old(disk.folders), disk.files, disk.folders,
                                             disk.faulty, isMultipart, answer, trace)
  {
    ghost var r := Request(name, subpath, Multipart.WholeAll(parts), tailBroken);
    trace := Stopped(0);
    if !IsValidName(name) {
      return Err(Refused(InvalidName)), trace;
    }
    if name !in env.vaults {
      return Err(Refused(VaultNotFound)), trace;
    }
    var policy := env.vaults[name];
    if !policy.permissions.allowUpload {
      return Err(Refused(PermissionDenied)), trace;
    }
    var dir := [];
    if subpath.Some? {
      if !policy.permissions.allowSubfolders {
        return Err(Refused(SubfoldersNotAllowed)), trace;
      }
      if !IsValidSubpath(subpath.value) {
        return Err(Refused(InvalidSubpath)), trace;
      }
      dir := Components(subpath.value);
    }
    answer, trace := Receive(env, disk, name, subpath, dir, policy.recipient, isMultipart, parts, tailBroken, hex, r);
  }

  /** The directories of a request lie above its files. */
  lemma StillFree(folders: set<Folder>, r: Request, hex: string)
    requires Free(folders, r, hex)
    ensures Free(folders + FoldersUpTo(r, |DirOf(r)|), r, hex)
  {
    forall kind ensures Place(LocOf(r, hex, kind)) !in folders + FoldersUpTo(r, |DirOf(r)|) {
      if Place(LocOf(r, hex, kind)) in FoldersUpTo(r, |DirOf(r)|) {
        FoldersAreShort(r, |DirOf(r)|, Place(LocOf(r, hex, kind)));
      }
    }
  }

  lemma SameFiles(a: map<Loc, Content>, b: map<Loc, Content>, r: Request, hex: string)
    requires forall kind :: Read(a, LocOf(r, hex, kind)) == Read(b, LocOf(r, hex, kind))
    requires forall loc :: (forall kind :: loc != LocOf(r, hex, kind)) ==> Read(a, loc) == Read(b, loc)
    ensures a == b
  {
    forall loc: Loc ensures Read(a, loc) == Read(b, loc) {
      if kind :| loc == LocOf(r, hex, kind) {}
    }
    MapsEqual(a, b);
  }

  lemma FoldersAreNoFiles(env: Env, s: State, folder: Folder)
    requires Inv(env, s) && folder in s.folders
    ensures folder.path != [] && !IsBarred(s.files, folder)
  {
    FileAtPlace(FileAt(folder), folder);
  }

  lemma PassableIsNotBlocked(env: Env, s: State, r: Request, n: nat)
    requires Inv(env, s) && n <= |DirOf(r)| && Passable(s.files, s.folders, r, n)
    ensures !Blocked(s.files, r, n)
  {
    forall m | 0 < m <= n ensures !IsBarred(s.files, FolderAt(r, m)) {
      if FolderAt(r, m) in s.folders { FoldersAreNoFiles(env, s, FolderAt(r, m)); }
    }
  }

  /** The steps of one upload, taken in a store under a new name. */
  lemma NewUploadRuns(env: Env, s: State, hex: string, r: Request, ops: seq<Op>) returns (end: State)
    requires Inv(env, s) && IsNewName(s, r, hex) && Admissible(env, r) && !Blocked(s.files, r, |DirOf(r)|)
    requires RunOps(env, r, FRESH, ops).Some?
    ensures ExecFrom(env, s, UploadRun(hex, r, ops)) == Some(end)
    ensures Inv(env, end) && end.requests == s.requests[hex := r] && end.folders == s.folders + FoldersUpTo(r, |DirOf(r)|)
    ensures DropOf(end, hex) == RunOps(env, r, FRESH, ops).value
    ensures forall loc :: (forall kind :: loc != LocOf(r, hex, kind)) ==> Read(end.files, loc) == Read(s.files, loc)
  {
    UploadBegins(env, s, hex, r, ops);
    BeginsFresh(env, s, hex, r);
    end := FreshUploadRuns(env, AtBegin(s, hex, r), hex, r, ops);
  }

  lemma FreshUploadRuns(env: Env, s: State, hex: string, r: Request, ops: seq<Op>) returns (end: State)
    requires Inv(env, s) && hex in s.requests && s.requests[hex] == r && Admissible(env, r) && DropOf(s, hex) == FRESH
    requires RunOps(env, r, FRESH, ops).Some? && forall kind :: Place(LocOf(r, hex, kind)) !in s.folders
    ensures ExecFrom(env, s, UploadActions(hex, ops)) == Some(end)
    ensures Inv(env, end) && end.requests == s.requests && end.folders == s.folders
    ensures DropOf(end, hex) == RunOps(env, r, FRESH, ops).value
    ensures forall loc :: (forall kind :: loc != LocOf(r, hex, kind)) ==> Read(end.files, loc) == Read(s.files, loc)
  {
    assert Fits(s.folders, r, hex, ops);
    UploadRuns(env, s, hex, ops);
    ExecFromKeepsInv(env, s, UploadActions(hex, ops));
    end := ExecFrom(env, s, UploadActions(hex, ops)).value;
  }

  lemma SameDropSameFiles(s: State, hex: string, r: Request, before: map<Loc, Content>, files: map<Loc, Content>, d: Drop)
    requires hex in s.requests && s.requests[hex] == r && DropOf(s, hex) == d && OnDisk(r, hex, before, files, d)
    requires forall loc :: (forall kind :: loc != LocOf(r, hex, kind)) ==> Read(s.files, loc) == Read(before, loc)
    ensures s.files == files
  {
    forall kind ensures Read(s.files, LocOf(r, hex, kind)) == Read(files, LocOf(r, hex, kind)) {
      assert Read(s.files, LocOf(r, hex, kind)) == FileOf(d, kind);
    }
    SameFiles(s.files, files, r, hex);
  }

  /** The run of the step system that goes with a run of the handler. */
  function RunOf(hex: string, r: Request, trace: Trace): seq<Action>
    requires trace.Stopped? ==> trace.made <= |DirOf(r)|
  {
    match trace
    case Stopped(made) => FolderActions(r, made)
    case Ran(ops, _) => UploadRun(hex, r, ops)
  }

  /**
   Every run of handle_upload is a run of the step system: in any reachable state that the disk showed
   before, the same steps are possible one after another, they end with the files and directories that
   the disk shows now, and the upload is committed there exactly if the handler said so.
   */
  lemma UploadIsARun(env: Env, s: State, hex: string, r: Request, files: map<Loc, Content>, folders: set<Folder>,
                     faulty: bool, isMultipart: bool, answer: Result<string, UploadFailure>, trace: Trace)
    requires Inv(env, s) && IsNewName(s, r, hex) && Admissible(env, r)
    requires Explains(env, r, hex, s.files, s.folders, files, folders, faulty, isMultipart, answer, trace)
    ensures trace.Stopped? ==> trace.made <= |DirOf(r)|
    ensures var end := ExecFrom(env, s, RunOf(hex, r, trace));
            && end.Some? && end.value.files == files && end.value.folders == folders
            && (hex in end.value.committed <==> answer.Ok?)
  {
    match trace
    case Stopped(made) =>
      PassableIsNotBlocked(env, s, r, made);
      FoldersRun(env, s, r, made);
    case Ran(ops, d) =>
      PassableIsNotBlocked(env, s, r, |DirOf(r)|);
      var end := NewUploadRuns(env, s, hex, r, ops);
      SameDropSameFiles(end, hex, r, s.files, files, d);
      FilesOfDrop(end, hex, d);
  }

  lemma NulBlocks(files: map<Loc, Content>, r: Request)
    requires HoldsNul(DirOf(r))
    ensures Blocked(files, r, |DirOf(r)|)
  {
    var i :| 0 <= i < |DirOf(r)| && '\0' in DirOf(r)[i];
    assert LastName(FolderAt(r, i + 1)) == DirOf(r)[i];
    assert IsBarred(files, FolderAt(r, i + 1));
  }

  /** On a disk without faults an admitted upload succeeds exactly where the protocol can succeed, if its
      content type is right. */
  lemma SucceedsIff(env: Env, s: State, hex: string, r: Request, files: map<Loc, Content>, folders: set<Folder>,
                    isMultipart: bool, answer: Result<string, UploadFailure>, trace: Trace)
    requires Inv(env, s) && Admissible(env, r)
    requires Explains(env, r, hex, s.files, s.folders, files, folders, false, isMultipart, answer, trace)
    ensures answer.Ok? <==> !Blocked(s.files, r, |DirOf(r)|) && isMultipart && BodyOutcome(env, r).Ok?
  {
    match trace
    case Stopped(made) =>
      if HoldsNul(DirOf(r)) {
        NulBlocks(s.files, r);
      } else {
        assert IsBarred(s.files, FolderAt(r, made + 1));
      }
    case Ran(_, _) => PassableIsNotBlocked(env, s, r, |DirOf(r)|);
  }

  /** The new drop is not deleted or stripped at the end of that run. */
  lemma NewDropIsWhole(env: Env, r: Request, ops: seq<Op>)
    requires Admissible(env, r) && RunOps(env, r, FRESH, ops).Some?
    ensures !RunOps(env, r, FRESH, ops).value.deleted && !RunOps(env, r, FRESH, ops).value.stripped
  {
    RunOpsDeleteNothing(env, r, FRESH, ops);
  }

  /** The path in the answer leads to the uploaded payload; the other handlers accept it unless the
      subpath was empty text, in which case it starts with a slash. */
  lemma UploadedPathIff(env: Env, r: Request, hex: string)
    requires Admissible(env, r) && IsHex(hex)
    ensures PathLoc(r.vault, UploadedPath(r.subpath, hex)) == LocOf(r, hex, Payload)
    ensures IsPayloadPath(UploadedPath(r.subpath, hex))
    ensures IsValidSubpath(UploadedPath(r.subpath, hex)) <==> r.subpath != Some("")
  {
    var name := DropName(Payload, hex);
    DropNameRoles(hex);
    DropNameIsComponent(Payload, hex);
    assert [name][0] in [name] && !Contains(name, "..") && '\\' !in name;
    ComponentsOfJoin([name]);
    if r.subpath.Some? {
      var p := r.subpath.value;
      ComponentsOfSlash(p, name);
      SubpathWithName(p, name);
      assert PathLoc(r.vault, p + "/" + name).dir == Components(p);
    }
  }

  lemma SubpathWithName(p: string, name: string)
    requires IsValidSubpath(p) && !Contains(name, "..") && '\\' !in name && 9 <= |name|
    ensures IsPayloadPath(p + "/" + name) <==> IsPayloadPath(name)
    ensures IsValidSubpath(p + "/" + name) <==> p != ""
  {
    EndsWithTail(p + "/", name, ".age");
    EndsWithTail(p + "/", name, ".meta.age");
    if Contains(p + "/" + name, "..") { DotsStayInSegment(p, name); }
    assert '\\' !in p + "/" + name;
    LeadingSlash(p, name);
  }

  lemma LeadingSlash(p: string, name: string)
    requires !StartsWith(p, "/")
    ensures StartsWith(p + "/" + name, "/") <==> p == ""
  {
    if p == "" {
      assert "" + "/" + name == "/" + name;
    } else {
      assert (p + "/" + name)[0] == p[0];
      NotPrefix(p + "/" + name, "/", 0);
    }
  }

  // ---------- Deletes on a disk ----------

  datatype DeleteError = InvalidPath | NoSuchVault | Forbidden | VaultLocked | FileNotFound | NotDeleted

  /** The disk after a delete whose two removals went as said. */
  function AfterDelete(files: map<Loc, Content>, loc: Loc, mainOk: bool, sidecarOk: bool): map<Loc, Content> {
    if !mainOk then files
    else
      match SidecarFor(loc.name)
      case Some(name) => if sidecarOk then files - {loc} - {loc.(name := name)} else files - {loc}
      case None => files - {loc}
  }

  predicate SidecarGone(files: map<Loc, Content>, loc: Loc) {
    match SidecarFor(loc.name)
    case Some(name) => loc.(name := name) !in files
    case None => true
  }

  /** The common tail of delete_file and delete_raw: the file, then its sidecar, whose failure is ignored. */
  method RemoveWithSidecar(disk: Disk, loc: Loc) returns (mainOk: bool, ghost sidecarOk: bool)
    modifies disk`files
    ensures mainOk ==> loc in old(disk.files)
    ensures disk.files == AfterDelete(old(disk.files), loc, mainOk, sidecarOk)
    ensures !disk.faulty && loc in old(disk.files) ==> mainOk && SidecarGone(disk.files, loc)
    ensures if mainOk then loc !in disk.files else disk.files == old(disk.files)
    ensures forall l :: l != loc && Some(l.name) != SidecarFor(loc.name) ==> Read(disk.files, l) == Read(old(disk.files), l)
  {
    sidecarOk := false;
    mainOk := disk.Remove(loc);
    if !mainOk {
      return;
    }
    var sidecar := SidecarFor(loc.name);
    if sidecar.Some? && loc.(name := sidecar.value) in disk.files {
      var removed := disk.Remove(loc.(name := sidecar.value));
      sidecarOk := removed;
    }
  }

  predicate IsFolderPath(folders: set<Folder>, name: string, path: string) {
    Components(path) == [] || Folder(name, Components(path)) in folders
  }

  predicate IsConfigPath(path: string) {
    Components(path) == [CONFIG_NAME] && EndsAtName(path)
  }

  /** Behind a file a path cannot go on, not even with a slash or a dot. */
  predicate EndsAtName(path: string) {
    !EndsWith(path, "/") && !EndsWith(path, "/.")
  }

  /** The path leads to this file. */
  predicate IsFilePath(files: map<Loc, Content>, name: string, path: string) {
    PathLoc(name, path) in files && EndsAtName(path)
  }

  /** What both delete handlers check; `locked` is asked only by delete_file. */
  function DeleteRefusal(env: Env, files: map<Loc, Content>, folders: set<Folder>, name: string, path: string, locked: bool)
    : Option<DeleteError>
  {
    if !IsValidName(name) || !IsValidSubpath(path) then Some(InvalidPath)
    else if name !in env.vaults then Some(NoSuchVault)
    else if !env.vaults[name].permissions.allowDelete then Some(Forbidden)
    else if locked then Some(VaultLocked)
    else if !IsFilePath(files, name, path) && !IsFolderPath(folders, name, path) && !IsConfigPath(path) then Some(FileNotFound)
    else None
  }

  /** Nothing but its configuration file makes a directory a vault. */
  function Closing(env: Env, name: string): Env {
    env.(vaults := env.vaults - {name})
  }

  /** What a delete that is not refused does: a directory stays, the configuration file takes its vault with
      it, any other file goes, and then its sidecar. */
  ghost predicate Deleted(env: Env, files0: map<Loc, Content>, files: map<Loc, Content>, folders: set<Folder>, faulty: bool,
                          name: string, path: string, r: Result<(), DeleteError>, sidecarOk: bool, after: Env)
  {
    if IsFilePath(files0, name, path) then
      && (r == Ok(()) || (faulty && r == Err(NotDeleted))) && after == env
      && files == AfterDelete(files0, PathLoc(name, path), r.Ok?, sidecarOk)
      && (faulty || SidecarGone(files, PathLoc(name, path)))
    else
      && files == files0
      && if IsConfigPath(path) then
           (r == Ok(()) && after == Closing(env, name)) || (faulty && r == Err(NotDeleted) && after == env)
         else
           IsFolderPath(folders, name, path) && r == Err(NotDeleted) && after == env
  }

  /** The part behind the checks; a delete aimed at the configuration file finds no sidecar. */
  method RemovePath(env: Env, disk: Disk, name: string, path: string)
    returns (r: Result<(), DeleteError>, ghost sidecarOk: bool, after: Env)
    modifies disk`files
    ensures if !IsFilePath(old(disk.files), name, path) && !IsFolderPath(disk.folders, name, path) && !IsConfigPath(path)
            then r == Err(FileNotFound) && disk.files == old(disk.files) && after == env
            else Deleted(env, old(disk.files), disk.files, disk.folders, disk.faulty, name, path, r, sidecarOk, after)
  {
    sidecarOk, after := false, env;
    var filePath := PathLoc(name, path);
    if filePath in disk.files && EndsAtName(path) {
      var mainOk;
      mainOk, sidecarOk := RemoveWithSidecar(disk, filePath);
      r := if mainOk then Ok(()) else Err(NotDeleted);
    } else if IsConfigPath(path) {
      r := Ok(());
      if disk.faulty {
        if * {
          return Err(NotDeleted), sidecarOk, after;
        }
      }
      after := Closing(env, name);
    } else if IsFolderPath(disk.folders, name, path) {
      r := Err(NotDeleted);
    } else {
      r := Err(FileNotFound);
    }
  }

  /** The request is in order, and deleting is allowed. */
  predicate MayDelete(env: Env, name: string, path: string) {
    IsValidName(name) && IsValidSubpath(path) && name in env.vaults && env.vaults[name].permissions.allowDelete
  }

  /** delete_raw: no session is needed. */
  method DeleteRaw(env: Env, disk: Disk, name: string, path: string)
    returns (r: Result<(), DeleteError>, ghost sidecarOk: bool, after: Env)
    modifies disk`files
    ensures var refusal := DeleteRefusal(env, old(disk.files), disk.folders, name, path, false);
            if refusal.Some? then r == Err(refusal.value) && disk.files == old(disk.files) && after == env
            else Deleted(env, old(disk.files), disk.files, disk.folders, disk.faulty, name, path, r, sidecarOk, after)
    ensures r.Ok? ==> MayDelete(env, name, path) && PathLoc(name, path) !in disk.files
    ensures after == if r.Ok? && PathLoc(name, path) !in old(disk.files) then env.(vaults := env.vaults - {name}) else env
    ensures !MayDelete(env, name, path) ==> r.Err? && disk.files == old(disk.files) && after == env
  {
    sidecarOk := false;
    if !IsValidName(name) || !IsValidSubpath(path) {
      return Err(InvalidPath), sidecarOk, env;
    }
    if name !in env.vaults {
      return Err(NoSuchVault), sidecarOk, env;
    }
    if !env.vaults[name].permissions.allowDelete {
      return Err(Forbidden), sidecarOk, env;
    }
    r, sidecarOk, after := RemovePath(env, disk, name, path);
  }

  /** delete_file: some session must be in the table, expired or not. */
  method DeleteFile(env: Env, table: Sessions.Table, disk: Disk, name: string, path: string)
    returns (r: Result<(), DeleteError>, ghost sidecarOk: bool, after: Env)
    modifies disk`files
    ensures var refusal := DeleteRefusal(env, old(disk.files), disk.folders, name, path, name !in table);
            if refusal.Some? then r == Err(refusal.value) && disk.files == old(disk.files) && after == env
            else Deleted(env, old(disk.files), disk.files, disk.folders, disk.faulty, name, path, r, sidecarOk, after)
    ensures r.Ok? ==> MayDelete(env, name, path) && name in table && PathLoc(name, path) !in disk.files
    ensures after == if r.Ok? && PathLoc(name, path) !in old(disk.files) then env.(vaults := env.vaults - {name}) else env
    ensures name !in table ==> r.Err? && disk.files == old(disk.files) && after == env
    ensures r == Err(VaultLocked) <==> MayDelete(env, name, path) && name !in table
    ensures !MayDelete(env, name, path) ==> r.Err? && disk.files == old(disk.files) && after == env
  {
    sidecarOk := false;
    if !IsValidName(name) || !IsValidSubpath(path) {
      return Err(InvalidPath), sidecarOk, env;
    }
    if name !in env.vaults {
      return Err(NoSuchVault), sidecarOk, env;
    }
    if !env.vaults[name].permissions.allowDelete {
      return Err(Forbidden), sidecarOk, env;
    }
    if name !in table {
      return Err(VaultLocked), sidecarOk, env;
    }
    r, sidecarOk, after := RemovePath(env, disk, name, path);
  }

  /** The steps of a delete that is not disturbed. */
  function DeleteActions(id: nat, loc: Loc, mainOk: bool, sidecarOk: bool): seq<Action> {
    [DeleteStart(id, loc), DeleteMain(id, mainOk)] + if mainOk then [DeleteSidecar(id, sidecarOk)] else []
  }

  lemma FailedDeleteIsARun(env: Env, s: State, id: nat, loc: Loc)
    requires StartDelete(env, s, id, loc).Some?
    ensures ExecFrom(env, s, DeleteActions(id, loc, false, false)).Some?
    ensures ExecFrom(env, s, DeleteActions(id, loc, false, false)).value.files == s.files
  {
    var s1 := StartDelete(env, s, id, loc).value;
    ExecFromOne(env, s1, DeleteMain(id, false), []);
    ExecFromOne(env, s, DeleteStart(id, loc), [DeleteMain(id, false)] + []);
    assert DeleteActions(id, loc, false, false) == [DeleteStart(id, loc)] + ([DeleteMain(id, false)] + []);
  }

  lemma WholeDeleteIsARun(env: Env, s: State, id: nat, loc: Loc, sidecarOk: bool)
    requires StartDelete(env, s, id, loc).Some?
    ensures ExecFrom(env, s, DeleteActions(id, loc, true, sidecarOk)).Some?
    ensures ExecFrom(env, s, DeleteActions(id, loc, true, sidecarOk)).value.files == AfterDelete(s.files, loc, true, sidecarOk)
  {
    var s1 := StartDelete(env, s, id, loc).value;
    var s2 := RemoveMain(s1, id, true).value;
    SidecarStep(s2, id, loc, sidecarOk);
    ExecFromOne(env, s2, DeleteSidecar(id, sidecarOk), []);
    ExecFromOne(env, s1, DeleteMain(id, true), [DeleteSidecar(id, sidecarOk)] + []);
    ExecFromOne(env, s, DeleteStart(id, loc), [DeleteMain(id, true)] + ([DeleteSidecar(id, sidecarOk)] + []));
    assert DeleteActions(id, loc, true, sidecarOk)
        == [DeleteStart(id, loc)] + ([DeleteMain(id, true)] + ([DeleteSidecar(id, sidecarOk)] + []));
  }

  lemma SidecarStep(s: State, id: nat, loc: Loc, ok: bool)
    requires id in s.deletions && s.deletions[id] == SidecarNext(loc)
    ensures RemoveSidecar(s, id, ok).Some?
    ensures RemoveSidecar(s, id, ok).value.files ==
            match SidecarFor(loc.name)
            case Some(name) => if ok then s.files - {loc.(name := name)} else s.files
            case None => s.files
  {}

  /** Every run of a delete handler that meets a file, a sidecar or any other, is a run of the step system
      with the same files at its end. */
  lemma DeleteIsARun(env: Env, s: State, id: nat, name: string, path: string, mainOk: bool, sidecarOk: bool)
    requires DeleteRefusal(env, s.files, s.folders, name, path, false) == None
    requires id !in s.deletions && IsFilePath(s.files, name, path)
    ensures var end := ExecFrom(env, s, DeleteActions(id, PathLoc(name, path), mainOk, sidecarOk));
            end.Some? && end.value.files == AfterDelete(s.files, PathLoc(name, path), mainOk, sidecarOk)
  {
    var loc := PathLoc(name, path);
    if mainOk {
      WholeDeleteIsARun(env, s, id, loc, sidecarOk);
    } else {
      FailedDeleteIsARun(env, s, id, loc);
      assert DeleteActions(id, loc, false, sidecarOk) == DeleteActions(id, loc, false, false);
    }
  }
}
