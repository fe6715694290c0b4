/** The two listings, and what they list in every reachable state. */
module Listing {
  import opened Prelude
  import opened Text
  import opened Crypto
  import opened Names
  import opened Metadata
  import opened Vaults
  import opened Store
  import opened WalkDir
  import opened Commit

  // ---------- raw/list ----------

  /** The size of a file on the disk. */
  type SizeOf = Loc -> u64

  datatype RawListed = RawListed(path: string, size: u64)

  predicate Exists(files: map<Loc, Content>, folders: set<Folder>, loc: Loc) {
    loc in files || Place(loc) in folders
  }

  /** list_files_raw keeps a payload path whose sidecar exists, be it as a file or as a directory; the
      sidecar is named by extension. */
  function RawEntry(files: map<Loc, Content>, folders: set<Folder>, vault: string, sizeOf: SizeOf, path: string): Option<RawListed> {
    var loc := PathLoc(vault, path);
    if IsPayloadPath(path) && Exists(files, folders, loc.(name := WithExtension(loc.name, "meta.age")))
    then Some(RawListed(path, sizeOf(loc))) else None
  }

  /** Of the walked paths exactly the entries that can be made, each as often as its path was walked. */
  ghost predicate IsRawListing(files: map<Loc, Content>, folders: set<Folder>, vault: string, sizeOf: SizeOf,
                               walked: seq<string>, listed: seq<RawListed>)
  {
    forall e :: multiset(listed)[e] == if RawEntry(files, folders, vault, sizeOf, e.path) == Some(e) then multiset(walked)[e.path] else 0
  }

  lemma CountSnoc<T>(s: seq<T>, x: T, p: T)
    ensures multiset(s + [x])[p] == multiset(s)[p] + if p == x then 1 else 0
  {}

  lemma RawListingStep(files: map<Loc, Content>, folders: set<Folder>, vault: string, sizeOf: SizeOf,
                       walked: seq<string>, listed: seq<RawListed>, path: string)
    requires IsRawListing(files, folders, vault, sizeOf, walked, listed)
    ensures var entry := RawEntry(files, folders, vault, sizeOf, path);
            IsRawListing(files, folders, vault, sizeOf, walked + [path], if entry.Some? then listed + [entry.value] else listed)
  {
    var entry := RawEntry(files, folders, vault, sizeOf, path);
    var listed' := if entry.Some? then listed + [entry.value] else listed;
    forall e: RawListed
      ensures multiset(listed')[e] ==
              if RawEntry(files, folders, vault, sizeOf, e.path) == Some(e) then multiset(walked + [path])[e.path] else 0
    {
      CountSnoc(walked, path, e.path);
      if entry.Some? { CountSnoc(listed, entry.value, e); }
    }
  }

  /** The collecting part of list_files_raw. */
  method ListRaw(files: map<Loc, Content>, folders: set<Folder>, vault: string, sizeOf: SizeOf, root: seq<Entry>)
    returns (listed: seq<RawListed>)
    ensures IsRawListing(files, folders, vault, sizeOf, Visible(root, ""), listed)
  {
    var walked := Walk(root);
    listed := [];
    for i := 0 to |walked|
      invariant IsRawListing(files, folders, vault, sizeOf, walked[..i], listed)
    {
      assert walked[..i + 1] == walked[..i] + [walked[i]];
      RawListingStep(files, folders, vault, sizeOf, walked[..i], listed, walked[i]);
      var relativePath := walked[i];
      if !EndsWith(relativePath, ".age") || EndsWith(relativePath, ".meta.age") {
        continue;
      }
      var fullPath := PathLoc(vault, relativePath);
      var metaPath := fullPath.(name := WithExtension(fullPath.name, "meta.age"));
      if metaPath !in files && Place(metaPath) !in folders {
        continue;
      }
      listed := listed + [RawListed(relativePath, sizeOf(fullPath))];
    }
    assert walked[..|walked|] == walked;
  }

  // ---------- list ----------

  datatype Listed = Listed(path: string, filename: Option<string>, origin: Option<string>, size: u64)

  /** The metadata record next to a payload, if its sidecar exists, opens and parses. */
  function ReadSidecar(files: map<Loc, Content>, identity: Identity, loc: Loc): Option<FileMetadata> {
    match SidecarFor(loc.name)
    case None => None
    case Some(name) =>
      var sidecar := loc.(name := name);
      if sidecar !in files then None
      else match files[sidecar]
        case Closed(recipient, Record(pairs)) =>
          if Public(identity) != recipient then None
          else (match FromPairs(pairs) case Err(_) => None case Ok(m) => Some(m))
        case _ => None
  }

  function ListEntry(files: map<Loc, Content>, identity: Identity, vault: string, sizeOf: SizeOf, path: string): Option<Listed> {
    if !IsPayloadPath(path) then None
    else match ReadSidecar(files, identity, PathLoc(vault, path))
      case None => None
      case Some(m) =>
        Some(Listed(path, match m.filename { case None => None case Some(f) => FileName(f) }, m.origin, sizeOf(PathLoc(vault, path))))
  }

  /** Of the walked paths exactly the entries that can be made, each as often as its path was walked. */
  ghost predicate IsListing(files: map<Loc, Content>, identity: Identity, vault: string, sizeOf: SizeOf,
                            walked: seq<string>, listed: seq<Listed>)
  {
    forall e :: multiset(listed)[e] == if ListEntry(files, identity, vault, sizeOf, e.path) == Some(e) then multiset(walked)[e.path] else 0
  }

  lemma ListingStep(files: map<Loc, Content>, identity: Identity, vault: string, sizeOf: SizeOf,
                    walked: seq<string>, listed: seq<Listed>, path: string)
    requires IsListing(files, identity, vault, sizeOf, walked, listed)
    ensures var entry := ListEntry(files, identity, vault, sizeOf, path);
            IsListing(files, identity, vault, sizeOf, walked + [path], if entry.Some? then listed + [entry.value] else listed)
  {
    var entry := ListEntry(files, identity, vault, sizeOf, path);
    var listed' := if entry.Some? then listed + [entry.value] else listed;
    forall e: Listed
      ensures multiset(listed')[e] ==
              if ListEntry(files, identity, vault, sizeOf, e.path) == Some(e) then multiset(walked + [path])[e.path] else 0
    {
      CountSnoc(walked, path, e.path);
      if entry.Some? { CountSnoc(listed, entry.value, e); }
    }
  }

  /** list_files behind its session check. The original reads five sidecars at a time and may return
      them in another order; nothing below depends on the order. */
  method List(files: map<Loc, Content>, identity: Identity, vault: string, sizeOf: SizeOf, root: seq<Entry>)
    returns (listed: seq<Listed>)
    ensures IsListing(files, identity, vault, sizeOf, Visible(root, ""), listed)
  {
    var walked := Walk(root);
    listed := [];
    for i := 0 to |walked|
      invariant IsListing(files, identity, vault, sizeOf, walked[..i], listed)
    {
      assert walked[..i + 1] == walked[..i] + [walked[i]];
      ListingStep(files, identity, vault, sizeOf, walked[..i], listed, walked[i]);
      var entry := ListEntry(files, identity, vault, sizeOf, walked[i]);
      if entry.Some? {
        listed := listed + [entry.value];
      }
    }
    assert walked[..|walked|] == walked;
  }

  // ---------- What is listed ----------

  /** The directory tree of a vault shows the files of the store. What lies behind names that start
      with a dot, such as the configuration file, is left open. */
  ghost predicate Shows(root: seq<Entry>, s: State, vault: string) {
    && WellFormed(root)
    && forall path :: path != [] && NoneHidden(path) ==>
         (HasFile(root, path) <==> Loc(vault, path[..|path| - 1], path[|path| - 1]) in s.files)
  }

  lemma FolderAbove(env: Env, s: State, loc: Loc, n: nat)
    requires Inv(env, s) && loc in s.files && 0 < n <= |loc.dir|
    ensures Folder(loc.vault, loc.dir[..n]) in s.folders
  {
    var hex, kind := OwnerOf(s, loc);
    assert HasFolders(s.folders, s.requests[hex]);
  }

  lemma PrefixOfSnoc(p: seq<string>, dir: seq<string>, name: string)
    requires p <= dir + [name]
    ensures p == dir + [name] || (|p| <= |dir| && dir[..|p|] == p)
  {}

  lemma PlacesDoNotNest(env: Env, s: State, a: Loc, b: Loc)
    requires Inv(env, s) && a in s.files && b in s.files && Place(a).path <= Place(b).path && a.vault == b.vault
    ensures a == b
  {
    var p, q := Place(a).path, Place(b).path;
    forall n | 0 < n <= |b.dir| ensures Folder(b.vault, b.dir[..n]) in s.folders { FolderAbove(env, s, b, n); }
    PrefixOfSnoc(p, b.dir, b.name);
    assert p == q;
    assert a.dir == p[..|p| - 1] && b.dir == q[..|q| - 1];
  }

  function PathsIn(s: State, vault: string): set<seq<string>> {
    set loc | loc in s.files && loc.vault == vault :: loc.dir + [loc.name]
  }

  /** In every reachable state there is a directory tree that shows the files of the store. */
  lemma SomeTreeShows(env: Env, s: State, vault: string) returns (root: seq<Entry>)
    requires Inv(env, s)
    ensures Shows(root, s, vault)
  {
    var paths := PathsIn(s, vault);
    forall p | p in paths ensures p != [] && Proper(p) {
      var loc :| loc in s.files && loc.vault == vault && p == loc.dir + [loc.name];
      var hex, kind := OwnerOf(s, loc);
      DropPathProper(s.requests[hex], hex, kind);
    }
    forall p, q | p in paths && q in paths && p <= q ensures p == q {
      var a :| a in s.files && a.vault == vault && p == a.dir + [a.name];
      var b :| b in s.files && b.vault == vault && q == b.dir + [b.name];
      PlacesDoNotNest(env, s, a, b);
    }
    root := TreeExists(paths);
    forall path | path != [] ensures path in paths <==> Loc(vault, path[..|path| - 1], path[|path| - 1]) in s.files {
      PathInPaths(s, vault, path);
    }
  }

  lemma PathInPaths(s: State, vault: string, path: seq<string>)
    requires path != []
    ensures path in PathsIn(s, vault) <==> Loc(vault, path[..|path| - 1], path[|path| - 1]) in s.files
  {
    var loc := Loc(vault, path[..|path| - 1], path[|path| - 1]);
    assert path == loc.dir + [loc.name];
    if path in PathsIn(s, vault) {
      var other :| other in s.files && other.vault == vault && path == other.dir + [other.name];
      assert other == loc;
    }
  }

  function DropPath(r: Request, hex: string): string {
    Join(DirOf(r) + [DropName(Payload, hex)])
  }

  /** A committed drop of this vault that has not been deleted and lies below no hidden directory. */
  predicate IsListable(s: State, vault: string, hex: string) {
    && hex in s.requests && s.requests[hex].vault == vault
    && hex in s.committed && hex !in s.deleted
    && NoneHidden(DirOf(s.requests[hex]))
  }

  /** The path of a file in the store ends like its name. */
  lemma PathEndsLikeName(r: Request, hex: string, kind: Kind)
    requires IsHex(hex)
    ensures var path := Join(DirOf(r) + [DropName(kind, hex)]);
            IsPayloadPath(path) <==> kind == Payload
  {
    DropNameRoles(hex);
    var name := DropName(kind, hex);
    JoinSnoc(DirOf(r), name);
    if DirOf(r) != [] {
      EndsWithTail(Join(DirOf(r)) + "/", name, ".age");
      EndsWithTail(Join(DirOf(r)) + "/", name, ".meta.age");
    }
    assert IsPayloadPath(Join(DirOf(r) + [name])) <==> IsPayloadPath(name);
    assert kind == Sidecar ==> !IsPayloadPath(name);
  }

  lemma DropPathProper(r: Request, hex: string, kind: Kind)
    requires IsHex(hex)
    ensures Proper(DirOf(r) + [DropName(kind, hex)])
    ensures PathLoc(r.vault, Join(DirOf(r) + [DropName(kind, hex)])) == LocOf(r, hex, kind)
    ensures NoneHidden(DirOf(r) + [DropName(kind, hex)]) <==> NoneHidden(DirOf(r))
  {
    DropNameIsComponent(kind, hex);
    var comps := DirOf(r) + [DropName(kind, hex)];
    assert forall c :: c in comps <==> c in DirOf(r) || c == DropName(kind, hex);
    ComponentsOfJoin(comps);
    assert comps[..|comps| - 1] == DirOf(r);
  }

  /** The path of every drop is accepted by the handlers and resolves to its own payload. */
  lemma DropPathsAreUsable(env: Env, s: State, hex: string)
    requires Inv(env, s) && hex in s.requests
    ensures var r := s.requests[hex];
            && IsValidSubpath(DropPath(r, hex)) && IsPayloadPath(DropPath(r, hex))
            && PathLoc(r.vault, DropPath(r, hex)) == LocOf(r, hex, Payload)
  {
    var r := s.requests[hex];
    var comps := DirOf(r) + [DropName(Payload, hex)];
    DropPathProper(r, hex, Payload);
    PathEndsLikeName(r, hex, Payload);
    DropNameIsComponent(Payload, hex);
    if r.subpath.Some? { ComponentsOfValid(r.subpath.value); }
    assert forall c :: c in comps ==> c in DirOf(r) || c in [DropName(Payload, hex)];
    JoinIsValid(comps);
  }

  lemma OwnerOf(s: State, loc: Loc) returns (hex: string, kind: Kind)
    requires FilesOwned(s) && loc in s.files
    ensures Owns(s.requests, loc, hex, kind)
  {
    hex, kind :| Owns(s.requests, loc, hex, kind);
  }

  lemma SplitLast(path: seq<string>, dir: seq<string>, name: string)
    requires path != []
    ensures path == dir + [name] <==> path[..|path| - 1] == dir && path[|path| - 1] == name
  {
    assert path == path[..|path| - 1] + [path[|path| - 1]];
  }

  lemma ShownFile(root: seq<Entry>, s: State, vault: string, r: Request, hex: string, kind: Kind)
    requires Shows(root, s, vault) && r.vault == vault && IsHex(hex)
    requires NoneHidden(DirOf(r))
    ensures HasFile(root, DirOf(r) + [DropName(kind, hex)]) <==> LocOf(r, hex, kind) in s.files
  {
    var path := DirOf(r) + [DropName(kind, hex)];
    DropPathProper(r, hex, kind);
    SplitLast(path, DirOf(r), DropName(kind, hex));
    assert NoneHidden(path);
  }

  lemma WalkedIsListable(env: Env, s: State, vault: string, root: seq<Entry>, path: seq<string>)
    requires Inv(env, s) && Shows(root, s, vault)
    requires HasFile(root, path) && NoneHidden(path) && IsPayloadPath(Join(path))
    ensures exists hex :: IsListable(s, vault, hex) && Join(path) == DropPath(s.requests[hex], hex)
  {
    var loc := Loc(vault, path[..|path| - 1], path[|path| - 1]);
    var hex, kind := OwnerOf(s, loc);
    var r := s.requests[hex];
    PresentIffCommitted(env, s, hex);
    SplitLast(path, DirOf(r), DropName(kind, hex));
    PathEndsLikeName(r, hex, kind);
    DropPathProper(r, hex, kind);
    assert IsListable(s, vault, hex);
  }

  lemma ListableIsWalked(env: Env, s: State, vault: string, root: seq<Entry>, hex: string)
    requires Inv(env, s) && Shows(root, s, vault) && IsListable(s, vault, hex)
    ensures var path := DirOf(s.requests[hex]) + [DropName(Payload, hex)];
            HasFile(root, path) && NoneHidden(path) && IsPayloadPath(Join(path))
  {
    var r := s.requests[hex];
    PresentIffCommitted(env, s, hex);
    ShownFile(root, s, vault, r, hex, Payload);
    PathEndsLikeName(r, hex, Payload);
    DropPathProper(r, hex, Payload);
  }

  ghost predicate IsPathOf(s: State, vault: string, hex: string, p: string) {
    IsListable(s, vault, hex) && p == DropPath(s.requests[hex], hex)
  }

  lemma WalkedHasOwner(env: Env, s: State, vault: string, root: seq<Entry>, p: string)
    requires Inv(env, s) && Shows(root, s, vault) && p in Visible(root, "") && IsPayloadPath(p)
    ensures exists hex :: IsPathOf(s, vault, hex, p)
  {
    VisibleAre(root);
    var path :| HasFile(root, path) && NoneHidden(path) && p == Join(path);
    WalkedIsListable(env, s, vault, root, path);
    var hex :| IsListable(s, vault, hex) && Join(path) == DropPath(s.requests[hex], hex);
    assert IsPathOf(s, vault, hex, p);
  }

  lemma OwnerIsWalked(env: Env, s: State, vault: string, root: seq<Entry>, hex: string, p: string)
    requires Inv(env, s) && Shows(root, s, vault) && IsPathOf(s, vault, hex, p)
    ensures p in Visible(root, "") && IsPayloadPath(p)
  {
    ListableIsWalked(env, s, vault, root, hex);
    VisibleContains(root, DirOf(s.requests[hex]) + [DropName(Payload, hex)]);
  }

  /** A walked payload path is the path of a listable drop, and the other way round. */
  lemma WalkedPayloads(env: Env, s: State, vault: string, root: seq<Entry>, p: string)
    requires Inv(env, s) && Shows(root, s, vault)
    ensures p in Visible(root, "") && IsPayloadPath(p) <==> exists hex :: IsPathOf(s, vault, hex, p)
  {
    if p in Visible(root, "") && IsPayloadPath(p) {
      WalkedHasOwner(env, s, vault, root, p);
    } else if hex :| IsPathOf(s, vault, hex, p) {
      OwnerIsWalked(env, s, vault, root, hex, p);
    }
  }

  /** The record of a drop can be read back: nobody has deleted its sidecar, and no key of `extended`
      repeats one of the fixed fields. */
  ghost predicate IsReadable(env: Env, s: State, hex: string) {
    && hex in s.requests && Admissible(env, s.requests[hex]) && BodyOutcome(env, s.requests[hex]).Ok?
    && hex !in s.stripped && BodyOutcome(env, s.requests[hex]).value.extended.Keys !! RESERVED
  }

  /** The name of its sidecar exists: the file, or after its deletion a directory that was made there. */
  predicate HasSidecarName(s: State, hex: string)
    requires hex in s.requests
  {
    hex !in s.stripped || Place(LocOf(s.requests[hex], hex, Sidecar)) in s.folders
  }

  /** What reading a sidecar takes: the file, sealed for this very key, and in it a record that can be read.
      An unfinished file is not read, and nobody else's. */
  lemma ReadSidecarIff(files: map<Loc, Content>, identity: Identity, loc: Loc, m: FileMetadata)
    ensures ReadSidecar(files, identity, loc) == Some(m) <==>
            && SidecarFor(loc.name).Some? && loc.(name := SidecarFor(loc.name).value) in files
            && exists pairs :: files[loc.(name := SidecarFor(loc.name).value)] == Closed(Public(identity), Record(pairs))
                               && FromPairs(pairs) == Ok(m)
  {}

  /** Wherever a sidecar lies, also of a drop whose payload is gone or never came: the vault key opens it,
      and its record reads back as uploaded exactly if it uses no reserved key. */
  lemma SidecarIsRead(env: Env, s: State, hex: string, identity: Identity, loc: Loc)
    requires Inv(env, s) && hex in s.requests && LocOf(s.requests[hex], hex, Sidecar) in s.files
    requires SidecarFor(loc.name).Some? && loc.(name := SidecarFor(loc.name).value) == LocOf(s.requests[hex], hex, Sidecar)
    requires Public(identity) == env.vaults[s.requests[hex].vault].recipient
    ensures BodyOutcome(env, s.requests[hex]).Ok?
    ensures ReadSidecar(s.files, identity, loc) ==
            if IsReadable(env, s, hex) then Some(BodyOutcome(env, s.requests[hex]).value) else None
  {
    var r := s.requests[hex];
    SidecarHolds(env, s, hex);
    var m := BodyOutcome(env, r).value;
    var order :| IsOrder(order, m.extended.Keys)
              && s.files[LocOf(r, hex, Sidecar)] == Closed(env.vaults[r.vault].recipient, Record(ToPairs(m, order)));
    RecordedSizeIff(env, r);
    SizedIsRead(m, order);
  }

  lemma SidecarHolds(env: Env, s: State, hex: string)
    requires Inv(env, s) && hex in s.requests && LocOf(s.requests[hex], hex, Sidecar) in s.files
    ensures SidecarComplete(env, s.requests[hex], s.files[LocOf(s.requests[hex], hex, Sidecar)]) && hex !in s.stripped
  {
    assert DropOk(env, s.requests[hex], DropOf(s, hex));
  }

  /** The sidecar of a committed drop is looked for under the same name by both listings; it can be read
      exactly if it has not been deleted and the record uses no reserved key. */
  lemma SidecarOfDrop(env: Env, s: State, hex: string, identity: Identity, sizeOf: SizeOf)
    requires Inv(env, s) && hex in s.committed && hex !in s.deleted
    requires Public(identity) == env.vaults[s.requests[hex].vault].recipient
    ensures var r := s.requests[hex];
            && BodyOutcome(env, r).Ok?
            && RawEntry(s.files, s.folders, r.vault, sizeOf, DropPath(r, hex)) ==
               (if HasSidecarName(s, hex) then Some(RawListed(DropPath(r, hex), sizeOf(LocOf(r, hex, Payload)))) else None)
            && ReadSidecar(s.files, identity, LocOf(r, hex, Payload)) ==
               if IsReadable(env, s, hex) then Some(BodyOutcome(env, r).value) else None
  {
    var r := s.requests[hex];
    var loc := LocOf(r, hex, Payload);
    DropHolds(env, s, hex);
    DropPathsAreUsable(env, s, hex);
    DropNameRoles(hex);
    assert loc.(name := DropName(Sidecar, hex)) == LocOf(r, hex, Sidecar);
    if hex !in s.stripped { SidecarIsRead(env, s, hex, identity, loc); }
  }

  lemma DropPathInjective(env: Env, s: State, hex1: string, hex2: string)
    requires Inv(env, s) && hex1 in s.requests && hex2 in s.requests
    requires DropPath(s.requests[hex1], hex1) == DropPath(s.requests[hex2], hex2)
    ensures hex1 == hex2
  {
    var c1, c2 := DirOf(s.requests[hex1]) + [DropName(Payload, hex1)], DirOf(s.requests[hex2]) + [DropName(Payload, hex2)];
    DropPathProper(s.requests[hex1], hex1, Payload);
    DropPathProper(s.requests[hex2], hex2, Payload);
    JoinInjective(c1, c2);
    assert c1[|c1| - 1] == c2[|c2| - 1];
    DropNamesDistinct(Payload, hex1, Payload, hex2);
  }

  ghost predicate IsRawEntryOf(s: State, vault: string, sizeOf: SizeOf, hex: string, e: RawListed) {
    && IsListable(s, vault, hex) && HasSidecarName(s, hex)
    && e == RawListed(DropPath(s.requests[hex], hex), sizeOf(LocOf(s.requests[hex], hex, Payload)))
  }

  /**
   In every reachable state, `raw/list` returns, once each, the path and size of every committed, undeleted,
   unhidden drop of the vault whose sidecar name exists, and nothing else.
   */
  lemma RawListIsExact(env: Env, s: State, vault: string, sizeOf: SizeOf, root: seq<Entry>, listed: seq<RawListed>)
    requires Inv(env, s) && Shows(root, s, vault) && vault in env.vaults
    requires IsRawListing(s.files, s.folders, vault, sizeOf, Visible(root, ""), listed)
    ensures Distinct(listed)
    ensures forall e :: e in listed <==> exists hex :: IsRawEntryOf(s, vault, sizeOf, hex, e)
  {
    VisibleAre(root);
    OnceEach(Visible(root, ""));
    AtMostOnce(listed);
    forall e ensures e in listed <==> exists hex :: IsRawEntryOf(s, vault, sizeOf, hex, e) {
      RawEntryIff(env, s, vault, sizeOf, root, e);
    }
  }

  /** An entry that the walk gives rise to is that of a drop. */
  lemma RawEntryIff(env: Env, s: State, vault: string, sizeOf: SizeOf, root: seq<Entry>, e: RawListed)
    requires Inv(env, s) && Shows(root, s, vault) && vault in env.vaults
    ensures RawEntry(s.files, s.folders, vault, sizeOf, e.path) == Some(e) && e.path in Visible(root, "") <==>
            exists hex :: IsRawEntryOf(s, vault, sizeOf, hex, e)
  {
    WalkedPayloads(env, s, vault, root, e.path);
    forall hex | IsPathOf(s, vault, hex, e.path)
      ensures IsRawEntryOf(s, vault, sizeOf, hex, e) <==> RawEntry(s.files, s.folders, vault, sizeOf, e.path) == Some(e)
    {
      SidecarOfDrop(env, s, hex, env.vaults[vault].recipient.identity, sizeOf);
    }
    if hex :| IsRawEntryOf(s, vault, sizeOf, hex, e) { assert IsPathOf(s, vault, hex, e.path); }
  }

  lemma {:induction false} CountZero<T>(s: seq<T>, x: T)
    ensures x in s <==> multiset(s)[x] > 0
  {}

  lemma {:induction false} OnceEach<T>(s: seq<T>)
    requires Distinct(s)
    ensures forall x :: multiset(s)[x] <= 1
  {
    if s != [] {
      var n := |s| - 1;
      OnceEach(s[..n]);
      assert s == s[..n] + [s[n]];
      CountZero(s[..n], s[n]);
    }
  }

  lemma AtMostOnce<T>(s: seq<T>)
    requires forall x :: multiset(s)[x] <= 1
    ensures Distinct(s)
  {
    forall i, j | 0 <= i < j < |s| ensures s[i] != s[j] {
      assert s == s[..j] + [s[j]] + s[j + 1..];
      assert s[i] in s[..j];
      assert multiset(s)[s[j]] >= multiset(s[..j])[s[j]] + 1;
    }
  }

  /**
   The list of a live session returns, once each, the committed, undeleted, unhidden drops of the vault
   whose records can be read back; each with its size and the name and origin of the upload that created it.
   */
  lemma ListIsExact(env: Env, s: State, vault: string, sizeOf: SizeOf, root: seq<Entry>, identity: Identity, listed: seq<Listed>)
    requires Inv(env, s) && Shows(root, s, vault) && vault in env.vaults && Public(identity) == env.vaults[vault].recipient
    requires IsListing(s.files, identity, vault, sizeOf, Visible(root, ""), listed)
    ensures Distinct(listed)
    ensures forall e :: e in listed <==> exists hex :: IsEntryOf(env, s, vault, sizeOf, hex, e)
  {
    VisibleAre(root);
    OnceEach(Visible(root, ""));
    AtMostOnce(listed);
    forall e ensures e in listed <==> exists hex :: IsEntryOf(env, s, vault, sizeOf, hex, e) {
      EntryIff(env, s, vault, sizeOf, root, identity, e);
    }
  }

  lemma EntryIff(env: Env, s: State, vault: string, sizeOf: SizeOf, root: seq<Entry>, identity: Identity, e: Listed)
    requires Inv(env, s) && Shows(root, s, vault) && vault in env.vaults && Public(identity) == env.vaults[vault].recipient
    ensures ListEntry(s.files, identity, vault, sizeOf, e.path) == Some(e) && e.path in Visible(root, "") <==>
            exists hex :: IsEntryOf(env, s, vault, sizeOf, hex, e)
  {
    WalkedPayloads(env, s, vault, root, e.path);
    forall hex | IsPathOf(s, vault, hex, e.path)
      ensures IsEntryOf(env, s, vault, sizeOf, hex, e) <==> ListEntry(s.files, identity, vault, sizeOf, e.path) == Some(e)
    {
      EntryIs(env, s, hex, identity, sizeOf);
    }
    if hex :| IsEntryOf(env, s, vault, sizeOf, hex, e) { assert IsPathOf(s, vault, hex, e.path); }
  }

  ghost function EntryOfDrop(env: Env, s: State, hex: string, sizeOf: SizeOf): Listed
    requires IsReadable(env, s, hex)
  {
    var m := BodyOutcome(env, s.requests[hex]).value;
    Listed(DropPath(s.requests[hex], hex), match m.filename { case None => None case Some(f) => FileName(f) }, m.origin,
           sizeOf(LocOf(s.requests[hex], hex, Payload)))
  }

  ghost predicate IsEntryOf(env: Env, s: State, vault: string, sizeOf: SizeOf, hex: string, e: Listed) {
    IsListable(s, vault, hex) && IsReadable(env, s, hex) && e == EntryOfDrop(env, s, hex, sizeOf)
  }

  lemma EntryIs(env: Env, s: State, hex: string, identity: Identity, sizeOf: SizeOf)
    requires Inv(env, s) && hex in s.committed && hex !in s.deleted
    requires Public(identity) == env.vaults[s.requests[hex].vault].recipient
    ensures ListEntry(s.files, identity, s.requests[hex].vault, sizeOf, DropPath(s.requests[hex], hex)) ==
            if IsReadable(env, s, hex) then Some(EntryOfDrop(env, s, hex, sizeOf)) else None
  {
    SidecarOfDrop(env, s, hex, identity, sizeOf);
    DropPathsAreUsable(env, s, hex);
  }

  ghost predicate NamesRaw(raw: seq<RawListed>, path: string) {
    exists e :: e in raw && e.path == path
  }

  ghost predicate Lists(listed: seq<Listed>, path: string) {
    exists e :: e in listed && e.path == path
  }

  /** Both listings name the same paths. */
  ghost predicate SamePaths(raw: seq<RawListed>, listed: seq<Listed>) {
    forall p :: NamesRaw(raw, p) <==> Lists(listed, p)
  }

  lemma WhoIsNamedRaw(s: State, vault: string, sizeOf: SizeOf, raw: seq<RawListed>, path: string)
    requires forall e :: e in raw <==> exists hex :: IsRawEntryOf(s, vault, sizeOf, hex, e)
    ensures NamesRaw(raw, path) <==> exists hex :: IsPathOf(s, vault, hex, path) && HasSidecarName(s, hex)
  {
    if e :| e in raw && e.path == path {
      var hex :| IsRawEntryOf(s, vault, sizeOf, hex, e);
      assert IsPathOf(s, vault, hex, path);
    }
    if hex :| IsPathOf(s, vault, hex, path) && HasSidecarName(s, hex) {
      var e := RawListed(path, sizeOf(LocOf(s.requests[hex], hex, Payload)));
      assert IsRawEntryOf(s, vault, sizeOf, hex, e);
      assert e in raw;
    }
  }

  lemma WhoIsListed(env: Env, s: State, vault: string, sizeOf: SizeOf, listed: seq<Listed>, path: string)
    requires forall e :: e in listed <==> exists hex :: IsEntryOf(env, s, vault, sizeOf, hex, e)
    ensures Lists(listed, path) <==> exists hex :: IsPathOf(s, vault, hex, path) && IsReadable(env, s, hex)
  {
    if e :| e in listed && e.path == path {
      var hex :| IsEntryOf(env, s, vault, sizeOf, hex, e);
      assert IsPathOf(s, vault, hex, path);
    }
    if hex :| IsPathOf(s, vault, hex, path) && IsReadable(env, s, hex) {
      assert IsEntryOf(env, s, vault, sizeOf, hex, EntryOfDrop(env, s, hex, sizeOf));
      assert EntryOfDrop(env, s, hex, sizeOf) in listed;
    }
  }

  /**
   The two listings name the same drops, over every run and whatever is in flight, exactly when every
   committed, undeleted, unhidden drop of the vault whose sidecar name exists can be read back.
   */
  lemma ListingsAgreeIff(env: Env, actions: seq<Action>, vault: string, sizeOf: SizeOf, root: seq<Entry>, identity: Identity,
                         raw: seq<RawListed>, listed: seq<Listed>)
    requires Exec(env, actions).Some? && Shows(root, Exec(env, actions).value, vault)
    requires vault in env.vaults && Public(identity) == env.vaults[vault].recipient
    requires IsRawListing(Exec(env, actions).value.files, Exec(env, actions).value.folders, vault, sizeOf, Visible(root, ""), raw)
    requires IsListing(Exec(env, actions).value.files, identity, vault, sizeOf, Visible(root, ""), listed)
    ensures SamePaths(raw, listed) <==>
            forall hex :: IsListable(Exec(env, actions).value, vault, hex) && HasSidecarName(Exec(env, actions).value, hex) ==>
              IsReadable(env, Exec(env, actions).value, hex)
  {
    RunKeepsInv(env, actions);
    var s := Exec(env, actions).value;
    RawListIsExact(env, s, vault, sizeOf, root, raw);
    ListIsExact(env, s, vault, sizeOf, root, identity, listed);
    AgreeIff(env, s, vault, sizeOf, raw, listed);
  }

  lemma AgreeIff(env: Env, s: State, vault: string, sizeOf: SizeOf, raw: seq<RawListed>, listed: seq<Listed>)
    requires Inv(env, s)
    requires forall e :: e in raw <==> exists hex :: IsRawEntryOf(s, vault, sizeOf, hex, e)
    requires forall e :: e in listed <==> exists hex :: IsEntryOf(env, s, vault, sizeOf, hex, e)
    ensures SamePaths(raw, listed) <==>
            forall hex :: IsListable(s, vault, hex) && HasSidecarName(s, hex) ==> IsReadable(env, s, hex)
  {
    if SamePaths(raw, listed) {
      forall hex | IsListable(s, vault, hex) && HasSidecarName(s, hex) ensures IsReadable(env, s, hex) {
        var p := DropPath(s.requests[hex], hex);
        assert IsPathOf(s, vault, hex, p);
        WhoIsNamedRaw(s, vault, sizeOf, raw, p);
        WhoIsListed(env, s, vault, sizeOf, listed, p);
        assert NamesRaw(raw, p);
        var h :| IsPathOf(s, vault, h, p) && IsReadable(env, s, h);
        DropPathInjective(env, s, h, hex);
      }
    }
    if forall hex :: IsListable(s, vault, hex) && HasSidecarName(s, hex) ==> IsReadable(env, s, hex) {
      forall p ensures NamesRaw(raw, p) <==> Lists(listed, p) {
        WhoIsNamedRaw(s, vault, sizeOf, raw, p);
        WhoIsListed(env, s, vault, sizeOf, listed, p);
        ReadableHasSidecarName(env, s, vault, p);
      }
    }
  }

  lemma ReadableHasSidecarName(env: Env, s: State, vault: string, path: string)
    ensures forall hex :: IsPathOf(s, vault, hex, path) && IsReadable(env, s, hex) ==> HasSidecarName(s, hex)
  {}
}
