/**
 Who may do what: for every handler the checks in their order, each with the flag it asks for, and what
 follows from them over whole runs. Nothing is written, removed or read that the flags of its vault do not
 allow, and nothing outside the vaults is touched.
 */
module Access {
  import opened Prelude
  import opened Text
  import opened Names
  import opened Vaults
  import opened Store
  import opened Commit
  import opened Service
  import Handlers
  import Reading
  import Sessions
  import Utf8

  // ---------- The checks ----------

  predicate MayUpload(env: Env, name: string) {
    name in env.vaults && env.vaults[name].permissions.allowUpload
  }

  predicate MayUseSubfolders(env: Env, name: string) {
    name in env.vaults && env.vaults[name].permissions.allowSubfolders
  }

  predicate MayList(env: Env, name: string) {
    name in env.vaults && env.vaults[name].permissions.allowList
  }

  lemma UploadRefusalsInOrder(env: Env, name: string, subpath: Option<string>)
    ensures Handlers.UploadRefusal(env, name, subpath) ==
            FirstFailing([(IsValidName(name), Handlers.InvalidName), (name in env.vaults, Handlers.VaultNotFound),
                          (MayUpload(env, name), Handlers.PermissionDenied),
                          (subpath.None? || MayUseSubfolders(env, name), Handlers.SubfoldersNotAllowed),
                          (subpath.None? || IsValidSubpath(subpath.value), Handlers.InvalidSubpath)])
  {
    FirstOfFive((IsValidName(name), Handlers.InvalidName), (name in env.vaults, Handlers.VaultNotFound),
                (MayUpload(env, name), Handlers.PermissionDenied),
                (subpath.None? || MayUseSubfolders(env, name), Handlers.SubfoldersNotAllowed),
                (subpath.None? || IsValidSubpath(subpath.value), Handlers.InvalidSubpath));
    FirstOfFour((name in env.vaults, Handlers.VaultNotFound), (MayUpload(env, name), Handlers.PermissionDenied),
                (subpath.None? || MayUseSubfolders(env, name), Handlers.SubfoldersNotAllowed),
                (subpath.None? || IsValidSubpath(subpath.value), Handlers.InvalidSubpath));
  }

  /** There is something at the end of the path: a file, where the path may not go on behind its name, the
      configuration file, or a directory. */
  predicate LeadsSomewhere(files: map<Loc, Content>, folders: set<Folder>, name: string, path: string) {
    || Components(path) == [] || Folder(name, Components(path)) in folders
    || ((PathLoc(name, path) in files || Components(path) == [".inbox-age.config"]) && !GoesOn(path))
  }

  /** The path ends in a slash, or in a slash and a dot. */
  predicate GoesOn(path: string) {
    var n := |path|;
    (n >= 1 && path[n - 1] == '/') || (n >= 2 && path[n - 2] == '/' && path[n - 1] == '.')
  }

  lemma GoesOnIff(path: string)
    ensures GoesOn(path) <==> !Handlers.EndsAtName(path)
  {
    EndsInOne(path, "/");
    EndsInTwo(path, "/.");
  }

  lemma DeleteRefusalsInOrder(env: Env, files: map<Loc, Content>, folders: set<Folder>, name: string, path: string, locked: bool)
    ensures Handlers.DeleteRefusal(env, files, folders, name, path, locked) ==
            FirstFailing([(IsValidName(name) && IsValidSubpath(path), Handlers.InvalidPath),
                          (name in env.vaults, Handlers.NoSuchVault), (Handlers.MayDelete(env, name, path), Handlers.Forbidden),
                          (!locked, Handlers.VaultLocked), (LeadsSomewhere(files, folders, name, path), Handlers.FileNotFound)])
  {
    GoesOnIff(path);
    FirstOfFive((IsValidName(name) && IsValidSubpath(path), Handlers.InvalidPath),
                (name in env.vaults, Handlers.NoSuchVault), (Handlers.MayDelete(env, name, path), Handlers.Forbidden),
                (!locked, Handlers.VaultLocked), (LeadsSomewhere(files, folders, name, path), Handlers.FileNotFound));
    FirstOfFour((name in env.vaults, Handlers.NoSuchVault), (Handlers.MayDelete(env, name, path), Handlers.Forbidden),
                (!locked, Handlers.VaultLocked), (LeadsSomewhere(files, folders, name, path), Handlers.FileNotFound));
  }

  lemma ListRefusalsInOrder(env: Env, table: Sessions.Table, name: string, now: nat)
    ensures ListRefusal(env, table, name, now) ==
            FirstFailing([(IsValidName(name), Reading.InvalidPath), (name in env.vaults, Reading.VaultNotFound),
                          (MayList(env, name), Reading.PermissionDenied), (name in table, Reading.Unauthorized(Sessions.Locked)),
                          (name in table && now <= table[name].expiresAt, Reading.Unauthorized(Sessions.Expired))])
  {
    FirstOfFive((IsValidName(name), Reading.InvalidPath), (name in env.vaults, Reading.VaultNotFound),
                (MayList(env, name), Reading.PermissionDenied), (name in table, Reading.Unauthorized(Sessions.Locked)),
                (name in table && now <= table[name].expiresAt, Reading.Unauthorized(Sessions.Expired)));
    FirstOfFour((name in env.vaults, Reading.VaultNotFound),
                (MayList(env, name), Reading.PermissionDenied), (name in table, Reading.Unauthorized(Sessions.Locked)),
                (name in table && now <= table[name].expiresAt, Reading.Unauthorized(Sessions.Expired)));
  }

  // ---------- Sessions, over whole runs ----------

  /** In any run of a monotone clock the list handler answers exactly in a live session of a vault that allows
      listing. */
  lemma ListingNeedsSession(env: Env, events: seq<Event>, name: string, now: nat)
    requires History(env, events).Some? && ClockRuns(CallsOf(events), now)
    ensures ListRefusal(env, History(env, events).value.table, name, now) == None <==>
            IsValidName(name) && MayList(env, name) && LiveSession(env, CallsOf(events), name, now)
  {
    CheckIff(env, events, name, now);
  }

  /** In any run delete_file gets past its checks exactly if the request is in order, the vault allows
      deleting, an unlock of it is open that no check has found expired, and there is something to delete. */
  lemma DeletingNeedsUnlock(env: Env, events: seq<Event>, files: map<Loc, Content>, folders: set<Folder>, name: string, path: string)
    requires History(env, events).Some?
    ensures Handlers.DeleteRefusal(env, files, folders, name, path, name !in History(env, events).value.table) == None <==>
            && Handlers.MayDelete(env, name, path) && LeadsSomewhere(files, folders, name, path)
            && exists i :: Sessions.OpenSince(env, CallsOf(events), name, i) && Sessions.NotEvicted(CallsOf(events), name, i)
  {
    GoesOnIff(path);
    Projects(env, events);
    Sessions.PresentIff(env, CallsOf(events), name);
  }

  // ---------- What is written ----------

  /** Every upload that ever began was into a vault that allows uploading, and into its root where subfolders
      are not allowed. */
  lemma UploadsArePermitted(env: Env, actions: seq<Action>, hex: string)
    requires Exec(env, actions).Some? && hex in Exec(env, actions).value.requests
    ensures var r := Exec(env, actions).value.requests[hex];
            MayUpload(env, r.vault) && (r.subpath == None || MayUseSubfolders(env, r.vault))
  {
    RunKeepsInv(env, actions);
  }

  lemma {:induction false} FoldersArePermitted(env: Env, actions: seq<Action>, folder: Folder)
    requires Exec(env, actions).Some? && folder in Exec(env, actions).value.folders
    ensures MayUpload(env, folder.vault) && MayUseSubfolders(env, folder.vault)
  {
    if actions != [] {
      var n := |actions| - 1;
      ExecPrefix(env, actions);
      var s := Exec(env, actions[..n]).value;
      if folder in s.folders { FoldersArePermitted(env, actions[..n], folder); }
    }
  }

  predicate StaysInside(env: Env, vault: string, path: seq<string>) {
    && vault in env.vaults && path != []
    && forall c :: c in path ==> c != "" && c != "." && c != ".." && '/' !in c && '\\' !in c
  }

  lemma DropStaysInside(env: Env, r: Request, hex: string, kind: Kind)
    requires Admissible(env, r) && IsHex(hex)
    ensures StaysInside(env, r.vault, DirOf(r) + [DropName(kind, hex)])
  {
    var name := DropName(kind, hex);
    if r.subpath.Some? { NothingLeadsOut(r.subpath.value); }
    DropNameIsComponent(kind, hex);
    assert name[0] == 'd';
    forall i | 0 <= i < |name| ensures name[i] != '\\' {
      if 5 <= i < 37 { assert name[i] == hex[i - 5]; }
    }
    assert forall c :: c in DirOf(r) + [name] <==> c in DirOf(r) || c == name;
  }

  /** In every reachable state all files and directories lie in their vault: no component of their paths is
      the parent directory, or holds a separator. */
  lemma NothingLiesOutside(env: Env, actions: seq<Action>)
    requires Exec(env, actions).Some?
    ensures forall loc :: loc in Exec(env, actions).value.files ==> StaysInside(env, loc.vault, loc.dir + [loc.name])
    ensures forall f :: f in Exec(env, actions).value.folders ==> StaysInside(env, f.vault, f.path)
  {
    RunKeepsInv(env, actions);
    var s := Exec(env, actions).value;
    forall loc | loc in s.files ensures StaysInside(env, loc.vault, loc.dir + [loc.name]) {
      var hex, kind :| Owns(s.requests, loc, hex, kind);
      DropStaysInside(env, s.requests[hex], hex, kind);
    }
    forall f | f in s.folders ensures StaysInside(env, f.vault, f.path) {
      FoldersArePermitted(env, actions, f);
      assert Contains("..", "..");
    }
  }

  /** A path that a handler accepts leads nowhere else either. */
  lemma AcceptedPathsStayInside(env: Env, name: string, path: string)
    requires Reading.MayDownload(env, name, path) || Reading.MayReadMetadata(env, name, path) || Handlers.MayDelete(env, name, path)
    ensures name in env.vaults && name != ".." && '/' !in name && '\\' !in name
    ensures forall c :: c in Components(path) ==> c != "" && c != "." && c != ".." && '/' !in c && '\\' !in c
  {
    NothingLeadsOut(path);
    VaultNameIsComponent(name);
  }

  /** The `m`th directory on the way cannot be made: a file is there, or the configuration file, or its name
      holds a NUL character or is too long. */
  ghost predicate InTheWay(files: map<Loc, Content>, r: Request, m: nat)
    requires m < |DirOf(r)|
  {
    || Loc(r.vault, DirOf(r)[..m], DirOf(r)[m]) in files
    || (m == 0 && DirOf(r)[m] == ".inbox-age.config")
    || '\0' in DirOf(r)[m] || |Utf8.Encode(DirOf(r)[m])| > 255
  }

  lemma BlockedIff(files: map<Loc, Content>, r: Request)
    ensures Blocked(files, r, |DirOf(r)|) <==> exists m :: 0 <= m < |DirOf(r)| && InTheWay(files, r, m)
  {
    if m :| 0 < m <= |DirOf(r)| && IsBarred(files, FolderAt(r, m)) {
      BarredIff(files, r, m - 1);
    }
    if m :| 0 <= m < |DirOf(r)| && InTheWay(files, r, m) {
      BarredIff(files, r, m);
    }
  }

  lemma BarredIff(files: map<Loc, Content>, r: Request, m: nat)
    requires m < |DirOf(r)|
    ensures IsBarred(files, FolderAt(r, m + 1)) <==> InTheWay(files, r, m)
  {
    var path := DirOf(r)[..m + 1];
    assert path[..m] == DirOf(r)[..m] && path[m] == DirOf(r)[m];
    assert path == [path[0]] + path[1..];
    assert path == [".inbox-age.config"] <==> m == 0 && path[m] == ".inbox-age.config";
  }

  // ---------- What is removed ----------

  /** When a delete can begin: at a file that is there, in a vault that allows deleting. */
  lemma DeleteStartsIff(env: Env, s: State, id: nat, loc: Loc)
    ensures Next(env, s, DeleteStart(id, loc)).Some? <==>
            id !in s.deletions && loc in s.files && loc.vault in env.vaults && env.vaults[loc.vault].permissions.allowDelete
  {}

  /** A delete that is under way is one in a vault that allows deleting. */
  lemma {:induction false} DeletionsArePermitted(env: Env, actions: seq<Action>, id: nat)
    requires Exec(env, actions).Some? && id in Exec(env, actions).value.deletions
    ensures var vault := Exec(env, actions).value.deletions[id].loc.vault;
            vault in env.vaults && env.vaults[vault].permissions.allowDelete
  {
    if actions != [] {
      var n := |actions| - 1;
      ExecPrefix(env, actions);
      var s := Exec(env, actions[..n]).value;
      DeletionFromBefore(env, s, actions[n], id);
      if id in s.deletions { DeletionsArePermitted(env, actions[..n], id); }
    }
  }

  lemma DeletionFromBefore(env: Env, s: State, a: Action, id: nat)
    requires Next(env, s, a).Some? && id in Next(env, s, a).value.deletions
    ensures var loc := Next(env, s, a).value.deletions[id].loc;
            || (id in s.deletions && s.deletions[id].loc == loc)
            || (loc.vault in env.vaults && env.vaults[loc.vault].permissions.allowDelete)
  {}

  /** Nothing is ever removed from a vault that does not allow deleting, by whichever handler. */
  lemma RemovalsArePermitted(env: Env, actions: seq<Action>, k: nat, hex: string, kind: Kind)
    requires Removes(env, actions, k, hex, kind)
    ensures var vault := Exec(env, actions[..k]).value.requests[hex].vault;
            vault in env.vaults && env.vaults[vault].permissions.allowDelete
  {
    DeletionsArePermitted(env, actions[..k], actions[k].id);
  }
}
