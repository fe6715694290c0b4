/** walk_dir: an explicit stack of directories, against the recursive definition of what it finds. */
module WalkDir {
  import opened Prelude
  import opened Names

  datatype Tree = File | Dir(entries: seq<Entry>)
  datatype Entry = Entry(name: string, tree: Tree)

  /** How walk_dir spells an entry below `prefix`. */
  function Relative(prefix: string, name: string): string {
    if prefix == "" then name else prefix + "/" + name
  }

  /** The files reachable without passing an entry that starts with a dot. */
  function Visible(entries: seq<Entry>, prefix: string): seq<string>
    decreases entries
  {
    if entries == [] then []
    else
      var e := entries[0];
      (if Hidden(e.name) then []
       else match e.tree
         case File => [Relative(prefix, e.name)]
         case Dir(inner) => Visible(inner, Relative(prefix, e.name)))
      + Visible(entries[1..], prefix)
  }

  /** Number of entries in all directories below. */
  function Size(entries: seq<Entry>): nat
    decreases entries
  {
    if entries == [] then 0
    else
      (match entries[0].tree
       case File => 1
       case Dir(inner) => 1 + Size(inner))
      + Size(entries[1..])
  }

  type Stack = seq<(seq<Entry>, string)>

  /** What the directories on the stack still have to yield. */
  ghost function Pending(stack: Stack): multiset<string> {
    if stack == [] then multiset{}
    else Pending(stack[..|stack| - 1]) + multiset(Visible(stack[|stack| - 1].0, stack[|stack| - 1].1))
  }

  function Work(stack: Stack): nat {
    if stack == [] then 0 else Work(stack[..|stack| - 1]) + 1 + Size(stack[|stack| - 1].0)
  }

  lemma PushPending(stack: Stack, dir: seq<Entry>, prefix: string)
    ensures Pending(stack + [(dir, prefix)]) == Pending(stack) + multiset(Visible(dir, prefix))
    ensures Work(stack + [(dir, prefix)]) == Work(stack) + 1 + Size(dir)
  {
    assert (stack + [(dir, prefix)])[..|stack|] == stack;
  }

  /** One entry of a directory: where its yield goes. */
  lemma VisibleStep(entries: seq<Entry>, i: nat, prefix: string)
    requires i < |entries|
    ensures var e := entries[i];
            Visible(entries[i..], prefix) ==
            (if Hidden(e.name) then []
             else match e.tree { case File => [Relative(prefix, e.name)] case Dir(inner) => Visible(inner, Relative(prefix, e.name)) })
            + Visible(entries[i + 1..], prefix)
    ensures Size(entries[i..]) == (match entries[i].tree { case File => 1 case Dir(inner) => 1 + Size(inner) }) + Size(entries[i + 1..])
  {
    assert entries[i..][1..] == entries[i + 1..];
  }

  /** The inner loop: one directory is read, its files are listed, its directories are stacked. */
  method ReadDir(entries: seq<Entry>, prefix: string, stack0: Stack, files0: seq<string>)
    returns (stack: Stack, files: seq<string>)
    ensures multiset(files) + Pending(stack) == multiset(files0) + Pending(stack0) + multiset(Visible(entries, prefix))
    ensures Work(stack) <= Work(stack0) + Size(entries)
  {
    stack, files := stack0, files0;
    for i := 0 to |entries|
      invariant multiset(files) + Pending(stack) + multiset(Visible(entries[i..], prefix)) ==
                multiset(files0) + Pending(stack0) + multiset(Visible(entries, prefix))
      invariant Work(stack) + Size(entries[i..]) <= Work(stack0) + Size(entries)
    {
      var e := entries[i];
      VisibleStep(entries, i, prefix);
      if Hidden(e.name) {
        continue;
      }
      var relative := Relative(prefix, e.name);
      match e.tree
      case File => files := files + [relative];
      case Dir(inner) =>
        PushPending(stack, inner, relative);
        stack := stack + [(inner, relative)];
    }
    assert entries[|entries|..] == [];
  }

  /** walk_dir: it ends, and finds exactly the visible files, each as often as the definition says. */
  method Walk(root: seq<Entry>) returns (allFiles: seq<string>)
    ensures multiset(allFiles) == multiset(Visible(root, ""))
  {
    allFiles := [];
    var stack: Stack := [(root, "")];
    PushPending([], root, "");
    assert [] + [(root, "")] == stack;
    while stack != []
      invariant multiset(allFiles) + Pending(stack) == multiset(Visible(root, ""))
      decreases Work(stack)
    {
      var (dir, prefix) := stack[|stack| - 1];
      stack := stack[..|stack| - 1];
      stack, allFiles := ReadDir(dir, prefix, stack, allFiles);
    }
  }

  // ---------- What is visible ----------

  /** Entry names are proper and unique within each directory. */
  ghost predicate WellFormed(entries: seq<Entry>)
    decreases entries
  {
    && (forall i :: 0 <= i < |entries| ==> ProperComponent(entries[i].name))
    && (forall i, j :: 0 <= i < j < |entries| ==> entries[i].name != entries[j].name)
    && (forall i :: 0 <= i < |entries| ==> entries[i].tree.Dir? ==> WellFormed(entries[i].tree.entries))
  }

  /** There is a file at `path`, a list of names from the root. */
  ghost predicate HasFile(entries: seq<Entry>, path: seq<string>)
    decreases |path|
  {
    && path != []
    && exists i :: 0 <= i < |entries| && LeadsTo(entries[i], path)
  }

  ghost predicate LeadsTo(e: Entry, path: seq<string>)
    requires path != []
    decreases |path|, 0
  {
    e.name == path[0] && match e.tree
      case File => |path| == 1
      case Dir(inner) => |path| > 1 && HasFile(inner, path[1..])
  }

  predicate NoneHidden(path: seq<string>) {
    forall c :: c in path ==> !Hidden(c)
  }

  /** The same walk, collecting lists of names instead of texts. */
  function Paths(entries: seq<Entry>, dir: seq<string>): seq<seq<string>>
    decreases entries
  {
    if entries == [] then []
    else
      var e := entries[0];
      (if Hidden(e.name) then []
       else match e.tree
         case File => [dir + [e.name]]
         case Dir(inner) => Paths(inner, dir + [e.name]))
      + Paths(entries[1..], dir)
  }

  function JoinAll(paths: seq<seq<string>>): (r: seq<string>)
    ensures |r| == |paths|
    ensures forall i :: 0 <= i < |paths| ==> r[i] == Join(paths[i])
  {
    seq(|paths|, i requires 0 <= i < |paths| => Join(paths[i]))
  }

  lemma JoinAllAppend(a: seq<seq<string>>, b: seq<seq<string>>)
    ensures JoinAll(a + b) == JoinAll(a) + JoinAll(b)
  {}

  lemma WellFormedTail(entries: seq<Entry>)
    requires WellFormed(entries) && entries != []
    ensures WellFormed(entries[1..])
    ensures ProperComponent(entries[0].name)
    ensures entries[0].tree.Dir? ==> WellFormed(entries[0].tree.entries)
  {
    var rest := entries[1..];
    assert forall i :: 0 <= i < |rest| ==> rest[i] == entries[i + 1];
  }

  lemma {:induction false} VisibleIsJoinedPaths(entries: seq<Entry>, dir: seq<string>)
    requires WellFormed(entries) && Proper(dir)
    ensures Visible(entries, Join(dir)) == JoinAll(Paths(entries, dir))
    decreases entries
  {
    if entries != [] {
      var e := entries[0];
      WellFormedTail(entries);
      JoinSnoc(dir, e.name);
      if dir != [] { assert Join(dir) != ""; }
      assert Relative(Join(dir), e.name) == Join(dir + [e.name]);
      VisibleIsJoinedPaths(entries[1..], dir);
      if e.tree.Dir? { VisibleIsJoinedPaths(e.tree.entries, dir + [e.name]); }
      FirstIsJoined(e, dir);
      JoinAllAppend(PathsOf(e, dir), Paths(entries[1..], dir));
    }
  }

  lemma FirstIsJoined(e: Entry, dir: seq<string>)
    requires Relative(Join(dir), e.name) == Join(dir + [e.name])
    requires e.tree.Dir? ==> Visible(e.tree.entries, Join(dir + [e.name])) == JoinAll(Paths(e.tree.entries, dir + [e.name]))
    ensures JoinAll(PathsOf(e, dir)) ==
            if Hidden(e.name) then []
            else match e.tree { case File => [Join(dir + [e.name])] case Dir(inner) => Visible(inner, Join(dir + [e.name])) }
  {}

  /** A path is collected exactly when it leads to a file through visible names only. */
  lemma {:induction false} PathsAre(entries: seq<Entry>, dir: seq<string>, path: seq<string>)
    ensures path in Paths(entries, dir) <==>
            dir <= path && HasFile(entries, path[|dir|..]) && NoneHidden(path[|dir|..])
    decreases entries
  {
    if entries != [] {
      var e := entries[0];
      PathsAre(entries[1..], dir, path);
      if dir <= path {
        HasFileStep(entries, path[|dir|..]);
      }
      if e.tree.Dir? {
        PathsAre(e.tree.entries, dir + [e.name], path);
      }
      FirstEntryPaths(e, dir, path);
    }
  }

  lemma HasFileStep(entries: seq<Entry>, path: seq<string>)
    requires entries != []
    ensures HasFile(entries, path) <==> HasFile(entries[1..], path) || (path != [] && LeadsTo(entries[0], path))
  {
    if path != [] {
      var rest := entries[1..];
      assert forall i :: 0 <= i < |rest| ==> rest[i] == entries[i + 1];
      if HasFile(entries, path) && !LeadsTo(entries[0], path) {
        var i :| 0 <= i < |entries| && LeadsTo(entries[i], path);
        assert LeadsTo(rest[i - 1], path);
      }
      if i :| 0 <= i < |rest| && LeadsTo(rest[i], path) {
        assert LeadsTo(entries[i + 1], path);
      }
    }
  }

  function PathsOf(e: Entry, dir: seq<string>): seq<seq<string>> {
    if Hidden(e.name) then []
    else match e.tree
      case File => [dir + [e.name]]
      case Dir(inner) => Paths(inner, dir + [e.name])
  }

  lemma PrefixByName(dir: seq<string>, name: string, path: seq<string>)
    ensures dir + [name] <= path <==> dir <= path && path[|dir|..] != [] && path[|dir|..][0] == name
    ensures dir + [name] <= path ==> path[|dir|..][1..] == path[|dir| + 1..]
  {
    if dir <= path && path[|dir|..] != [] && path[|dir|..][0] == name {
      assert path[..|dir| + 1] == dir + [name];
    }
  }

  lemma NoneHiddenStep(rest: seq<string>)
    requires rest != []
    ensures NoneHidden(rest) <==> !Hidden(rest[0]) && NoneHidden(rest[1..])
  {
    assert rest == [rest[0]] + rest[1..];
  }

  /** The part of the walk that one entry contributes. */
  lemma FirstEntryPaths(e: Entry, dir: seq<string>, path: seq<string>)
    requires e.tree.Dir? ==>
               (path in Paths(e.tree.entries, dir + [e.name]) <==>
                dir + [e.name] <= path && HasFile(e.tree.entries, path[|dir| + 1..]) && NoneHidden(path[|dir| + 1..]))
    ensures path in PathsOf(e, dir) <==>
            dir <= path && path[|dir|..] != [] && LeadsTo(e, path[|dir|..]) && NoneHidden(path[|dir|..])
  {
    PrefixByName(dir, e.name, path);
    if dir + [e.name] <= path {
      var rest := path[|dir|..];
      NoneHiddenStep(rest);
      if e.tree.File? {
        assert |rest| == 1 ==> path == dir + [e.name] && rest[1..] == [];
      } else {
        assert |rest| == 1 ==> !HasFile(e.tree.entries, rest[1..]);
      }
    }
  }

  ghost predicate Distinct<T>(s: seq<T>) {
    forall i, j :: 0 <= i < j < |s| ==> s[i] != s[j]
  }

  lemma DistinctAppend<T>(a: seq<T>, b: seq<T>)
    requires Distinct(a) && Distinct(b) && forall x :: x in a ==> x !in b
    ensures Distinct(a + b)
  {
    forall i, j | 0 <= i < j < |a + b| ensures (a + b)[i] != (a + b)[j] {
      if i < |a| <= j { assert a[i] in a && b[j - |a|] in b; }
    }
  }

  lemma {:induction false} PathsDistinct(entries: seq<Entry>, dir: seq<string>)
    requires WellFormed(entries)
    ensures Distinct(Paths(entries, dir))
    decreases entries
  {
    if entries != [] {
      var e := entries[0];
      WellFormedTail(entries);
      var first := PathsOf(e, dir);
      var rest := Paths(entries[1..], dir);
      PathsDistinct(entries[1..], dir);
      if e.tree.Dir? { PathsDistinct(e.tree.entries, dir + [e.name]); }
      forall p | p in first ensures p !in rest {
        PathsAre(entries[1..], dir, p);
        if e.tree.Dir? { PathsAre(e.tree.entries, dir + [e.name], p); }
        PrefixByName(dir, e.name, p);
        assert dir + [e.name] <= p;
        assert forall i :: 0 <= i < |entries[1..]| ==> entries[1..][i].name == entries[i + 1].name != e.name;
      }
      DistinctAppend(first, rest);
    }
  }

  /** What walk_dir returns for a well-formed tree: the joined paths of all files that can be reached
      through visible names, and none of them twice. */
  lemma VisibleAre(root: seq<Entry>)
    requires WellFormed(root)
    ensures Distinct(Visible(root, ""))
    ensures forall p :: p in Visible(root, "") <==> exists path :: HasFile(root, path) && NoneHidden(path) && p == Join(path)
  {
    var paths := Paths(root, []);
    VisibleIsJoinedPaths(root, []);
    PathsDistinct(root, []);
    PathsAreFiles(root, paths);
    JoinedAre(paths);
  }

  lemma PathsAreFiles(root: seq<Entry>, paths: seq<seq<string>>)
    requires WellFormed(root) && paths == Paths(root, [])
    ensures forall path :: path in paths <==> HasFile(root, path) && NoneHidden(path)
    ensures forall path :: path in paths ==> Proper(path)
  {
    forall path ensures path in paths <==> HasFile(root, path) && NoneHidden(path) {
      PathsAre(root, [], path);
      assert path[0..] == path;
    }
    forall path | path in paths ensures Proper(path) { FilePathsAreProper(root, path); }
  }

  /** Different paths have different texts. */
  lemma JoinedAre(paths: seq<seq<string>>)
    requires Distinct(paths) && forall path :: path in paths ==> Proper(path)
    ensures Distinct(JoinAll(paths))
    ensures forall p :: p in JoinAll(paths) <==> exists path :: path in paths && p == Join(path)
  {
    var texts := JoinAll(paths);
    forall i, j | 0 <= i < j < |texts| ensures texts[i] != texts[j] {
      assert paths[i] in paths && paths[j] in paths;
      if texts[i] == texts[j] { JoinInjective(paths[i], paths[j]); }
    }
    forall p ensures p in texts <==> exists path :: path in paths && p == Join(path) {
      if p in texts {
        var i :| 0 <= i < |texts| && texts[i] == p;
        assert paths[i] in paths;
      }
      if path :| path in paths && p == Join(path) {
        var i :| 0 <= i < |paths| && paths[i] == path;
        assert texts[i] == p;
      }
    }
  }

  lemma VisibleContains(root: seq<Entry>, path: seq<string>)
    requires WellFormed(root) && HasFile(root, path) && NoneHidden(path)
    ensures Join(path) in Visible(root, "")
  {
    VisibleAre(root);
  }

  lemma {:induction false} FilePathsAreProper(entries: seq<Entry>, path: seq<string>)
    requires WellFormed(entries) && HasFile(entries, path)
    ensures Proper(path)
    decreases |path|
  {
    var i :| 0 <= i < |entries| && LeadsTo(entries[i], path);
    assert path == [path[0]] + path[1..];
    if |path| > 1 {
      FilePathsAreProper(entries[i].tree.entries, path[1..]);
    }
  }

  // ---------- A tree with given files ----------

  function Find(entries: seq<Entry>, name: string): (i: Option<nat>)
    ensures i.Some? ==> i.value < |entries| && entries[i.value].name == name
    ensures i.None? ==> forall j :: 0 <= j < |entries| ==> entries[j].name != name
  {
    if entries == [] then None
    else if entries[|entries| - 1].name == name then Some(|entries| - 1)
    else Find(entries[..|entries| - 1], name)
  }

  /** The tree with one more file, and the directories that it needs. */
  function Insert(entries: seq<Entry>, path: seq<string>): seq<Entry>
    requires path != []
    decreases |path|
  {
    if |path| == 1 then entries + [Entry(path[0], File)]
    else
      match Find(entries, path[0])
      case None => entries + [Entry(path[0], Dir(Insert([], path[1..])))]
      case Some(i) =>
        match entries[i].tree
        case File => entries
        case Dir(inner) => entries[i := Entry(path[0], Dir(Insert(inner, path[1..])))]
  }

  /** No file is on the way to `path`, and nothing is there. */
  predicate Room(entries: seq<Entry>, path: seq<string>)
    requires path != []
    decreases |path|
  {
    match Find(entries, path[0])
    case None => true
    case Some(i) => |path| > 1 && entries[i].tree.Dir? && Room(entries[i].tree.entries, path[1..])
  }

  /** There is a file below every directory. */
  ghost predicate Full(entries: seq<Entry>)
    decreases entries
  {
    forall i :: 0 <= i < |entries| && entries[i].tree.Dir? ==> entries[i].tree.entries != [] && Full(entries[i].tree.entries)
  }

  lemma InsertIsNotEmpty(entries: seq<Entry>, path: seq<string>)
    requires path != [] && Room(entries, path)
    ensures Insert(entries, path) != []
  {}

  lemma AppendEntry(entries: seq<Entry>, e: Entry)
    requires WellFormed(entries) && Full(entries) && ProperComponent(e.name)
    requires forall j :: 0 <= j < |entries| ==> entries[j].name != e.name
    requires e.tree.Dir? ==> WellFormed(e.tree.entries) && Full(e.tree.entries) && e.tree.entries != []
    ensures WellFormed(entries + [e]) && Full(entries + [e])
    ensures forall q :: q != [] ==> (HasFile(entries + [e], q) <==> HasFile(entries, q) || LeadsTo(e, q))
  {
    var all := entries + [e];
    forall q | q != [] ensures HasFile(all, q) <==> HasFile(entries, q) || LeadsTo(e, q) {
      if i :| 0 <= i < |entries| && LeadsTo(entries[i], q) { assert LeadsTo(all[i], q); }
      if LeadsTo(e, q) { assert LeadsTo(all[|entries|], q); }
    }
  }

  lemma ReplaceEntry(entries: seq<Entry>, i: nat, e: Entry)
    requires WellFormed(entries) && Full(entries) && i < |entries| && e.name == entries[i].name
    requires e.tree.Dir? ==> WellFormed(e.tree.entries) && Full(e.tree.entries) && e.tree.entries != []
    ensures WellFormed(entries[i := e]) && Full(entries[i := e])
    ensures forall q :: q != [] && q[0] != e.name ==> (HasFile(entries[i := e], q) <==> HasFile(entries, q))
    ensures forall q :: q != [] && q[0] == e.name ==> (HasFile(entries[i := e], q) <==> LeadsTo(e, q))
    ensures forall q :: q != [] && q[0] == e.name ==> (HasFile(entries, q) <==> LeadsTo(entries[i], q))
  {
    var all := entries[i := e];
    forall q | q != [] && q[0] != e.name ensures HasFile(all, q) <==> HasFile(entries, q) {
      if k :| 0 <= k < |entries| && LeadsTo(entries[k], q) { assert LeadsTo(all[k], q); }
      if k :| 0 <= k < |entries| && LeadsTo(all[k], q) { assert LeadsTo(entries[k], q); }
    }
    forall q | q != [] && q[0] == e.name
      ensures (HasFile(all, q) <==> LeadsTo(e, q)) && (HasFile(entries, q) <==> LeadsTo(entries[i], q))
    {
      assert all[i] == e;
      assert forall k :: 0 <= k < |entries| && k != i ==> entries[k].name != e.name && all[k] == entries[k];
    }
  }

  /** What is below a directory that leads to just one path more. */
  lemma LeadsBelow(name: string, inner: seq<Entry>, inner': seq<Entry>, rest: seq<string>)
    requires rest != []
    requires forall q :: q != [] ==> (HasFile(inner', q) <==> q == rest || HasFile(inner, q))
    ensures forall q :: q != [] ==>
              (LeadsTo(Entry(name, Dir(inner')), q) <==> q == [name] + rest || LeadsTo(Entry(name, Dir(inner)), q))
  {
    forall q: seq<string> | q != []
      ensures LeadsTo(Entry(name, Dir(inner')), q) <==> q == [name] + rest || LeadsTo(Entry(name, Dir(inner)), q)
    {
      assert q == [q[0]] + q[1..];
      assert !HasFile(inner, []) && !HasFile(inner', []);
    }
  }

  lemma {:induction false} InsertAdds(entries: seq<Entry>, path: seq<string>)
    requires WellFormed(entries) && Full(entries) && path != [] && Proper(path) && Room(entries, path)
    ensures WellFormed(Insert(entries, path)) && Full(Insert(entries, path))
    ensures forall q :: q != [] ==> (HasFile(Insert(entries, path), q) <==> q == path || HasFile(entries, q))
    decreases |path|
  {
    var name, rest := path[0], path[1..];
    assert name in path && path == [name] + rest;
    if |path| == 1 {
      AppendEntry(entries, Entry(name, File));
      assert forall q :: q != [] ==> (LeadsTo(Entry(name, File), q) <==> q == path);
    } else {
      match Find(entries, name)
      case None =>
        InsertAdds([], rest);
        InsertIsNotEmpty([], rest);
        AppendEntry(entries, Entry(name, Dir(Insert([], rest))));
        LeadsBelow(name, [], Insert([], rest), rest);
        assert forall q :: q != [] ==> !LeadsTo(Entry(name, Dir([])), q);
      case Some(i) =>
        var inner := entries[i].tree.entries;
        InsertAdds(inner, rest);
        InsertIsNotEmpty(inner, rest);
        ReplaceEntry(entries, i, Entry(name, Dir(Insert(inner, rest))));
        LeadsBelow(name, inner, Insert(inner, rest), rest);
        assert entries[i] == Entry(name, Dir(inner));
    }
  }

  /** A path from the root to some file. */
  lemma {:induction false} FullHasFile(entries: seq<Entry>) returns (path: seq<string>)
    requires WellFormed(entries) && Full(entries) && entries != []
    ensures HasFile(entries, path)
    decreases entries
  {
    var e := entries[0];
    match e.tree
    case File =>
      path := [e.name];
      assert LeadsTo(entries[0], path);
    case Dir(inner) =>
      var rest := FullHasFile(inner);
      path := [e.name] + rest;
      assert path[1..] == rest;
      assert LeadsTo(entries[0], path);
  }

  /** Where there is no room for a file, another is on its way or below it. */
  lemma {:induction false} NoRoom(entries: seq<Entry>, path: seq<string>) returns (other: seq<string>)
    requires WellFormed(entries) && Full(entries) && path != [] && !Room(entries, path)
    ensures other != [] && HasFile(entries, other) && (other <= path || path <= other)
    decreases |path|
  {
    var i := Find(entries, path[0]).value;
    var e := entries[i];
    assert path == [path[0]] + path[1..];
    match e.tree
    case File =>
      other := [e.name];
      assert LeadsTo(entries[i], other);
    case Dir(inner) =>
      var rest;
      if |path| == 1 {
        rest := FullHasFile(inner);
      } else {
        rest := NoRoom(inner, path[1..]);
      }
      other := [e.name] + rest;
      assert other[1..] == rest;
      assert LeadsTo(entries[i], other);
  }

  /** Any finite set of paths of which none lies below another is the set of files of some tree. */
  lemma {:induction false} TreeExists(paths: set<seq<string>>) returns (root: seq<Entry>)
    requires forall p :: p in paths ==> p != [] && Proper(p)
    requires forall p, q :: p in paths && q in paths && p <= q ==> p == q
    ensures WellFormed(root) && Full(root)
    ensures forall q :: q != [] ==> (HasFile(root, q) <==> q in paths)
    decreases |paths|
  {
    if paths == {} {
      root := [];
    } else {
      var p :| p in paths;
      var rest := TreeExists(paths - {p});
      assert Room(rest, p) by {
        if !Room(rest, p) { var other := NoRoom(rest, p); }
      }
      InsertAdds(rest, p);
      root := Insert(rest, p);
    }
  }
}
