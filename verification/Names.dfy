/** Vault names, subpaths and the names of the files that belong to one drop. */
module Names {
  import opened Prelude
  import opened Text
  import Utf8

  // ---------- Validation ----------

  predicate IsValidName(name: string) {
    name != "" && '/' !in name && '\\' !in name && !Contains(name, "..")
  }

  predicate IsValidSubpath(path: string) {
    !Contains(path, "..") && !StartsWith(path, "/") && '\\' !in path
  }

  predicate IsPayloadPath(path: string) {
    EndsWith(path, ".age") && !EndsWith(path, ".meta.age")
  }

  /** Two dots in a row. */
  predicate HasDotDot(s: string) {
    exists i :: 0 <= i < |s| - 1 && s[i] == '.' && s[i + 1] == '.'
  }

  lemma DotDotIff(s: string)
    ensures Contains(s, "..") <==> HasDotDot(s)
  {
    ContainsIff(s, "..");
    if i :| StandsAt(s, "..", i) {
      assert s[i] == s[i..i + 2][0] && s[i + 1] == s[i..i + 2][1];
    }
    if i :| 0 <= i < |s| - 1 && s[i] == '.' && s[i + 1] == '.' {
      assert StandsAt(s, "..", i);
    }
  }

  /** What is a name for a vault, said by positions. */
  lemma ValidNameIff(name: string)
    ensures IsValidName(name) <==> name != "" && '/' !in name && '\\' !in name && !HasDotDot(name)
  {
    DotDotIff(name);
  }

  /** What is a subpath, said by positions. */
  lemma ValidSubpathIff(path: string)
    ensures IsValidSubpath(path) <==> (path == "" || path[0] != '/') && '\\' !in path && !HasDotDot(path)
  {
    DotDotIff(path);
  }

  /** What is the path of a payload: something, then `.age`, but not something, then `.meta.age`. */
  lemma PayloadPathIff(path: string)
    ensures IsPayloadPath(path) <==>
            (exists stem :: path == stem + ".age") && !(exists stem :: path == stem + ".meta.age")
  {
    EndsWithIff(path, ".age");
    EndsWithIff(path, ".meta.age");
  }

  // ---------- Paths as component lists ----------

  /** How the file system reads a relative path: empty and `.` segments name no directory. */
  function Components(path: string): (comps: seq<string>)
    ensures forall c :: c in comps ==> c != "" && c != "." && '/' !in c
    decreases |path|
  {
    match SplitOnce(path, '/')
    case None => Keep(path)
    case Some((first, rest)) => Keep(first) + Components(rest)
  }

  function Keep(segment: string): seq<string> {
    if segment == "" || segment == "." then [] else [segment]
  }

  /** `a/b/c`: how walk_dir spells the path of a nested entry. */
  function Join(comps: seq<string>): string {
    if comps == [] then ""
    else if |comps| == 1 then comps[0]
    else comps[0] + "/" + Join(comps[1..])
  }

  predicate ProperComponent(c: string) {
    c != "" && c != "." && '/' !in c
  }

  predicate Proper(comps: seq<string>) {
    forall c :: c in comps ==> ProperComponent(c)
  }

  /** Reading a joined path gives the components back. */
  lemma {:induction false} ComponentsOfJoin(comps: seq<string>)
    requires Proper(comps)
    ensures Components(Join(comps)) == comps
  {
    if comps == [] {
    } else if |comps| == 1 {
      assert ProperComponent(comps[0]);
    } else {
      assert ProperComponent(comps[0]);
      SplitOnceAt(comps[0], '/', Join(comps[1..]));
      ComponentsOfJoin(comps[1..]);
      assert Keep(comps[0]) + comps[1..] == comps;
    }
  }

  lemma JoinInjective(a: seq<string>, b: seq<string>)
    requires Proper(a) && Proper(b) && Join(a) == Join(b)
    ensures a == b
  {
    ComponentsOfJoin(a);
    ComponentsOfJoin(b);
  }

  /** Entering one level deeper appends `/name`, except at the root. */
  lemma {:induction false} JoinSnoc(comps: seq<string>, name: string)
    requires Proper(comps)
    ensures Join(comps + [name]) == if comps == [] then name else Join(comps) + "/" + name
    ensures comps != [] ==> Join(comps) != ""
  {
    if comps == [] {
      assert comps + [name] == [name];
    } else {
      var first, rest := comps[0], comps[1..];
      assert ProperComponent(first);
      JoinSnoc(rest, name);
      assert (comps + [name])[1..] == rest + [name];
      assert Join(comps + [name]) == first + "/" + Join(rest + [name]);
      if rest != [] {
        assert Join(comps) == first + "/" + Join(rest);
        AppendAssociates(first + "/", Join(rest), "/" + name);
        AppendAssociates(Join(rest), "/", name);
        AppendAssociates(first + "/" + Join(rest), "/", name);
      }
    }
  }

  /** A slash ends a segment, so the components on both sides stay what they are. */
  lemma {:induction false} ComponentsOfSlash(a: string, b: string)
    ensures Components(a + "/" + b) == Components(a) + Components(b)
    decreases |a|
  {
    match SplitOnce(a, '/')
    case None =>
      SplitOnceAt(a, '/', b);
    case Some((first, rest)) =>
      Regroup(first, "/", rest, "/", b);
      SplitOnceAt(first, '/', rest + "/" + b);
      ComponentsOfSlash(rest, b);
      AppendAssociates(Keep(first), Components(rest), Components(b));
  }

  predicate NoDots(comps: seq<string>) {
    forall c :: c in comps ==> !Contains(c, "..") && '\\' !in c
  }

  lemma {:induction false} ContainsAppend(a: string, b: string, p: string)
    requires Contains(a, p) || Contains(b, p)
    ensures Contains(a + b, p)
  {
    if a == "" {
      assert a + b == b;
    } else if p <= a {
      assert p <= a + b;
    } else {
      assert (a + b)[1..] == a[1..] + b;
      ContainsAppend(a[1..], b, p);
    }
  }

  /** `..` cannot straddle a slash. */
  lemma {:induction false} DotsStayInSegment(a: string, b: string)
    requires Contains(a + "/" + b, "..")
    ensures Contains(a, "..") || Contains(b, "..")
  {
    var s := a + "/" + b;
    if a == "" {
      NotPrefix(s, "..", 0);
      assert s[1..] == b;
    } else if ".." <= a {
    } else {
      assert s[0] == a[0] && s[1] == if |a| == 1 then '/' else a[1];
      NotPrefix(s, "..", if a[0] == '.' then 1 else 0);
      assert s[1..] == a[1..] + "/" + b;
      DotsStayInSegment(a[1..], b);
    }
  }

  /** Components of an accepted subpath hold neither `..` nor a backslash. */
  lemma {:induction false} ComponentsOfValid(path: string)
    requires !Contains(path, "..") && '\\' !in path
    ensures NoDots(Components(path))
    decreases |path|
  {
    match SplitOnce(path, '/')
    case None =>
    case Some((first, rest)) =>
      assert path == (first + "/") + rest == first + ("/" + rest);
      if Contains(rest, "..") { ContainsAppend(first + "/", rest, ".."); }
      if Contains(first, "..") { ContainsAppend(first, "/" + rest, ".."); }
      assert forall c :: c in first || c in rest ==> c in path;
      ComponentsOfValid(rest);
  }

  /** No accepted path leads out of its vault: none of its components is the parent directory, and none
      holds a separator. */
  lemma NothingLeadsOut(path: string)
    requires IsValidSubpath(path)
    ensures ".." !in Components(path)
    ensures forall c :: c in Components(path) ==> ProperComponent(c) && '\\' !in c
  {
    ComponentsOfValid(path);
    assert Contains("..", "..");
  }

  /** A vault name is one component, or names the directory of all vaults. */
  lemma VaultNameIsComponent(name: string)
    requires IsValidName(name)
    ensures name != ".." && if name == "." then Components(name) == [] else Components(name) == [name]
  {
    assert Contains("..", "..");
  }

  /** Segments with slashes between them. */
  function Slashed(segments: seq<string>): string
    requires segments != []
  {
    if |segments| == 1 then segments[0] else segments[0] + "/" + Slashed(segments[1..])
  }

  function Named(segments: seq<string>): seq<string> {
    if segments == [] then []
    else (if segments[0] in {"", "."} then [] else [segments[0]]) + Named(segments[1..])
  }

  /** Of the segments of a path, those that are empty or a single dot do not count, and all others do. */
  lemma {:induction false} ComponentsOfSlashed(segments: seq<string>)
    requires segments != [] && forall s :: s in segments ==> '/' !in s
    ensures Components(Slashed(segments)) == Named(segments)
  {
    assert segments[0] in segments;
    if |segments| == 1 {
      assert Named(segments[1..]) == [];
      AppendNothing(Keep(segments[0]));
    } else {
      SplitOnceAt(segments[0], '/', Slashed(segments[1..]));
      ComponentsOfSlashed(segments[1..]);
    }
  }

  /** A joined path of such components passes the subpath check again. */
  lemma {:induction false} JoinIsValid(comps: seq<string>)
    requires Proper(comps) && NoDots(comps)
    ensures IsValidSubpath(Join(comps))
  {
    if comps == [] {
      assert !Contains("", "..");
    } else if |comps| == 1 {
      assert ProperComponent(comps[0]) && comps[0][0] in comps[0];
    } else {
      assert ProperComponent(comps[0]) && comps[0][0] in comps[0];
      JoinIsValid(comps[1..]);
      if Contains(Join(comps), "..") {
        DotsStayInSegment(comps[0], Join(comps[1..]));
      }
      assert Join(comps)[0] == comps[0][0];
    }
  }

  /** `Path::file_name` on a text: its last component, unless that is the parent directory. */
  function FileName(path: string): Option<string> {
    var comps := Components(path);
    if comps == [] || comps[|comps| - 1] == ".." then None else Some(comps[|comps| - 1])
  }

  /** The last segment that counts is the file name, unless it is the parent directory. */
  lemma FileNameIs(dir: string, name: string)
    requires '/' !in name && name != "" && name != "."
    ensures FileName(dir + "/" + name) == if name == ".." then None else Some(name)
    ensures FileName(name) == if name == ".." then None else Some(name)
    ensures FileName("") == None
  {
    ComponentsOfSlash(dir, name);
    OneComponent(name);
    NoComponent();
    assert (Components(dir) + [name])[|Components(dir)|] == name;
  }

  /** Slashes and dots behind it do not count. */
  lemma FileNameStays(path: string)
    ensures FileName(path + "/") == FileName(path) && FileName(path + "/.") == FileName(path)
  {
    SameComponents(path, "", path + "/");
    SameComponents(path, ".", path + "/.");
  }

  lemma SameComponents(path: string, tail: string, longer: string)
    requires (tail == "" || tail == ".") && longer == path + "/" + tail
    ensures Components(longer) == Components(path)
  {
    ComponentsOfSlash(path, tail);
    NoComponent();
    AppendNothing(Components(path));
  }

  lemma OneComponent(name: string)
    requires '/' !in name && name != "" && name != "."
    ensures Components(name) == [name]
  {}

  lemma NoComponent()
    ensures Components("") == [] && Components(".") == []
  {}

  lemma {:induction false} NoPairOfDots(s: string)
    requires forall i :: 0 <= i < |s| - 1 ==> !(s[i] == '.' && s[i + 1] == '.')
    ensures !Contains(s, "..")
  {
    if s != "" {
      assert |s| > 1 ==> !(s[0] == '.' && s[0 + 1] == '.');
      NotPrefix(s, "..", if s[0] == '.' then 1 else 0);
      forall i | 0 <= i < |s[1..]| - 1 ensures !(s[1..][i] == '.' && s[1..][i + 1] == '.') {
        assert s[1..][i] == s[i + 1] && s[1..][i + 1] == s[(i + 1) + 1];
      }
      NoPairOfDots(s[1..]);
    }
  }

  /** The longest name of a file or directory, in bytes, on Linux and the usual file systems. */
  const NAME_MAX := 255

  /** What the operating system takes as a name: no NUL character, and not too long. The path checks let
      both through. */
  predicate IsTakable(name: string) {
    '\0' !in name && |Utf8.Encode(name)| <= NAME_MAX
  }

  predicate Hidden(name: string) {
    StartsWith(name, ".")
  }

  /** Position `i` starts a segment with a dot that is more than a dot. */
  predicate DottedAt(path: string, i: int) {
    && 0 <= i < |path| && path[i] == '.' && (i == 0 || path[i - 1] == '/')
    && i + 1 < |path| && path[i + 1] != '/'
  }

  /** A path leads through a hidden component exactly if one of its segments starts with a dot and is longer. */
  lemma {:induction false} HiddenIff(path: string)
    ensures (exists c :: c in Components(path) && Hidden(c)) <==> exists i :: DottedAt(path, i)
    decreases |path|
  {
    match SplitOnce(path, '/')
    case None =>
      LastSegmentHidden(path);
    case Some((first, rest)) =>
      HiddenIff(rest);
      FirstSegmentHidden(path, first, rest);
  }

  lemma LastSegmentHidden(path: string)
    requires '/' !in path
    ensures (exists c :: c in Keep(path) && Hidden(c)) <==> exists i :: DottedAt(path, i)
  {
    if DottedAt(path, 0) { assert path in Keep(path) && Hidden(path); }
    if Hidden(path) && path != "." { assert DottedAt(path, 0); }
  }

  lemma FirstSegmentHidden(path: string, first: string, rest: string)
    requires path == first + ['/'] + rest && '/' !in first
    requires (exists c :: c in Components(rest) && Hidden(c)) <==> exists i :: DottedAt(rest, i)
    ensures (exists c :: c in Keep(first) + Components(rest) && Hidden(c)) <==> exists i :: DottedAt(path, i)
  {
    var n := |first| + 1;
    assert path[n..] == rest;
    forall i ensures DottedAt(path, i + n) <==> DottedAt(rest, i) || (i < 0 && DottedAt(path, i + n)) {
      if DottedAt(rest, i) { assert path[i + n] == rest[i] && path[i + n + 1] == rest[i + 1]; }
    }
    if i :| DottedAt(rest, i) { assert DottedAt(path, i + n); }
    if i :| DottedAt(path, i) {
      if i >= n { assert DottedAt(rest, i - n); } else { assert i == 0 && Hidden(first) && first in Keep(first); }
    }
    if Hidden(first) && first in Keep(first) { assert DottedAt(path, 0); }
  }

  // ---------- The configuration file ----------

  /** The file that makes a directory a vault. */
  const CONFIG_NAME := ".inbox-age.config"

  lemma ConfigSpelling(name: string)
    requires name == CONFIG_NAME
    ensures forall i :: 0 <= i < |name| - 1 ==> !(name[i] == '.' && name[i + 1] == '.')
    ensures '/' !in name && '\\' !in name && name != "" && name != "."
  {
    assert forall i :: 0 <= i < |name| && i != 0 && i != 10 ==> name[i] != '.';
  }

  /** The handlers accept its name as a path. */
  lemma ConfigIsComponent(name: string)
    requires name == CONFIG_NAME
    ensures Components(name) == [name] && IsValidSubpath(name)
    ensures !EndsWith(name, "/") && !EndsWith(name, "/.")
  {
    ConfigSpelling(name);
    AcceptedAlone(name);
    assert name[|name| - 1] == 'g';
    NotSuffix(name, "/", 0);
    NotSuffix(name, "/.", 1);
  }

  lemma AcceptedAlone(name: string)
    requires forall i :: 0 <= i < |name| - 1 ==> !(name[i] == '.' && name[i + 1] == '.')
    requires ProperComponent(name) && '\\' !in name
    ensures Components(name) == [name] && IsValidSubpath(name)
  {
    NoPairOfDots(name);
    ComponentsOfJoin([name]);
    JoinIsValid([name]);
  }

  // ---------- Sidecars ----------

  /** metadata_sidecar_for on a file name. */
  function SidecarFor(name: string): Option<string> {
    if !EndsWith(name, ".age") || EndsWith(name, ".meta.age") then None
    else Some(TrimEndMatches(name, ".age") + ".meta.age")
  }

  /** However often a name ends in `.age`, its sidecar is named after what comes before; only names that end
      so, and not in `.meta.age`, have one. */
  lemma SidecarForIs(name: string, stem: string, n: nat)
    requires name == stem + Repeat(".age", n) && !EndsWith(stem, ".age")
    ensures SidecarFor(name) ==
            if n == 0 || EndsWith(name, ".meta.age") then None else Some(stem + ".meta.age")
  {
    TrimEndAll(stem, ".age", n);
    if n == 0 {
      assert name == stem;
    } else {
      AppendAssociates(stem, Repeat(".age", n - 1), ".age");
      SuffixOf(stem + Repeat(".age", n - 1), ".age");
    }
  }

  /** Position of the last dot that is not the first character, as `Path::extension` looks for it. */
  function ExtensionDot(name: string): Option<nat> {
    if |name| <= 1 then None
    else if name[|name| - 1] == '.' then Some(|name| - 1)
    else ExtensionDot(name[..|name| - 1])
  }

  /** It is the last dot behind the first character. */
  lemma {:induction false} ExtensionDotIsLast(name: string)
    ensures match ExtensionDot(name)
            case Some(i) => 0 < i < |name| && name[i] == '.' && forall j :: i < j < |name| ==> name[j] != '.'
            case None => forall j :: 0 < j < |name| ==> name[j] != '.'
  {
    if |name| > 1 && name[|name| - 1] != '.' {
      ExtensionDotIsLast(name[..|name| - 1]);
    }
  }

  /** `Path::with_extension` on a file name. */
  function WithExtension(name: string, ext: string): string {
    ExtensionDotIsLast(name);
    match ExtensionDot(name)
    case None => name + "." + ext
    case Some(i) => name[..i] + "." + ext
  }

  lemma LastDotOfAge(stem: string)
    ensures stem != "" ==> ExtensionDot(stem + ".age") == Some(|stem|)
    ensures stem == "" ==> ExtensionDot(stem + ".age") == None
  {
    assert stem + ".age" == stem + ".ag" + "e" && (stem + ".age")[..|stem| + 3] == stem + ".ag";
    assert stem + ".ag" == stem + ".a" + "g" && (stem + ".ag")[..|stem| + 2] == stem + ".a";
    assert stem + ".a" == stem + "." + "a" && (stem + ".a")[..|stem| + 1] == stem + ".";
    assert ExtensionDot(stem + ".age") == ExtensionDot(stem + ".ag") == ExtensionDot(stem + ".a");
    assert ExtensionDot(stem + ".a") == ExtensionDot(stem + ".");
  }

  /**
   The two ways the code finds a sidecar agree exactly on payload names whose stem is not empty and
   does not itself end in `.age`.
   */
  lemma SidecarAgreesWithExtension(stem: string)
    requires !EndsWith(stem + ".age", ".meta.age")
    ensures SidecarFor(stem + ".age") == Some(WithExtension(stem + ".age", "meta.age"))
       <==> stem != "" && !EndsWith(stem, ".age")
  {
    var name := stem + ".age";
    assert EndsWith(name, ".age") && name[..|name| - 4] == stem;
    LastDotOfAge(stem);
    if stem == "" {
      HiddenAge(name);
    } else {
      SplitAtDot(stem);
      assert SidecarFor(name) == Some(TrimEndMatches(stem, ".age") + ".meta.age");
    }
  }

  lemma HiddenAge(name: string)
    requires name == ".age"
    ensures TrimEndMatches(name, ".age") == "" && WithExtension(name, "meta.age") == name + "." + "meta.age"
  {
    LastDotOfAge("");
    assert "" + ".age" == name;
    assert name[..0] == "";
  }

  lemma SplitAtDot(stem: string)
    requires stem != ""
    ensures WithExtension(stem + ".age", "meta.age") == stem + ".meta.age"
    ensures TrimEndMatches(stem, ".age") + ".meta.age" == stem + ".meta.age" <==> !EndsWith(stem, ".age")
  {
    LastDotOfAge(stem);
    assert (stem + ".age")[..|stem|] == stem;
    assert stem + "." + "meta.age" == stem + ("." + "meta.age") == stem + ".meta.age";
    var trimmed := TrimEndMatches(stem, ".age");
    assert |trimmed + ".meta.age"| == |trimmed| + 9 && |stem + ".meta.age"| == |stem| + 9;
  }

  // ---------- The four names of a drop ----------

  datatype Kind = Payload | Sidecar | PayloadTmp | SidecarTmp

  predicate IsHexDigit(c: char) {
    '0' <= c <= '9' || 'a' <= c <= 'f'
  }

  /** What generate_drop_filename puts between `drop-` and `.age`: sixteen bytes in hex. */
  predicate IsHex(hex: string) {
    |hex| == 32 && forall i :: 0 <= i < |hex| ==> IsHexDigit(hex[i])
  }

  function HexDigit(n: nat): char
    requires n < 16
  {
    if n < 10 then '0' + n as char else 'a' + (n - 10) as char
  }

  /** Every byte in two lower-case hex digits. */
  function HexOf(bytes: seq<byte>): string {
    if bytes == [] then ""
    else HexOf(bytes[..|bytes| - 1]) + [HexDigit(bytes[|bytes| - 1] / 16), HexDigit(bytes[|bytes| - 1] % 16)]
  }

  lemma {:induction false} HexOfIsHex(bytes: seq<byte>)
    ensures |HexOf(bytes)| == 2 * |bytes| && forall c :: c in HexOf(bytes) ==> IsHexDigit(c)
  {
    if bytes != [] { HexOfIsHex(bytes[..|bytes| - 1]); }
  }

  lemma DigitOf(c: char) returns (n: nat)
    requires IsHexDigit(c)
    ensures n < 16 && HexDigit(n) == c
  {
    n := if c <= '9' then (c - '0') as int else (c - 'a') as int + 10;
  }

  lemma {:induction false} BytesOf(hex: string) returns (bytes: seq<byte>)
    requires |hex| % 2 == 0 && forall c :: c in hex ==> IsHexDigit(c)
    ensures HexOf(bytes) == hex && 2 * |bytes| == |hex|
  {
    if hex == "" {
      bytes := [];
    } else {
      var n := |hex| - 2;
      var init := BytesOf(hex[..n]);
      var high := DigitOf(hex[n]);
      var low := DigitOf(hex[n + 1]);
      assert (16 * high + low) / 16 == high && (16 * high + low) % 16 == low;
      bytes := init + [16 * high + low];
      assert bytes[..|bytes| - 1] == init;
      assert hex == hex[..n] + [hex[n], hex[n + 1]];
    }
  }

  /** The names that generate_drop_filename can draw: `drop-`, sixteen bytes in hex, `.age`. */
  lemma GeneratedIff(hex: string)
    ensures IsHex(hex) <==> exists bytes: seq<byte> :: |bytes| == 16 && HexOf(bytes) == hex
    ensures DropName(Payload, hex) == "drop-" + hex + ".age"
  {
    if IsHex(hex) {
      var bytes := BytesOf(hex);
    }
    if bytes: seq<byte> :| |bytes| == 16 && HexOf(bytes) == hex { HexOfIsHex(bytes); }
  }

  /** Different bytes give different names. */
  lemma {:induction false} HexInjective(a: seq<byte>, b: seq<byte>)
    requires HexOf(a) == HexOf(b)
    ensures a == b
  {
    HexOfIsHex(a);
    HexOfIsHex(b);
    if a != [] {
      var n, s := |a| - 1, HexOf(a);
      assert s[..|s| - 2] == HexOf(a[..n]) == HexOf(b[..n]);
      HexInjective(a[..n], b[..n]);
      assert s[|s| - 2] == HexDigit(a[n] / 16) == HexDigit(b[n] / 16);
      assert s[|s| - 1] == HexDigit(a[n] % 16) == HexDigit(b[n] % 16);
      SameDigit(a[n] / 16, b[n] / 16);
      SameDigit(a[n] % 16, b[n] % 16);
      assert a == a[..n] + [a[n]] && b == b[..n] + [b[n]];
    }
  }

  lemma SameDigit(m: nat, n: nat)
    requires m < 16 && n < 16 && HexDigit(m) == HexDigit(n)
    ensures m == n
  {}

  function DropName(kind: Kind, hex: string): string {
    match kind
    case Payload => "drop-" + hex + ".age"
    case Sidecar => "drop-" + hex + ".meta.age"
    case PayloadTmp => "drop-" + hex + ".age.tmp"
    case SidecarTmp => "drop-" + hex + ".meta.age.tmp"
  }

  /** No two names clash, neither within one drop nor between two drops. */
  lemma DropNamesDistinct(kind1: Kind, hex1: string, kind2: Kind, hex2: string)
    requires IsHex(hex1) && IsHex(hex2)
    ensures DropName(kind1, hex1) == DropName(kind2, hex2) <==> kind1 == kind2 && hex1 == hex2
  {
    var n1, n2 := DropName(kind1, hex1), DropName(kind2, hex2);
    assert n1[5..37] == hex1;
    assert n2[5..37] == hex2;
  }

  /** Both ways of naming a sidecar give the drop's own sidecar; only the payload name is a payload path. */
  lemma DropNameRoles(hex: string)
    requires IsHex(hex)
    ensures SidecarFor(DropName(Payload, hex)) == Some(DropName(Sidecar, hex))
    ensures WithExtension(DropName(Payload, hex), "meta.age") == DropName(Sidecar, hex)
    ensures SidecarFor(DropName(PayloadTmp, hex)) == None
    ensures IsPayloadPath(DropName(Payload, hex))
    ensures EndsWith(DropName(Sidecar, hex), ".meta.age")
    ensures !IsPayloadPath(DropName(PayloadTmp, hex)) && !IsPayloadPath(DropName(SidecarTmp, hex))
    ensures !EndsWith(DropName(PayloadTmp, hex), ".meta.age") && !EndsWith(DropName(SidecarTmp, hex), ".meta.age")
  {
    var stem, name := "drop-" + hex, DropName(Payload, hex);
    assert stem[36] == hex[31] && name[33] == hex[28];
    NotSuffix(stem, ".age", 2);
    NotSuffix(name, ".meta.age", 1);
    SidecarAgreesWithExtension(stem);
    SuffixOf(stem, ".age");
    SuffixOf(stem, ".meta.age");
    assert name[..|name| - 4] == stem;
    assert TrimEndMatches(name, ".age") == stem;
    NotSuffix(DropName(PayloadTmp, hex), ".age", 3);
    NotSuffix(DropName(SidecarTmp, hex), ".age", 3);
    NotSuffix(DropName(PayloadTmp, hex), ".meta.age", 8);
    NotSuffix(DropName(SidecarTmp, hex), ".meta.age", 8);
  }

  lemma OnlySidecarEndsSo(hex: string, kind: Kind)
    requires IsHex(hex) && EndsWith(DropName(kind, hex), ".meta.age")
    ensures kind == Sidecar
  {
    DropNameRoles(hex);
  }

  /** A drop name is an ordinary, visible path component. */
  lemma DropNameIsComponent(kind: Kind, hex: string)
    requires IsHex(hex)
    ensures ProperComponent(DropName(kind, hex)) && !Hidden(DropName(kind, hex))
    ensures kind == Payload ==> NoDots([DropName(kind, hex)])
  {
    var name := DropName(kind, hex);
    assert name[0] == 'd';
    forall i | 0 <= i < |name| ensures name[i] != '/' && name[i] != '\\' {
      if 5 <= i < 37 { assert name[i] == hex[i - 5]; }
    }
    if kind == Payload {
      assert forall i :: 0 <= i < 36 ==> name[i] != '.' by {
        forall i | 0 <= i < 36 ensures name[i] != '.' {
          if 5 <= i { assert name[i] == hex[i - 5]; }
        }
      }
      assert name[36] == hex[31];
      OneDot(name);
    }
  }

  /** The operating system takes it. */
  lemma DropNameIsTakable(kind: Kind, hex: string)
    requires IsHex(hex)
    ensures IsTakable(DropName(kind, hex))
  {
    var name := DropName(kind, hex);
    forall i | 0 <= i < |name| ensures '\0' != name[i] < '\U{80}' {
      if 5 <= i < 37 { assert name[i] == hex[i - 5]; }
    }
    AsciiLength(name);
  }

  /** Of ASCII texts those of at most 255 characters are taken, without NUL. */
  lemma TakableAscii(s: string)
    requires forall i :: 0 <= i < |s| ==> s[i] < '\U{80}'
    ensures IsTakable(s) <==> '\0' !in s && |s| <= 255
  {
    AsciiLength(s);
  }

  lemma {:induction false} AsciiLength(s: string)
    requires forall i :: 0 <= i < |s| ==> s[i] < '\U{80}'
    ensures |Utf8.Encode(s)| == |s|
  {
    if s != "" { AsciiLength(s[1..]); }
  }

  lemma {:induction false} OneDot(s: string)
    requires forall i, j :: 0 <= i < j < |s| ==> !(s[i] == '.' && s[j] == '.')
    ensures !Contains(s, "..")
  {
    if s != "" {
      NotPrefix(s, "..", if s[0] == '.' then 1 else 0);
      forall i, j | 0 <= i < j < |s[1..]| ensures !(s[1..][i] == '.' && s[1..][j] == '.') {
        assert s[1..][i] == s[i + 1] && s[1..][j] == s[j + 1];
      }
      OneDot(s[1..]);
    }
  }
}
