/** The string operations of the Rust standard library that the service relies on. */
module Text {
  import opened Prelude

  predicate StartsWith(s: string, p: string) {
    p <= s
  }

  predicate EndsWith(s: string, p: string) {
    |p| <= |s| && s[|s| - |p|..] == p
  }

  lemma SuffixOf(s: string, p: string)
    ensures EndsWith(s + p, p)
  {}

  lemma EndsWithIff(s: string, p: string)
    ensures EndsWith(s, p) <==> exists before :: s == before + p
  {
    if EndsWith(s, p) { assert s == s[..|s| - |p|] + p; }
  }

  lemma EndsInOne(s: string, p: string)
    requires |p| == 1
    ensures EndsWith(s, p) <==> 1 <= |s| && s[|s| - 1] == p[0]
  {
    assert p == [p[0]];
    if 1 <= |s| { assert s[|s| - 1..] == [s[|s| - 1]]; }
  }

  lemma EndsInTwo(s: string, p: string)
    requires |p| == 2
    ensures EndsWith(s, p) <==> 2 <= |s| && s[|s| - 2] == p[0] && s[|s| - 1] == p[1]
  {
    assert p == [p[0], p[1]];
    if 2 <= |s| { assert s[|s| - 2..] == [s[|s| - 2], s[|s| - 1]]; }
  }

  lemma EndsWithTail(a: string, b: string, p: string)
    requires |p| <= |b|
    ensures EndsWith(a + b, p) <==> EndsWith(b, p)
  {
    assert (a + b)[|a + b| - |p|..] == b[|b| - |p|..];
  }

  /** One character in the wrong place rules out a suffix. */
  lemma NotSuffix(s: string, p: string, i: nat)
    requires i < |p| <= |s| && s[|s| - |p| + i] != p[i]
    ensures !EndsWith(s, p)
  {
    assert s[|s| - |p|..][i] == s[|s| - |p| + i];
  }

  lemma NotPrefix(s: string, p: string, i: nat)
    requires i < |p| && (i < |s| ==> s[i] != p[i])
    ensures !StartsWith(s, p)
  {
    assert |p| <= |s| ==> s[..|p|][i] == s[i];
  }

  /** `str::contains` for a substring. */
  predicate Contains(s: string, p: string) {
    p <= s || (s != "" && Contains(s[1..], p))
  }

  /** The text stands in `s` at position `i`. */
  predicate StandsAt(s: string, p: string, i: int) {
    0 <= i && i + |p| <= |s| && s[i..i + |p|] == p
  }

  lemma StandsInTail(s: string, p: string, i: int)
    requires s != "" && 0 <= i
    ensures StandsAt(s[1..], p, i) <==> StandsAt(s, p, i + 1)
  {
    if i + |p| < |s| { assert s[1..][i..i + |p|] == s[i + 1..i + 1 + |p|]; }
  }

  /** It is contained exactly if it stands somewhere. */
  lemma {:induction false} ContainsIff(s: string, p: string)
    ensures Contains(s, p) <==> exists i :: StandsAt(s, p, i)
  {
    assert StandsAt(s, p, 0) <==> p <= s;
    if s != "" {
      ContainsIff(s[1..], p);
      if i :| StandsAt(s[1..], p, i) { StandsInTail(s, p, i); }
      if i :| StandsAt(s, p, i) && i > 0 { StandsInTail(s, p, i - 1); }
    }
  }

  function Repeat(p: string, n: nat): string {
    if n == 0 then "" else Repeat(p, n - 1) + p
  }

  /** `str::trim_start_matches`: strips the prefix as often as it occurs. */
  function TrimStartMatches(s: string, p: string): (r: string)
    requires p != ""
    ensures !StartsWith(r, p)
    ensures |r| <= |s|
    ensures StartsWith(s, p) ==> |r| < |s|
  {
    if p <= s then TrimStartMatches(s[|p|..], p) else s
  }

  lemma {:induction false} TrimStartTakesNothingIn(s: string, p: string, c: char)
    requires p != "" && c in TrimStartMatches(s, p)
    ensures c in s
  {
    if p <= s {
      TrimStartTakesNothingIn(s[|p|..], p, c);
      assert s == s[..|p|] + s[|p|..];
    }
  }

  /** `str::trim_end_matches`: strips the suffix as often as it occurs. */
  function TrimEndMatches(s: string, p: string): (r: string)
    requires p != ""
    ensures !EndsWith(r, p)
    ensures r <= s
    ensures EndsWith(s, p) ==> |r| < |s|
  {
    if EndsWith(s, p) then TrimEndMatches(s[..|s| - |p|], p) else s
  }

  /** However often it is there, all of it goes, and nothing else. */
  lemma TrimEndAll(stem: string, p: string, n: nat)
    requires p != "" && !EndsWith(stem, p)
    ensures TrimEndMatches(stem + Repeat(p, n), p) == stem
  {
    TrimEndMost(stem, p, n, Repeat(p, n));
  }

  lemma {:induction false} TrimEndMost(stem: string, p: string, n: nat, tail: string)
    requires p != "" && !EndsWith(stem, p) && tail == Repeat(p, n)
    ensures TrimEndMatches(stem + tail, p) == stem
    decreases n
  {
    if n == 0 {
      AppendNothing(stem);
    } else {
      TrimEndMost(stem, p, n - 1, Repeat(p, n - 1));
      OneMoreSuffix(stem, Repeat(p, n - 1), p);
    }
  }

  lemma OneMoreSuffix(stem: string, tail: string, p: string)
    requires p != ""
    ensures TrimEndMatches(stem + (tail + p), p) == TrimEndMatches(stem + tail, p)
  {
    AppendAssociates(stem, tail, p);
    TrimEndPeels(stem + tail, p);
  }

  lemma TrimEndPeels(s: string, p: string)
    requires p != ""
    ensures TrimEndMatches(s + p, p) == TrimEndMatches(s, p)
  {
    SuffixOf(s, p);
    assert (s + p)[..|s + p| - |p|] == s;
  }

  lemma {:induction false} TrimStartAll(rest: string, p: string, n: nat)
    requires p != "" && !StartsWith(rest, p)
    ensures TrimStartMatches(Repeat(p, n) + rest, p) == rest
  {
    if n == 0 {
      assert "" + rest == rest;
    } else {
      TrimStartAll(rest, p, n - 1);
      RepeatTurns(p, n - 1);
      assert Repeat(p, n) + rest == p + (Repeat(p, n - 1) + rest);
      TrimPeels(p, Repeat(p, n - 1) + rest);
    }
  }

  lemma {:induction false} RepeatTurns(p: string, n: nat)
    ensures Repeat(p, n) + p == p + Repeat(p, n)
  {
    if n > 0 {
      RepeatTurns(p, n - 1);
      AppendAssociates(p, Repeat(p, n - 1), p);
    }
  }

  /** `str::split_once`: the text before and after the first `c`. */
  function SplitOnce(s: string, c: char): (r: Option<(string, string)>)
    ensures r.None? <==> c !in s
    ensures r.Some? ==> c !in r.value.0 && s == r.value.0 + [c] + r.value.1
  {
    if s == "" then None
    else if s[0] == c then Some(("", s[1..]))
    else match SplitOnce(s[1..], c)
      case None => None
      case Some((before, after)) => Some(([s[0]] + before, after))
  }

  /** The first occurrence decides: there is only one way to split at it. */
  lemma SplitOnceAt(before: string, c: char, after: string)
    requires c !in before
    ensures SplitOnce(before + [c] + after, c) == Some((before, after))
  {
    var s := before + [c] + after;
    var (b, a) := SplitOnce(s, c).value;
    assert forall i :: 0 <= i < |before| ==> s[i] == before[i];
    assert forall i :: 0 <= i < |b| ==> s[i] == b[i];
    assert s[|b|] == c == s[|before|];
    assert |b| == |before|;
    assert b == s[..|b|] && a == s[|b| + 1..];
    assert before == s[..|before|] && after == s[|before| + 1..];
  }

  function StripCr(line: string): string {
    if EndsWith(line, "\r") then line[..|line| - 1] else line
  }

  /** `str::lines`: a carriage return is dropped only in front of a line feed. */
  function Lines(s: string): (lines: seq<string>)
    decreases |s|
  {
    if s == "" then []
    else match SplitOnce(s, '\n')
      case None => [s]
      case Some((first, rest)) => [StripCr(first)] + Lines(rest)
  }

  lemma {:induction false} LinesHaveNoLineFeed(s: string)
    ensures forall line :: line in Lines(s) ==> '\n' !in line
    decreases |s|
  {
    if s != "" {
      match SplitOnce(s, '\n')
      case None =>
      case Some((first, rest)) => LinesHaveNoLineFeed(rest);
    }
  }

  /** The first line of a text, and the rest. */
  lemma LinesFirst(first: string, rest: string)
    requires '\n' !in first
    ensures Lines(first + "\n" + rest) == [StripCr(first)] + Lines(rest)
  {
    SplitOnceAt(first, '\n', rest);
  }

  /** The last line need not be ended; it then keeps a carriage return. */
  lemma LastLine(text: string)
    requires '\n' !in text && text != ""
    ensures Lines(text) == [text]
  {}

  lemma OneLine(text: string)
    requires '\n' !in text
    ensures Lines(text + "\n") == [StripCr(text)]
  {
    LinesFirst(text, "");
    assert text + "\n" + "" == text + "\n";
    assert [StripCr(text)] + [] == [StripCr(text)];
  }

  lemma Regroup(a: string, b: string, c: string, d: string, e: string)
    ensures (a + b + c) + d + e == a + b + (c + d + e)
  {}

  /** Reading a text that ends a line and then continues is reading both parts in turn. */
  lemma {:induction false} LinesAppend(a: string, b: string)
    ensures Lines(a + "\n" + b) == Lines(a + "\n") + Lines(b)
    decreases |a|
  {
    match SplitOnce(a, '\n')
    case None =>
      LinesFirst(a, b);
      OneLine(a);
    case Some((first, rest)) =>
      Regroup(first, "\n", rest, "\n", b);
      Regroup(first, "\n", rest, "\n", "");
      assert a + "\n" + "" == a + "\n" && rest + "\n" + "" == rest + "\n";
      LinesFirst(first, rest + "\n" + b);
      LinesFirst(first, rest + "\n");
      LinesAppend(rest, b);
      AppendAssociates([StripCr(first)], Lines(rest + "\n"), Lines(b));
  }

  /** A prefix is peeled off before the rest is trimmed. */
  lemma TrimPeels(tag: string, text: string)
    requires tag != ""
    ensures TrimStartMatches(tag + text, tag) == TrimStartMatches(text, tag)
  {
    assert (tag + text)[|tag|..] == text;
  }

  /** Only the end of a line decides whether it loses a carriage return. */
  lemma StripCrOfAppend(a: string, b: string)
    requires b != "" || !EndsWith(a, "\r")
    ensures StripCr(a + b) == a + StripCr(b)
  {
    if b == "" {
      assert a + b == a;
    } else {
      assert (a + b)[|a + b| - 1] == b[|b| - 1];
      assert EndsWith(b, "\r") <==> b[|b| - 1] == '\r';
      assert EndsWith(a + b, "\r") <==> (a + b)[|a + b| - 1] == '\r';
    }
  }
}
