/** Single byte ranges: decimal numbers, the parser of http_range.rs, and section 14.1.2 of RFC 9110. */
module HttpRange {
  import opened Prelude
  import opened Text

  // ---------- Decimal numbers ----------

  predicate IsDigit(c: char) {
    '0' <= c <= '9'
  }

  predicate AllDigits(s: string) {
    forall i :: 0 <= i < |s| ==> IsDigit(s[i])
  }

  function Value(s: string): nat
    requires AllDigits(s)
  {
    if s == "" then 0 else 10 * Value(s[..|s| - 1]) + (s[|s| - 1] - '0') as int
  }

  /** How `format!` prints a number. */
  function Decimal(n: nat): (s: string)
    ensures s != "" && AllDigits(s) && Value(s) == n
  {
    var last := '0' + (n % 10) as char;
    assert (last - '0') as int == n % 10;
    if n < 10 then [last] else
      assert (Decimal(n / 10) + [last])[..|Decimal(n / 10)|] == Decimal(n / 10);
      Decimal(n / 10) + [last]
  }

  /** Digits count by position. */
  lemma {:induction false} ValueOfAppend(a: string, b: string)
    requires AllDigits(a) && AllDigits(b)
    ensures AllDigits(a + b) && Value(a + b) == Value(a) * Power10(|b|) + Value(b)
  {
    if b == "" {
      assert a + b == a;
    } else {
      var n := |b| - 1;
      ValueOfAppend(a, b[..n]);
      assert (a + b)[..|a + b| - 1] == a + b[..n];
      TenTimes(Value(a), Power10(n), Value(b[..n]));
    }
  }

  lemma TenTimes(x: nat, power: nat, y: nat)
    ensures 10 * (x * power + y) == x * (10 * power) + 10 * y
  {}

  function Power10(n: nat): nat {
    if n == 0 then 1 else 10 * Power10(n - 1)
  }

  /** Numbers are printed without leading zeros. */
  lemma {:induction false} DecimalIsShort(n: nat)
    ensures Decimal(n) == "0" || Decimal(n)[0] != '0'
    ensures Decimal(0) == "0" && Decimal(7) == "7" && Decimal(10) == "10"
  {
    assert Decimal(1) == "1" && Decimal(10) == Decimal(1) + "0";
    if n >= 10 { DecimalIsShort(n / 10); }
  }

  /** `str::parse::<u64>`: an optional plus sign, then at least one digit, no overflow. */
  function ParseU64(s: string): Option<u64> {
    var digits := if StartsWith(s, "+") then s[1..] else s;
    if digits == "" || !AllDigits(digits) || Value(digits) > U64_MAX then None
    else Some(Value(digits))
  }

  lemma ParseDigits(s: string)
    requires AllDigits(s)
    ensures ParseU64(s) == if s != "" && Value(s) <= U64_MAX then Some(Value(s)) else None
  {
    NotPrefix(s, "+", 0);
  }

  lemma ParseDecimal(n: u64)
    ensures ParseU64(Decimal(n)) == Some(n)
  {
    ParseDigits(Decimal(n));
  }

  // ---------- The parser ----------

  const UNIT := "bytes="

  /** parse_single_range. */
  function ParseSingleRange(header: string, fileSize: u64): (r: Option<(u64, u64)>)
    ensures r.Some? ==> r.value.0 <= r.value.1 < fileSize
  {
    if !StartsWith(header, UNIT) || ',' in header then None
    else
      match SplitOnce(header[6..], '-')
      case None => None
      case Some((startStr, endStr)) => ParseSpec(startStr, endStr, fileSize)
  }

  function ParseSpec(startStr: string, endStr: string, fileSize: u64): (r: Option<(u64, u64)>)
    ensures r.Some? ==> r.value.0 <= r.value.1 < fileSize
  {
    if fileSize == 0 then None
    else if startStr == "" then
      match ParseU64(endStr)
      case None => None
      case Some(suffixLen) =>
        if suffixLen == 0 || suffixLen > fileSize then None
        else Some((fileSize - suffixLen, fileSize - 1))
    else
      match ParseU64(startStr)
      case None => None
      case Some(start) =>
        if start >= fileSize then None
        else if endStr == "" then Some((start, fileSize - 1))
        else
          match ParseU64(endStr)
          case None => None
          case Some(parsedEnd) =>
            var end: u64 := Min(parsedEnd, fileSize - 1);
            if start > end then None else Some((start, end))
  }

  // ---------- The standard ----------

  /** int-range = first-pos "-" [ last-pos ]; suffix-range = "-" suffix-length. */
  datatype RangeSpec = IntRange(first: nat, last: Option<nat>) | SuffixRange(length: nat)

  /** The positions of a representation of `size` bytes that a range selects (RFC 9110, 14.1.2). */
  ghost predicate Selects(spec: RangeSpec, size: nat, pos: int) {
    && 0 <= pos < size
    && match spec
       case IntRange(first, last) => first <= pos && (last.Some? ==> pos <= last.value)
       case SuffixRange(length) => size - length <= pos
  }

  /** A parser result and the standard agree: same bytes, and a refusal when there are none. */
  ghost predicate Agrees(r: Option<(u64, u64)>, spec: RangeSpec, size: nat) {
    match r
    case None => forall pos :: !Selects(spec, size, pos)
    case Some((start, end)) => start <= end && forall pos :: Selects(spec, size, pos) <==> start <= pos <= end
  }

  /** The spec that two digit strings denote in the grammar of the standard. */
  function SpecOf(startStr: string, endStr: string): RangeSpec
    requires AllDigits(startStr) && AllDigits(endStr)
  {
    if startStr == "" then SuffixRange(Value(endStr))
    else IntRange(Value(startStr), if endStr == "" then None else Some(Value(endStr)))
  }

  lemma HeaderOf(startStr: string, endStr: string, size: u64)
    requires '-' !in startStr && ',' !in startStr && ',' !in endStr
    ensures ParseSingleRange("bytes=" + startStr + "-" + endStr, size) == ParseSpec(startStr, endStr, size)
  {
    var spec := startStr + ['-'] + endStr;
    var header := "bytes=" + startStr + "-" + endStr;
    assert header == UNIT + spec;
    assert ',' !in spec && ',' !in UNIT;
    assert header[|UNIT|..] == spec;
    SplitOnceAt(startStr, '-', endStr);
  }

  /** The inputs on which the parser departs from the standard: a suffix longer than the resource, or
      a last position too large for 64 bits behind a satisfiable first position. */
  predicate Departs(startStr: string, endStr: string, size: u64)
    requires AllDigits(startStr) && AllDigits(endStr)
  {
    if startStr == "" then Value(endStr) > size > 0
    else endStr != "" && Value(startStr) < size && Value(endStr) > U64_MAX
  }

  lemma SuffixAgrees(endStr: string, size: u64)
    requires AllDigits(endStr) && endStr != ""
    ensures Agrees(ParseSpec("", endStr, size), SuffixRange(Value(endStr)), size) <==> !Departs("", endStr, size)
  {
    ParseDigits(endStr);
    var n, spec := Value(endStr), SuffixRange(Value(endStr));
    if size > 0 {
      assert Selects(spec, size, size - 1) <==> n > 0;
      if 0 < n <= size {
        assert ParseSpec("", endStr, size) == Some((size - n, size - 1));
      } else {
        assert ParseSpec("", endStr, size) == None;
      }
    }
  }

  lemma IntAgrees(startStr: string, endStr: string, size: u64)
    requires AllDigits(startStr) && AllDigits(endStr) && startStr != ""
    ensures Agrees(ParseSpec(startStr, endStr, size), SpecOf(startStr, endStr), size)
       <==> !Departs(startStr, endStr, size)
  {
    ParseDigits(startStr);
    ParseDigits(endStr);
    var first, spec := Value(startStr), SpecOf(startStr, endStr);
    assert Selects(spec, size, first) <==> first < size && (endStr != "" ==> first <= Value(endStr));
    if first < size && (endStr == "" || Value(endStr) <= U64_MAX) {
      var last := if endStr == "" then size - 1 else Min(Value(endStr), size - 1);
      assert ParseSpec(startStr, endStr, size) == if first > last then None else Some((first, last));
    } else {
      assert ParseSpec(startStr, endStr, size) == None;
    }
  }

  /** Every single range of the grammar: the parser agrees with the standard exactly off that set. */
  lemma AgreesWithRfc9110(startStr: string, endStr: string, size: u64)
    requires AllDigits(startStr) && AllDigits(endStr) && startStr + endStr != ""
    ensures Agrees(ParseSingleRange("bytes=" + startStr + "-" + endStr, size), SpecOf(startStr, endStr), size)
       <==> !Departs(startStr, endStr, size)
  {
    HeaderOf(startStr, endStr, size);
    if startStr == "" { SuffixAgrees(endStr, size); } else { IntAgrees(startStr, endStr, size); }
  }

  /** A number text without the plus sign that `parse::<u64>` tolerates. */
  function Unsigned(s: string): string {
    if StartsWith(s, "+") then s[1..] else s
  }

  predicate Spells(header: string, startStr: string, endStr: string) {
    header == "bytes=" + startStr + "-" + endStr
  }

  /** Whatever is accepted is served exactly as the standard reads its digits: nothing is selected that was
      not named. */
  lemma AcceptedIsSelected(startStr: string, endStr: string, size: u64)
    requires ParseSpec(startStr, endStr, size).Some?
    ensures AllDigits(Unsigned(startStr)) && AllDigits(Unsigned(endStr)) && startStr + endStr != ""
    ensures Agrees(ParseSpec(startStr, endStr, size), SpecOf(Unsigned(startStr), Unsigned(endStr)), size)
  {
    assert startStr == "" ==> Unsigned(startStr) == "";
    assert endStr == "" ==> Unsigned(endStr) == "";
  }

  /** Every accepted header, of any shape, has the form `bytes=` start `-` end, two decimal numbers that may
      carry a plus sign, and is answered with the interval that their digits select. */
  lemma AcceptedHeaders(header: string, size: u64) returns (startStr: string, endStr: string)
    requires ParseSingleRange(header, size).Some?
    ensures Spells(header, startStr, endStr) && AllDigits(Unsigned(startStr)) && AllDigits(Unsigned(endStr))
    ensures startStr + endStr != ""
    ensures Agrees(ParseSingleRange(header, size), SpecOf(Unsigned(startStr), Unsigned(endStr)), size)
  {
    var split := SplitOnce(header[6..], '-').value;
    startStr, endStr := split.0, split.1;
    assert header == UNIT + header[6..];
    SpelledOut(header, header[6..], startStr, endStr);
    AcceptedIsSelected(startStr, endStr, size);
    assert ParseSingleRange(header, size) == ParseSpec(startStr, endStr, size);
  }

  lemma SpelledOut(header: string, spec: string, startStr: string, endStr: string)
    requires header == UNIT + spec && spec == startStr + ['-'] + endStr
    ensures Spells(header, startStr, endStr)
  {}

  /** The header is a single range of the grammar in section 14.1.2 of RFC 9110. */
  ghost predicate IsGrammatical(header: string) {
    exists startStr, endStr :: IsGrammaticalAs(header, startStr, endStr)
  }

  predicate IsGrammaticalAs(header: string, startStr: string, endStr: string) {
    AllDigits(startStr) && AllDigits(endStr) && startStr + endStr != "" && Spells(header, startStr, endStr)
  }

  /** An accepted header lies outside the grammar exactly if it has a plus sign. */
  lemma AcceptedIsGrammaticalIff(header: string, size: u64)
    requires ParseSingleRange(header, size).Some?
    ensures IsGrammatical(header) <==> '+' !in header
  {
    var startStr, endStr := AcceptedHeaders(header, size);
    if '+' !in header {
      PlusInSpelling(header, startStr, endStr);
      assert IsGrammaticalAs(header, startStr, endStr);
    } else if a, b :| IsGrammaticalAs(header, a, b) {
      PlusInSpelling(header, a, b);
    }
  }

  lemma PlusInSpelling(header: string, startStr: string, endStr: string)
    requires Spells(header, startStr, endStr)
    ensures '+' in header <==> '+' in startStr || '+' in endStr
    ensures '+' !in header ==> Unsigned(startStr) == startStr && Unsigned(endStr) == endStr
  {
    assert forall c :: c in header <==> c in UNIT || c in startStr || c in "-" || c in endStr;
    assert '+' !in UNIT;
    if '+' !in header {
      NoSign(startStr);
      NoSign(endStr);
    }
  }

  lemma NoSign(s: string)
    requires '+' !in s
    ensures Unsigned(s) == s
  {
    if s != "" { assert s[0] in s; }
    NotPrefix(s, "+", 0);
  }

  /** And a plus sign in front of a number changes nothing. */
  lemma PlusIsIgnored(startStr: string, endStr: string, size: u64)
    requires AllDigits(startStr) && AllDigits(endStr)
    ensures startStr != "" ==>
              ParseSingleRange("bytes=" + ("+" + startStr) + "-" + endStr, size) == ParseSingleRange("bytes=" + startStr + "-" + endStr, size)
    ensures endStr != "" ==>
              ParseSingleRange("bytes=" + startStr + "-" + ("+" + endStr), size) == ParseSingleRange("bytes=" + startStr + "-" + endStr, size)
  {
    HeaderOf(startStr, endStr, size);
    HeaderOf("+" + startStr, endStr, size);
    HeaderOf(startStr, "+" + endStr, size);
    SpecWithPlus(startStr, "+" + startStr, endStr, "+" + endStr, size);
  }

  lemma SpecWithPlus(startStr: string, plusStart: string, endStr: string, plusEnd: string, size: u64)
    requires AllDigits(startStr) && AllDigits(endStr) && plusStart == "+" + startStr && plusEnd == "+" + endStr
    ensures startStr != "" ==> ParseSpec(plusStart, endStr, size) == ParseSpec(startStr, endStr, size)
    ensures endStr != "" ==> ParseSpec(startStr, plusEnd, size) == ParseSpec(startStr, endStr, size)
  {
    ParsePlus(startStr);
    ParsePlus(endStr);
  }

  lemma ParsePlus(digits: string)
    requires AllDigits(digits)
    ensures ParseU64("+" + digits) == ParseU64(digits)
  {
    assert ("+" + digits)[1..] == digits;
    NotPrefix(digits, "+", 0);
  }

  /** `bytes=a-b` as a client prints it. */
  function Print(start: nat, end: nat): string {
    "bytes=" + Decimal(start) + "-" + Decimal(end)
  }

  /** Printing an interval inside the resource and parsing it gives the interval back. */
  lemma PrintParse(start: nat, end: nat, size: u64)
    requires start <= end < size
    ensures ParseSingleRange(Print(start, end), size) == Some((start, end))
  {
    HeaderOf(Decimal(start), Decimal(end), size);
    ParseDecimal(start);
    ParseDecimal(end);
  }

  /** unsatisfied_content_range. */
  function UnsatisfiedContentRange(fileSize: u64): (r: string)
    ensures |r| > 8 && r[..8] == "bytes */" && AllDigits(r[8..]) && Value(r[8..]) == fileSize
  {
    "bytes */" + Decimal(fileSize)
  }
}
