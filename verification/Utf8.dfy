/** UTF-8 as defined by RFC 3629: sections 3 (encoding) and 4 (the well-formed byte sequences). */
module Utf8 {
  import opened Prelude

  predicate IsTail(b: byte) {
    0x80 <= b <= 0xBF
  }

  function EncodeChar(c: char): (bytes: seq<byte>)
    ensures 1 <= |bytes| <= 4
  {
    var cp := c as int;
    if cp < 0x80 then [cp]
    else if cp < 0x800 then [0xC0 + cp / 0x40, 0x80 + cp % 0x40]
    else if cp < 0x1_0000 then [0xE0 + cp / 0x1000, 0x80 + cp / 0x40 % 0x40, 0x80 + cp % 0x40]
    else [0xF0 + cp / 0x4_0000, 0x80 + cp / 0x1000 % 0x40, 0x80 + cp / 0x40 % 0x40, 0x80 + cp % 0x40]
  }

  function Encode(s: string): seq<byte> {
    if s == "" then [] else EncodeChar(s[0]) + Encode(s[1..])
  }

  function Point2(b0: int, b1: int): int {
    (b0 - 0xC0) * 0x40 + (b1 - 0x80)
  }

  function Point3(b0: int, b1: int, b2: int): int {
    (b0 - 0xE0) * 0x1000 + (b1 - 0x80) * 0x40 + (b2 - 0x80)
  }

  function Point4(b0: int, b1: int, b2: int, b3: int): int {
    (b0 - 0xF0) * 0x4_0000 + (b1 - 0x80) * 0x1000 + (b2 - 0x80) * 0x40 + (b3 - 0x80)
  }

  /** The first character of `b` and the number of bytes it takes; none if `b` starts ill-formed. */
  function FirstChar(b: seq<byte>): (r: Option<(char, nat)>)
    requires b != []
    ensures r.Some? ==> 1 <= r.value.1 <= |b| && r.value.1 <= 4 && !IsTail(b[0])
  {
    if b[0] < 0x80 then
      Some((b[0] as char, 1))
    else if 0xC2 <= b[0] <= 0xDF && |b| >= 2 && IsTail(b[1]) then
      Some((Point2(b[0], b[1]) as char, 2))
    else if 0xE0 <= b[0] <= 0xEF && |b| >= 3 && IsTail(b[1]) && IsTail(b[2])
            && (b[0] == 0xE0 ==> 0xA0 <= b[1]) && (b[0] == 0xED ==> b[1] <= 0x9F) then
      Some((Point3(b[0], b[1], b[2]) as char, 3))
    else if 0xF0 <= b[0] <= 0xF4 && |b| >= 4 && IsTail(b[1]) && IsTail(b[2]) && IsTail(b[3])
            && (b[0] == 0xF0 ==> 0x90 <= b[1]) && (b[0] == 0xF4 ==> b[1] <= 0x8F) then
      Some((Point4(b[0], b[1], b[2], b[3]) as char, 4))
    else None
  }

  /** `String::from_utf8`. */
  function Decode(b: seq<byte>): Option<string> {
    if b == [] then Some("")
    else match FirstChar(b)
      case None => None
      case Some((c, n)) =>
        match Decode(b[n..])
        case None => None
        case Some(rest) => Some([c] + rest)
  }

  predicate Valid(b: seq<byte>) {
    Decode(b).Some?
  }

  /** Base-64 digits put together again give the number they were taken from. */
  lemma Digits(cp: nat)
    ensures cp / 0x1000 * 0x1000 + cp / 0x40 % 0x40 * 0x40 + cp % 0x40 == cp
    ensures cp / 0x4_0000 * 0x4_0000 + cp / 0x1000 % 0x40 * 0x1000 + cp / 0x40 % 0x40 * 0x40 + cp % 0x40 == cp
  {
    var d1 := cp / 0x40;
    var d2 := d1 / 0x40;
    assert cp / 0x1000 == d2;
    assert d2 / 0x40 == cp / 0x4_0000;
  }

  lemma FirstCharOfEncoded(c: char, rest: seq<byte>)
    ensures FirstChar(EncodeChar(c) + rest) == Some((c, |EncodeChar(c)|))
  {
    var cp := c as int;
    var code := EncodeChar(c);
    var b := code + rest;
    assert b[0] == code[0];
    assert |code| > 1 ==> b[1] == code[1];
    assert |code| > 2 ==> b[2] == code[2];
    assert |code| > 3 ==> b[3] == code[3];
    Digits(cp);
  }

  /** Decoding undoes encoding, for every string. */
  lemma {:induction false} DecodeEncode(s: string)
    ensures Decode(Encode(s)) == Some(s)
  {
    if s != "" {
      var head, rest := EncodeChar(s[0]), Encode(s[1..]);
      FirstCharOfEncoded(s[0], rest);
      DecodeEncode(s[1..]);
      assert (head + rest)[|head|..] == rest;
      assert [s[0]] + s[1..] == s;
    }
  }

  /** The bits of a character, as the table of section 3 spreads them over one to four bytes. */
  lemma EncodedBits(c: char)
    ensures var cp: int, b: seq<int> := c as int, EncodeChar(c);
            && |b| == (if cp < 0x80 then 1 else if cp < 0x800 then 2 else if cp < 0x1_0000 then 3 else 4)
            && (forall i :: 1 <= i < |b| ==> 0x80 <= b[i] < 0xC0)
            && match |b|
               case 1 => b[0] == cp
               case 2 => 0xC0 <= b[0] < 0xE0 && cp == (b[0] - 0xC0) * 0x40 + (b[1] - 0x80)
               case 3 => 0xE0 <= b[0] < 0xF0 && cp == (b[0] - 0xE0) * 0x1000 + (b[1] - 0x80) * 0x40 + (b[2] - 0x80)
               case _ => 0xF0 <= b[0] < 0xF8
                         && cp == (b[0] - 0xF0) * 0x4_0000 + (b[1] - 0x80) * 0x1000 + (b[2] - 0x80) * 0x40 + (b[3] - 0x80)
  {
    Digits(c as int);
  }

  /** What is read as the first character is how that character is encoded: no longer form is accepted. */
  lemma FirstCharIsEncoded(b: seq<byte>)
    requires b != [] && FirstChar(b).Some?
    ensures var (c, n) := FirstChar(b).value; b[..n] == EncodeChar(c)
  {
    var (c, n) := FirstChar(b).value;
    if n == 2 {
      TwoBytes(b[0], b[1]);
    } else if n == 3 {
      ThreeBytes(b[0], b[1], b[2]);
    } else if n == 4 {
      FourBytes(b[0], b[1], b[2], b[3]);
    }
  }

  lemma TwoBytes(b0: int, b1: int)
    requires 0xC2 <= b0 <= 0xDF && 0x80 <= b1 < 0xC0
    ensures var cp := Point2(b0, b1); 0x80 <= cp < 0x800 && 0xC0 + cp / 0x40 == b0 && 0x80 + cp % 0x40 == b1
  {}

  lemma ThreeBytes(b0: int, b1: int, b2: int)
    requires 0xE0 <= b0 <= 0xEF && 0x80 <= b1 < 0xC0 && 0x80 <= b2 < 0xC0 && (b0 == 0xE0 ==> 0xA0 <= b1)
    ensures var cp := Point3(b0, b1, b2);
            0x800 <= cp < 0x1_0000 && 0xE0 + cp / 0x1000 == b0 && 0x80 + cp / 0x40 % 0x40 == b1 && 0x80 + cp % 0x40 == b2
  {
    var cp := Point3(b0, b1, b2);
    assert cp / 0x40 == (b0 - 0xE0) * 0x40 + (b1 - 0x80);
  }

  lemma FourBytes(b0: int, b1: int, b2: int, b3: int)
    requires 0xF0 <= b0 <= 0xF4 && 0x80 <= b1 < 0xC0 && 0x80 <= b2 < 0xC0 && 0x80 <= b3 < 0xC0
    requires (b0 == 0xF0 ==> 0x90 <= b1) && (b0 == 0xF4 ==> b1 <= 0x8F)
    ensures var cp := Point4(b0, b1, b2, b3);
            && 0x1_0000 <= cp < 0x11_0000 && 0xF0 + cp / 0x4_0000 == b0
            && 0x80 + cp / 0x1000 % 0x40 == b1 && 0x80 + cp / 0x40 % 0x40 == b2 && 0x80 + cp % 0x40 == b3
  {
    var cp := Point4(b0, b1, b2, b3);
    assert cp / 0x40 == (b0 - 0xF0) * 0x1000 + (b1 - 0x80) * 0x40 + (b2 - 0x80);
    assert cp / 0x1000 == (b0 - 0xF0) * 0x40 + (b1 - 0x80);
  }

  /** Decoding succeeds exactly on the encoding of a text, and gives that text. */
  lemma {:induction false} DecodeIff(b: seq<byte>, s: string)
    ensures Decode(b) == Some(s) <==> b == Encode(s)
    decreases |b|
  {
    DecodeEncode(s);
    if Decode(b) == Some(s) && b != [] {
      var (c, n) := FirstChar(b).value;
      FirstCharIsEncoded(b);
      DecodeIff(b[n..], s[1..]);
      assert b == b[..n] + b[n..];
    }
  }

  lemma EncodeInjective(s: string, t: string)
    requires Encode(s) == Encode(t)
    ensures s == t
  {
    DecodeEncode(s);
    DecodeEncode(t);
  }

  /** Self-synchronisation: where one valid text ends inside another, a character starts. */
  lemma {:induction false} BoundaryIsNoTail(b: seq<byte>, k: nat)
    requires k < |b| && Valid(b) && Valid(b[..k])
    ensures !IsTail(b[k])
  {
    if k > 0 {
      var n := FirstChar(b[..k]).value.1;
      assert FirstChar(b) == FirstChar(b[..k]);
      assert b[..k][n..] == b[n..][..k - n];
      BoundaryIsNoTail(b[n..], k - n);
    }
  }
}
