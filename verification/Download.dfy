/** Range responses: the fast path with a recorded size, the path that decrypts everything, raw files. */
module Download {
  import opened Prelude
  import opened Crypto
  import opened HttpRange
  import opened Streams
  import Utf8

  /** File contents, or the plain text of a refusal. */
  datatype Body = Bytes(bytes: seq<byte>) | Text(text: string)

  datatype Response = Response(
    status: nat,
    contentType: string,
    filename: Option<string>,
    contentLength: Option<string>,
    contentRange: Option<string>,
    acceptRanges: bool,
    body: Body)

  const OCTETS := "application/octet-stream"

  function ContentRange(start: nat, end: nat, total: nat): string {
    "bytes " + Decimal(start) + "-" + Decimal(end) + "/" + Decimal(total)
  }

  function PartialContent(start: u64, end: u64, total: u64, length: u64, filename: string, body: seq<byte>): Response {
    Response(206, OCTETS, Some(filename), Some(Decimal(length)), Some(ContentRange(start, end, total)), true, Bytes(body))
  }

  function NotSatisfiable(total: u64): Response {
    Response(416, "text/plain; charset=utf-8", None, None, Some(UnsatisfiedContentRange(total)), false,
             Text("Range not satisfiable"))
  }

  function WholeFile(filename: string, length: Option<string>, body: seq<byte>): Response {
    Response(200, OCTETS, Some(filename), length, None, true, Bytes(body))
  }

  /** What a header value may hold: no control character except the tab. */
  predicate IsHeaderText(s: string) {
    forall c :: c in s ==> c == '\t' || (' ' <= c && c != '\U{7F}')
  }

  predicate AreHeaderBytes(bytes: seq<byte>) {
    forall i :: 0 <= i < |bytes| ==> bytes[i] == 9 || (32 <= bytes[i] && bytes[i] != 127)
  }

  /** The same byte by byte, as the header library looks at it. */
  lemma {:induction false} HeaderTextIff(s: string)
    ensures IsHeaderText(s) <==> AreHeaderBytes(Utf8.Encode(s))
  {
    if s != "" {
      var head, rest := Utf8.EncodeChar(s[0]), Utf8.Encode(s[1..]);
      HeaderCharIff(s[0]);
      HeaderTextIff(s[1..]);
      HeaderTextSplits(s);
      BothHeaderBytes(head, rest);
    }
  }

  lemma HeaderTextSplits(s: string)
    requires s != ""
    ensures IsHeaderText(s) <==> (s[0] == '\t' || (' ' <= s[0] && s[0] != '\U{7F}')) && IsHeaderText(s[1..])
  {
    assert s == [s[0]] + s[1..] && s[0] in s;
    assert forall c :: c in s[1..] ==> c in s;
  }

  lemma HeaderCharIff(c: char)
    ensures AreHeaderBytes(Utf8.EncodeChar(c)) <==> c == '\t' || (' ' <= c && c != '\U{7F}')
  {
    Utf8.EncodedBits(c);
  }

  lemma BothHeaderBytes(a: seq<byte>, b: seq<byte>)
    ensures AreHeaderBytes(a + b) <==> AreHeaderBytes(a) && AreHeaderBytes(b)
  {
    assert forall i :: 0 <= i < |a| ==> (a + b)[i] == a[i];
    forall i | 0 <= i < |b| ensures (a + b)[i + |a|] == b[i] {}
  }

  /** The file name goes into a header, so not every response can be built. */
  predicate CanBuild(r: Response) {
    r.filename.Some? ==> IsHeaderText(r.filename.value)
  }

  datatype ServeError = Unread(error: CoreError) | BadHeader

  /** What the response builder makes of it. */
  function Built(r: Response): Result<Response, ServeError> {
    if CanBuild(r) then Ok(r) else Err(BadHeader)
  }

  // ---------- What goes over the wire ----------

  /** A whole file: all of its bytes. */
  lemma WholeFileIs(filename: string, length: Option<string>, body: seq<byte>)
    ensures var r := WholeFile(filename, length, body);
            && r.status == 200 && r.body == Bytes(body) && r.filename == Some(filename)
            && r.contentType == "application/octet-stream" && r.acceptRanges
            && r.contentLength == length && r.contentRange == None
  {}

  /** A refused range tells the size; it carries no name, so it can always be built. */
  lemma NotSatisfiableIs(total: u64)
    ensures var r := NotSatisfiable(total);
            && r.status == 416 && r.body == Text("Range not satisfiable") && r.filename == None
            && r.contentType == "text/plain; charset=utf-8" && !r.acceptRanges
            && r.contentLength == None && r.contentRange == Some("bytes */" + Decimal(total)) && CanBuild(r)
  {}

  /** A range response with these bounds, for this size, that carries these bytes. */
  predicate IsPartial(r: Response, start: nat, end: nat, total: nat, filename: string, bytes: seq<byte>)
    requires start <= end
  {
    && r.status == 206 && r.body == Bytes(bytes) && r.filename == Some(filename)
    && r.contentType == "application/octet-stream" && r.acceptRanges
    && r.contentLength == Some(Decimal(end - start + 1))
    && r.contentRange == Some("bytes " + Decimal(start) + "-" + Decimal(end) + "/" + Decimal(total))
  }

  /** Decrypting everything and slicing answers a satisfiable range with exactly its bytes, announces their
      number, and refuses every other range. */
  lemma SimplePathIs(plain: seq<byte>, header: string, filename: string)
    requires |plain| <= U64_MAX
    ensures match ParseSingleRange(header, |plain|)
            case None => SimplePath(plain, header, filename) == NotSatisfiable(|plain|)
            case Some((start, end)) =>
              IsPartial(SimplePath(plain, header, filename), start, end, |plain|, filename, plain[start..end + 1])
  {}

  /** So does the fast path, for the size it is told; bytes behind the end of the payload are missing. */
  lemma FastPathIs(plain: seq<byte>, total: u64, header: string, filename: string)
    ensures match ParseSingleRange(header, total)
            case None => FastPath(plain, total, header, filename) == NotSatisfiable(total)
            case Some((start, end)) =>
              IsPartial(FastPath(plain, total, header, filename), start, end, total, filename,
                        plain[Min(start, |plain|)..Min(end + 1, |plain|)])
  {}

  // ---------- The two ways to serve a range ----------

  type Range = Option<(u64, u64)>

  predicate Within(range: Range, size: nat) {
    range.Some? ==> range.value.0 <= range.value.1 < size
  }

  /** The size is known from the sidecar: only the requested bytes are decrypted into the body. */
  function FastResponse(plain: seq<byte>, total: u64, range: Range, filename: string): Response
    requires Within(range, total)
  {
    match range
    case None => NotSatisfiable(total)
    case Some((start, end)) => PartialContent(start, end, total, end - start + 1, filename, Slice(plain, start, end))
  }

  /** The size is not known: everything is decrypted, then sliced. Raw downloads serve this way too. */
  function SimpleResponse(plain: seq<byte>, range: Range, filename: string): Response
    requires |plain| <= U64_MAX && Within(range, |plain|)
  {
    match range
    case None => NotSatisfiable(|plain|)
    case Some((start, end)) =>
      var slice := plain[start..end + 1];
      PartialContent(start, end, |plain|, |slice|, filename, slice)
  }

  function FastPath(plain: seq<byte>, total: u64, header: string, filename: string): Response {
    FastResponse(plain, total, ParseSingleRange(header, total), filename)
  }

  function SimplePath(plain: seq<byte>, header: string, filename: string): Response
    requires |plain| <= U64_MAX
  {
    SimpleResponse(plain, ParseSingleRange(header, |plain|), filename)
  }

  method SendRange(identity: Identity, file: AgeFile, faulty: bool, total: u64, range: Range, filename: string)
    returns (r: Result<Response, ServeError>)
    requires Opens(identity, file) && Within(range, total)
    ensures (faulty && r == Err(Unread(Io))) || r == Built(FastResponse(file.plain, total, range, filename))
  {
    if range.None? {
      return Built(NotSatisfiable(total));
    }
    var (start, end) := range.value;
    var length: u64 := end - start + 1;
    var body := new Sink(false);
    var copied := DecryptRange(identity, file, faulty, body, start, end);
    if copied.Err? {
      return Err(Unread(copied.error));
    }
    assert body.bytes == Slice(file.plain, start, end);
    return Built(PartialContent(start, end, total, length, filename, body.bytes));
  }

  /** The branch of download_file for a recorded size. */
  method ServeFast(identity: Identity, file: AgeFile, faulty: bool, total: u64, header: string, filename: string)
    returns (r: Result<Response, ServeError>)
    requires Opens(identity, file)
    ensures (faulty && r == Err(Unread(Io))) || r == Built(FastPath(file.plain, total, header, filename))
  {
    r := SendRange(identity, file, faulty, total, ParseSingleRange(header, total), filename);
  }

  method SendSlice(allBytes: seq<byte>, range: Range, filename: string) returns (r: Response)
    requires |allBytes| <= U64_MAX && Within(range, |allBytes|)
    ensures r == SimpleResponse(allBytes, range, filename)
  {
    if range.None? {
      return NotSatisfiable(|allBytes|);
    }
    var (start, end) := range.value;
    var slice := allBytes[start..end + 1];
    return PartialContent(start, end, |allBytes|, |slice|, filename, slice);
  }

  /** The branch of download_file without a recorded size. */
  method ServeSimple(identity: Identity, file: AgeFile, faulty: bool, header: string, filename: string)
    returns (r: Result<Response, ServeError>)
    requires Opens(identity, file) && |file.plain| <= U64_MAX
    ensures (faulty && r == Err(Unread(Io))) || r == Built(SimplePath(file.plain, header, filename))
  {
    var allBytes := new Sink(false);
    var copied := DecryptAll(identity, file, faulty, allBytes);
    if copied.Err? {
      return Err(Unread(copied.error));
    }
    assert allBytes.bytes == file.plain;
    var response := SendSlice(allBytes.bytes, ParseSingleRange(header, |allBytes.bytes|), filename);
    return Built(response);
  }

  /** What download_raw answers for the stored bytes. */
  function RawPath(bytes: seq<byte>, header: Option<string>, filename: string): Response
    requires |bytes| <= U64_MAX
  {
    match header
    case None => WholeFile(filename, Some(Decimal(|bytes|)), bytes)
    case Some(text) => SimplePath(bytes, text, filename)
  }

  /** Seek to the start, then at most the length. */
  method SendSeeked(bytes: seq<byte>, faulty: bool, range: Range, filename: string) returns (r: Result<Response, ServeError>)
    requires |bytes| <= U64_MAX && Within(range, |bytes|)
    ensures (faulty && r == Err(Unread(Io))) || r == Built(SimpleResponse(bytes, range, filename))
  {
    if range.None? {
      return Built(NotSatisfiable(|bytes|));
    }
    var (start, end) := range.value;
    var length: u64 := end - start + 1;
    var file := new Source(bytes, faulty);
    file.Seek(start);
    var body := new Sink(false);
    var limited := new Take(file, length);
    var copied := CopyOut(limited, body);
    if copied.Err? {
      return Err(Unread(copied.error));
    }
    assert body.bytes == bytes[start..end + 1];
    return Built(PartialContent(start, end, |bytes|, length, filename, body.bytes));
  }

  method SendWhole(bytes: seq<byte>, faulty: bool, filename: string, length: Option<string>) returns (r: Result<Response, ServeError>)
    ensures (faulty && r == Err(Unread(Io))) || r == Built(WholeFile(filename, length, bytes))
  {
    var file := new Source(bytes, faulty);
    var body := new Sink(false);
    var all := new Take(file, |bytes|);
    var copied := CopyOut(all, body);
    if copied.Err? {
      return Err(Unread(copied.error));
    }
    assert body.bytes == bytes;
    return Built(WholeFile(filename, length, body.bytes));
  }

  /** The serving part of download_raw. */
  method ServeRaw(bytes: seq<byte>, faulty: bool, header: Option<string>, filename: string) returns (r: Result<Response, ServeError>)
    requires |bytes| <= U64_MAX
    ensures (faulty && r == Err(Unread(Io))) || r == Built(RawPath(bytes, header, filename))
    ensures header == None && r.Ok? ==>
              r.value.status == 200 && r.value.body == Bytes(bytes) && r.value.contentLength == Some(Decimal(|bytes|))
  {
    if header.Some? {
      r := SendSeeked(bytes, faulty, ParseSingleRange(header.value, |bytes|), filename);
    } else {
      r := SendWhole(bytes, faulty, filename, Some(Decimal(|bytes|)));
    }
  }

  // ---------- When the two ways agree ----------

  /** The text behind the last slash of a Content-Range is the total; it can be read off. */
  lemma TotalIsReadOff(a: string, n: nat, b: string, m: nat)
    requires a + "/" + Decimal(n) == b + "/" + Decimal(m)
    ensures n == m
  {
    var s, x, y := a + "/" + Decimal(n), Decimal(n), Decimal(m);
    assert s[|a|] == '/' && s[|b|] == '/';
    assert forall i :: |a| < i < |s| ==> s[i] == x[i - |a| - 1];
    assert forall i :: |b| < i < |s| ==> s[i] == y[i - |b| - 1];
    assert |a| == |b|;
    assert x == s[|a| + 1..] && y == s[|b| + 1..];
  }

  /** Every range response names the size it was computed for. */
  function SizeTag(range: Range): string {
    match range
    case None => "bytes *"
    case Some((start, end)) => "bytes " + Decimal(start) + "-" + Decimal(end)
  }

  lemma FastNamesTotal(plain: seq<byte>, total: u64, range: Range, filename: string)
    requires Within(range, total)
    ensures FastResponse(plain, total, range, filename).contentRange == Some(SizeTag(range) + "/" + Decimal(total))
  {
    assert "bytes *" + "/" == "bytes */";
  }

  lemma SimpleNamesTotal(plain: seq<byte>, range: Range, filename: string)
    requires |plain| <= U64_MAX && Within(range, |plain|)
    ensures SimpleResponse(plain, range, filename).contentRange == Some(SizeTag(range) + "/" + Decimal(|plain|))
  {
    SameRangeSameResponse(plain, range, filename);
    FastNamesTotal(plain, |plain|, range, filename);
  }

  lemma SameRangeSameResponse(plain: seq<byte>, range: Range, filename: string)
    requires |plain| <= U64_MAX && Within(range, |plain|)
    ensures FastResponse(plain, |plain|, range, filename) == SimpleResponse(plain, range, filename)
  {
    if range.Some? {
      assert Slice(plain, range.value.0, range.value.1) == plain[range.value.0..range.value.1 + 1];
    }
  }

  lemma OtherTotalOtherResponse(plain: seq<byte>, total: u64, range1: Range, range2: Range, filename: string)
    requires |plain| <= U64_MAX && Within(range1, total) && Within(range2, |plain|)
    requires FastResponse(plain, total, range1, filename) == SimpleResponse(plain, range2, filename)
    ensures total == |plain|
  {
    FastNamesTotal(plain, total, range1, filename);
    SimpleNamesTotal(plain, range2, filename);
    TotalIsReadOff(SizeTag(range1), total, SizeTag(range2), |plain|);
  }

  /**
   For every payload, header and recorded size: the fast path gives the same status, headers and body as
   decrypting everything and slicing, exactly when the recorded size is the true one.
   */
  lemma FastIsSimpleIff(plain: seq<byte>, total: u64, header: string, filename: string)
    requires |plain| <= U64_MAX
    ensures FastPath(plain, total, header, filename) == SimplePath(plain, header, filename) <==> total == |plain|
  {
    var range1, range2 := ParseSingleRange(header, total), ParseSingleRange(header, |plain|);
    if total == |plain| {
      SameRangeSameResponse(plain, range1, filename);
    } else if FastResponse(plain, total, range1, filename) == SimpleResponse(plain, range2, filename) {
      OtherTotalOtherResponse(plain, total, range1, range2, filename);
    }
  }

  /** The same of what the client gets: both ways also agree where neither response can be built. */
  lemma FastAnswersAsSimpleIff(plain: seq<byte>, total: u64, header: string, filename: string)
    requires |plain| <= U64_MAX
    ensures var fast, simple := FastPath(plain, total, header, filename), SimplePath(plain, header, filename);
            Built(fast) == Built(simple) <==>
            total == |plain| || (!IsHeaderText(filename) && fast.status == 206 && simple.status == 206)
  {
    FastIsSimpleIff(plain, total, header, filename);
  }

  /** A recorded size that is too small cuts the bodies: with two bytes and size 1 the first is all one gets. */
  lemma ShortSizeCutsTheBody(a: byte, b: byte, filename: string)
    ensures forall header :: FastPath([a, b], 1, header, filename).status == 206 ==>
              FastPath([a, b], 1, header, filename).body == Bytes([a])
    ensures FastPath([a, b], 1, Print(0, 0), filename).status == 206
  {
    PrintParse(0, 0, 1);
    forall header | FastPath([a, b], 1, header, filename).status == 206
      ensures FastPath([a, b], 1, header, filename).body == Bytes([a])
    {
      OneByteOnly(a, b, ParseSingleRange(header, 1), filename);
    }
  }

  lemma OneByteOnly(a: byte, b: byte, range: Range, filename: string)
    requires Within(range, 1)
    ensures var r := FastResponse([a, b], 1, range, filename); r.status == 206 ==> r.body == Bytes([a])
  {
    assert [a, b][0..1] == [a];
  }

  // ---------- Tiling ----------

  /** Consecutive, non-empty intervals that cover [0, size). */
  ghost predicate IsPartition(cuts: seq<nat>, size: nat) {
    && cuts != [] && cuts[0] == 0 && cuts[|cuts| - 1] == size
    && forall i, j :: 0 <= i < j < |cuts| ==> cuts[i] < cuts[j]
  }

  function Tile(plain: seq<byte>, cuts: seq<nat>, i: nat, filename: string): Response
    requires |plain| <= U64_MAX && i + 1 < |cuts| && cuts[i] < cuts[i + 1]
  {
    SimplePath(plain, Print(cuts[i], cuts[i + 1] - 1), filename)
  }

  lemma CutsInside(cuts: seq<nat>, size: nat, i: nat)
    requires IsPartition(cuts, size) && i < |cuts|
    ensures cuts[i] <= size && (i < |cuts| - 1 ==> cuts[i] < cuts[i + 1] <= size)
  {
    assert i < |cuts| - 1 ==> cuts[i] < cuts[|cuts| - 1];
    assert i + 1 < |cuts| - 1 ==> cuts[i + 1] < cuts[|cuts| - 1];
  }

  lemma TileServes(plain: seq<byte>, cuts: seq<nat>, i: nat, filename: string)
    requires |plain| <= U64_MAX && IsPartition(cuts, |plain|) && i + 1 < |cuts|
    ensures cuts[i] < cuts[i + 1] <= |plain| && Delivers(Tile(plain, cuts, i, filename), plain[cuts[i]..cuts[i + 1]])
    ensures Tile(plain, cuts, i, filename).filename == Some(filename)
  {
    CutsInside(cuts, |plain|, i);
    var range: Range := Some((cuts[i], cuts[i + 1] - 1));
    PrintParse(cuts[i], cuts[i + 1] - 1, |plain|);
    assert SimpleResponse(plain, range, filename).body == Bytes(plain[cuts[i]..cuts[i + 1]]);
  }

  /** A successful range response with these bytes. */
  predicate Delivers(r: Response, bytes: seq<byte>) {
    r.status == 206 && r.body == Bytes(bytes)
  }

  /** Requests for all tiles, in order. */
  function Answers(plain: seq<byte>, cuts: seq<nat>, filename: string): (answers: seq<Response>)
    requires |plain| <= U64_MAX && cuts != [] && forall i, j :: 0 <= i < j < |cuts| ==> cuts[i] < cuts[j]
    ensures |answers| == |cuts| - 1
  {
    seq(|cuts| - 1, i requires 0 <= i < |cuts| - 1 => Tile(plain, cuts, i, filename))
  }

  /** All bytes received, put together. */
  function Received(answers: seq<Response>): seq<byte> {
    if answers == [] then []
    else
      var n := |answers| - 1;
      match answers[n].body
      case Bytes(bytes) => Received(answers[..n]) + bytes
      case Text(_) => Received(answers[..n])
  }

  lemma {:induction false} PiecesCoverPrefix(plain: seq<byte>, cuts: seq<nat>, answers: seq<Response>)
    requires |answers| < |cuts| && forall i :: 0 <= i < |cuts| ==> cuts[i] <= |plain|
    requires cuts[0] == 0 && forall i :: 0 <= i < |answers| ==> cuts[i] <= cuts[i + 1]
    requires forall i :: 0 <= i < |answers| ==> Delivers(answers[i], plain[cuts[i]..cuts[i + 1]])
    ensures Received(answers) == plain[..cuts[|answers|]]
  {
    if answers != [] {
      var n := |answers| - 1;
      PiecesCoverPrefix(plain, cuts, answers[..n]);
      assert plain[..cuts[n]] + plain[cuts[n]..cuts[n + 1]] == plain[..cuts[n + 1]];
    }
  }

  /** Every one is a range response, which can be built exactly if the name can stand in a header. */
  predicate AllPartial(answers: seq<Response>, filename: string) {
    forall i :: 0 <= i < |answers| ==> answers[i].status == 206 && (CanBuild(answers[i]) <==> IsHeaderText(filename))
  }

  /**
   Cut a resource into consecutive intervals in any way and ask for each as `bytes=a-b`: every request
   succeeds, exactly if the file name can stand in a header, and the bodies put together are the whole
   resource.
   */
  lemma RangesTile(plain: seq<byte>, cuts: seq<nat>, filename: string)
    requires |plain| <= U64_MAX && IsPartition(cuts, |plain|)
    ensures Received(Answers(plain, cuts, filename)) == plain
    ensures AllPartial(Answers(plain, cuts, filename), filename)
  {
    var answers := Answers(plain, cuts, filename);
    AllDeliver(plain, cuts, filename, answers);
    PiecesCoverPrefix(plain, cuts, answers);
    assert plain[..|plain|] == plain;
  }

  lemma AllDeliver(plain: seq<byte>, cuts: seq<nat>, filename: string, answers: seq<Response>)
    requires |plain| <= U64_MAX && IsPartition(cuts, |plain|) && answers == Answers(plain, cuts, filename)
    ensures forall i :: 0 <= i < |cuts| ==> cuts[i] <= |plain|
    ensures forall i :: 0 <= i < |answers| ==> answers[i].filename == Some(filename)
    ensures forall i :: 0 <= i < |answers| ==> cuts[i] <= cuts[i + 1]
    ensures forall i :: 0 <= i < |answers| ==> Delivers(answers[i], plain[cuts[i]..cuts[i + 1]])
  {
    forall i | 0 <= i < |cuts| ensures cuts[i] <= |plain| {
      CutsInside(cuts, |plain|, i);
    }
    forall i | 0 <= i < |answers|
      ensures Delivers(answers[i], plain[cuts[i]..cuts[i + 1]]) && answers[i].filename == Some(filename)
    {
      TileServes(plain, cuts, i, filename);
    }
  }

  /** The same answers come from the fast path with the true size, and from a raw download. */
  lemma TilesOnEveryPath(plain: seq<byte>, cuts: seq<nat>, i: nat, filename: string)
    requires |plain| <= U64_MAX && IsPartition(cuts, |plain|) && i + 1 < |cuts|
    ensures FastPath(plain, |plain|, Print(cuts[i], cuts[i + 1] - 1), filename) == Tile(plain, cuts, i, filename)
    ensures RawPath(plain, Some(Print(cuts[i], cuts[i + 1] - 1)), filename) == Tile(plain, cuts, i, filename)
  {
    FastIsSimpleIff(plain, |plain|, Print(cuts[i], cuts[i + 1] - 1), filename);
  }
}
