/**
 The metadata record of a drop and its flattened form: a list of key/value pairs in which the entries
 of `extended` stand next to the three named fields. Values other than null, strings and 64-bit
 unsigned numbers are kept as their JSON text.
 */
module Metadata {
  import opened Prelude

  datatype Json = Null | Str(text: string) | Num(number: u64) | Other(json: string)

  datatype FileMetadata = FileMetadata(
    filename: Option<string>,
    origin: Option<string>,
    filesize: Option<u64>,
    extended: map<string, Json>)

  type Pair = (string, Json)

  const RESERVED := {"filename", "origin", "filesize"}

  function OptStr(v: Option<string>): Json {
    match v
    case None => Null
    case Some(text) => Str(text)
  }

  /** `order` lists each key of the map once: the order in which the map is traversed. */
  ghost predicate IsOrder(order: seq<string>, keys: set<string>) {
    && (forall k :: k in keys <==> k in order)
    && (forall i, j :: 0 <= i < j < |order| ==> order[i] != order[j])
  }

  function ExtendedPairs(extended: map<string, Json>, order: seq<string>): (pairs: seq<Pair>)
    requires forall k :: k in order ==> k in extended
    ensures |pairs| == |order|
    ensures forall i :: 0 <= i < |order| ==> pairs[i] == (order[i], extended[order[i]])
  {
    seq(|order|, i requires 0 <= i < |order| => (order[i], extended[order[i]]))
  }

  /** Serialization: an absent `filesize` is skipped, the map is spliced in unchecked. */
  function ToPairs(m: FileMetadata, order: seq<string>): seq<Pair>
    requires forall k :: k in order ==> k in m.extended
  {
    [("filename", OptStr(m.filename)), ("origin", OptStr(m.origin))]
    + (if m.filesize.Some? then [("filesize", Num(m.filesize.value))] else [])
    + ExtendedPairs(m.extended, order)
  }

  /** The record as it is written: `filename` and `origin` always, null if there is none, `filesize` only if
      there is one, and every entry of `extended` under its own key. */
  lemma WrittenPairs(m: FileMetadata, order: seq<string>, key: string, v: Json)
    requires IsOrder(order, m.extended.Keys)
    ensures (key, v) in ToPairs(m, order) <==>
            || (key == "filename" && v == match m.filename { case Some(text) => Str(text) case None => Null })
            || (key == "origin" && v == match m.origin { case Some(text) => Str(text) case None => Null })
            || (key == "filesize" && m.filesize.Some? && v == Num(m.filesize.value))
            || (key in m.extended && m.extended[key] == v)
  {
    var pairs := ExtendedPairs(m.extended, order);
    if key in m.extended {
      var i :| 0 <= i < |order| && order[i] == key;
      assert pairs[i] == (key, m.extended[key]);
    }
  }

  datatype DecodeError = DuplicateField(key: string) | WrongType(key: string)

  /** What the reader has met so far: each named field with its value, and everything else. */
  datatype Partial = Partial(
    filename: Option<Option<string>>,
    origin: Option<Option<string>>,
    filesize: Option<Option<u64>>,
    extended: map<string, Json>)

  const NOTHING := Partial(None, None, None, map[])

  function AsText(key: string, v: Json): Result<Option<string>, DecodeError> {
    match v
    case Null => Ok(None)
    case Str(text) => Ok(Some(text))
    case _ => Err(WrongType(key))
  }

  function AsNumber(key: string, v: Json): Result<Option<u64>, DecodeError> {
    match v
    case Null => Ok(None)
    case Num(number) => Ok(Some(number))
    case _ => Err(WrongType(key))
  }

  /** One step of deserialization: a named field may occur once and must have its type. */
  function Accept(p: Partial, pair: Pair): Result<Partial, DecodeError> {
    var (key, v) := pair;
    if key == "filename" then
      if p.filename.Some? then Err(DuplicateField(key))
      else match AsText(key, v)
        case Err(e) => Err(e)
        case Ok(text) => Ok(p.(filename := Some(text)))
    else if key == "origin" then
      if p.origin.Some? then Err(DuplicateField(key))
      else match AsText(key, v)
        case Err(e) => Err(e)
        case Ok(text) => Ok(p.(origin := Some(text)))
    else if key == "filesize" then
      if p.filesize.Some? then Err(DuplicateField(key))
      else match AsNumber(key, v)
        case Err(e) => Err(e)
        case Ok(number) => Ok(p.(filesize := Some(number)))
    else Ok(p.(extended := p.extended[key := v]))
  }

  function AcceptAll(p: Partial, pairs: seq<Pair>): Result<Partial, DecodeError>
    decreases |pairs|
  {
    if pairs == [] then Ok(p)
    else match Accept(p, pairs[0])
      case Err(e) => Err(e)
      case Ok(next) => AcceptAll(next, pairs[1..])
  }

  function Finish(p: Partial): FileMetadata {
    FileMetadata(p.filename.GetOr(None), p.origin.GetOr(None), p.filesize.GetOr(None), p.extended)
  }

  function FromPairs(pairs: seq<Pair>): Result<FileMetadata, DecodeError> {
    match AcceptAll(NOTHING, pairs)
    case Err(e) => Err(e)
    case Ok(p) => Ok(Finish(p))
  }

  lemma AcceptOne(p: Partial, pair: Pair)
    ensures AcceptAll(p, [pair]) == Accept(p, pair)
  {
    assert [pair][1..] == [];
  }

  /** What a single entry of a record is read as: the three fields must have their type or be null; any other
      entry is kept as it is. What is not there counts as absent. */
  lemma ReadOnePair(key: string, v: Json)
    ensures FromPairs([]) == Ok(FileMetadata(None, None, None, map[]))
    ensures FromPairs([(key, v)]) ==
            if key == "filename" then
              (match v case Null => Ok(FileMetadata(None, None, None, map[])) case Str(text) => Ok(FileMetadata(Some(text), None, None, map[]))
               case _ => Err(WrongType(key)))
            else if key == "origin" then
              (match v case Null => Ok(FileMetadata(None, None, None, map[])) case Str(text) => Ok(FileMetadata(None, Some(text), None, map[]))
               case _ => Err(WrongType(key)))
            else if key == "filesize" then
              (match v case Null => Ok(FileMetadata(None, None, None, map[])) case Num(n) => Ok(FileMetadata(None, None, Some(n), map[]))
               case _ => Err(WrongType(key)))
            else Ok(FileMetadata(None, None, None, map[key := v]))
  {
    AcceptOne(NOTHING, (key, v));
  }

  /** A field that comes twice fails, whatever its values; any other key may come again, and the last counts. */
  lemma ReadTwice(key: string, v: Json, w: Json)
    ensures key in {"filename", "origin", "filesize"} ==> FromPairs([(key, v), (key, w)]).Err?
    ensures key !in {"filename", "origin", "filesize"} ==>
              FromPairs([(key, v), (key, w)]) == Ok(FileMetadata(None, None, None, map[key := w]))
  {
    assert [(key, v), (key, w)] == [(key, v)] + [(key, w)];
    AcceptAllAppend(NOTHING, [(key, v)], [(key, w)]);
    AcceptOne(NOTHING, (key, v));
    assert map[key := v][key := w] == map[key := w];
    if Accept(NOTHING, (key, v)).Ok? { AcceptOne(Accept(NOTHING, (key, v)).value, (key, w)); }
  }

  lemma {:induction false} AcceptAllAppend(p: Partial, a: seq<Pair>, b: seq<Pair>)
    ensures AcceptAll(p, a + b) ==
            match AcceptAll(p, a) { case Err(e) => Err(e) case Ok(q) => AcceptAll(q, b) }
    decreases |a|
  {
    if a == [] {
      assert a + b == b;
    } else {
      assert (a + b)[1..] == a[1..] + b;
      match Accept(p, a[0])
      case Err(e) =>
      case Ok(q) => AcceptAllAppend(q, a[1..], b);
    }
  }

  lemma OrderSplit(base: map<string, Json>, ext: map<string, Json>, order: seq<string>)
    requires order != [] && forall k :: k in order ==> k in ext
    ensures base[order[0] := ext[order[0]]] + (map k | k in order[1..] :: ext[k])
         == base + (map k | k in order :: ext[k])
  {
    assert order == [order[0]] + order[1..];
  }

  /** Reading the spliced entries: they come back as they are, up to the first reserved key. */
  lemma {:induction false} ReadExtended(p: Partial, ext: map<string, Json>, order: seq<string>)
    requires forall k :: k in order ==> k in ext && k !in RESERVED
    ensures AcceptAll(p, ExtendedPairs(ext, order)).Ok?
    ensures var q := AcceptAll(p, ExtendedPairs(ext, order)).value;
            && q.filename == p.filename && q.origin == p.origin && q.filesize == p.filesize
            && q.extended == p.extended + (map k | k in order :: ext[k])
    decreases |order|
  {
    var pairs := ExtendedPairs(ext, order);
    var all := map k | k in order :: ext[k];
    if order == [] {
      assert p.extended + all == p.extended;
    } else {
      var head := order[0];
      assert head in order;
      assert pairs[0] == (head, ext[head]);
      var next := p.(extended := p.extended[head := ext[head]]);
      assert Accept(p, pairs[0]) == Ok(next);
      assert pairs[1..] == ExtendedPairs(ext, order[1..]);
      ReadExtended(next, ext, order[1..]);
      OrderSplit(p.extended, ext, order);
    }
  }

  /** Entries of `extended` only ever collect unreserved keys. */
  lemma {:induction false} ExtendedStaysUnreserved(p: Partial, pairs: seq<Pair>)
    requires p.extended.Keys !! RESERVED
    ensures AcceptAll(p, pairs).Ok? ==> AcceptAll(p, pairs).value.extended.Keys !! RESERVED
    decreases |pairs|
  {
    if pairs != [] && Accept(p, pairs[0]).Ok? {
      ExtendedStaysUnreserved(Accept(p, pairs[0]).value, pairs[1..]);
    }
  }

  function NamedPairs(m: FileMetadata): seq<Pair> {
    [("filename", OptStr(m.filename)), ("origin", OptStr(m.origin))]
    + (if m.filesize.Some? then [("filesize", Num(m.filesize.value))] else [])
  }

  function AfterNamed(m: FileMetadata): Partial {
    Partial(Some(m.filename), Some(m.origin), if m.filesize.Some? then Some(m.filesize) else None, map[])
  }

  lemma ReadNamed(m: FileMetadata)
    ensures AcceptAll(NOTHING, NamedPairs(m)) == Ok(AfterNamed(m))
  {
    var p1 := NOTHING.(filename := Some(m.filename));
    var p2 := p1.(origin := Some(m.origin));
    var pairs := NamedPairs(m);
    assert Accept(NOTHING, pairs[0]) == Ok(p1);
    assert Accept(p1, pairs[1]) == Ok(p2);
    assert pairs[1..][0] == pairs[1];
    assert pairs[1..][1..] == pairs[2..];
    if m.filesize.Some? {
      assert pairs[2..] == [("filesize", Num(m.filesize.value))];
      assert pairs[2..][1..] == [];
    }
    assert AcceptAll(NOTHING, pairs) == AcceptAll(p2, pairs[2..]);
  }

  lemma WholeMap(ext: map<string, Json>, order: seq<string>)
    requires IsOrder(order, ext.Keys)
    ensures map[] + (map k | k in order :: ext[k]) == ext
  {}

  lemma ReadFlattened(m: FileMetadata, order: seq<string>)
    requires IsOrder(order, m.extended.Keys)
    ensures AcceptAll(NOTHING, ToPairs(m, order)) == AcceptAll(AfterNamed(m), ExtendedPairs(m.extended, order))
  {
    ReadNamed(m);
    assert ToPairs(m, order) == NamedPairs(m) + ExtendedPairs(m.extended, order);
    AcceptAllAppend(NOTHING, NamedPairs(m), ExtendedPairs(m.extended, order));
  }

  /** The round trip holds exactly for records whose `extended` uses none of the three field names. */
  lemma FlattenRoundTrip(m: FileMetadata, order: seq<string>)
    requires IsOrder(order, m.extended.Keys)
    ensures FromPairs(ToPairs(m, order)) == Ok(m) <==> m.extended.Keys !! {"filename", "origin", "filesize"}
  {
    if m.extended.Keys !! RESERVED {
      ReadFlattened(m, order);
      ReadExtended(AfterNamed(m), m.extended, order);
      WholeMap(m.extended, order);
    } else {
      ExtendedStaysUnreserved(NOTHING, ToPairs(m, order));
    }
  }

  /** With a recorded size, a reserved key makes the sidecar unreadable altogether. */
  lemma {:induction false} RepeatedFieldFails(p: Partial, ext: map<string, Json>, order: seq<string>)
    requires forall k :: k in order ==> k in ext
    requires p.filename.Some? && p.origin.Some? && p.filesize.Some?
    requires exists k :: k in order && k in RESERVED
    ensures AcceptAll(p, ExtendedPairs(ext, order)).Err?
    decreases |order|
  {
    var pairs := ExtendedPairs(ext, order);
    if order[0] !in RESERVED {
      var next := Accept(p, pairs[0]).value;
      assert pairs[1..] == ExtendedPairs(ext, order[1..]);
      assert order == [order[0]] + order[1..];
      RepeatedFieldFails(next, ext, order[1..]);
    }
  }

  /** A record with a size is readable from its flattened form if and only if no key repeats a field. */
  lemma SizedReadableIff(m: FileMetadata, order: seq<string>)
    requires IsOrder(order, m.extended.Keys) && m.filesize.Some?
    ensures FromPairs(ToPairs(m, order)).Ok? <==> m.extended.Keys !! {"filename", "origin", "filesize"}
  {
    SizedIsRead(m, order);
  }

  lemma SizedIsRead(m: FileMetadata, order: seq<string>)
    requires IsOrder(order, m.extended.Keys) && m.filesize.Some?
    ensures m.extended.Keys !! RESERVED ==> FromPairs(ToPairs(m, order)) == Ok(m)
    ensures FromPairs(ToPairs(m, order)).Ok? <==> m.extended.Keys !! RESERVED
  {
    FlattenRoundTrip(m, order);
    if !(m.extended.Keys !! RESERVED) {
      ReadFlattened(m, order);
      RepeatedFieldFails(AfterNamed(m), m.extended, order);
    }
  }
}
