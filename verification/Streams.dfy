/**
 The streaming readers of the encrypt and decrypt paths. Every read may be short; a faulty stream may
 also fail at any read or write. The copy loops must still move exactly the right bytes, and they must
 not fail when the streams do not.
 */
module Streams {
  import opened Prelude
  import opened Crypto

  datatype CoreError = Io | CryptoFailure

  // ---------- Readers ----------

  /** A byte stream at a position: a decrypted age stream, a file on disk, or an upload body. */
  class Source {
    const data: seq<byte>
    const faulty: bool
    var pos: nat

    ghost predicate Valid()
      reads this
    {
      pos <= |data|
    }

    constructor (data: seq<byte>, faulty: bool)
      ensures Valid() && this.data == data && this.faulty == faulty && pos == 0
    {
      this.data, this.faulty, pos := data, faulty, 0;
    }

    /** Reads at most `cap` bytes: any non-empty amount that is there, or nothing at the end. */
    method Read(cap: nat) returns (r: Result<seq<byte>, CoreError>)
      requires Valid()
      modifies this
      ensures Valid() && old(pos) <= pos
      ensures r.Err? ==> faulty && r.error == Io && pos == old(pos)
      ensures r.Ok? ==> r.value == data[old(pos)..pos] && |r.value| <= cap
      ensures r.Ok? && r.value == [] ==> cap == 0 || pos == |data|
    {
      if faulty {
        if * {
          return Err(Io);
        }
      }
      var most := Min(cap, |data| - pos);
      if most == 0 {
        return Ok([]);
      }
      var n :| 1 <= n <= most;
      r := Ok(data[pos..pos + n]);
      pos := pos + n;
    }

    /** `seek(SeekFrom::Start(start))`; beyond the end there is nothing to read. */
    method Seek(start: nat)
      requires Valid()
      modifies this
      ensures Valid() && pos == Min(start, |data|)
    {
      pos := Min(start, |data|);
    }
  }

  /** `take(limit)`: at most `limit` more bytes of the inner stream. */
  class Take {
    const inner: Source
    var limit: nat

    constructor (inner: Source, limit: nat)
      ensures this.inner == inner && this.limit == limit
    {
      this.inner, this.limit := inner, limit;
    }

    method Read(cap: nat) returns (r: Result<seq<byte>, CoreError>)
      requires inner.Valid()
      modifies this, inner
      ensures inner.Valid() && old(inner.pos) <= inner.pos
      ensures limit + inner.pos == old(limit) + old(inner.pos)
      ensures r.Err? ==> inner.faulty && r.error == Io && inner.pos == old(inner.pos)
      ensures r.Ok? ==> r.value == inner.data[old(inner.pos)..inner.pos] && |r.value| <= cap
      ensures r.Ok? && r.value == [] ==> cap == 0 || limit == 0 || inner.pos == |inner.data|
    {
      if limit == 0 {
        return Ok([]);
      }
      r := inner.Read(Min(cap, limit));
      if r.Ok? {
        limit := limit - |r.value|;
      }
    }
  }

  /** `BufReader::with_capacity`: reads ahead in large pieces, so the inner stream may be further on. */
  class BufReader {
    const inner: Take
    const capacity: nat
    var buf: seq<byte>

    /** The buffer holds exactly the bytes by which the inner stream is ahead. */
    ghost predicate Valid()
      reads this, inner, inner.inner
    {
      && inner.inner.Valid()
      && |buf| <= inner.inner.pos
      && buf == inner.inner.data[inner.inner.pos - |buf|..inner.inner.pos]
    }

    /** Where the reader of this buffer stands in the innermost stream. */
    ghost function Pos(): (p: int)
      requires Valid()
      reads this, inner, inner.inner
      ensures 0 <= p
    {
      inner.inner.pos - |buf|
    }

    constructor (inner: Take, capacity: nat)
      requires inner.inner.Valid()
      ensures this.inner == inner && this.capacity == capacity && buf == []
      ensures Valid()
    {
      this.inner, this.capacity, buf := inner, capacity, [];
    }

    method Read(cap: nat) returns (r: Result<seq<byte>, CoreError>)
      requires Valid() && 0 < capacity
      modifies this, inner, inner.inner
      ensures Valid() && old(Pos()) <= Pos()
      ensures inner.limit + inner.inner.pos == old(inner.limit + inner.inner.pos)
      ensures r.Err? ==> inner.inner.faulty && r.error == Io && Pos() == old(Pos())
      ensures r.Ok? ==> r.value == inner.inner.data[old(Pos())..Pos()] && |r.value| <= cap
      ensures r.Ok? && r.value == [] && 0 < cap ==>
                buf == [] && (inner.limit == 0 || inner.inner.pos == |inner.inner.data|)
    {
      if buf == [] && capacity <= cap {
        r := inner.Read(cap);
        return;
      }
      if buf == [] {
        r := inner.Read(capacity);
        if r.Err? {
          return;
        }
        buf := r.value;
      }
      var n := Min(cap, |buf|);
      r := Ok(buf[..n]);
      buf := buf[n..];
    }
  }

  class Sink {
    const faulty: bool
    var bytes: seq<byte>

    constructor (faulty: bool)
      ensures this.faulty == faulty && bytes == []
    {
      this.faulty, bytes := faulty, [];
    }

    /** `write_all`: on failure some part of the chunk may have been written. */
    method WriteAll(chunk: seq<byte>) returns (r: Result<(), CoreError>)
      modifies this
      ensures r.Ok? ==> bytes == old(bytes) + chunk
      ensures r.Err? ==> faulty && r.error == Io && old(bytes) <= bytes <= old(bytes) + chunk
    {
      if faulty {
        if * {
          var n: nat :| n <= |chunk|;
          bytes := bytes + chunk[..n];
          return Err(Io);
        }
      }
      bytes := bytes + chunk;
      return Ok(());
    }
  }

  // ---------- Copy loops ----------

  const COPY_BUFFER := 8 * 1024
  const SKIP_BUFFER := 64 * 1024
  const ENCRYPT_BUFFER := 128 * 1024

  /** `io::copy` into a sink that forgets. Success means both that the take is used up (or the stream
      ended) and that nothing is left behind in the buffer. */
  method Drain(skip: BufReader) returns (r: Result<(), CoreError>)
    requires skip.Valid() && skip.capacity == SKIP_BUFFER
    modifies skip, skip.inner, skip.inner.inner
    ensures skip.Valid()
    ensures skip.inner.limit + skip.inner.inner.pos == old(skip.inner.limit + skip.inner.inner.pos)
    ensures r.Ok? ==> skip.buf == []
                      && skip.inner.inner.pos == Min(old(skip.inner.limit + skip.inner.inner.pos), |skip.inner.inner.data|)
    ensures r.Err? ==> skip.inner.inner.faulty && r.error == Io
  {
    while true
      invariant skip.Valid()
      invariant skip.inner.limit + skip.inner.inner.pos == old(skip.inner.limit + skip.inner.inner.pos)
      decreases |skip.inner.inner.data| - skip.Pos()
    {
      var got := skip.Read(COPY_BUFFER);
      if got.Err? {
        return Err(got.error);
      }
      if got.value == [] {
        return Ok(());
      }
    }
  }

  /** `io::copy` of a limited stream into a writer. */
  method CopyOut(range: Take, w: Sink) returns (r: Result<nat, CoreError>)
    requires range.inner.Valid()
    modifies range, range.inner, w
    ensures range.inner.Valid()
    ensures var from := old(range.inner.pos);
            var to := Min(from + old(range.limit), |range.inner.data|);
            && (r.Ok? ==> w.bytes == old(w.bytes) + range.inner.data[from..to] && r.value == to - from)
            && (r.Err? ==> (range.inner.faulty || w.faulty) && r.error == Io
                           && old(w.bytes) <= w.bytes <= old(w.bytes) + range.inner.data[from..to])
  {
    ghost var from := range.inner.pos;
    ghost var to := Min(from + range.limit, |range.inner.data|);
    var copied := 0;
    while true
      invariant range.inner.Valid() && from <= range.inner.pos <= to
      invariant range.limit + range.inner.pos == old(range.limit) + from
      invariant w.bytes == old(w.bytes) + range.inner.data[from..range.inner.pos]
      invariant copied == range.inner.pos - from
      decreases range.limit
    {
      ghost var here := range.inner.pos;
      var got := range.Read(COPY_BUFFER);
      if got.Err? {
        return Err(got.error);
      }
      if got.value == [] {
        return Ok(copied);
      }
      assert range.inner.data[from..range.inner.pos] == range.inner.data[from..here] + got.value;
      assert range.inner.data[from..range.inner.pos] <= range.inner.data[from..to];
      var put := w.WriteAll(got.value);
      if put.Err? {
        return Err(put.error);
      }
      copied := copied + |got.value|;
    }
  }

  /** The bytes of `plain` in the inclusive range [start, end], as far as they exist. */
  function Slice(plain: seq<byte>, start: nat, end: nat): seq<byte>
    requires start <= end
  {
    plain[Min(start, |plain|)..Min(end + 1, |plain|)]
  }

  /** Position by position. */
  lemma SliceIs(plain: seq<byte>, start: nat, end: nat)
    requires start <= end
    ensures |Slice(plain, start, end)| == (if |plain| <= start then 0 else if |plain| <= end then |plain| - start else end - start + 1)
    ensures forall k :: 0 <= k < |Slice(plain, start, end)| ==> Slice(plain, start, end)[k] == plain[start + k]
  {}

  /** Skip by reading through a large buffer that is then thrown away: the stream stands exactly at
      `start`, or at its end; no byte behind `start` has been taken from it. */
  method SkipTo(stream: Source, start: u64) returns (r: Result<(), CoreError>)
    requires stream.Valid() && stream.pos == 0
    modifies stream
    ensures stream.Valid()
    ensures r.Ok? ==> stream.pos == Min(start, |stream.data|)
    ensures r.Err? ==> stream.faulty && r.error == Io
  {
    var take := new Take(stream, start);
    var skipReader := new BufReader(take, SKIP_BUFFER);
    r := Drain(skipReader);
  }

  /** The decrypting part of decrypt_age_file_range_to_writer, on an opened stream. */
  method CopyRange(stream: Source, w: Sink, start: u64, end: u64) returns (r: Result<nat, CoreError>)
    requires stream.Valid() && stream.pos == 0
    requires start <= end && end - start < U64_MAX
    modifies stream, w
    ensures r.Ok? ==> w.bytes == old(w.bytes) + Slice(stream.data, start, end) && r.value == |Slice(stream.data, start, end)|
    ensures r.Err? ==> (stream.faulty || w.faulty) && r.error == Io
                       && old(w.bytes) <= w.bytes <= old(w.bytes) + Slice(stream.data, start, end)
  {
    var skipped := SkipTo(stream, start);
    if skipped.Err? {
      return Err(skipped.error);
    }
    var bytesToRead: u64 := end - start + 1;
    ghost var at := stream.pos;
    assert Slice(stream.data, start, end) == stream.data[at..Min(at + bytesToRead, |stream.data|)];
    var rangeReader := new Take(stream, bytesToRead);
    r := CopyOut(rangeReader, w);
  }

  // ---------- Whole files ----------

  /** A file as the decryptor meets it: sealed for a key, sealed with a passphrase, or not age at all.
      Whether reading it may fail is a parameter of each method. */
  datatype AgeFile = Sealed(recipient: Recipient, plain: seq<byte>) | Passphrase | NotAge

  predicate Opens(identity: Identity, file: AgeFile) {
    file.Sealed? && Public(identity) == file.recipient
  }

  /** A sealed file opens for the key it was sealed for and no other, and nothing else opens at all. */
  lemma OpensOnlyItsKey(identity: Identity, recipient: Recipient, plain: seq<byte>)
    ensures Opens(identity, Sealed(recipient, plain)) <==> recipient == Public(identity)
    ensures !Opens(identity, Passphrase) && !Opens(identity, NotAge)
  {}

  /** decrypt_age_file_range_to_writer. */
  method DecryptRange(identity: Identity, file: AgeFile, faulty: bool, w: Sink, start: u64, end: u64)
    returns (r: Result<nat, CoreError>)
    requires start <= end && end - start < U64_MAX
    modifies w
    ensures !Opens(identity, file) ==> r == Err(CryptoFailure) && w.bytes == old(w.bytes)
    ensures Opens(identity, file) && r.Ok? ==>
              w.bytes == old(w.bytes) + Slice(file.plain, start, end) && r.value == |Slice(file.plain, start, end)|
    ensures Opens(identity, file) && r.Err? ==>
              (faulty || w.faulty) && r.error == Io && old(w.bytes) <= w.bytes <= old(w.bytes) + Slice(file.plain, start, end)
  {
    if file.NotAge? || file.Passphrase? || Public(identity) != file.recipient {
      return Err(CryptoFailure);
    }
    var stream := new Source(file.plain, faulty);
    r := CopyRange(stream, w, start, end);
  }

  /** decrypt_age_file_to_writer. */
  method DecryptAll(identity: Identity, file: AgeFile, faulty: bool, w: Sink) returns (r: Result<nat, CoreError>)
    modifies w
    ensures !Opens(identity, file) ==> r == Err(CryptoFailure) && w.bytes == old(w.bytes)
    ensures Opens(identity, file) && r.Ok? ==> w.bytes == old(w.bytes) + file.plain && r.value == |file.plain|
    ensures Opens(identity, file) && r.Err? ==>
              (faulty || w.faulty) && r.error == Io && old(w.bytes) <= w.bytes <= old(w.bytes) + file.plain
  {
    if file.NotAge? || file.Passphrase? || Public(identity) != file.recipient {
      return Err(CryptoFailure);
    }
    var stream := new Source(file.plain, faulty);
    var all := new Take(stream, |file.plain|);
    r := CopyOut(all, w);
  }

  /** encrypt_reader_to_age_file: what is sealed is what was left to read. */
  method EncryptReader(recipient: Recipient, reader: Source, faulty: bool) returns (r: Result<(nat, AgeFile), CoreError>)
    requires reader.Valid()
    modifies reader
    ensures r.Err? ==> (reader.faulty || faulty) && r.error == Io
    ensures r.Ok? ==> var rest := reader.data[old(reader.pos)..];
                      r.value.1 == Sealed(recipient, rest) && r.value.0 == |rest|
  {
    var w := new Sink(faulty);
    var written := 0;
    while true
      invariant reader.Valid() && old(reader.pos) <= reader.pos
      invariant fresh(w) && w.faulty == faulty && w.bytes == reader.data[old(reader.pos)..reader.pos]
      invariant written == |w.bytes|
      decreases |reader.data| - reader.pos
    {
      var got := reader.Read(ENCRYPT_BUFFER);
      if got.Err? {
        return Err(got.error);
      }
      if got.value == [] {
        break;
      }
      var put := w.WriteAll(got.value);
      if put.Err? {
        return Err(put.error);
      }
      written := written + |got.value|;
    }
    return Ok((written, Sealed(recipient, w.bytes)));
  }

  /** Encrypting a stream and decrypting a range of the result gives that range of the stream. */
  method SealedRangeReadsBack(identity: Identity, data: seq<byte>, faulty: bool, start: u64, end: u64)
    returns (r: Result<seq<byte>, CoreError>)
    requires start <= end && end - start < U64_MAX
    ensures r.Ok? ==> r.value == Slice(data, start, end)
    ensures r.Err? ==> faulty && r.error == Io
  {
    var reader := new Source(data, faulty);
    var sealed := EncryptReader(Public(identity), reader, faulty);
    if sealed.Err? {
      return Err(sealed.error);
    }
    var w := new Sink(faulty);
    var copied := DecryptRange(identity, sealed.value.1, faulty, w, start, end);
    if copied.Err? {
      return Err(copied.error);
    }
    return Ok(w.bytes);
  }
}
