/** The archive format: a 20-byte header, then per chunk a 9-byte header and the compressed bytes
    (selfcode/lgz/lgzv3.c, lines 12-28, 381-397, 814-850 and 873-1008). */
module Container {
  import opened Bytes
  import opened Codec
  import opened Blobs
  import opened Selection

  /** "UCOMP01" and a zero byte. */
  const MAGIC: seq<byte> := [0x55, 0x43, 0x4F, 0x4D, 0x50, 0x30, 0x31, 0]
  const HEADER: nat := 20
  const CHUNK_HEADER: nat := 9

  /** One chunk as written: the transform, the size of the original, the compressed bytes. */
  datatype Record = Record(packed: Packed, orig: nat)

  function ArchiveHeader(size: nat, count: nat): (r: seq<byte>)
    ensures |r| == HEADER
  {
    MAGIC + Le(size, 8) + Le(count, 4)
  }

  function RecordBytes(r: Record): (b: seq<byte>)
    ensures |b| == CHUNK_HEADER + |r.packed.bytes|
  {
    [r.packed.kind] + Le(r.orig, 4) + Le(|r.packed.bytes|, 4) + r.packed.bytes
  }

  function Body(records: seq<Record>): seq<byte> {
    if records == [] then [] else RecordBytes(records[0]) + Body(records[1..])
  }

  function Archive(size: nat, records: seq<Record>): (a: seq<byte>) {
    ArchiveHeader(size, |records|) + Body(records)
  }

  function PayloadSize(records: seq<Record>): nat {
    if records == [] then 0 else |records[0].packed.bytes| + PayloadSize(records[1..])
  }

  lemma {:induction false} BodySize(records: seq<Record>)
    ensures |Body(records)| == CHUNK_HEADER * |records| + PayloadSize(records)
  {
    if records != [] {
      BodySize(records[1..]);
    }
  }

  /** The number of bytes written. */
  lemma ArchiveSize(size: nat, records: seq<Record>)
    ensures |Archive(size, records)| == HEADER + CHUNK_HEADER * |records| + PayloadSize(records)
  {
    BodySize(records);
  }

  // ----- Reading

  /** What unpacking an archive gives. Undefined stands for the places where the source reads or writes
      outside its buffers, or writes out bytes it never set. */
  datatype Result = Unpacked(bytes: seq<byte>) | BadMagic | CodecError | Undefined

  /** The fields of the chunk at the front of a. */
  datatype Front = Front(kind: byte, orig: nat, payload: seq<byte>, rest: seq<byte>)

  predicate HasFront(a: seq<byte>) {
    |a| >= CHUNK_HEADER && |a| >= CHUNK_HEADER + Value(a[5..9])
  }

  function FrontOf(a: seq<byte>): Front
    requires HasFront(a)
  {
    var end := CHUNK_HEADER + Value(a[5..9]);
    Front(a[0], Value(a[1..5]), a[CHUNK_HEADER..end], a[end..])
  }

  /** One chunk decompressed and its transform undone. */
  function UnpackOne(c: Lzma2, f: Front): Result {
    match Decompress(c, f.payload, f.orig)
    case None => CodecError
    case Some(y) =>
      match DecodeBlob(f.kind, y)
      case Undefined => Result.Undefined
      case Restored(z) => Unpacked(z)
  }

  /** The remaining n chunks in a, after done has been produced, for a file of the given size. */
  function UnpackChunks(c: Lzma2, a: seq<byte>, n: nat, done: seq<byte>, size: nat): Result {
    if n == 0 then (if |done| == size then Unpacked(done) else Result.Undefined)
    else if !HasFront(a) then Result.Undefined
    else
      var f := FrontOf(a);
      var r := UnpackOne(c, f);
      if !r.Unpacked? then r
      else if |done| + |r.bytes| > size then Result.Undefined
      else UnpackChunks(c, f.rest, n - 1, done + r.bytes, size)
  }

  function Unpack(c: Lzma2, a: seq<byte>): Result {
    if |a| < HEADER || a[..8] != MAGIC then BadMagic
    else UnpackChunks(c, a[HEADER..], Value(a[16..20]), [], Value(a[8..16]))
  }

  // ----- What was written is read back

  predicate Fits(r: Record) {
    r.orig < 0x1_0000_0000 && |r.packed.bytes| < 0x1_0000_0000
  }

  lemma Concat3(a: seq<byte>, b: seq<byte>, c: seq<byte>)
    ensures (a + b + c)[..|a|] == a && (a + b + c)[|a|..|a| + |b|] == b && (a + b + c)[|a| + |b|..] == c
  {}

  lemma FrontOfRecord(r: Record, rest: seq<byte>)
    requires Fits(r)
    ensures HasFront(RecordBytes(r) + rest)
    ensures FrontOf(RecordBytes(r) + rest) == Front(r.packed.kind, r.orig, r.packed.bytes, rest)
  {
    Pow256Values();
    ValueOfFittingLe(r.orig, 4);
    ValueOfFittingLe(|r.packed.bytes|, 4);
    var a := RecordBytes(r) + rest;
    FieldsOfRecord(r, rest);
    Concat3(RecordBytes(r)[..9], r.packed.bytes, rest);
    assert a == RecordBytes(r)[..9] + r.packed.bytes + rest;
  }

  lemma FieldsOfRecord(r: Record, rest: seq<byte>)
    ensures var a := RecordBytes(r) + rest;
            a[0] == r.packed.kind && a[1..5] == Le(r.orig, 4) && a[5..9] == Le(|r.packed.bytes|, 4)
  {
    hide Le;
  }

  lemma FieldsOfHeader(size: nat, count: nat, body: seq<byte>)
    ensures var a := ArchiveHeader(size, count) + body;
            a[..8] == MAGIC && a[8..16] == Le(size, 8) && a[16..20] == Le(count, 4) && a[HEADER..] == body
  {
    hide Le;
  }

  /** The packed bytes give back x. */
  ghost predicate Holds(c: Lzma2, r: Record, x: seq<byte>) {
    && r.orig == |x| && Fits(r)
    && UnpackOne(c, Front(r.packed.kind, r.orig, r.packed.bytes, [])) == Unpacked(x)
  }

  ghost predicate AllHold(c: Lzma2, records: seq<Record>, xs: seq<seq<byte>>) {
    |records| == |xs| && forall i :: 0 <= i < |xs| ==> Holds(c, records[i], xs[i])
  }

  function Concat(xs: seq<seq<byte>>): seq<byte> {
    if xs == [] then [] else xs[0] + Concat(xs[1..])
  }

  lemma {:induction false} UnpackBody(c: Lzma2, records: seq<Record>, xs: seq<seq<byte>>, done: seq<byte>, size: nat)
    requires AllHold(c, records, xs)
    requires |done| + |Concat(xs)| == size
    ensures UnpackChunks(c, Body(records), |records|, done, size) == Unpacked(done + Concat(xs))
    decreases |records|
  {
    if records == [] {
      assert done + Concat(xs) == done;
    } else {
      var r, x := records[0], xs[0];
      assert Holds(c, r, x);
      FrontOfRecord(r, Body(records[1..]));
      assert AllHold(c, records[1..], xs[1..]);
      assert (done + x) + Concat(xs[1..]) == done + Concat(xs);
      UnpackBody(c, records[1..], xs[1..], done + x, size);
    }
  }

  /** Pieces that are more than the file overrun the output. */
  lemma {:induction false} UnpackTooMuch(c: Lzma2, records: seq<Record>, xs: seq<seq<byte>>, done: seq<byte>, size: nat)
    requires AllHold(c, records, xs)
    requires |done| <= size < |done| + |Concat(xs)|
    ensures UnpackChunks(c, Body(records), |records|, done, size) == Result.Undefined
    decreases |records|
  {
    var r, x := records[0], xs[0];
    assert Holds(c, r, x);
    FrontOfRecord(r, Body(records[1..]));
    assert AllHold(c, records[1..], xs[1..]);
    if |done| + |x| <= size {
      UnpackTooMuch(c, records[1..], xs[1..], done + x, size);
    }
  }

  /** The three fields of the archive header select the size and the number of turns. */
  lemma UnpackReadsHeader(c: Lzma2, records: seq<Record>, size: nat)
    requires |records| < 0x1_0000_0000 && size < 0x1_0000_0000_0000_0000
    ensures Unpack(c, Archive(size, records)) == UnpackChunks(c, Body(records), |records|, [], size)
  {
    Pow256Values();
    ValueOfFittingLe(|records|, 4);
    ValueOfFittingLe(size, 8);
    FieldsOfHeader(size, |records|, Body(records));
  }

  lemma UnpackOverfull(c: Lzma2, records: seq<Record>, xs: seq<seq<byte>>, size: nat)
    requires AllHold(c, records, xs)
    requires |records| < 0x1_0000_0000 && size < 0x1_0000_0000_0000_0000 && size < |Concat(xs)|
    ensures Unpack(c, Archive(size, records)) == Result.Undefined
  {
    UnpackReadsHeader(c, records, size);
    UnpackTooMuch(c, records, xs, [], size);
  }

  /** Records that each hold a piece unpack to the pieces joined. */
  lemma UnpackArchive(c: Lzma2, records: seq<Record>, xs: seq<seq<byte>>)
    requires AllHold(c, records, xs)
    requires |records| < 0x1_0000_0000 && |Concat(xs)| < 0x1_0000_0000_0000_0000
    ensures Unpack(c, Archive(|Concat(xs)|, records)) == Unpacked(Concat(xs))
  {
    UnpackReadsHeader(c, records, |Concat(xs)|);
    UnpackBody(c, records, xs, [], |Concat(xs)|);
    assert [] + Concat(xs) == Concat(xs);
  }

  /** An archive is turned down exactly when it is shorter than its header or does not start with "UCOMP01" and a
      zero byte. */
  lemma BadMagicIff(c: Lzma2, a: seq<byte>)
    ensures Unpack(c, a) == BadMagic <==>
              || |a| < 20
              || a[0] != 'U' as int || a[1] != 'C' as int || a[2] != 'O' as int || a[3] != 'M' as int
              || a[4] != 'P' as int || a[5] != '0' as int || a[6] != '1' as int || a[7] != 0
  {
    hide UnpackChunks, Value;
    if |a| >= 20 {
      StartsWithMagic(a);
      UnpackIsNotBadMagic(c, a[HEADER..], Value(a[16..20]), [], Value(a[8..16]));
    }
  }

  lemma StartsWithMagic(a: seq<byte>)
    requires |a| >= 20
    ensures a[..8] == MAGIC <==>
              && a[0] == 'U' as int && a[1] == 'C' as int && a[2] == 'O' as int && a[3] == 'M' as int
              && a[4] == 'P' as int && a[5] == '0' as int && a[6] == '1' as int && a[7] == 0
  {
    var t := a[..8];
    assert t == [a[0], a[1], a[2], a[3], a[4], a[5], a[6], a[7]];
    assert t == MAGIC ==>
      t[0] == 0x55 && t[1] == 0x43 && t[2] == 0x4F && t[3] == 0x4D && t[4] == 0x50 && t[5] == 0x30 && t[6] == 0x31
      && t[7] == 0;
  }

  lemma {:induction false} UnpackIsNotBadMagic(c: Lzma2, a: seq<byte>, n: nat, done: seq<byte>, size: nat)
    ensures UnpackChunks(c, a, n, done, size) != BadMagic
    decreases n
  {
    hide HasFront, FrontOf, UnpackOne;
    if n > 0 && HasFront(a) {
      var f := FrontOf(a);
      var r := UnpackOne(c, f);
      OneIsNotBadMagic(c, f);
      if r.Unpacked? {
        UnpackIsNotBadMagic(c, f.rest, n - 1, done + r.bytes, size);
      }
    }
  }

  lemma OneIsNotBadMagic(c: Lzma2, f: Front)
    ensures UnpackOne(c, f) != BadMagic
  {
    hide Decompress, DecodeBlob;
  }

  /** The first chunk that is not unpacked decides: what went wrong with it is the outcome of the whole. */
  lemma {:induction false} FirstFailureDecides(c: Lzma2, records: seq<Record>, xs: seq<seq<byte>>, bad: Record,
      tail: seq<byte>, more: nat, done: seq<byte>, size: nat)
    requires AllHold(c, records, xs) && Fits(bad)
    requires |done| + |Concat(xs)| <= size
    requires !UnpackOne(c, Front(bad.packed.kind, bad.orig, bad.packed.bytes, [])).Unpacked?
    ensures UnpackChunks(c, Body(records) + RecordBytes(bad) + tail, |records| + 1 + more, done, size) ==
            UnpackOne(c, Front(bad.packed.kind, bad.orig, bad.packed.bytes, []))
    decreases |records|
  {
    hide RecordBytes, HasFront, FrontOf, UnpackOne;
    var a := Body(records) + RecordBytes(bad) + tail;
    if records == [] {
      assert a == RecordBytes(bad) + tail;
      FrontOfRecord(bad, tail);
      SameOne(c, bad, tail, []);
    } else {
      var r, x, rest := records[0], xs[0], records[1..];
      assert Holds(c, r, x);
      assert a == RecordBytes(r) + (Body(rest) + RecordBytes(bad) + tail);
      FrontOfRecord(r, Body(rest) + RecordBytes(bad) + tail);
      SameOne(c, r, Body(rest) + RecordBytes(bad) + tail, []);
      assert AllHold(c, rest, xs[1..]);
      FirstFailureDecides(c, rest, xs[1..], bad, tail, more, done + x, size);
    }
  }

  /** Chunks that are less than the file leave bytes of the output that were never set. */
  lemma {:induction false} UnpackTooLittle(c: Lzma2, records: seq<Record>, xs: seq<seq<byte>>, done: seq<byte>,
      size: nat)
    requires AllHold(c, records, xs)
    requires |done| + |Concat(xs)| < size
    ensures UnpackChunks(c, Body(records), |records|, done, size) == Result.Undefined
    decreases |records|
  {
    hide RecordBytes, HasFront, FrontOf, UnpackOne;
    if records != [] {
      var r, x, rest := records[0], xs[0], records[1..];
      assert Holds(c, r, x);
      FrontOfRecord(r, Body(rest));
      SameOne(c, r, Body(rest), []);
      assert AllHold(c, rest, xs[1..]);
      UnpackTooLittle(c, rest, xs[1..], done + x, size);
    }
  }

  // ----- The list of chunks

  predicate AllFit(records: seq<Record>) {
    forall i :: 0 <= i < |records| ==> Fits(records[i])
  }

  /** The chunks that n turns of the reader find, and what lies after them. */
  datatype Listing = Listing(records: seq<Record>, rest: seq<byte>) | TooShort

  function ReadRecords(a: seq<byte>, n: nat): Listing {
    if n == 0 then Listing([], a)
    else if !HasFront(a) then TooShort
    else
      var f := FrontOf(a);
      match ReadRecords(f.rest, n - 1)
      case TooShort => TooShort
      case Listing(records, rest) => Listing([Record(Packed(f.kind, f.payload), f.orig)] + records, rest)
  }

  /** Every type, original size and payload is read back, and the reader stops right after the last payload. */
  lemma {:induction false} ReadBack(records: seq<Record>, tail: seq<byte>)
    requires AllFit(records)
    ensures ReadRecords(Body(records) + tail, |records|) == Listing(records, tail)
  {
    hide RecordBytes, HasFront, FrontOf;
    if records == [] {
      assert Body(records) + tail == tail;
    } else {
      var r, more := records[0], records[1..];
      assert Fits(r);
      assert Body(records) + tail == RecordBytes(r) + (Body(more) + tail);
      FrontOfRecord(r, Body(more) + tail);
      ReadBack(more, tail);
      assert records == [r] + more;
    }
  }

  /** A whole archive: the stored size, the chunks, and nothing after them. */
  lemma ReadArchive(size: nat, records: seq<Record>)
    requires AllFit(records) && |records| < 0x1_0000_0000 && size < 0x1_0000_0000_0000_0000
    ensures var a := Archive(size, records);
            && a[..8] == MAGIC && Value(a[8..16]) == size && Value(a[16..20]) == |records|
            && ReadRecords(a[HEADER..], Value(a[16..20])) == Listing(records, [])
  {
    Pow256Values();
    ValueOfFittingLe(|records|, 4);
    ValueOfFittingLe(size, 8);
    FieldsOfHeader(size, |records|, Body(records));
    ReadBack(records, []);
    assert Body(records) + [] == Body(records);
  }

  /** Unpacking takes in exactly those chunks: what it gives depends on nothing behind the last of them. */
  lemma {:induction false} UnpackStopsAtEnd(c: Lzma2, records: seq<Record>, tail: seq<byte>, done: seq<byte>, size: nat)
    requires AllFit(records)
    ensures UnpackChunks(c, Body(records) + tail, |records|, done, size)
        == UnpackChunks(c, Body(records), |records|, done, size)
    decreases |records|
  {
    hide RecordBytes, HasFront, FrontOf, UnpackOne;
    if records != [] {
      var r, more := records[0], records[1..];
      assert Fits(r);
      assert Body(records) + tail == RecordBytes(r) + (Body(more) + tail);
      FrontOfRecord(r, Body(more) + tail);
      FrontOfRecord(r, Body(more));
      var one := UnpackOne(c, FrontOf(Body(records)));
      SameOne(c, r, Body(more) + tail, Body(more));
      if one.Unpacked? {
        UnpackStopsAtEnd(c, more, tail, done + one.bytes, size);
      }
    }
  }

  lemma SameOne(c: Lzma2, r: Record, a: seq<byte>, b: seq<byte>)
    ensures UnpackOne(c, Front(r.packed.kind, r.orig, r.packed.bytes, a))
        == UnpackOne(c, Front(r.packed.kind, r.orig, r.packed.bytes, b))
  {}

  /** A chunk above the decoder's limit anywhere makes unpacking fail. */
  lemma {:induction false} ChunkTooLong(c: Lzma2, records: seq<Record>, j: nat, done: seq<byte>, size: nat)
    requires AllFit(records) && j < |records| && records[j].orig > MAX_OUTPUT
    ensures !UnpackChunks(c, Body(records), |records|, done, size).Unpacked?
    decreases |records|
  {
    hide RecordBytes, HasFront, FrontOf;
    var r, more := records[0], records[1..];
    assert Fits(r);
    FrontOfRecord(r, Body(more));
    if j > 0 {
      var one := UnpackOne(c, FrontOf(Body(records)));
      hide UnpackOne;
      if one.Unpacked? {
        ChunkTooLong(c, more, j - 1, done + one.bytes, size);
      }
    }
  }

  lemma DecodeKeepsLength(t: nat, b: seq<byte>)
    ensures DecodeBlob(t, b).Restored? ==> |DecodeBlob(t, b).bytes| == |b|
  {}

  lemma OneLimit(c: Lzma2, f: Front)
    ensures UnpackOne(c, f).Unpacked? ==> |UnpackOne(c, f).bytes| <= MAX_OUTPUT
  {
    var y := Decompress(c, f.payload, f.orig);
    if y.Some? {
      DecodeKeepsLength(f.kind, y.value);
    }
  }

  lemma LastChunk(c: Lzma2, a: seq<byte>, size: nat, s: seq<byte>)
    requires UnpackChunks(c, a, 1, [], size) == Unpacked(s)
    ensures HasFront(a) && UnpackOne(c, FrontOf(a)) == Unpacked(s)
  {
    hide UnpackOne, HasFront, FrontOf;
    var f := FrontOf(a);
    var r := UnpackOne(c, f);
    assert [] + r.bytes == r.bytes;
    assert UnpackChunks(c, f.rest, 0, r.bytes, size) == Unpacked(s);
  }

  /** An archive of one chunk gives back nothing longer than the decoder's limit. */
  lemma OneChunkLimit(c: Lzma2, size: nat, r: Record, s: seq<byte>)
    requires Unpack(c, Archive(size, [r])) == Unpacked(s)
    ensures |s| <= MAX_OUTPUT
  {
    var body := Body([r]);
    hide Body, UnpackChunks, Le, Value;
    OneRecordCount();
    FieldsOfHeader(size, 1, body);
    LastChunk(c, body, Value(Le(size, 8)), s);
    OneLimit(c, FrontOf(body));
  }

  /** Its one chunk is the whole of it. */
  lemma BlockReadBack(c: Lzma2, size: nat, r: Record, s: seq<byte>)
    requires Fits(r) && Unpack(c, Archive(size, [r])) == Unpacked(s)
    ensures UnpackOne(c, Front(r.packed.kind, r.orig, r.packed.bytes, [])) == Unpacked(s)
  {
    var body := Body([r]);
    assert [r][1..] == [] && Body([]) == [];
    assert body == RecordBytes(r) + [];
    FrontOfRecord(r, []);
    hide Body, UnpackChunks, UnpackOne, Le, Value, RecordBytes, HasFront, FrontOf;
    OneRecordCount();
    FieldsOfHeader(size, 1, body);
    LastChunk(c, body, Value(Le(size, 8)), s);
  }

  lemma OneRecordCount()
    ensures Value(Le(1, 4)) == 1
  {
    Pow256Values();
    ValueOfFittingLe(1, 4);
  }
}
