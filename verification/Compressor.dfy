/** compress_file and decompress_file (selfcode/lgz/lgzv3.c, lines 319-378 and 457-1008). */
module Compressor {
  import opened Bytes
  import opened ElfSections
  import opened Parts
  import opened Codec
  import opened Selection
  import opened Container
  import opened Blobs
  import PlanesAndDelta
  import CodePipeline

  // ----- Attempts

  /** One call of the codec: what is compressed, with which settings, and the transform that produced it. */
  datatype Candidate = Candidate(kind: byte, input: seq<byte>, lc: nat, lp: nat, pb: nat)

  function Attempt(c: Lzma2, cand: Candidate, level: nat): Option<Packed> {
    match Compress(c, cand.input, SettingsFor(|cand.input|, cand.lc, cand.lp, cand.pb, level))
    case None => None
    case Some(z) => Some(Packed(cand.kind, z))
  }

  function Attempts(c: Lzma2, cands: seq<Candidate>, level: nat): (r: seq<Option<Packed>>)
    ensures |r| == |cands|
  {
    seq(|cands|, i requires 0 <= i < |cands| => Attempt(c, cands[i], level))
  }

  /** Undoing the candidate's transform gives x. */
  ghost predicate Represents(cand: Candidate, x: seq<byte>) {
    |cand.input| == |x| && DecodeBlob(cand.kind, cand.input) == Restored(x)
  }

  /** A successful attempt on a representative of x holds x, if x is not too long for the decoder. */
  lemma AttemptHolds(c: Lzma2, cand: Candidate, level: nat, x: seq<byte>)
    requires Lawful(c) && Represents(cand, x) && Attempt(c, cand, level).Some?
    requires |x| <= MAX_OUTPUT
    ensures Holds(c, Record(Attempt(c, cand, level).value, |x|), x)
  {
    DecompressCompress(c, cand.input, SettingsFor(|cand.input|, cand.lc, cand.lp, cand.pb, level));
  }

  /** The best of some attempts on representatives of x holds x. */
  lemma BestHolds(c: Lzma2, cands: seq<Candidate>, level: nat, best: Option<Packed>, x: seq<byte>)
    requires Lawful(c) && |x| <= MAX_OUTPUT
    requires forall cand :: cand in cands ==> Represents(cand, x)
    requires best.Some? && best in Attempts(c, cands, level)
    ensures Holds(c, Record(best.value, |x|), x)
  {
    var i :| 0 <= i < |cands| && Attempts(c, cands, level)[i] == best;
    AttemptHolds(c, cands[i], level, x);
  }

  // ----- One chunk

  /** compress_chunk_best: the transforms tried on a chunk, in order. */
  function ChunkCandidates(x: seq<byte>, isCode: bool, info: ElfInfo, level: nat): seq<Candidate> {
    [Candidate(0, x, 3, 0, 2)]
    + (if level == 0 then [] else
         [Candidate(0, x, 2, 2, 2)]
         + (if isCode && info.Elf? && info.arch.Arm64? && |x| >= 16
             then [Candidate(1, CodePipeline.EncodeCode(x), 0, 0, 0)] else [])
         + (if |x| >= 4 then [Candidate(2, PlanesAndDelta.Delta(x), 0, 0, 0)] else []))
  }

  function ChunkBest(c: Lzma2, x: seq<byte>, isCode: bool, info: ElfInfo, level: nat): Option<Packed> {
    BestOf(Attempts(c, ChunkCandidates(x, isCode, info, level), level))
  }

  lemma ChunkTransforms(x: seq<byte>)
    ensures DecodeBlob(0, x) == Restored(x)
    ensures DecodeBlob(1, CodePipeline.EncodeCode(x)) == Restored(x)
    ensures DecodeBlob(2, PlanesAndDelta.Delta(x)) == Restored(x)
  {
    hide CodePipeline.EncodeCode, CodePipeline.DecodeCode, PlanesAndDelta.Delta, PlanesAndDelta.Undelta;
    CodePipeline.DecodeEncodeCode(x);
    PlanesAndDelta.UndeltaDelta(x);
  }

  lemma ChunkCandidatesRepresent(x: seq<byte>, isCode: bool, info: ElfInfo, level: nat)
    ensures forall cand :: cand in ChunkCandidates(x, isCode, info, level) ==> Represents(cand, x)
  {
    hide CodePipeline.EncodeCode, PlanesAndDelta.Delta, DecodeBlob;
    ChunkTransforms(x);
  }

  /** Whichever transform wins on a chunk, the decoder gets the chunk back. */
  lemma ChunkBestHolds(c: Lzma2, x: seq<byte>, isCode: bool, info: ElfInfo, level: nat)
    requires Lawful(c) && |x| <= MAX_OUTPUT
    requires ChunkBest(c, x, isCode, info, level).Some?
    ensures Holds(c, Record(ChunkBest(c, x, isCode, info, level).value, |x|), x)
  {
    var cands := ChunkCandidates(x, isCode, info, level);
    ChunkCandidatesRepresent(x, isCode, info, level);
    BestOfIsBest(Attempts(c, cands, level));
    BestHolds(c, cands, level, BestOf(Attempts(c, cands, level)), x);
  }

  // ----- All chunks

  function Results(c: Lzma2, s: seq<byte>, chunks: seq<Extent>, info: ElfInfo, level: nat): (r: seq<Option<Packed>>)
    requires InBounds(chunks, |s|)
    ensures |r| == |chunks|
  {
    if chunks == [] then []
    else
      assert chunks[0] in chunks;
      [ChunkBest(c, s[chunks[0].offset..chunks[0].End()], chunks[0].isCode, info, level)]
      + Results(c, s, chunks[1..], info, level)
  }

  predicate AllSucceed(results: seq<Option<Packed>>) {
    forall i :: 0 <= i < |results| ==> results[i].Some?
  }

  function Records(results: seq<Option<Packed>>, chunks: seq<Extent>): (r: seq<Record>)
    requires |results| == |chunks| && AllSucceed(results)
    ensures |r| == |chunks|
  {
    if chunks == [] then [] else [Record(results[0].value, chunks[0].size)] + Records(results[1..], chunks[1..])
  }

  function Pieces(s: seq<byte>, chunks: seq<Extent>): (r: seq<seq<byte>>)
    requires InBounds(chunks, |s|)
    ensures |r| == |chunks|
  {
    if chunks == [] then []
    else
      assert chunks[0] in chunks;
      [s[chunks[0].offset..chunks[0].End()]] + Pieces(s, chunks[1..])
  }

  lemma {:induction false} ConcatOfPieces(s: seq<byte>, chunks: seq<Extent>)
    requires InBounds(chunks, |s|)
    ensures Concat(Pieces(s, chunks)) == Join(s, chunks)
  {
    if chunks != [] {
      ConcatOfPieces(s, chunks[1..]);
    }
  }

  /** The decoder accepts every chunk. */
  ghost predicate WithinLimit(chunks: seq<Extent>) {
    forall p :: p in chunks ==> p.size <= MAX_OUTPUT
  }

  lemma {:induction false} RecordsHold(c: Lzma2, s: seq<byte>, chunks: seq<Extent>, info: ElfInfo, level: nat)
    requires Lawful(c) && WithinLimit(chunks) && InBounds(chunks, |s|)
    requires AllSucceed(Results(c, s, chunks, info, level))
    ensures AllHold(c, Records(Results(c, s, chunks, info, level), chunks), Pieces(s, chunks))
  {
    if chunks != [] {
      var p, rest := chunks[0], chunks[1..];
      assert p in chunks;
      var results := Results(c, s, chunks, info, level);
      var x := s[p.offset..p.End()];
      assert results[0] == ChunkBest(c, x, p.isCode, info, level);
      assert results[1..] == Results(c, s, rest, info, level);
      ChunkBestHolds(c, x, p.isCode, info, level);
      RecordsHold(c, s, rest, info, level);
      HoldsMore(c, Record(results[0].value, p.size), x, Records(results[1..], rest), Pieces(s, rest));
    }
  }

  lemma HoldsMore(c: Lzma2, r: Record, x: seq<byte>, rs: seq<Record>, xs: seq<seq<byte>>)
    requires Holds(c, r, x) && AllHold(c, rs, xs)
    ensures AllHold(c, [r] + rs, [x] + xs)
  {
    hide Holds;
  }

  // ----- The whole file as one block

  /** The transforms of the whole file tried at each level. */
  function Modes(level: nat, info: ElfInfo): seq<byte> {
    [0]
    + (if info.Elf? && level >= 1 then [3] else [])
    + (if level >= 3 then
         (if info.Elf? && info.arch.Arm64? then [4] else []) + [5] + (if info.Elf? then [6] else [])
       else if level == 2 then
         (if info.Elf? && info.arch.Arm64? then [4] else []) + (if info.NotElf? then [5] else [])
         + (if info.Elf? && info.arch.X86? then [6] else [])
       else [])
  }

  lemma ModesApply(level: nat, info: ElfInfo)
    ensures 1 <= |Modes(level, info)| <= 5
    ensures forall i :: 0 <= i < |Modes(level, info)| ==> Applicable(Modes(level, info)[i], info)
  {}

  /** The table as a set. Type 0 always; 3 for ELF files from level 1 on; at level 2 the one more that suits the file,
      4 for ARM64, 6 for x86 and 5 for what is not ELF; from level 3 on everything that applies. */
  predicate InTable(level: nat, info: ElfInfo, t: nat) {
    || t == 0
    || (t == 3 && level >= 1 && info.Elf?)
    || (t == 4 && level >= 2 && info.Elf? && info.arch.Arm64?)
    || (t == 5 && (level >= 3 || (level == 2 && info.NotElf?)))
    || (t == 6 && info.Elf? && (level >= 3 || (level == 2 && info.arch.X86?)))
  }

  /** The mode table holds exactly those transforms, none of them twice; from level 3 on all that can be undone. */
  lemma ModesAre(level: nat, info: ElfInfo, t: byte)
    ensures t in Modes(level, info) <==> InTable(level, info, t)
    ensures forall i, j :: 0 <= i < j < |Modes(level, info)| ==> Modes(level, info)[i] != Modes(level, info)[j]
    ensures level >= 3 ==> (InTable(level, info, t) <==> Applicable(t, info))
  {}

  function Passes(level: nat, info: ElfInfo): nat {
    PassCount(level, |Modes(level, info)|)
  }

  lemma PassIsValid(level: nat, info: ElfInfo, p: nat)
    requires p < Passes(level, info)
    ensures var modes := Modes(level, info);
            && |modes| > 0 && p / |modes| < ComboCount(level) && p % |modes| < |modes|
            && Applicable(modes[p % |modes|], info)
  {
    ModesApply(level, info);
    PassSplit(level, |Modes(level, info)|, p);
  }

  function PassKind(level: nat, info: ElfInfo, p: nat): (kind: byte)
    requires p < Passes(level, info)
    ensures Applicable(kind, info)
  {
    PassIsValid(level, info, p);
    var modes := Modes(level, info);
    modes[p % |modes|]
  }

  function PassCombo(level: nat, info: ElfInfo, p: nat): (nat, nat, nat)
    requires p < Passes(level, info)
  {
    PassIsValid(level, info, p);
    Combo(level, p / |Modes(level, info)|)
  }

  function PassCandidate(s: seq<byte>, level: nat, p: nat): Candidate
    requires Readable(s) && InBounds(Chunks(Parse(s), |s|), |s|)
    requires p < Passes(level, Parse(s))
  {
    var kind := PassKind(level, Parse(s), p);
    var combo := PassCombo(level, Parse(s), p);
    Candidate(kind, EncodeBlob(kind, s), combo.0, combo.1, combo.2)
  }

  function PassCandidates(s: seq<byte>, level: nat): (r: seq<Candidate>)
    requires Readable(s) && InBounds(Chunks(Parse(s), |s|), |s|)
    ensures |r| == Passes(level, Parse(s))
  {
    seq(Passes(level, Parse(s)), p requires 0 <= p < Passes(level, Parse(s)) => PassCandidate(s, level, p))
  }

  lemma PassRepresents(s: seq<byte>, level: nat, p: nat)
    requires Readable(s) && InBounds(Chunks(Parse(s), |s|), |s|) && p < Passes(level, Parse(s))
    requires ReadsNoTable(PassKind(level, Parse(s), p)) || CodeApart(s)
    ensures Represents(PassCandidate(s, level, p), s)
  {
    BlobRoundTrip(PassKind(level, Parse(s), p), s);
  }

  /** The outcome of the parallel loop when the passes finish in the given order. */
  function SingleBest(c: Lzma2, s: seq<byte>, level: nat, order: seq<nat>): Option<Packed>
    requires Readable(s) && InBounds(Chunks(Parse(s), |s|), |s|)
  {
    BestOf(Arrange(Attempts(c, PassCandidates(s, level), level), order))
  }

  // ----- The choice between the two layouts

  function SingleTotal(p: Packed): nat {
    HEADER + CHUNK_HEADER + |p.bytes|
  }

  function MultiTotal(records: seq<Record>): nat {
    HEADER + CHUNK_HEADER * |records| + PayloadSize(records)
  }

  /** The size the source notes for a chunk: that of the best attempt, or the largest size_t if all failed. */
  function CompSize(r: Option<Packed>): nat {
    match r
    case Some(p) => |p.bytes|
    case None => WRAP64 - 1
  }

  function TotalPayload(results: seq<Option<Packed>>): nat {
    if results == [] then 0 else CompSize(results[0]) + TotalPayload(results[1..])
  }

  /** The size of the chunked layout as the source adds it up. Buffers that exist are together smaller than 2^64,
      so the sum only wraps through the size noted for a failed chunk. */
  function NotedTotal(results: seq<Option<Packed>>): nat {
    var total := HEADER + CHUNK_HEADER * |results| + TotalPayload(results);
    if AllSucceed(results) then total else total % WRAP64
  }

  lemma {:induction false} PayloadOfRecords(results: seq<Option<Packed>>, chunks: seq<Extent>)
    requires |results| == |chunks| && AllSucceed(results)
    ensures PayloadSize(Records(results, chunks)) == TotalPayload(results)
  {
    if chunks != [] {
      PayloadOfRecords(results[1..], chunks[1..]);
    }
  }

  function ChunkResults(c: Lzma2, s: seq<byte>, level: nat): (r: seq<Option<Packed>>)
    requires Readable(s) && InBounds(Chunks(Parse(s), |s|), |s|)
    ensures |r| == |Chunks(Parse(s), |s|)|
  {
    Results(c, s, Chunks(Parse(s), |s|), Parse(s), level)
  }

  function ChunkRecords(c: Lzma2, s: seq<byte>, level: nat): seq<Record>
    requires Readable(s) && InBounds(Chunks(Parse(s), |s|), |s|) && AllSucceed(ChunkResults(c, s, level))
  {
    Records(ChunkResults(c, s, level), Chunks(Parse(s), |s|))
  }

  /** The single block is written when it is smaller; at level 0, where the chunks are not tried, when there is one. */
  predicate OneBlock(c: Lzma2, s: seq<byte>, level: nat, order: seq<nat>)
    requires Readable(s) && InBounds(Chunks(Parse(s), |s|), |s|)
  {
    var single := SingleBest(c, s, level, order);
    single.Some? && (level == 0 || SingleTotal(single.value) < NotedTotal(ChunkResults(c, s, level)))
  }

  /** What the source picks exists: otherwise it writes from a null pointer. */
  predicate Works(c: Lzma2, s: seq<byte>, level: nat, order: seq<nat>)
    requires Readable(s) && InBounds(Chunks(Parse(s), |s|), |s|)
  {
    OneBlock(c, s, level, order) || (level > 0 && AllSucceed(ChunkResults(c, s, level)))
  }

  function Written(c: Lzma2, s: seq<byte>, level: nat, order: seq<nat>): (a: seq<byte>)
    requires Readable(s) && InBounds(Chunks(Parse(s), |s|), |s|) && Works(c, s, level, order)
  {
    if OneBlock(c, s, level, order)
    then Archive(|s|, [Record(SingleBest(c, s, level, order).value, |s|)])
    else Archive(|s|, ChunkRecords(c, s, level))
  }

  // ----- The round trip

  lemma SingleRoundTrip(c: Lzma2, s: seq<byte>, p: Packed)
    requires |s| <= MAX_OUTPUT && Holds(c, Record(p, |s|), s)
    ensures Unpack(c, Archive(|s|, [Record(p, |s|)])) == Unpacked(s)
  {
    assert Concat([s]) == s + [] == s;
    hide Holds, Unpack;
    assert AllHold(c, [Record(p, |s|)], [s]);
    UnpackArchive(c, [Record(p, |s|)], [s]);
  }

  lemma ChunkCountFits(s: seq<byte>)
    requires Readable(s)
    ensures |Chunks(Parse(s), |s|)| < 0x1_0000_0000
  {
    if Parse(s).Elf? {
      SectionCount(s);
      ChunkCount(Parse(s).sections, 0, |s|);
    }
  }

  /** The chunked layout restores files of any size whose chunks the decoder accepts. */
  lemma MultiRoundTrip(c: Lzma2, s: seq<byte>, level: nat)
    requires Lawful(c) && Readable(s) && |s| < WRAP64
    requires Parse(s).Elf? ==> Disjoint(Parse(s).sections, 0, |s|)
    requires InBounds(Chunks(Parse(s), |s|), |s|) && WithinLimit(Chunks(Parse(s), |s|))
    requires AllSucceed(ChunkResults(c, s, level))
    ensures Unpack(c, Archive(|s|, ChunkRecords(c, s, level))) == Unpacked(s)
  {
    var info := Parse(s);
    var chunks := Chunks(info, |s|);
    ChunksTile(info, |s|);
    JoinOfTile(s, chunks, 0);
    ConcatOfPieces(s, chunks);
    RecordsHold(c, s, chunks, info, level);
    ChunkCountFits(s);
    assert s[0..] == s;
    hide Unpack, Archive, AllHold;
    UnpackArchive(c, ChunkRecords(c, s, level), Pieces(s, chunks));
  }

  lemma {:induction false} JoinLength(s: seq<byte>, chunks: seq<Extent>)
    requires InBounds(chunks, |s|)
    ensures |Join(s, chunks)| == TotalSize(chunks)
  {
    if chunks != [] {
      assert chunks[0] in chunks;
      JoinLength(s, chunks[1..]);
    }
  }

  /** The chunked layout restores a file exactly when its sections do not overlap and the decoder accepts every chunk.
      Where sections overlap, the bytes they share are written twice and unpacking overruns the output.
      The sizes must fit the 32-bit fields they are stored in. */
  lemma MultiRoundTripIff(c: Lzma2, s: seq<byte>, level: nat)
    requires Lawful(c) && Readable(s) && |s| < WRAP64
    requires InBounds(Chunks(Parse(s), |s|), |s|)
    requires AllSucceed(ChunkResults(c, s, level)) && AllFit(ChunkRecords(c, s, level))
    ensures Unpack(c, Archive(|s|, ChunkRecords(c, s, level))) == Unpacked(s)
       <==> (Parse(s).Elf? ==> Disjoint(Parse(s).sections, 0, |s|)) && WithinLimit(Chunks(Parse(s), |s|))
  {
    var info := Parse(s);
    var chunks := Chunks(info, |s|);
    if !WithinLimit(chunks) {
      LongChunkFails(c, s, level);
    } else if info.Elf? ==> Disjoint(info.sections, 0, |s|) {
      MultiRoundTrip(c, s, level);
    } else {
      OverlapFails(c, s, level);
    }
  }

  lemma OverlapFails(c: Lzma2, s: seq<byte>, level: nat)
    requires Lawful(c) && Readable(s) && |s| < WRAP64
    requires InBounds(Chunks(Parse(s), |s|), |s|) && WithinLimit(Chunks(Parse(s), |s|))
    requires AllSucceed(ChunkResults(c, s, level))
    requires Parse(s).Elf? && !Disjoint(Parse(s).sections, 0, |s|)
    ensures Unpack(c, Archive(|s|, ChunkRecords(c, s, level))) == Result.Undefined
  {
    var info := Parse(s);
    var chunks := Chunks(info, |s|);
    ConcatOfPieces(s, chunks);
    JoinLength(s, chunks);
    TotalOfChunks(info.sections, 0, |s|);
    RecordsHold(c, s, chunks, info, level);
    ChunkCountFits(s);
    hide Unpack, Archive, AllHold;
    UnpackOverfull(c, ChunkRecords(c, s, level), Pieces(s, chunks), |s|);
  }

  lemma LongChunkFails(c: Lzma2, s: seq<byte>, level: nat)
    requires Readable(s) && |s| < WRAP64 && InBounds(Chunks(Parse(s), |s|), |s|)
    requires AllSucceed(ChunkResults(c, s, level)) && AllFit(ChunkRecords(c, s, level))
    requires !WithinLimit(Chunks(Parse(s), |s|))
    ensures !Unpack(c, Archive(|s|, ChunkRecords(c, s, level))).Unpacked?
  {
    var chunks, records := Chunks(Parse(s), |s|), ChunkRecords(c, s, level);
    var p :| p in chunks && p.size > MAX_OUTPUT;
    var j :| 0 <= j < |chunks| && chunks[j] == p;
    RecordSizes(ChunkResults(c, s, level), chunks, j);
    ChunkCountFits(s);
    hide Unpack, Archive, UnpackChunks, ChunkRecords, AllFit;
    UnpackReadsHeader(c, records, |s|);
    ChunkTooLong(c, records, j, [], |s|);
  }

  lemma {:induction false} RecordSizes(results: seq<Option<Packed>>, chunks: seq<Extent>, j: nat)
    requires |results| == |chunks| && AllSucceed(results) && j < |chunks|
    ensures Records(results, chunks)[j] == Record(results[j].value, chunks[j].size)
  {
    if j > 0 {
      RecordSizes(results[1..], chunks[1..], j - 1);
    }
  }

  // ----- When the sizes fit their fields

  /** Files up to this size: an attempt adds at most a tenth and 4097 bytes. */
  const SMALL: nat := 0xE000_0000

  lemma AttemptIsShort(c: Lzma2, cands: seq<Candidate>, level: nat, best: Option<Packed>, n: nat)
    requires Lawful(c) && n <= SMALL
    requires forall cand :: cand in cands ==> |cand.input| <= n
    requires best.Some? && best in Attempts(c, cands, level)
    ensures |best.value.bytes| < 0x1_0000_0000
  {
    var i :| 0 <= i < |cands| && Attempts(c, cands, level)[i] == best;
    var cand := cands[i];
    assert cand in cands;
    DecompressCompress(c, cand.input, SettingsFor(|cand.input|, cand.lc, cand.lp, cand.pb, level));
  }

  lemma ChunkBestIsShort(c: Lzma2, x: seq<byte>, isCode: bool, info: ElfInfo, level: nat)
    requires Lawful(c) && |x| <= SMALL && ChunkBest(c, x, isCode, info, level).Some?
    ensures |ChunkBest(c, x, isCode, info, level).value.bytes| < 0x1_0000_0000
  {
    var cands := ChunkCandidates(x, isCode, info, level);
    ChunkCandidatesRepresent(x, isCode, info, level);
    BestOfIsBest(Attempts(c, cands, level));
    AttemptIsShort(c, cands, level, BestOf(Attempts(c, cands, level)), |x|);
  }

  lemma {:induction false} SmallRecordsFit(c: Lzma2, s: seq<byte>, chunks: seq<Extent>, info: ElfInfo, level: nat)
    requires Lawful(c) && |s| <= SMALL && InBounds(chunks, |s|)
    requires AllSucceed(Results(c, s, chunks, info, level))
    ensures AllFit(Records(Results(c, s, chunks, info, level), chunks))
  {
    hide ChunkBest;
    if chunks != [] {
      var p, rest := chunks[0], chunks[1..];
      assert p in chunks;
      var results := Results(c, s, chunks, info, level);
      var x := s[p.offset..p.End()];
      assert results[0] == ChunkBest(c, x, p.isCode, info, level);
      assert results[1..] == Results(c, s, rest, info, level);
      ChunkBestIsShort(c, x, p.isCode, info, level);
      SmallRecordsFit(c, s, rest, info, level);
    }
  }

  /** The records of every file of up to 3.5 GiB fit their fields. */
  lemma SmallFilesFit(c: Lzma2, s: seq<byte>, level: nat)
    requires Lawful(c) && Readable(s) && |s| <= SMALL && InBounds(Chunks(Parse(s), |s|), |s|)
    requires AllSucceed(ChunkResults(c, s, level))
    ensures AllFit(ChunkRecords(c, s, level))
  {
    SmallRecordsFit(c, s, Chunks(Parse(s), |s|), Parse(s), level);
  }

  // ----- The whole round trip

  /** The winner is the outcome of one pass, and carries the number of that pass's transform. */
  lemma WinnerIsPass(c: Lzma2, s: seq<byte>, level: nat, order: seq<nat>) returns (p: nat)
    requires Readable(s) && InBounds(Chunks(Parse(s), |s|), |s|)
    requires IsSchedule(order, Passes(level, Parse(s))) && SingleBest(c, s, level, order).Some?
    ensures p < Passes(level, Parse(s))
    ensures Attempt(c, PassCandidate(s, level, p), level) == SingleBest(c, s, level, order)
    ensures SingleBest(c, s, level, order).value.kind == PassKind(level, Parse(s), p)
  {
    var outcomes := Attempts(c, PassCandidates(s, level), level);
    EveryScheduleFindsSmallest(outcomes, order);
    var i :| 0 <= i < |outcomes| && outcomes[i] == SingleBest(c, s, level, order);
    p := i;
  }

  /** The transform of the whole file that won is one that the decoder undoes for this file. */
  ghost predicate WinnerUndone(c: Lzma2, s: seq<byte>, level: nat, order: seq<nat>)
    requires Readable(s) && InBounds(Chunks(Parse(s), |s|), |s|) && SingleBest(c, s, level, order).Some?
  {
    ReadsNoTable(SingleBest(c, s, level, order).value.kind) || CodeApart(s)
  }

  /** At level 0 nothing is transformed. */
  lemma LevelZeroUndone(c: Lzma2, s: seq<byte>, order: seq<nat>)
    requires Readable(s) && InBounds(Chunks(Parse(s), |s|), |s|)
    requires IsSchedule(order, Passes(0, Parse(s))) && SingleBest(c, s, 0, order).Some?
    ensures WinnerUndone(c, s, 0, order)
  {
    var p := WinnerIsPass(c, s, 0, order);
  }

  lemma OneBlockRoundTrip(c: Lzma2, s: seq<byte>, level: nat, order: seq<nat>)
    requires Lawful(c) && Readable(s) && |s| <= MAX_OUTPUT
    requires IsSchedule(order, Passes(level, Parse(s)))
    requires InBounds(Chunks(Parse(s), |s|), |s|) && SingleBest(c, s, level, order).Some?
    requires WinnerUndone(c, s, level, order)
    ensures Unpack(c, Archive(|s|, [Record(SingleBest(c, s, level, order).value, |s|)])) == Unpacked(s)
  {
    var p := WinnerIsPass(c, s, level, order);
    PassRepresents(s, level, p);
    AttemptHolds(c, PassCandidate(s, level, p), level, s);
    SingleRoundTrip(c, s, SingleBest(c, s, level, order).value);
  }

  lemma ChunksAreShort(s: seq<byte>)
    requires Readable(s) && InBounds(Chunks(Parse(s), |s|), |s|) && |s| <= MAX_OUTPUT
    ensures WithinLimit(Chunks(Parse(s), |s|))
  {}

  /** Compressing and decompressing restores every file, at every level and under every schedule of the passes,
      whichever transform and whichever layout won. */
  lemma RoundTrip(c: Lzma2, s: seq<byte>, level: nat, order: seq<nat>)
    requires Lawful(c) && WellLaidOut(s) && |s| <= MAX_OUTPUT
    requires IsSchedule(order, Passes(level, Parse(s)))
    requires InBounds(Chunks(Parse(s), |s|), |s|) && Works(c, s, level, order)
    ensures Unpack(c, Written(c, s, level, order)) == Unpacked(s)
  {
    if OneBlock(c, s, level, order) {
      OneBlockRoundTrip(c, s, level, order);
    } else {
      ChunksAreShort(s);
      MultiRoundTrip(c, s, level);
    }
  }

  /** The single block is restored exactly when the decoder accepts its size, whatever the sections are, unless code
      was filtered: then the code sections must not overlap one another, the file header or the section table. */
  lemma OneBlockRoundTripIff(c: Lzma2, s: seq<byte>, level: nat, order: seq<nat>)
    requires Lawful(c) && Readable(s) && IsSchedule(order, Passes(level, Parse(s)))
    requires InBounds(Chunks(Parse(s), |s|), |s|) && OneBlock(c, s, level, order)
    requires WinnerUndone(c, s, level, order)
    ensures Unpack(c, Written(c, s, level, order)) == Unpacked(s) <==> |s| <= MAX_OUTPUT
  {
    if |s| <= MAX_OUTPUT {
      OneBlockRoundTrip(c, s, level, order);
    } else if Unpack(c, Written(c, s, level, order)) == Unpacked(s) {
      OneChunkLimit(c, |s|, Record(SingleBest(c, s, level, order).value, |s|), s);
    }
  }

  /** Whatever filters the winner went through: the block is restored exactly when its own transform is undone. */
  lemma BlockRestoredIff(c: Lzma2, s: seq<byte>, level: nat, order: seq<nat>)
    requires Lawful(c) && Readable(s) && IsSchedule(order, Passes(level, Parse(s)))
    requires InBounds(Chunks(Parse(s), |s|), |s|) && OneBlock(c, s, level, order)
    ensures var kind := SingleBest(c, s, level, order).value.kind;
            && Applicable(kind, Parse(s))
            && (Unpack(c, Written(c, s, level, order)) == Unpacked(s)
                <==> |s| <= MAX_OUTPUT && DecodeBlob(kind, EncodeBlob(kind, s)) == Restored(s))
  {
    var p := WinnerIsPass(c, s, level, order);
    var cand, r := PassCandidate(s, level, p), Record(SingleBest(c, s, level, order).value, |s|);
    DecompressCompress(c, cand.input, SettingsFor(|s|, cand.lc, cand.lp, cand.pb, level));
    if |s| <= MAX_OUTPUT && Represents(cand, s) {
      AttemptHolds(c, cand, level, s);
      SingleRoundTrip(c, s, r.packed);
    } else if Unpack(c, Written(c, s, level, order)) == Unpacked(s) {
      OneChunkLimit(c, |s|, r, s);
      BlockReadBack(c, |s|, r, s);
    }
  }

  /** At level 0, under every schedule: the files up to the limit, with any sections, and no others. */
  lemma LevelZeroRoundTripIff(c: Lzma2, s: seq<byte>, order: seq<nat>)
    requires Lawful(c) && Readable(s) && IsSchedule(order, Passes(0, Parse(s)))
    requires InBounds(Chunks(Parse(s), |s|), |s|) && Works(c, s, 0, order)
    ensures Unpack(c, Written(c, s, 0, order)) == Unpacked(s) <==> |s| <= MAX_OUTPUT
  {
    LevelZeroUndone(c, s, order);
    OneBlockRoundTripIff(c, s, 0, order);
  }

  /** Both layouts, whatever the size of the file: a block is restored exactly when the decoder accepts it, chunks are
      exactly when the decoder accepts each of them and the sections do not overlap. */
  lemma RoundTripIff(c: Lzma2, s: seq<byte>, level: nat, order: seq<nat>)
    requires Lawful(c) && Readable(s) && |s| < WRAP64 && IsSchedule(order, Passes(level, Parse(s)))
    requires InBounds(Chunks(Parse(s), |s|), |s|) && Works(c, s, level, order)
    requires if OneBlock(c, s, level, order) then WinnerUndone(c, s, level, order)
        else AllFit(ChunkRecords(c, s, level))
    ensures Unpack(c, Written(c, s, level, order)) == Unpacked(s)
       <==> if OneBlock(c, s, level, order) then |s| <= MAX_OUTPUT
            else (Parse(s).Elf? ==> Disjoint(Parse(s).sections, 0, |s|)) && WithinLimit(Chunks(Parse(s), |s|))
  {
    if OneBlock(c, s, level, order) {
      OneBlockRoundTripIff(c, s, level, order);
    } else {
      MultiRoundTripIff(c, s, level);
    }
  }

  /** The archive has exactly the smaller of the two sizes, of those that are there. */
  lemma WrittenIsSmallest(c: Lzma2, s: seq<byte>, level: nat, order: seq<nat>)
    requires Readable(s) && InBounds(Chunks(Parse(s), |s|), |s|) && Works(c, s, level, order)
    ensures var single := SingleBest(c, s, level, order);
            |Written(c, s, level, order)| ==
              if level == 0 || !AllSucceed(ChunkResults(c, s, level)) then SingleTotal(single.value)
              else if single.None? then MultiTotal(ChunkRecords(c, s, level))
              else Min(SingleTotal(single.value), MultiTotal(ChunkRecords(c, s, level)))
  {
    var single := SingleBest(c, s, level, order);
    if single.Some? {
      ArchiveSize(|s|, [Record(single.value, |s|)]);
      OnePayload(Record(single.value, |s|));
    }
    if level > 0 && AllSucceed(ChunkResults(c, s, level)) {
      ArchiveSize(|s|, ChunkRecords(c, s, level));
      PayloadOfRecords(ChunkResults(c, s, level), Chunks(Parse(s), |s|));
    }
  }

  function Min(a: nat, b: nat): nat {
    if a < b then a else b
  }

  /** No pass at all would have given a smaller single block. */
  lemma NoPassIsSmaller(c: Lzma2, s: seq<byte>, level: nat, order: seq<nat>, p: nat)
    requires Readable(s) && InBounds(Chunks(Parse(s), |s|), |s|)
    requires IsSchedule(order, Passes(level, Parse(s))) && p < Passes(level, Parse(s))
    requires Attempt(c, PassCandidate(s, level, p), level).Some?
    ensures var single := SingleBest(c, s, level, order);
            && single.Some?
            && SingleTotal(single.value) <= SingleTotal(Attempt(c, PassCandidate(s, level, p), level).value)
  {
    var outcomes := Attempts(c, PassCandidates(s, level), level);
    EveryScheduleFindsSmallest(outcomes, order);
    assert outcomes[p] == Attempt(c, PassCandidate(s, level, p), level);
    assert outcomes[p] in outcomes;
  }

  /** The settings of one call of the library. */
  function SettingsOf(size: nat, lc: nat, lp: nat, pb: nat, level: nat): Settings {
    Settings(DictSize(size, level), lc, lp, pb,
             if level >= 3 then 500000 else if level == 2 then 4096 else if level == 1 then 256 else 48)
  }

  /** Whatever the library makes of the file under any transform in the table and any choice of lc, lp and pb that the
      level tries, the single block is not longer. */
  lemma NothingTriedIsSmaller(c: Lzma2, s: seq<byte>, level: nat, order: seq<nat>, t: byte, lc: nat, lp: nat, pb: nat)
    requires Readable(s) && InBounds(Chunks(Parse(s), |s|), |s|) && IsSchedule(order, Passes(level, Parse(s)))
    requires InTable(level, Parse(s), t) && Applicable(t, Parse(s)) && IsTried(level, lc, lp, pb)
    ensures var z := c.encode(EncodeBlob(t, s), SettingsOf(|s|, lc, lp, pb, level));
            z.Some? ==>
              && SingleBest(c, s, level, order).Some?
              && |SingleBest(c, s, level, order).value.bytes| <= 1 + |z.value|
  {
    var p := TriedIsPass(s, level, t, lc, lp, pb);
    var z := c.encode(EncodeBlob(t, s), SettingsOf(|s|, lc, lp, pb, level));
    if z.Some? {
      assert Attempt(c, PassCandidate(s, level, p), level).Some?;
      hide EncodeBlob, Parse, Chunks, Readable, InBounds, SingleBest, DictSize, IsSchedule, PassCandidate;
      NoPassIsSmaller(c, s, level, order, p);
    }
  }

  /** Nor is the whole archive longer than such a block would be with its 29 bytes of headers. */
  lemma ArchiveIsNotLonger(c: Lzma2, s: seq<byte>, level: nat, order: seq<nat>, t: byte, lc: nat, lp: nat, pb: nat)
    requires Readable(s) && InBounds(Chunks(Parse(s), |s|), |s|) && IsSchedule(order, Passes(level, Parse(s)))
    requires InTable(level, Parse(s), t) && Applicable(t, Parse(s)) && IsTried(level, lc, lp, pb)
    requires Works(c, s, level, order)
    ensures var z := c.encode(EncodeBlob(t, s), SettingsOf(|s|, lc, lp, pb, level));
            z.Some? ==> |Written(c, s, level, order)| <= 29 + 1 + |z.value|
  {
    hide EncodeBlob, Parse, Chunks, Readable, InBounds, SingleBest, DictSize, IsSchedule, SettingsOf, InTable, IsTried,
         Applicable, Written, ChunkResults, AllSucceed;
    NothingTriedIsSmaller(c, s, level, order, t, lc, lp, pb);
    WrittenIsSmallest(c, s, level, order);
  }

  lemma TriedIsPass(s: seq<byte>, level: nat, t: byte, lc: nat, lp: nat, pb: nat) returns (p: nat)
    requires Readable(s) && InBounds(Chunks(Parse(s), |s|), |s|)
    requires InTable(level, Parse(s), t) && Applicable(t, Parse(s)) && IsTried(level, lc, lp, pb)
    ensures p < Passes(level, Parse(s))
    ensures PassCandidate(s, level, p) == Candidate(t, EncodeBlob(t, s), lc, lp, pb)
  {
    hide Parse, Chunks, Readable, InBounds, EncodeBlob, InTable, IsTried, Applicable, Combo, Modes;
    var modes := Modes(level, Parse(s));
    ModesAre(level, Parse(s), t);
    var i := TriedIsCombo(level, lc, lp, pb);
    var m: nat :| m < |modes| && modes[m] == t;
    p := i * |modes| + m;
    EachPairOnce(level, |modes|, i, m, p);
    CandidateIs(s, level, p, i, m);
  }

  lemma CandidateIs(s: seq<byte>, level: nat, p: nat, i: nat, m: nat)
    requires Readable(s) && InBounds(Chunks(Parse(s), |s|), |s|)
    requires p < Passes(level, Parse(s)) && m < |Modes(level, Parse(s))| && i < ComboCount(level)
    requires p / |Modes(level, Parse(s))| == i && p % |Modes(level, Parse(s))| == m
    ensures Applicable(Modes(level, Parse(s))[m], Parse(s))
    ensures var (lc, lp, pb) := Combo(level, i); var t := Modes(level, Parse(s))[m];
            PassCandidate(s, level, p) == Candidate(t, EncodeBlob(t, s), lc, lp, pb)
  {
    hide Parse, Chunks, Readable, InBounds, EncodeBlob, Applicable, Combo, Modes;
    PassIsValid(level, Parse(s), p);
  }

  /** And the block that is kept is one of those. */
  lemma WinnerIsTried(c: Lzma2, s: seq<byte>, level: nat, order: seq<nat>) returns (lc: nat, lp: nat, pb: nat)
    requires Readable(s) && InBounds(Chunks(Parse(s), |s|), |s|)
    requires IsSchedule(order, Passes(level, Parse(s))) && SingleBest(c, s, level, order).Some?
    ensures var best := SingleBest(c, s, level, order).value;
            var p := SettingsOf(|s|, lc, lp, pb, level);
            && InTable(level, Parse(s), best.kind) && Applicable(best.kind, Parse(s)) && IsTried(level, lc, lp, pb)
            && c.encode(EncodeBlob(best.kind, s), p).Some?
            && best.bytes == [c.property(p)] + c.encode(EncodeBlob(best.kind, s), p).value
  {
    hide SingleBest, EncodeBlob, Parse, Chunks, Readable, InBounds, IsSchedule, DictSize, InTable, IsTried, Applicable,
         Passes, PassCandidate;
    var p := WinnerIsPass(c, s, level, order);
    lc, lp, pb := PassIsTried(s, level, p);
  }

  lemma PassIsTried(s: seq<byte>, level: nat, p: nat) returns (lc: nat, lp: nat, pb: nat)
    requires Readable(s) && InBounds(Chunks(Parse(s), |s|), |s|) && p < Passes(level, Parse(s))
    ensures var t := PassKind(level, Parse(s), p);
            && InTable(level, Parse(s), t) && IsTried(level, lc, lp, pb)
            && PassCandidate(s, level, p) == Candidate(t, EncodeBlob(t, s), lc, lp, pb)
  {
    hide Parse, Chunks, Readable, InBounds, EncodeBlob, InTable, IsTried, Combo, Modes;
    var combo := PassCombo(level, Parse(s), p);
    lc, lp, pb := combo.0, combo.1, combo.2;
    PassIsValid(level, Parse(s), p);
    CombosAreTried(level, p / |Modes(level, Parse(s))|);
    ModesAre(level, Parse(s), PassKind(level, Parse(s), p));
  }

  // ----- What is tried on a chunk

  /** Plain bytes with two settings; ARM64 code of at least 16 bytes as type 1; at least 4 bytes as type 2. At level 0
      only plain bytes with the first settings. */
  predicate TriedOnChunk(cand: Candidate, x: seq<byte>, isCode: bool, info: ElfInfo, level: nat) {
    || (cand.kind == 0 && cand.input == x && cand.lc == 3 && cand.lp == 0 && cand.pb == 2)
    || (level >= 1 && cand.kind == 0 && cand.input == x && cand.lc == 2 && cand.lp == 2 && cand.pb == 2)
    || (level >= 1 && cand.kind == 1 && cand.input == CodePipeline.EncodeCode(x) && cand.lc == cand.lp == cand.pb == 0
        && isCode && info.Elf? && info.arch.Arm64? && |x| >= 16)
    || (level >= 1 && cand.kind == 2 && cand.input == PlanesAndDelta.Delta(x) && cand.lc == cand.lp == cand.pb == 0
        && |x| >= 4)
  }

  lemma ChunkTriesAre(cand: Candidate, x: seq<byte>, isCode: bool, info: ElfInfo, level: nat)
    ensures cand in ChunkCandidates(x, isCode, info, level) <==> TriedOnChunk(cand, x, isCode, info, level)
  {
    hide CodePipeline.EncodeCode, PlanesAndDelta.Delta;
  }

  /** A chunk is stored as the outcome of one of those attempts, and none of them gives fewer bytes. */
  lemma ChunkBestIsSmallest(c: Lzma2, x: seq<byte>, isCode: bool, info: ElfInfo, level: nat)
    ensures var best := ChunkBest(c, x, isCode, info, level);
            && (best.Some? ==>
                  exists cand :: TriedOnChunk(cand, x, isCode, info, level) && Attempt(c, cand, level) == best)
            && (forall cand :: TriedOnChunk(cand, x, isCode, info, level) && Attempt(c, cand, level).Some? ==>
                  best.Some? && |best.value.bytes| <= |Attempt(c, cand, level).value.bytes|)
  {
    var cands := ChunkCandidates(x, isCode, info, level);
    var outcomes := Attempts(c, cands, level);
    var best := ChunkBest(c, x, isCode, info, level);
    BestOfIsBest(outcomes);
    hide ChunkCandidates, TriedOnChunk, Attempt;
    if best.Some? {
      var i :| 0 <= i < |cands| && outcomes[i] == best;
      ChunkTriesAre(cands[i], x, isCode, info, level);
    }
    forall cand | TriedOnChunk(cand, x, isCode, info, level) && Attempt(c, cand, level).Some?
      ensures best.Some? && |best.value.bytes| <= |Attempt(c, cand, level).value.bytes|
    {
      ChunkTriesAre(cand, x, isCode, info, level);
      var i :| 0 <= i < |cands| && cands[i] == cand;
      assert outcomes[i] in outcomes;
    }
  }

  /** Every chunk is tried by itself, with its own flag. */
  lemma {:induction false} ChunkResultAt(c: Lzma2, s: seq<byte>, chunks: seq<Extent>, info: ElfInfo, level: nat, i: nat)
    requires InBounds(chunks, |s|) && i < |chunks|
    ensures chunks[i] in chunks
    ensures Results(c, s, chunks, info, level)[i] ==
            ChunkBest(c, s[chunks[i].offset..chunks[i].End()], chunks[i].isCode, info, level)
    decreases chunks
  {
    hide ChunkBest;
    if i > 0 {
      assert InBounds(chunks[1..], |s|);
      ChunkResultAt(c, s, chunks[1..], info, level, i - 1);
    }
  }

  /** When all chunks succeeded, the block is written only if its archive is shorter than theirs. */
  lemma OneBlockIff(c: Lzma2, s: seq<byte>, level: nat, order: seq<nat>)
    requires Readable(s) && InBounds(Chunks(Parse(s), |s|), |s|)
    requires level > 0 && AllSucceed(ChunkResults(c, s, level))
    ensures var single := SingleBest(c, s, level, order);
            OneBlock(c, s, level, order) <==>
              single.Some? && 29 + |single.value.bytes| < |Archive(|s|, ChunkRecords(c, s, level))|
  {
    hide Parse, Readable, SingleBest, Archive, ChunkResults;
    ArchiveSize(|s|, ChunkRecords(c, s, level));
    PayloadOfRecords(ChunkResults(c, s, level), Chunks(Parse(s), |s|));
  }

  /** One failed chunk makes the total of the chunks wrap to one byte less than what the others take. */
  lemma TotalWithOneFailure(results: seq<Option<Packed>>, i: nat)
    requires i < |results| && results[i].None?
    requires 19 + 9 * |results| + TotalPayload(results[..i] + results[i + 1..]) < 0x1_0000_0000_0000_0000
    ensures NotedTotal(results) == 19 + 9 * |results| + TotalPayload(results[..i] + results[i + 1..])
  {
    PayloadOfSum(results[..i], results[i + 1..]);
    PayloadOfSum(results[..i], results[i..]);
    assert results == results[..i] + results[i..] && results[i..][1..] == results[i + 1..];
    ModUnique(20 + 9 * |results| + TotalPayload(results), WRAP64, 1,
              19 + 9 * |results| + TotalPayload(results[..i] + results[i + 1..]));
  }

  lemma {:induction false} PayloadOfSum(a: seq<Option<Packed>>, b: seq<Option<Packed>>)
    ensures TotalPayload(a + b) == TotalPayload(a) + TotalPayload(b)
    decreases a
  {
    if a == [] {
      assert a + b == b;
    } else {
      assert (a + b)[1..] == a[1..] + b;
      PayloadOfSum(a[1..], b);
    }
  }

  /** The bytes of an archive of one block, from first to last. */
  lemma BlockBytes(c: Lzma2, s: seq<byte>, level: nat, order: seq<nat>)
    requires Readable(s) && InBounds(Chunks(Parse(s), |s|), |s|) && OneBlock(c, s, level, order)
    ensures var best := SingleBest(c, s, level, order).value;
            var magic := ['U' as int, 'C' as int, 'O' as int, 'M' as int, 'P' as int, '0' as int, '1' as int, 0];
            Written(c, s, level, order) ==
              magic + Le(|s|, 8) + Le(1, 4) + [best.kind] + Le(|s|, 4) + Le(|best.bytes|, 4) + best.bytes
  {
    hide Le, SingleBest;
    var r := Record(SingleBest(c, s, level, order).value, |s|);
    assert [r][1..] == [] && Body([]) == [];
    assert Body([r]) == RecordBytes(r);
  }

  lemma OnePayload(r: Record)
    ensures PayloadSize([r]) == |r.packed.bytes|
  {
    assert [r][1..] == [];
  }
}
