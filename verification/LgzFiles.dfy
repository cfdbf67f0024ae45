/** The compressor and the decompressor as the programs they are, over buffers updated in place
    (selfcode/lgz/lgzv3.c, lines 319-378 and 457-1008). */
module LgzFiles {
  import opened Bytes
  import opened ElfSections
  import opened Parts
  import opened Codec
  import opened Selection
  import opened Container
  import opened Blobs
  import opened Compressor
  import PlanesAndDelta
  import CodePipeline

  // ----- Undoing one transform in place

  method UndoSectionsInPlace(buf: array<byte>, t: nat) returns (defined: bool)
    modifies buf
    ensures defined == UndoSections(old(buf[..]), t).Restored?
    ensures defined ==> buf[..] == UndoSections(old(buf[..]), t).bytes
  {
    if !Readable(buf[..]) {
      return false;
    }
    var info := ParseElfSections(buf);
    if info.NotElf? {
      return true;
    }
    if !CodeInBounds(info.sections, buf.Length) {
      return false;
    }
    FilterParts(buf, info.sections, UndoFilter(t, info.arch));
    return true;
  }

  method UndeltaAll(buf: array<byte>)
    modifies buf
    ensures buf[..] == PlanesAndDelta.Undelta(old(buf[..]))
  {
    hide *;
    ghost var was := buf[..];
    ghost var goal := PlanesAndDelta.Undelta(was);
    assert buf[0..0 + buf.Length] == was;
    PlanesAndDelta.UndeltaInPlace(buf, 0, buf.Length);
    SpliceWhole(was, goal);
  }

  method DecodeCodeAll(buf: array<byte>)
    modifies buf
    ensures buf[..] == CodePipeline.DecodeCode(old(buf[..]))
  {
    hide *;
    ghost var was := buf[..];
    ghost var goal := CodePipeline.DecodeCode(was);
    assert buf[0..0 + buf.Length] == was;
    CodePipeline.DecodeCodeInPlace(buf, 0, buf.Length);
    SpliceWhole(was, goal);
  }

  method UndoInPlace(t: nat, buf: array<byte>) returns (defined: bool)
    modifies buf
    ensures defined == DecodeBlob(t, old(buf[..])).Restored?
    ensures defined ==> buf[..] == DecodeBlob(t, old(buf[..])).bytes
  {
    hide UndoSections, PlanesAndDelta.Undelta, CodePipeline.DecodeCode;
    defined := true;
    if t == CODE_CHUNK {
      DecodeCodeAll(buf);
    } else if t == DELTA_CHUNK {
      UndeltaAll(buf);
    } else if t == BRANCHES || t == CODE_BLOB {
      defined := UndoSectionsInPlace(buf, t);
    } else if t == DELTA_BLOB {
      UndeltaAll(buf);
    } else if t == BRANCHES_DELTA {
      UndeltaAll(buf);
      defined := UndoSectionsInPlace(buf, t);
    }
  }

  // ----- decompress_file

  method ToArray(s: seq<byte>) returns (a: array<byte>)
    ensures fresh(a) && a[..] == s
  {
    a := new byte[|s|];
    forall i | 0 <= i < |s| {
      a[i] := s[i];
    }
  }

  method UnpackFront(c: Lzma2, f: Front) returns (r: Result)
    ensures r == UnpackOne(c, f)
  {
    var y := Decompress(c, f.payload, f.orig);
    if y.None? {
      return CodecError;
    }
    var buf := ToArray(y.value);
    var defined := UndoInPlace(f.kind, buf);
    r := if defined then Unpacked(buf[..]) else Result.Undefined;
  }

  method DecompressFile(c: Lzma2, archive: seq<byte>) returns (r: Result)
    ensures r == Unpack(c, archive)
  {
    if |archive| < HEADER || archive[..8] != MAGIC {
      return BadMagic;
    }
    var size, chunks := Value(archive[8..16]), Value(archive[16..20]);
    r := DecompressChunks(c, archive, size, chunks);
  }

  method DecompressChunks(c: Lzma2, archive: seq<byte>, size: nat, chunks: nat) returns (r: Result)
    requires |archive| >= HEADER
    ensures r == UnpackChunks(c, archive[HEADER..], chunks, [], size)
  {
    hide *;
    ghost var goal := UnpackChunks(c, archive[HEADER..], chunks, [], size);
    var output := new byte[size];
    var pos: nat, outPos: nat, i := HEADER, 0, 0;
    assert output[..0] == [];
    while i < chunks
      invariant i <= chunks && pos <= |archive| && outPos <= size
      invariant goal == UnpackChunks(c, archive[pos..], chunks - i, output[..outPos], size)
    {
      ghost var rest, done := archive[pos..], output[..outPos];
      UnpackStep(c, rest, chunks - i, done, size);
      if !HasFront(archive[pos..]) {
        return Result.Undefined;
      }
      var f := FrontOf(archive[pos..]);
      var one := UnpackFront(c, f);
      if !one.Unpacked? {
        return one;
      }
      if outPos + |one.bytes| > size {
        return Result.Undefined;
      }
      AppendOutput(output, outPos, one.bytes);
      pos := RestStart(archive, pos);
      outPos := outPos + |one.bytes|;
      i := i + 1;
    }
    UnpackEnd(c, archive[pos..], output[..outPos], size);
    r := if outPos == size then Unpacked(output[..]) else Result.Undefined;
    assert outPos == size ==> output[..outPos] == output[..];
  }

  method AppendOutput(output: array<byte>, outPos: nat, t: seq<byte>)
    requires outPos + |t| <= output.Length
    modifies output
    ensures output[..outPos + |t|] == old(output[..outPos]) + t
  {
    StoreBytes(output, outPos, t);
  }

  lemma UnpackStep(c: Lzma2, a: seq<byte>, n: nat, done: seq<byte>, size: nat)
    requires n > 0
    ensures !HasFront(a) ==> UnpackChunks(c, a, n, done, size) == Result.Undefined
    ensures HasFront(a) ==>
              var f := FrontOf(a);
              var r := UnpackOne(c, f);
              UnpackChunks(c, a, n, done, size) ==
                if !r.Unpacked? then r
                else if |done| + |r.bytes| > size then Result.Undefined
                else UnpackChunks(c, f.rest, n - 1, done + r.bytes, size)
  {
    hide UnpackOne;
  }

  lemma UnpackEnd(c: Lzma2, a: seq<byte>, done: seq<byte>, size: nat)
    ensures UnpackChunks(c, a, 0, done, size) == if |done| == size then Unpacked(done) else Result.Undefined
  {}

  /** pos moves over the chunk header and the payload. */
  method RestStart(archive: seq<byte>, pos: nat) returns (next: nat)
    requires pos <= |archive| && HasFront(archive[pos..])
    ensures next <= |archive| && archive[next..] == FrontOf(archive[pos..]).rest
  {
    next := pos + CHUNK_HEADER + Value(archive[pos..][5..9]);
  }

  // ----- compress_chunk_best

  method Consider(c: Lzma2, cand: Candidate, level: nat, best: Option<Packed>) returns (next: Option<Packed>)
    ensures next == Keep(best, Attempt(c, cand, level))
  {
    var outcome := Attempt(c, cand, level);
    if outcome.Some? && (best.None? || |outcome.value.bytes| < |best.value.bytes|) {
      next := outcome;
    } else {
      next := best;
    }
  }

  lemma BestOfMore(c: Lzma2, cands: seq<Candidate>, cand: Candidate, level: nat)
    ensures BestOf(Attempts(c, cands + [cand], level))
        == Keep(BestOf(Attempts(c, cands, level)), Attempt(c, cand, level))
  {
    var more := Attempts(c, cands + [cand], level);
    assert more[..|more| - 1] == Attempts(c, cands, level);
  }

  method CompressChunkBest(c: Lzma2, x: seq<byte>, isCode: bool, info: ElfInfo, level: nat)
      returns (best: Option<Packed>)
    ensures best == ChunkBest(c, x, isCode, info, level)
  {
    hide Attempt, PlanesAndDelta.Delta, CodePipeline.EncodeCode;
    ghost var tried: seq<Candidate> := [];
    best := None;
    var plain := Candidate(0, x, 3, 0, 2);
    BestOfMore(c, tried, plain, level);
    best := Consider(c, plain, level, best);
    tried := tried + [plain];
    if level == 0 {
      assert tried == ChunkCandidates(x, isCode, info, level);
      return;
    }
    var aligned := Candidate(0, x, 2, 2, 2);
    BestOfMore(c, tried, aligned, level);
    best := Consider(c, aligned, level, best);
    tried := tried + [aligned];
    if isCode && info.Elf? && info.arch.Arm64? && |x| >= 16 {
      var tmp := ToArray(x);
      EncodeCodeAll(tmp);
      var code := Candidate(1, tmp[..], 0, 0, 0);
      BestOfMore(c, tried, code, level);
      best := Consider(c, code, level, best);
      tried := tried + [code];
    }
    if |x| >= 4 {
      var tmp := ToArray(x);
      DeltaAll(tmp);
      var delta := Candidate(2, tmp[..], 0, 0, 0);
      BestOfMore(c, tried, delta, level);
      best := Consider(c, delta, level, best);
      tried := tried + [delta];
    }
    assert tried == ChunkCandidates(x, isCode, info, level);
  }

  method DeltaAll(buf: array<byte>)
    modifies buf
    ensures buf[..] == PlanesAndDelta.Delta(old(buf[..]))
  {
    hide *;
    ghost var was := buf[..];
    ghost var goal := PlanesAndDelta.Delta(was);
    assert buf[0..0 + buf.Length] == was;
    PlanesAndDelta.DeltaInPlace(buf, 0, buf.Length);
    SpliceWhole(was, goal);
  }

  method EncodeCodeAll(buf: array<byte>)
    modifies buf
    ensures buf[..] == CodePipeline.EncodeCode(old(buf[..]))
  {
    hide *;
    ghost var was := buf[..];
    ghost var goal := CodePipeline.EncodeCode(was);
    assert buf[0..0 + buf.Length] == was;
    CodePipeline.EncodeCodeInPlace(buf, 0, buf.Length);
    SpliceWhole(was, goal);
  }

  lemma ResultsStep(c: Lzma2, s: seq<byte>, chunks: seq<Extent>, i: nat, info: ElfInfo, level: nat)
    requires i < |chunks| && InBounds(chunks[i..], |s|)
    ensures InBounds(chunks[i + 1..], |s|) && chunks[i].End() <= |s|
    ensures Results(c, s, chunks[i..], info, level)
         == [ChunkBest(c, s[chunks[i].offset..chunks[i].End()], chunks[i].isCode, info, level)]
            + Results(c, s, chunks[i + 1..], info, level)
  {
    hide ChunkBest;
    assert chunks[i..][0] == chunks[i] && chunks[i..][1..] == chunks[i + 1..];
    assert chunks[i] in chunks[i..];
  }

  method CompressChunks(c: Lzma2, data: array<byte>, chunks: seq<Extent>, info: ElfInfo, level: nat)
      returns (results: seq<Option<Packed>>)
    requires InBounds(chunks, data.Length)
    ensures results == Results(c, data[..], chunks, info, level)
  {
    hide ChunkBest, Results, InBounds;
    results := [];
    var i := 0;
    ghost var s := data[..];
    assert chunks[0..] == chunks;
    while i < |chunks|
      invariant i <= |chunks| && InBounds(chunks[i..], |s|)
      invariant Results(c, s, chunks, info, level) == results + Results(c, s, chunks[i..], info, level)
    {
      ResultsStep(c, s, chunks, i, info, level);
      var best := CompressChunk(c, data, chunks[i], info, level);
      assert results + ([best] + Results(c, s, chunks[i + 1..], info, level)) ==
             (results + [best]) + Results(c, s, chunks[i + 1..], info, level);
      results := results + [best];
      i := i + 1;
    }
    NoResults(c, s, chunks, info, level);
  }

  method CompressChunk(c: Lzma2, data: array<byte>, p: Extent, info: ElfInfo, level: nat) returns (best: Option<Packed>)
    requires p.End() <= data.Length
    ensures best == ChunkBest(c, data[..][p.offset..p.End()], p.isCode, info, level)
  {
    hide ChunkBest;
    assert data[p.offset..p.End()] == data[..][p.offset..p.End()];
    best := CompressChunkBest(c, data[p.offset..p.End()], p.isCode, info, level);
  }

  lemma NoResults(c: Lzma2, s: seq<byte>, chunks: seq<Extent>, info: ElfInfo, level: nat)
    requires InBounds(chunks[|chunks|..], |s|)
    ensures Results(c, s, chunks[|chunks|..], info, level) == []
  {}

  // ----- The mode table

  datatype Mode = Mode(blob: seq<byte>, kind: byte)

  ghost predicate AllApply(kinds: seq<byte>, info: ElfInfo) {
    forall i :: 0 <= i < |kinds| ==> Applicable(kinds[i], info)
  }

  ghost function ModeTable(s: seq<byte>, kinds: seq<byte>): (r: seq<Mode>)
    requires Readable(s) && InBounds(Chunks(Parse(s), |s|), |s|) && AllApply(kinds, Parse(s))
    ensures |r| == |kinds|
  {
    seq(|kinds|, i requires 0 <= i < |kinds| => Mode(EncodeBlob(kinds[i], s), kinds[i]))
  }

  /** A copy of the file with its code parts filtered. */
  method FilteredCopy(data: array<byte>, chunks: seq<Extent>, k: Filter) returns (copy: array<byte>)
    requires InBounds(chunks, data.Length)
    ensures fresh(copy) && copy[..] == Filtered(data[..], chunks, k)
  {
    copy := ToArray(data[..]);
    FilterParts(copy, chunks, k);
  }

  /** The transformed file of one kind. */
  method BuildBlob(data: array<byte>, info: ElfInfo, chunks: seq<Extent>, kind: byte) returns (blob: seq<byte>)
    requires Readable(data[..]) && info == Parse(data[..]) && chunks == Chunks(info, data.Length)
    requires InBounds(chunks, data.Length) && Applicable(kind, info)
    ensures blob == EncodeBlob(kind, data[..])
  {
    hide Filtered, PlanesAndDelta.Delta;
    var buf;
    if kind == BRANCHES || kind == BRANCHES_DELTA {
      buf := FilteredCopy(data, chunks, NormalizeBranches(info.arch));
    } else if kind == CODE_BLOB {
      buf := FilteredCopy(data, chunks, EncodeCode);
    } else {
      buf := ToArray(data[..]);
    }
    if kind == DELTA_BLOB || kind == BRANCHES_DELTA {
      DeltaAll(buf);
    }
    blob := buf[..];
  }

  method BuildModes(data: array<byte>, info: ElfInfo, chunks: seq<Extent>, level: nat) returns (table: seq<Mode>)
    requires Readable(data[..]) && info == Parse(data[..]) && chunks == Chunks(info, data.Length)
    requires InBounds(chunks, data.Length)
    ensures AllApply(Modes(level, info), info) && table == ModeTable(data[..], Modes(level, info))
  {
    ModesApply(level, info);
    var kinds := Modes(level, info);
    hide EncodeBlob, Applicable, Modes;
    table := [];
    var i := 0;
    while i < |kinds|
      invariant i <= |kinds| && |table| == i
      invariant forall j :: 0 <= j < i ==> table[j] == Mode(EncodeBlob(kinds[j], data[..]), kinds[j])
    {
      var blob := BuildBlob(data, info, chunks, kinds[i]);
      table := table + [Mode(blob, kinds[i])];
      i := i + 1;
    }
  }

  // ----- The parallel loop

  /** The i-th arrival is the attempt that pass order[i] makes from the mode table. */
  ghost predicate ArrivesFrom(c: Lzma2, table: seq<Mode>, level: nat, order: seq<nat>, arrived: seq<Option<Packed>>,
      i: nat)
    requires i < |order| == |arrived|
  {
    var p := order[i];
    && |table| > 0 && p / |table| < ComboCount(level)
    && arrived[i] == Attempt(c, TableCandidate(table, level, p), level)
  }

  function TableCandidate(table: seq<Mode>, level: nat, p: nat): Candidate
    requires |table| > 0 && p / |table| < ComboCount(level)
  {
    var mode := table[p % |table|];
    var combo := Combo(level, p / |table|);
    Candidate(mode.kind, mode.blob, combo.0, combo.1, combo.2)
  }

  lemma PassOfTable(s: seq<byte>, kinds: seq<byte>, level: nat, p: nat)
    requires Readable(s) && InBounds(Chunks(Parse(s), |s|), |s|)
    requires kinds == Modes(level, Parse(s)) && AllApply(kinds, Parse(s)) && p < Passes(level, Parse(s))
    ensures |kinds| > 0 && p / |kinds| < ComboCount(level)
    ensures TableCandidate(ModeTable(s, kinds), level, p) == PassCandidate(s, level, p)
  {
    hide Modes, Combo, EncodeBlob, Readable, InBounds, Applicable;
    PassIsValid(level, Parse(s), p);
  }

  lemma ArrivalIs(c: Lzma2, s: seq<byte>, level: nat, order: seq<nat>, i: nat)
    requires Readable(s) && InBounds(Chunks(Parse(s), |s|), |s|)
    requires IsSchedule(order, Passes(level, Parse(s))) && i < |order|
    ensures order[i] < Passes(level, Parse(s))
    ensures Arrange(Attempts(c, PassCandidates(s, level), level), order)[i]
        == Attempt(c, PassCandidate(s, level, order[i]), level)
  {
    hide PassCandidate, Attempt, Modes, Readable, InBounds;
    assert order[i] in order;
  }

  /** The passes enter the critical section in the given order; each runs the codec on its own first. */
  method RunInOrder(c: Lzma2, table: seq<Mode>, level: nat, order: seq<nat>, ghost arrived: seq<Option<Packed>>)
    returns (best: Option<Packed>)
    requires |arrived| == |order|
    requires forall i :: 0 <= i < |order| ==> ArrivesFrom(c, table, level, order, arrived, i)
    ensures best == BestOf(arrived)
  {
    hide Attempt, Combo;
    best := None;
    var i := 0;
    while i < |order|
      invariant i <= |order|
      invariant best == BestOf(arrived[..i])
    {
      assert ArrivesFrom(c, table, level, order, arrived, i);
      assert arrived[..i + 1][..i] == arrived[..i];
      best := Consider(c, TableCandidate(table, level, order[i]), level, best);
      i := i + 1;
    }
    assert arrived[..i] == arrived;
  }

  method RunPasses(c: Lzma2, ghost s: seq<byte>, table: seq<Mode>, level: nat, order: seq<nat>)
      returns (best: Option<Packed>)
    requires Readable(s) && InBounds(Chunks(Parse(s), |s|), |s|)
    requires AllApply(Modes(level, Parse(s)), Parse(s)) && table == ModeTable(s, Modes(level, Parse(s)))
    requires IsSchedule(order, Passes(level, Parse(s)))
    ensures best == SingleBest(c, s, level, order)
  {
    ghost var arrived := Arrange(Attempts(c, PassCandidates(s, level), level), order);
    hide PassCandidate, Attempt, Attempts, Arrange, Modes, ModeTable, PassCandidates, TableCandidate, Combo, IsSchedule,
         Readable, InBounds, AllApply;
    forall i | 0 <= i < |order|
      ensures ArrivesFrom(c, table, level, order, arrived, i)
    {
      ArrivalIs(c, s, level, order, i);
      PassOfTable(s, Modes(level, Parse(s)), level, order[i]);
    }
    best := RunInOrder(c, table, level, order, arrived);
  }

  // ----- Writing

  method WriteArchive(size: nat, records: seq<Record>) returns (out: seq<byte>)
    ensures out == Archive(size, records)
  {
    out := ArchiveHeader(size, |records|);
    ghost var header := out;
    var i := 0;
    assert records[0..] == records;
    while i < |records|
      invariant i <= |records|
      invariant header + Body(records) == out + Body(records[i..])
    {
      assert records[i..][0] == records[i] && records[i..][1..] == records[i + 1..];
      out := out + RecordBytes(records[i]);
      i := i + 1;
    }
    assert records[i..] == [];
  }

  // ----- compress_file

  method SumPayload(results: seq<Option<Packed>>) returns (total: nat)
    ensures total == TotalPayload(results)
  {
    total := 0;
    var i := 0;
    assert results[0..] == results;
    while i < |results|
      invariant i <= |results| && TotalPayload(results) == total + TotalPayload(results[i..])
    {
      assert results[i..][0] == results[i] && results[i..][1..] == results[i + 1..];
      total := total + CompSize(results[i]);
      i := i + 1;
    }
  }

  /** The end of compress_file: the two totals are compared and one layout is written. */
  method WriteSmaller(size: nat, level: nat, single: Option<Packed>, results: seq<Option<Packed>>, chunks: seq<Extent>)
    returns (archive: seq<byte>)
    requires |results| == if level == 0 then 0 else |chunks|
    requires ChoosesBlock(level, single, results) || (level > 0 && AllSucceed(results))
    ensures archive == if ChoosesBlock(level, single, results) then Archive(size, [Record(single.value, size)])
                       else Archive(size, Records(results, chunks))
  {
    hide Archive, Records;
    var multiTotal := 0;
    if level > 0 {
      var payload := SumPayload(results);
      multiTotal := HEADER + CHUNK_HEADER * |results| + payload;
      if !AllSucceed(results) {
        multiTotal := multiTotal % WRAP64;
      }
    }
    if single.Some? && (level == 0 || HEADER + CHUNK_HEADER + |single.value.bytes| < multiTotal) {
      archive := WriteArchive(size, [Record(single.value, size)]);
    } else {
      archive := WriteArchive(size, Records(results, chunks));
    }
  }

  predicate ChoosesBlock(level: nat, single: Option<Packed>, results: seq<Option<Packed>>) {
    single.Some? && (level == 0 || SingleTotal(single.value) < NotedTotal(results))
  }

  /** The whole program. It needs the section table and the chunks to lie in the file and the codec to give it something
      to write; what it writes decompresses to its input if the file qualifies. */
  method CompressFile(c: Lzma2, data: array<byte>, level: nat, order: seq<nat>) returns (archive: seq<byte>)
    requires Readable(data[..]) && InBounds(Chunks(Parse(data[..]), data.Length), data.Length)
    requires IsSchedule(order, Passes(level, Parse(data[..]))) && Works(c, data[..], level, order)
    ensures archive == Written(c, data[..], level, order)
    ensures Lawful(c) && (WellLaidOut(data[..]) || level == 0) && data.Length <= MAX_OUTPUT ==>
              Unpack(c, archive) == Unpacked(data[..])
  {
    ghost var s := data[..];
    var info := ParseElfSections(data);
    var chunks := BuildChunks(info, data.Length);
    if Lawful(c) && |s| <= MAX_OUTPUT {
      if level == 0 {
        LevelZeroRoundTripIff(c, s, order);
      } else if WellLaidOut(s) {
        RoundTrip(c, s, level, order);
      }
    }
    hide Lawful, WellLaidOut, Readable, InBounds, Parse, Chunks, IsSchedule, Modes, SingleBest, Results, Records,
         Archive, Unpack, ModeTable, NotedTotal, AllSucceed;
    var results: seq<Option<Packed>> := [];
    if level > 0 {
      results := CompressChunks(c, data, chunks, info, level);
    }
    var table := BuildModes(data, info, chunks, level);
    var single := RunPasses(c, s, table, level, order);
    archive := WriteSmaller(data.Length, level, single, results, chunks);
  }
}
