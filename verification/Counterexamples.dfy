/** Files that LGZ does not restore: sections that overlap, in either layout, and files above the decoder's limit. */
module Counterexamples {
  import opened Bytes
  import opened ElfSections
  import opened Parts
  import opened Codec
  import opened Selection
  import opened Container
  import opened Compressor
  import Blobs
  import X86Branches
  import opened Preconditions

  // ----- An ELF file with two code sections anywhere in it

  function TwoSections(machine: nat, code: seq<byte>, a: Extent, b: Extent): seq<byte> {
    ElfHeader(machine, 64 + |code|, 2) + code + (SectionBytes(6, a.offset, a.size) + SectionBytes(6, b.offset, b.size))
  }

  /** Two code sections of the code between the header and the table, in order. */
  ghost predicate InCode(size: nat, a: Extent, b: Extent) {
    && a.isCode && b.isCode && a.size > 0 && b.size > 0 && size < 0x1000_0000_0000_0000
    && 64 <= a.offset <= b.offset && a.End() <= 64 + size && b.End() <= 64 + size
  }

  predicate Supported(machine: nat) {
    machine == 183 || machine == 62 || machine == 3
  }

  /** What the parser reads from such a file. */
  ghost predicate ReadsTwo(s: seq<byte>, machine: nat, size: nat, a: Extent, b: Extent) {
    && |s| == 192 + size
    && HeaderOf(s) == FileHeader([0x7F, 0x45, 0x4C, 0x46], 2, machine, 64 + size, 64, 2)
    && SectionHeaderAt(s, 64 + size) == SectionHeader(1, 6, a.offset, a.size)
    && SectionHeaderAt(s, 128 + size) == SectionHeader(1, 6, b.offset, b.size)
  }

  lemma TwoFields(machine: nat, code: seq<byte>, a: Extent, b: Extent)
    requires Supported(machine) && InCode(|code|, a, b)
    ensures ReadsTwo(TwoSections(machine, code, a, b), machine, |code|, a, b)
  {
    hide TwoSections, ElfHeader, SectionBytes, HeaderOf, SectionHeaderAt;
    TwoSlices(machine, code, a, b);
    FieldsOfSlices(TwoSections(machine, code, a, b), machine, |code|, a, b);
  }

  lemma FieldsOfSlices(s: seq<byte>, machine: nat, size: nat, a: Extent, b: Extent)
    requires Supported(machine) && InCode(size, a, b) && |s| == 192 + size
    requires s[0..64] == ElfHeader(machine, 64 + size, 2)
    requires s[64 + size..128 + size] == SectionBytes(6, a.offset, a.size)
    requires s[128 + size..192 + size] == SectionBytes(6, b.offset, b.size)
    ensures ReadsTwo(s, machine, size, a, b)
  {
    assert a.offset < WRAP64 && a.size < WRAP64 && b.offset < WRAP64 && b.size < WRAP64;
    hide ElfHeader, SectionBytes, HeaderOf, SectionHeaderAt;
    ElfHeaderFields(machine, 64 + size, 2);
    SectionBytesFields(6, a.offset, a.size);
    SectionBytesFields(6, b.offset, b.size);
    FrontFields(s, ElfHeader(machine, 64 + size, 2));
    TailFields(s, 64 + size, SectionBytes(6, a.offset, a.size));
    TailFields(s, 128 + size, SectionBytes(6, b.offset, b.size));
  }

  lemma TwoSlices(machine: nat, code: seq<byte>, a: Extent, b: Extent)
    ensures var s, table := TwoSections(machine, code, a, b), 64 + |code|;
            && |s| == table + 128 && s[0..64] == ElfHeader(machine, table, 2)
            && s[table..table + 64] == SectionBytes(6, a.offset, a.size)
            && s[table + 64..table + 64 + 64] == SectionBytes(6, b.offset, b.size)
            && s[64..table] == code
  {
    var table := 64 + |code|;
    hide ElfHeader, SectionBytes;
    FourParts(ElfHeader(machine, table, 2), code, SectionBytes(6, a.offset, a.size), SectionBytes(6, b.offset, b.size));
  }

  lemma FourParts(a: seq<byte>, b: seq<byte>, c: seq<byte>, d: seq<byte>)
    ensures var s := a + b + (c + d);
            && s[0..|a|] == a && s[|a|..|a| + |b|] == b && s[|a| + |b|..|a| + |b| + |c|] == c
            && s[|a| + |b| + |c|..|a| + |b| + |c| + |d|] == d
  {}

  lemma TwoParse(s: seq<byte>, machine: nat, size: nat, a: Extent, b: Extent)
    requires Supported(machine) && InCode(size, a, b) && ReadsTwo(s, machine, size, a, b)
    ensures IsElf(s) && Readable(s)
    ensures Parse(s) == Elf([a, b], if machine == EM_AARCH64 then Arm64 else X86)
  {
    var h := HeaderOf(s);
    hide HeaderOf, SectionHeaderAt, KeptFrom, Sort;
    TwoHeader(h, |s|, machine, size);
    TwoKept(s, h, machine, size, a, b);
    SortOfTwo(a, b);
  }

  lemma TwoHeader(h: FileHeader, n: nat, machine: nat, size: nat)
    requires Supported(machine) && size < 0x1000_0000_0000_0000 && n == 192 + size
    requires h == FileHeader([0x7F, 0x45, 0x4C, 0x46], 2, machine, 64 + size, 64, 2)
    ensures h.HasTable(n) && h.TableEnd() == n
  {
    assert h.EntryAt(1) == 128 + size;
  }

  lemma TwoKept(s: seq<byte>, h: FileHeader, machine: nat, size: nat, a: Extent, b: Extent)
    requires InCode(size, a, b) && ReadsTwo(s, machine, size, a, b) && h == HeaderOf(s)
    ensures h.TableEnd() <= |s| && KeptFrom(s, h, 0) == [a, b]
  {
    hide HeaderOf, SectionHeaderAt;
    assert h.EntryAt(0) == 64 + size && h.EntryAt(1) == 128 + size && h.TableEnd() == |s|;
    assert Entry(s, h, 0).IsKept(|s|) && Entry(s, h, 0).Section() == a;
    assert Entry(s, h, 1).IsKept(|s|) && Entry(s, h, 1).Section() == b;
    assert KeptFrom(s, h, 2) == [];
    assert KeptFrom(s, h, 1) == [b];
  }

  lemma SortOfTwo(a: Extent, b: Extent)
    requires a.offset <= b.offset
    ensures Sort([a, b]) == [a, b]
  {
    SortOfOne(b);
    assert [a, b][1..] == [b] && [b][1..] == [];
    assert Sweep(a, []) == (a, []);
    assert Sweep(a, [b]) == (a, [b]);
  }

  ghost predicate AllShorter(parts: seq<Extent>, n: nat) {
    forall p :: p in parts ==> p.size < n
  }

  /** Both sections are chunks, and so are the bytes before, between and after them. */
  lemma TwoChunks(a: Extent, b: Extent, size: nat)
    requires InCode(size, a, b)
    ensures var n, chunks := 192 + size, ChunksFrom([a, b], 0, 192 + size);
            && chunks[0] == Extent(0, a.offset, false) && InBounds(chunks, n)
            && AllShorter(chunks, n)
            && (a.End() > b.offset ==> !Disjoint([a, b], 0, n))
  {
    var n := 192 + size;
    assert [a, b][1..] == [b] && [b][1..] == [];
    assert ChunksFrom([b], a.End(), n) == Gap(a.End(), b.offset) + [b] + Gap(b.End(), n);
    assert ChunksFrom([a, b], 0, n) == Gap(0, a.offset) + [a] + ChunksFrom([b], a.End(), n);
  }

  // ----- Codecs that succeed

  ghost predicate Encodes(c: Lzma2, x: seq<byte>) {
    forall p :: c.encode(x, p).Some?
  }

  lemma EncodedChunk(c: Lzma2, x: seq<byte>, isCode: bool, info: ElfInfo, level: nat)
    requires Encodes(c, x)
    ensures ChunkBest(c, x, isCode, info, level).Some?
  {
    var cands := ChunkCandidates(x, isCode, info, level);
    var outcomes := Attempts(c, cands, level);
    BestOfIsBest(outcomes);
    assert outcomes[0].Some? && outcomes[0] in outcomes;
  }

  lemma {:induction false} EncodedChunks(c: Lzma2, s: seq<byte>, chunks: seq<Extent>, info: ElfInfo, level: nat)
    requires InBounds(chunks, |s|)
    requires forall p :: p in chunks && p.End() <= |s| ==> Encodes(c, s[p.offset..p.End()])
    ensures AllSucceed(Results(c, s, chunks, info, level))
  {
    hide ChunkBest;
    if chunks != [] {
      var p := chunks[0];
      assert p in chunks;
      EncodedChunk(c, s[p.offset..p.End()], p.isCode, info, level);
      EncodedChunks(c, s, chunks[1..], info, level);
      var rest := Results(c, s, chunks[1..], info, level);
      assert Results(c, s, chunks, info, level) == [ChunkBest(c, s[p.offset..p.End()], p.isCode, info, level)] + rest;
    }
  }

  // ----- Overlapping sections in chunks

  /** Stores what is shorter than n bytes, and fails on everything else. */
  function Below(n: nat): Lzma2 {
    Lzma2(p => 0, (x, p) => if |x| < n then Some(x) else None, (b, z, m) => Some(z))
  }

  lemma BelowIsLawful(n: nat)
    ensures Lawful(Below(n))
  {}

  /** No pass over the whole file succeeds. */
  lemma NoBlock(s: seq<byte>, level: nat, order: seq<nat>)
    requires Readable(s) && InBounds(Chunks(Parse(s), |s|), |s|) && IsSchedule(order, Passes(level, Parse(s)))
    ensures SingleBest(Below(|s|), s, level, order).None?
  {
    hide Parse, Chunks, PassKind, PassCombo;
    if SingleBest(Below(|s|), s, level, order).Some? {
      var p := WinnerIsPass(Below(|s|), s, level, order);
      assert |PassCandidate(s, level, p).input| == |s|;
    }
  }

  lemma ChunksBelow(s: seq<byte>, level: nat)
    requires Readable(s) && InBounds(Chunks(Parse(s), |s|), |s|)
    requires AllShorter(Chunks(Parse(s), |s|), |s|)
    ensures AllSucceed(ChunkResults(Below(|s|), s, level))
  {
    var chunks := Chunks(Parse(s), |s|);
    forall p | p in chunks && p.End() <= |s|
      ensures Encodes(Below(|s|), s[p.offset..p.End()])
    {
      assert |s[p.offset..p.End()]| == p.size < |s|;
    }
    hide Below, Encodes, Chunks, Parse, Results;
    EncodedChunks(Below(|s|), s, chunks, Parse(s), level);
  }

  lemma ChunksWritten(c: Lzma2, s: seq<byte>, level: nat, order: seq<nat>)
    requires Lawful(c) && Readable(s) && InBounds(Chunks(Parse(s), |s|), |s|) && |s| <= SMALL && level > 0
    requires SingleBest(c, s, level, order).None? && AllSucceed(ChunkResults(c, s, level))
    requires Parse(s).Elf? && !Disjoint(Parse(s).sections, 0, |s|)
    ensures Works(c, s, level, order) && Unpack(c, Written(c, s, level, order)) != Unpacked(s)
  {
    hide Results, Parse, Readable, Archive, Unpack, AllFit, AllSucceed, Disjoint, SingleBest, Lawful, Chunks, InBounds,
         ChunkResults;
    SmallFilesFit(c, s, level);
    MultiRoundTripIff(c, s, level);
  }

  /** Every ELF file with overlapping sections, each of them shorter than the file: at every level above 0, under every
      schedule, it is written chunk by chunk, and what is written does not unpack to it. */
  lemma OverlapIsNotRestored(s: seq<byte>, level: nat, order: seq<nat>)
    requires Readable(s) && InBounds(Chunks(Parse(s), |s|), |s|) && |s| <= SMALL && level > 0
    requires Parse(s).Elf? && !Disjoint(Parse(s).sections, 0, |s|)
    requires AllShorter(Chunks(Parse(s), |s|), |s|) && IsSchedule(order, Passes(level, Parse(s)))
    ensures Works(Below(|s|), s, level, order)
    ensures Unpack(Below(|s|), Written(Below(|s|), s, level, order)) != Unpacked(s)
  {
    hide *;
    ChunksBelow(s, level);
    BelowIsLawful(|s|);
    NoBlock(s, level, order);
    ChunksWritten(Below(|s|), s, level, order);
  }

  /** There are such files around any code: two section headers describe the same stretch. */
  lemma OverlapExists(machine: nat, code: seq<byte>)
    requires Supported(machine) && 0 < |code| <= 0x1000_0000
    ensures var s := TwoSections(machine, code, Extent(64, |code|, true), Extent(64, |code|, true));
            && Readable(s) && InBounds(Chunks(Parse(s), |s|), |s|) && |s| <= SMALL
            && Parse(s).Elf? && !Disjoint(Parse(s).sections, 0, |s|)
            && AllShorter(Chunks(Parse(s), |s|), |s|)
  {
    var e := Extent(64, |code|, true);
    var s := TwoSections(machine, code, e, e);
    TwoFields(machine, code, e, e);
    TwoParse(s, machine, |code|, e, e);
    hide TwoSections, Parse, ChunksFrom, Disjoint, InBounds;
    TwoChunks(e, e, |code|);
  }

  // ----- Overlapping code in one block

  /** Stores one chosen file as it is, and pads everything else with 4000 bytes. */
  function Favour(b: seq<byte>): Lzma2 {
    Lzma2(p => 0,
          (x, p) => Some(if x == b then x else x + Blank(4000)),
          (q, z, n: nat) => if n <= |z| then Some(z[..n]) else None)
  }

  lemma FavourIsLawful(b: seq<byte>)
    ensures Lawful(Favour(b))
  {}

  /** A call, the second byte of whose operand is a call once the first has been made absolute. */
  const CALLS: seq<byte> := [0xE8, 0xE3, 0, 0, 0, 0]

  const FIRST: Extent := Extent(64, 5, true)
  const SECOND: Extent := Extent(65, 5, true)

  function Calls(): seq<byte> {
    TwoSections(EM_X86_64, CALLS, FIRST, SECOND)
  }

  lemma CallsParse()
    ensures var s := Calls();
            && |s| == 198 && s[64..70] == CALLS && IsElf(s) && Readable(s) && Parse(s) == Elf([FIRST, SECOND], X86)
            && HeaderOf(s).table == 70 && HeaderOf(s).count > 0 && HeaderOf(s).TableEnd() == 198
  {
    var s := Calls();
    assert InCode(6, FIRST, SECOND);
    TwoFields(EM_X86_64, CALLS, FIRST, SECOND);
    TwoSlices(EM_X86_64, CALLS, FIRST, SECOND);
    hide *;
    TwoParse(s, EM_X86_64, 6, FIRST, SECOND);
    TwoTable(s, EM_X86_64, 6, FIRST, SECOND);
  }

  lemma TwoTable(s: seq<byte>, machine: nat, size: nat, a: Extent, b: Extent)
    requires Supported(machine) && InCode(size, a, b) && ReadsTwo(s, machine, size, a, b)
    ensures HeaderOf(s).table == 64 + size && HeaderOf(s).count > 0 && HeaderOf(s).TableEnd() == |s|
  {
    hide HeaderOf, SectionHeaderAt;
    TwoHeader(HeaderOf(s), |s|, machine, size);
  }

  lemma CallsQualify(s: seq<byte>)
    requires |s| == 198 && IsElf(s) && Readable(s) && Parse(s) == Elf([FIRST, SECOND], X86)
    requires HeaderOf(s).table == 70 && HeaderOf(s).TableEnd() == 198
    ensures Blobs.TableIsSafe(s)
    ensures InBounds(Chunks(Parse(s), |s|), |s|) && Chunks(Parse(s), |s|)[0] == Extent(0, 64, false)
  {
    hide HeaderOf, IsElf, Readable, Parse, FileHeader.TableEnd;
    TwoChunks(FIRST, SECOND, 6);
  }

  lemma ScanOne(s: seq<byte>, f: X86Branches.OperandFilter)
    requires |s| == 5
    ensures X86Branches.Scan(s, 0, f) ==
              if X86Branches.IsCallOrJump(s[0]) then [s[0]] + f(WordAt(s, 1), 0).Bytes() else s
  {
    assert s[5..] == [];
    assert s == [s[0]] + s[1..];
  }

  lemma SmallNumber(a: byte, b: byte)
    ensures Word(a, b, 0, 0).Number() == a + 256 * b
  {
    var s := Word(a, b, 0, 0).Bytes();
    var low := s[1..];
    assert low[0] == b && low[1..][0] == 0 && low[1..][1..][0] == 0 && low[1..][1..][1..] == [];
    assert Value(low[1..][1..]) == 0;
    assert Value(low[1..]) == 0;
    assert Value(low) == b;
  }

  lemma SmallWord(a: byte, b: byte)
    ensures WordOf(a + 256 * b) == Word(a, b, 0, 0)
  {
    SmallNumber(a, b);
    WordLaws(Word(a, b, 0, 0), 0);
  }

  /** The operands that the two directions meet. */
  lemma Operands()
    ensures X86Branches.ToAbsolute(Word(0xE3, 0, 0, 0), 0) == Word(0xE8, 0, 0, 0)
    ensures X86Branches.ToAbsolute(Word(0, 0, 0, 0), 0) == Word(5, 0, 0, 0)
    ensures X86Branches.ToRelative(Word(0xE8, 5, 0, 0), 0) == Word(0xE3, 5, 0, 0)
  {
    hide Word.Number, WordOf;
    SmallNumber(0xE3, 0);
    SmallNumber(0, 0);
    SmallNumber(0xE8, 5);
    SmallWord(0xE8, 0);
    SmallWord(5, 0);
    SmallWord(0xE3, 5);
  }

  lemma FirstAt(s: seq<byte>, x: seq<byte>, f: seq<byte> -> seq<byte>)
    requires |s| == 198 && |x| == 6 && s[64..70] == x && KeepsLength(f)
    ensures ApplyOne(s, FIRST, f)[64..70] == f(x[..5]) + x[5..]
  {
    assert s[64..69] == x[..5];
    WindowStart(s, x, f(x[..5]));
  }

  lemma SecondAt(s: seq<byte>, x: seq<byte>, f: seq<byte> -> seq<byte>)
    requires |s| == 198 && |x| == 6 && s[64..70] == x && KeepsLength(f)
    ensures ApplyOne(s, SECOND, f)[64..70] == x[..1] + f(x[1..])
  {
    assert s[65..70] == x[1..];
    WindowEnd(s, x, f(x[1..]));
  }

  lemma WindowStart(s: seq<byte>, x: seq<byte>, t: seq<byte>)
    requires |s| == 198 && |x| == 6 && s[64..70] == x && |t| == 5
    ensures Splice(s, 64, t)[64..70] == t + x[5..]
  {
    assert x[5] == s[69];
  }

  lemma WindowEnd(s: seq<byte>, x: seq<byte>, t: seq<byte>)
    requires |s| == 198 && |x| == 6 && s[64..70] == x && |t| == 5
    ensures Splice(s, 65, t)[64..70] == x[..1] + t
  {
    assert x[0] == s[64];
  }

  /** One filter over both sections, seen at the six bytes. */
  lemma BothAt(s: seq<byte>, x: seq<byte>, f: seq<byte> -> seq<byte>, y: seq<byte>, z: seq<byte>)
    requires |s| == 198 && |x| == |y| == |z| == 6 && s[64..70] == x && KeepsLength(f)
    requires y == f(x[..5]) + x[5..] && z == y[..1] + f(y[1..])
    ensures CodeInBounds([FIRST, SECOND], 198) && Apply(s, [FIRST, SECOND], f)[64..70] == z
  {
    var one := ApplyOne(s, FIRST, f);
    FirstAt(s, x, f);
    SecondAt(one, y, f);
    assert [FIRST, SECOND][1..] == [SECOND] && [SECOND][1..] == [];
    hide ApplyOne;
    assert Apply(s, [FIRST, SECOND], f) == Apply(one, [SECOND], f);
    assert Apply(one, [SECOND], f) == Apply(ApplyOne(one, SECOND, f), [], f);
  }

  lemma CallsThere()
    ensures var x, y := CALLS, [0xE8, 0xE8, 0, 0, 0, 0];
            && X86Branches.Normalize(x[..5]) + x[5..] == y
            && y[..1] + X86Branches.Normalize(y[1..]) == [0xE8, 0xE8, 5, 0, 0, 0]
  {
    var y: seq<byte> := [0xE8, 0xE8, 0, 0, 0, 0];
    Operands();
    ScanOne(CALLS[..5], X86Branches.ToAbsolute);
    ScanOne(y[1..], X86Branches.ToAbsolute);
    hide X86Branches.Scan, X86Branches.ToAbsolute;
  }

  lemma CallsBack()
    ensures var x, y := [0xE8, 0xE8, 5, 0, 0, 0], [0xE8, 0xE3, 5, 0, 0, 0];
            && X86Branches.Denormalize(x[..5]) + x[5..] == y
            && y[..1] + X86Branches.Denormalize(y[1..]) == y
  {
    var x: seq<byte>, y: seq<byte> := [0xE8, 0xE8, 5, 0, 0, 0], [0xE8, 0xE3, 5, 0, 0, 0];
    Operands();
    ScanOne(x[..5], X86Branches.ToRelative);
    ScanOne(y[1..], X86Branches.ToRelative);
    hide X86Branches.Scan, X86Branches.ToRelative;
    assert y[..1] + y[1..] == y;
  }

  /** The filter forth and back over both sections. */
  lemma BothWays(s: seq<byte>)
    requires |s| == 198 && s[64..70] == CALLS
    ensures CodeInBounds([FIRST, SECOND], 198)
    ensures var there, back := Blobs.NormalizeBranches(X86), Blobs.DenormalizeBranches(X86);
            var b := Blobs.Filtered(s, [FIRST, SECOND], there);
            b[64..70] != CALLS && Blobs.Filtered(b, [FIRST, SECOND], back)[64..70] != CALLS
  {
    var there, back := Blobs.NormalizeBranches(X86), Blobs.DenormalizeBranches(X86);
    Blobs.FilterKeepsLength(there);
    Blobs.FilterKeepsLength(back);
    CallsThere();
    CallsBack();
    hide X86Branches.Normalize, X86Branches.Denormalize, Apply, ApplyOne;
    BothAt(s, CALLS, there.Fn(), [0xE8, 0xE8, 0, 0, 0, 0], [0xE8, 0xE8, 5, 0, 0, 0]);
    var b := Blobs.Filtered(s, [FIRST, SECOND], there);
    BothAt(b, [0xE8, 0xE8, 5, 0, 0, 0], back.Fn(), [0xE8, 0xE3, 5, 0, 0, 0], [0xE8, 0xE3, 5, 0, 0, 0]);
  }

  /** What the compressor filters, the decoder does not restore. */
  lemma CallsAreLost(s: seq<byte>)
    requires |s| == 198 && s[64..70] == CALLS && IsElf(s) && Blobs.TableIsSafe(s)
    requires Parse(s) == Elf([FIRST, SECOND], X86) && InBounds(Chunks(Parse(s), |s|), |s|)
    ensures Blobs.EncodeBlob(Blobs.BRANCHES, s) != s
    ensures Blobs.DecodeBlob(Blobs.BRANCHES, Blobs.EncodeBlob(Blobs.BRANCHES, s)) != Blobs.Restored(s)
  {
    var there := Blobs.NormalizeBranches(X86);
    Blobs.FilteredChunks(s, there);
    Blobs.FilteringKeepsSections(s, there);
    hide Blobs.Filtered, Parse, Chunks, IsElf, HeaderOf, InBounds, Blobs.TableIsSafe;
    BothWays(s);
  }

  /** What is not the chosen file costs 4000 bytes more. */
  lemma PaddedChunk(b: seq<byte>, x: seq<byte>, isCode: bool, info: ElfInfo, level: nat)
    requires |x| != |b|
    ensures CompSize(ChunkBest(Favour(b), x, isCode, info, level)) > 4000
  {
    var cands := ChunkCandidates(x, isCode, info, level);
    var outcomes := Attempts(Favour(b), cands, level);
    ChunkCandidatesRepresent(x, isCode, info, level);
    BestOfIsBest(outcomes);
    if BestOf(outcomes).Some? {
      var i :| 0 <= i < |cands| && outcomes[i] == BestOf(outcomes);
      assert cands[i] in cands && |cands[i].input| == |x|;
    }
  }

  lemma FirstCounts(results: seq<Option<Packed>>)
    requires results != []
    ensures TotalPayload(results) >= CompSize(results[0])
  {}

  /** Under every schedule at level 1 this file is written as one block, with its branches filtered, and what is written
      does not unpack to it. */
  lemma OverlapInBlockIsNotRestored(order: seq<nat>)
    ensures var s := Calls();
            && Readable(s) && InBounds(Chunks(Parse(s), |s|), |s|) && Parse(s).Elf?
            && var c := Favour(Blobs.EncodeBlob(Blobs.BRANCHES, s));
               (IsSchedule(order, Passes(1, Parse(s))) ==>
                  && OneBlock(c, s, 1, order)
                  && Unpack(c, Written(c, s, 1, order)) != Unpacked(s))
  {
    var s := Calls();
    CallsParse();
    CallsQualify(s);
    hide Calls;
    CallsAreLost(s);
    var b := Blobs.EncodeBlob(Blobs.BRANCHES, s);
    var c := Favour(b);
    if IsSchedule(order, Passes(1, Parse(s))) {
      FavourIsLawful(b);
      FilteredPassWins(s, b, order);
      ChunksAreDear(s, b);
      hide Favour, Readable, InBounds, Parse, Chunks, Lawful;
      BlockRestoredIff(c, s, 1, order);
    }
  }

  lemma ChunksAreDear(s: seq<byte>, b: seq<byte>)
    requires Readable(s) && InBounds(Chunks(Parse(s), |s|), |s|) && |b| == |s| == 198
    requires Chunks(Parse(s), |s|) != [] && Chunks(Parse(s), |s|)[0] == Extent(0, 64, false)
    ensures NotedTotal(ChunkResults(Favour(b), s, 1)) > 4000
  {
    var c, chunks := Favour(b), Chunks(Parse(s), |s|);
    var results := ChunkResults(c, s, 1);
    EncodedChunks(c, s, chunks, Parse(s), 1);
    PaddedChunk(b, s[0..64], false, Parse(s), 1);
    assert results[0] == ChunkBest(c, s[0..64], false, Parse(s), 1);
    hide Favour, ChunkBest, ChunkResults, Results, Parse, Chunks;
    FirstCounts(results);
  }

  /** At level 1 there are two passes: one over the file, one over the filtered file. */
  lemma LevelOnePasses(s: seq<byte>)
    requires Readable(s) && InBounds(Chunks(Parse(s), |s|), |s|) && Parse(s).Elf?
    ensures Passes(1, Parse(s)) == 2
    ensures PassCandidate(s, 1, 0) == Candidate(0, s, 3, 0, 2)
    ensures PassCandidate(s, 1, 1) == Candidate(Blobs.BRANCHES, Blobs.EncodeBlob(Blobs.BRANCHES, s), 3, 0, 2)
  {
    var modes := Modes(1, Parse(s));
    assert modes == [0, Blobs.BRANCHES];
    hide Modes, Parse, Chunks, Readable, InBounds, Blobs.Filtered;
  }

  lemma FilteredPassWins(s: seq<byte>, b: seq<byte>, order: seq<nat>)
    requires Readable(s) && InBounds(Chunks(Parse(s), |s|), |s|) && Parse(s).Elf? && |s| == 198
    requires b == Blobs.EncodeBlob(Blobs.BRANCHES, s) && b != s
    requires IsSchedule(order, Passes(1, Parse(s)))
    ensures SingleBest(Favour(b), s, 1, order) == Some(Packed(Blobs.BRANCHES, [0] + b))
  {
    var c := Favour(b);
    var outcomes := Attempts(c, PassCandidates(s, 1), 1);
    FavourOutcomes(s, b);
    hide Favour, Attempt, Attempts, PassCandidates, Parse, Chunks, Readable, InBounds, Passes, BestOf, Arrange,
         IsSchedule;
    SecondIsBest(outcomes, order, Packed(Blobs.BRANCHES, [0] + b));
  }

  lemma FavourOutcomes(s: seq<byte>, b: seq<byte>)
    requires Readable(s) && InBounds(Chunks(Parse(s), |s|), |s|) && Parse(s).Elf? && |s| == 198
    requires b == Blobs.EncodeBlob(Blobs.BRANCHES, s) && b != s
    ensures Passes(1, Parse(s)) == 2
    ensures var outcomes := Attempts(Favour(b), PassCandidates(s, 1), 1);
            && outcomes[1] == Some(Packed(Blobs.BRANCHES, [0] + b))
            && outcomes[0].Some? && |outcomes[0].value.bytes| > 4000
  {
    LevelOnePasses(s);
    FavourAttempts(s, b);
    hide Favour, Attempt, Blobs.EncodeBlob, Parse, Chunks, Readable, InBounds, PassCandidate, Passes, PassKind;
    var outcomes := Attempts(Favour(b), PassCandidates(s, 1), 1);
    assert outcomes[0] == Attempt(Favour(b), PassCandidate(s, 1, 0), 1);
    assert outcomes[1] == Attempt(Favour(b), PassCandidate(s, 1, 1), 1);
  }

  lemma SecondIsBest(outcomes: seq<Option<Packed>>, order: seq<nat>, w: Packed)
    requires |outcomes| == 2 && IsSchedule(order, 2) && outcomes[1] == Some(w)
    requires outcomes[0].Some? && |outcomes[0].value.bytes| > |w.bytes|
    ensures BestOf(Arrange(outcomes, order)) == Some(w)
  {
    EveryScheduleFindsSmallest(outcomes, order);
    assert outcomes[1] in outcomes;
  }

  lemma FavourAttempts(s: seq<byte>, b: seq<byte>)
    requires b != s && |b| == |s| == 198
    ensures Attempt(Favour(b), Candidate(Blobs.BRANCHES, b, 3, 0, 2), 1) == Some(Packed(Blobs.BRANCHES, [0] + b))
    ensures var a := Attempt(Favour(b), Candidate(0, s, 3, 0, 2), 1); a.Some? && |a.value.bytes| > 4000
  {
    hide DictSize;
  }

  // ----- Files above the limit

  /** Every file above the limit is compressed at level 0, and is not restored. */
  lemma LongFileIsNotRestored(s: seq<byte>)
    requires |s| > MAX_OUTPUT && Readable(s) && InBounds(Chunks(Parse(s), |s|), |s|)
    ensures IsSchedule([0], Passes(0, Parse(s))) && Works(Store(), s, 0, [0])
    ensures Unpack(Store(), Written(Store(), s, 0, [0])) != Unpacked(s)
  {
    assert Passes(0, Parse(s)) == 1;
    assert [0][0] == 0;
    assert IsSchedule([0], 1);
    var outcomes := Attempts(Store(), PassCandidates(s, 0), 0);
    assert outcomes[0].Some? && outcomes[0] in outcomes;
    EveryScheduleFindsSmallest(outcomes, [0]);
    StoreIsLawful();
    LevelZeroRoundTripIff(Store(), s, [0]);
  }

  /** There are such files. */
  lemma LongFileExists()
    ensures var s := Blank(MAX_OUTPUT + 1); |s| > MAX_OUTPUT && !IsElf(s) && Blobs.WellLaidOut(s)
  {
    assert Blank(MAX_OUTPUT + 1)[0..4][0] == 0;
  }
}
