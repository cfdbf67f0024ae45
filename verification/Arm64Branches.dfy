/** The ARM64 branch filter: B, BL and ADRP operands become absolute and back
    (selfcode/lgz/lgzv3.c, arm64_branch_normalize and arm64_branch_denormalize).
    Instruction formats: section C6.2 of the Arm Architecture Reference Manual.
    A 32-bit instruction is a number below 2^32; a bit mask is written as division and remainder
    by powers of two, so that the signed sums of the source appear as exact integers. */
module Arm64Branches {
  import opened Bytes
  import Scans

  /** The largest buffer the decoder accepts. */
  const MAX_SIZE: nat := 256 * 1024 * 1024

  // ----- Instruction fields

  /** The top eight bits. */
  function Top(w: nat): nat {
    w / 0x100_0000
  }

  function Low24(w: nat): nat {
    w % 0x100_0000
  }

  /** B and BL: the top six bits are 0x05 or 0x25. */
  predicate IsBranch(w: nat) {
    w / 0x400_0000 == 0x05 || w / 0x400_0000 == 0x25
  }

  /** ADRP: bit 31 is set and bits 24 to 28 are 10000, the mask 0x9F000000. */
  predicate IsPageAddress(w: nat) {
    Top(w) / 128 == 1 && Top(w) % 32 == 16
  }

  /** An n-bit field read as a signed number, where size is 2 to the n. */
  function Signed(field: nat, size: nat): int {
    if field >= size / 2 then field - size else field
  }

  /** The operand of B and BL. */
  function Imm26(w: nat): int {
    Signed(w % 0x400_0000, 0x400_0000)
  }

  /** The operand of ADRP: 19 bits immhi above 2 bits immlo. */
  function Imm21(w: nat): int {
    Signed(Low24(w) / 32 * 4 + Top(w) / 32 % 4, 0x20_0000)
  }

  /** w with operand v, cut to 26 bits. */
  function WithImm26(w: nat, v: int): nat {
    w / 0x400_0000 * 0x400_0000 + v % 0x400_0000
  }

  /** An ADRP with the destination register of w and operand v, cut to 21 bits. */
  function WithImm21(w: nat, v: int): nat {
    var page := v % 0x20_0000;
    PageAddressWord(page / 4, page % 4, Low24(w) % 32)
  }

  function PageAddressWord(immhi: nat, immlo: nat, rd: nat): nat {
    (0x90 + immlo * 32) * 0x100_0000 + (immhi * 32 + rd)
  }

  // ----- One instruction at byte position i

  function NormalizeWord(w: nat, i: nat): nat {
    if IsBranch(w) then WithImm26(w, i / 4 + Imm26(w))
    else if IsPageAddress(w) then WithImm21(w, i / 4096 + Imm21(w))
    else w
  }

  function DenormalizeWord(w: nat, i: nat): nat {
    if IsBranch(w) then WithImm26(w, Imm26(w) - i / 4)
    else if IsPageAddress(w) then WithImm21(w, Imm21(w) - i / 4096)
    else w
  }

  lemma BranchFields(w: nat, v: int)
    ensures WithImm26(w, v) / 0x400_0000 == w / 0x400_0000
    ensures WithImm26(w, v) % 0x400_0000 == v % 0x400_0000
    ensures Imm26(WithImm26(w, v)) % 0x400_0000 == v % 0x400_0000
  {}

  lemma BranchRebuild(w: nat, v: int)
    requires v % 0x400_0000 == Imm26(w) % 0x400_0000
    ensures WithImm26(w, v) == w
  {}

  lemma PageAddressFields(immhi: nat, immlo: nat, rd: nat)
    requires immhi < 0x8_0000 && immlo < 4 && rd < 32
    ensures Top(PageAddressWord(immhi, immlo, rd)) == 0x90 + immlo * 32
    ensures Low24(PageAddressWord(immhi, immlo, rd)) == immhi * 32 + rd
    ensures (immhi * 32 + rd) / 32 == immhi && (immhi * 32 + rd) % 32 == rd
    ensures (0x90 + immlo * 32) / 32 % 4 == immlo && (0x90 + immlo * 32) / 128 == 1 && (0x90 + immlo * 32) % 32 == 16
  {
    var w := PageAddressWord(immhi, immlo, rd);
    ModUnique(w, 0x100_0000, 0x90 + immlo * 32, immhi * 32 + rd);
  }

  lemma PageOperand(w: nat, v: int)
    ensures Imm21(WithImm21(w, v)) % 0x20_0000 == v % 0x20_0000
    ensures IsPageAddress(WithImm21(w, v)) && WithImm21(w, v) < 0x1_0000_0000
    ensures Low24(WithImm21(w, v)) % 32 == Low24(w) % 32
  {
    var page := v % 0x20_0000;
    var p := WithImm21(w, v);
    PageAddressFields(page / 4, page % 4, Low24(w) % 32);
    assert Low24(p) / 32 * 4 + Top(p) / 32 % 4 == page;
    assert Imm21(p) == Signed(page, 0x20_0000);
    assert p < 0x1_0000_0000;
  }

  lemma PageTopBits(t: nat)
    requires t / 128 == 1 && t % 32 == 16
    ensures t == 0x90 + t / 32 % 4 * 32
  {}

  lemma PageRebuild(w: nat, v: int)
    requires IsPageAddress(w) && v % 0x20_0000 == Imm21(w) % 0x20_0000
    ensures WithImm21(w, v) == w
  {
    var immhi, immlo := Low24(w) / 32, Top(w) / 32 % 4;
    PageTopBits(Top(w));
    OperandParts(w);
    hide Imm21, Top, Low24, IsPageAddress;
    ModUnique(immhi * 4 + immlo, 4, immhi, immlo);
    WordParts(w);
  }

  /** The operand of an ADRP modulo 2^21 is its two fields. */
  lemma OperandParts(w: nat)
    ensures 0 <= Low24(w) / 32 < 0x8_0000 && 0 <= Top(w) / 32 % 4 < 4
    ensures Imm21(w) % 0x20_0000 == Low24(w) / 32 * 4 + Top(w) / 32 % 4
  {
    var field := Low24(w) / 32 * 4 + Top(w) / 32 % 4;
    assert Low24(w) < 0x100_0000;
    hide Top, Low24;
    SignedModulo(field, 0x20_0000);
  }

  lemma SignedModulo(field: nat, size: nat)
    requires field < size
    ensures Signed(field, size) % size == field
  {
    if field >= size / 2 {
      AddModulus(field, size);
    } else {
      ModUnique(field, size, 0, field);
    }
  }

  lemma AddModulus(r: nat, m: nat)
    requires r < m
    ensures (r - m) % m == r
  {
    var q := (r - m) / m;
    assert r - m == q * m + (r - m) % m;
    MulMonotone(m, q, -1);
    if q < -1 {
      MulMonotone(m, q, -2);
    }
  }

  lemma WordParts(w: nat)
    ensures w == Top(w) * 0x100_0000 + Low24(w) && Low24(w) == Low24(w) / 32 * 32 + Low24(w) % 32
  {}

  lemma ClassesAreDisjoint(w: nat)
    ensures !(IsBranch(w) && IsPageAddress(w))
  {
    assert w / 0x400_0000 == Top(w) / 4;
  }

  lemma Cancel(x: int, y: int, d: int, m: nat)
    requires m == 0x400_0000 || m == 0x20_0000
    requires y % m == (d + x) % m
    ensures (y - d) % m == x % m
  {}

  lemma WordInRange(w: nat, i: nat)
    requires w < 0x1_0000_0000
    ensures NormalizeWord(w, i) < 0x1_0000_0000
  {
    BranchFields(w, i / 4 + Imm26(w));
    PageOperand(w, i / 4096 + Imm21(w));
  }

  /** Denormalizing an instruction at the same position undoes normalizing it, bit for bit. */
  lemma WordInverse(w: nat, i: nat)
    ensures DenormalizeWord(NormalizeWord(w, i), i) == w
  {
    if IsBranch(w) {
      BranchInverse(w, i / 4);
      BranchFields(w, i / 4 + Imm26(w));
    } else if IsPageAddress(w) {
      PageInverse(w, i / 4096);
      PageOperand(w, i / 4096 + Imm21(w));
      ClassesAreDisjoint(WithImm21(w, i / 4096 + Imm21(w)));
    }
  }

  lemma BranchInverse(w: nat, d: nat)
    ensures var n := WithImm26(w, d + Imm26(w));
            WithImm26(n, Imm26(n) - d) == w
  {
    var n := WithImm26(w, d + Imm26(w));
    BranchFields(w, d + Imm26(w));
    Cancel(Imm26(w), Imm26(n), d, 0x400_0000);
    BranchRebuild(w, Imm26(n) - d);
  }

  lemma PageInverse(w: nat, d: nat)
    requires IsPageAddress(w)
    ensures var n := WithImm21(w, d + Imm21(w));
            WithImm21(n, Imm21(n) - d) == w
  {
    var n := WithImm21(w, d + Imm21(w));
    PageOperand(w, d + Imm21(w));
    Cancel(Imm21(w), Imm21(n), d, 0x20_0000);
    PageRebuild(w, Imm21(n) - d);
  }

  /** The classes survive: a branch stays a branch with the same opcode, an ADRP stays an ADRP
      with the same register, and every other word is left alone. */
  lemma ClassIsKept(w: nat, i: nat)
    ensures IsBranch(NormalizeWord(w, i)) == IsBranch(w)
    ensures IsPageAddress(NormalizeWord(w, i)) == IsPageAddress(w)
    ensures IsBranch(w) ==> NormalizeWord(w, i) / 0x400_0000 == w / 0x400_0000
    ensures IsPageAddress(w) ==> NormalizeWord(w, i) % 32 == w % 32
    ensures !IsBranch(w) && !IsPageAddress(w) ==> NormalizeWord(w, i) == w
  {
    ClassesAreDisjoint(w);
    ClassesAreDisjoint(NormalizeWord(w, i));
    if IsBranch(w) {
      BranchFields(w, i / 4 + Imm26(w));
    } else if IsPageAddress(w) {
      PageOperand(w, i / 4096 + Imm21(w));
      RegisterBits(w);
      RegisterBits(NormalizeWord(w, i));
    }
  }

  lemma RegisterBits(w: nat)
    ensures Low24(w) % 32 == w % 32
  {}

  /** What normalizing is for: two branches with one opcode become the same word exactly
      when they go to the same instruction, wherever they stand. */
  lemma SameBranchTarget(w: nat, i: nat, v: nat, j: nat)
    requires IsBranch(w) && w / 0x400_0000 == v / 0x400_0000
    ensures NormalizeWord(w, i) == NormalizeWord(v, j)
       <==> (i / 4 + Imm26(w)) % 0x400_0000 == (j / 4 + Imm26(v)) % 0x400_0000
  {
    BranchFields(w, i / 4 + Imm26(w));
    BranchFields(v, j / 4 + Imm26(v));
  }

  /** The same for two ADRPs into one register: equal words exactly for equal pages. */
  lemma SamePageTarget(w: nat, i: nat, v: nat, j: nat)
    requires IsPageAddress(w) && IsPageAddress(v) && w % 32 == v % 32
    ensures NormalizeWord(w, i) == NormalizeWord(v, j)
       <==> (i / 4096 + Imm21(w)) % 0x20_0000 == (j / 4096 + Imm21(v)) % 0x20_0000
  {
    ClassesAreDisjoint(w);
    ClassesAreDisjoint(v);
    RegisterBits(w);
    RegisterBits(v);
    PageOperand(w, i / 4096 + Imm21(w));
    PageOperand(v, j / 4096 + Imm21(v));
  }

  // ----- The instructions as the architecture encodes them

  /** B, or BL if link, by x instructions. */
  function BranchWord(link: bool, x: int): nat {
    (if link then 0x9400_0000 else 0x1400_0000) + x % 0x400_0000
  }

  /** ADRP into register rd, by x pages: the low two bits of x stand in bits 29 and 30, the others from bit 5 on. */
  function AdrpWord(x: int, rd: nat): nat {
    0x9000_0000 + x % 4 * 0x2000_0000 + x / 4 % 0x8_0000 * 32 + rd
  }

  /** The branches are the words in two ranges, and their operand is the signed distance they encode. */
  lemma BranchesAre(w: nat, link: bool, x: int)
    requires w < 0x1_0000_0000
    ensures IsBranch(w) <==> 0x1400_0000 <= w < 0x1800_0000 || 0x9400_0000 <= w < 0x9800_0000
    ensures IsBranch(w) ==> w == BranchWord(w >= 0x9400_0000, Imm26(w)) && -0x200_0000 <= Imm26(w) < 0x200_0000
    ensures IsBranch(BranchWord(link, x)) && (-0x200_0000 <= x < 0x200_0000 ==> Imm26(BranchWord(link, x)) == x)
  {
    BranchParts(link, x);
  }

  lemma BranchParts(link: bool, x: int)
    ensures BranchWord(link, x) % 0x400_0000 == x % 0x400_0000
    ensures BranchWord(link, x) / 0x400_0000 == if link then 0x25 else 0x05
  {
    ModUnique(BranchWord(link, x), 0x400_0000, if link then 0x25 else 0x05, x % 0x400_0000);
  }

  /** A branch by x instructions at position i becomes a branch to instruction i / 4 + x of the buffer. */
  lemma NormalizedBranch(link: bool, x: int, i: nat)
    ensures NormalizeWord(BranchWord(link, x), i) == BranchWord(link, i / 4 + x)
  {
    var w := BranchWord(link, x);
    BranchParts(link, x);
    SignedModulo(w % 0x400_0000, 0x400_0000);
    AddBoth(i / 4, Imm26(w), x, 0x400_0000);
  }

  lemma AddBoth(d: int, x: int, y: int, m: nat)
    requires m == 0x400_0000 || m == 0x20_0000
    requires x % m == y % m
    ensures (d + x) % m == (d + y) % m
  {}

  /** The ADRPs are the words in four ranges, and their operand is the signed distance they encode. */
  lemma AdrpsAre(w: nat, x: int, rd: nat)
    requires w < 0x1_0000_0000 && rd < 32
    ensures IsPageAddress(w) <==> || 0x9000_0000 <= w < 0x9100_0000 || 0xB000_0000 <= w < 0xB100_0000
                                  || 0xD000_0000 <= w < 0xD100_0000 || 0xF000_0000 <= w < 0xF100_0000
    ensures IsPageAddress(w) ==> w == AdrpWord(Imm21(w), w % 32) && -0x10_0000 <= Imm21(w) < 0x10_0000
    ensures IsPageAddress(AdrpWord(x, rd)) && (-0x10_0000 <= x < 0x10_0000 ==> Imm21(AdrpWord(x, rd)) == x)
  {
    AdrpRanges(w);
    if IsPageAddress(w) {
      PageRebuild(w, Imm21(w));
      AdrpIsWord(w, Imm21(w));
      RegisterBits(w);
      OperandParts(w);
    }
    AdrpParts(x, rd);
  }

  lemma AdrpRanges(w: nat)
    requires w < 0x1_0000_0000
    ensures IsPageAddress(w) <==> || 0x9000_0000 <= w < 0x9100_0000 || 0xB000_0000 <= w < 0xB100_0000
                                  || 0xD000_0000 <= w < 0xD100_0000 || 0xF000_0000 <= w < 0xF100_0000
  {
    assert Top(w) < 256;
  }

  /** The encoder that the filter uses. */
  lemma AdrpIsWord(w: nat, v: int)
    ensures WithImm21(w, v) == AdrpWord(v, Low24(w) % 32)
  {
    var page := v % 0x20_0000;
    ModOfMod(v);
  }

  lemma ModOfMod(v: int)
    ensures v % 0x20_0000 % 4 == v % 4 && v % 0x20_0000 / 4 == v / 4 % 0x8_0000
  {
    var q, page := v / 0x20_0000, v % 0x20_0000;
    assert v == q * 0x20_0000 + page;
  }

  lemma AdrpParts(x: int, rd: nat)
    requires rd < 32
    ensures IsPageAddress(AdrpWord(x, rd)) && Low24(AdrpWord(x, rd)) % 32 == rd
    ensures Imm21(AdrpWord(x, rd)) % 0x20_0000 == x % 0x20_0000
    ensures -0x10_0000 <= x < 0x10_0000 ==> Imm21(AdrpWord(x, rd)) == x
  {
    hide *;
    assert Low24(rd) % 32 == rd by {
      RegisterIsLow(rd);
    }
    AdrpIsWord(rd, x);
    PageOperand(rd, x);
    Imm21Range(AdrpWord(x, rd));
    if -0x10_0000 <= x < 0x10_0000 {
      SameOperand(Imm21(AdrpWord(x, rd)), x);
    }
  }

  lemma RegisterIsLow(rd: nat)
    requires rd < 32
    ensures Low24(rd) % 32 == rd
  {}

  lemma SameOperand(a: int, b: int)
    requires -0x10_0000 <= a < 0x10_0000 && -0x10_0000 <= b < 0x10_0000 && a % 0x20_0000 == b % 0x20_0000
    ensures a == b
  {
    var q, r := a / 0x20_0000, b / 0x20_0000;
    assert a == q * 0x20_0000 + a % 0x20_0000 && b == r * 0x20_0000 + b % 0x20_0000;
  }

  lemma Imm21Range(w: nat)
    ensures -0x10_0000 <= Imm21(w) < 0x10_0000
  {
    OperandParts(w);
    hide Top, Low24;
  }

  /** An ADRP by x pages at position i becomes an ADRP to page i / 4096 + x of the buffer. */
  lemma NormalizedAdrp(x: int, rd: nat, i: nat)
    requires rd < 32
    ensures NormalizeWord(AdrpWord(x, rd), i) == AdrpWord(i / 4096 + x, rd)
  {
    var w := AdrpWord(x, rd);
    AdrpParts(x, rd);
    ClassesAreDisjoint(w);
    AdrpIsWord(w, i / 4096 + Imm21(w));
    AddBoth(i / 4096, Imm21(w), x, 0x20_0000);
    SameAdrp(i / 4096 + Imm21(w), i / 4096 + x, rd);
  }

  lemma SameAdrp(x: int, y: int, rd: nat)
    requires x % 0x20_0000 == y % 0x20_0000
    ensures AdrpWord(x, rd) == AdrpWord(y, rd)
  {
    ModOfMod(x);
    ModOfMod(y);
  }

  predicate FitsInt32(x: int) {
    -0x8000_0000 <= x < 0x8000_0000
  }

  /** In every buffer the decoder accepts, no signed 32-bit intermediate of either direction overflows. */
  lemma NoSignedOverflow(w: nat, i: nat)
    requires i < MAX_SIZE
    ensures FitsInt32(Imm26(w)) && FitsInt32(i / 4 + Imm26(w)) && FitsInt32(Imm26(w) - i / 4)
    ensures FitsInt32(Imm21(w)) && FitsInt32(i / 4096 + Imm21(w)) && FitsInt32(Imm21(w) - i / 4096)
  {
    assert 0 <= Low24(w) / 32 < 0x8_0000 && 0 <= Top(w) / 32 % 4 < 4;
  }

  // ----- A buffer

  /** What a filter does to the word at byte position i. */
  type WordFilter = (Word, nat) -> Word

  function NormalizeAt(w: Word, i: nat): Word {
    WordOf(NormalizeWord(w.Number(), i))
  }

  function DenormalizeAt(w: Word, i: nat): Word {
    WordOf(DenormalizeWord(w.Number(), i))
  }

  lemma FilterInverse(w: Word, i: nat)
    ensures DenormalizeAt(NormalizeAt(w, i), i) == w
  {
    WordLaws(w, 0);
    WordInRange(w.Number(), i);
    WordLaws(w, NormalizeWord(w.Number(), i));
    WordInverse(w.Number(), i);
  }

  /** A buffer whose first byte is at position i, every whole word filtered; the last |s| % 4 bytes kept. */
  function MapWords(s: seq<byte>, i: nat, f: WordFilter): (r: seq<byte>)
    ensures |r| == |s|
  {
    if |s| < 4 then s else f(WordAt(s, 0), i).Bytes() + MapWords(s[4..], i + 4, f)
  }

  function Normalize(s: seq<byte>): (r: seq<byte>) {
    MapWords(s, 0, NormalizeAt)
  }

  function Denormalize(s: seq<byte>): (r: seq<byte>) {
    MapWords(s, 0, DenormalizeAt)
  }

  lemma {:induction false} MapWordsInverse(s: seq<byte>, i: nat, f: WordFilter, g: WordFilter)
    requires forall w, i :: g(f(w, i), i) == w
    ensures MapWords(MapWords(s, i, f), i, g) == s
  {
    if |s| >= 4 {
      var w, rest := f(WordAt(s, 0), i), MapWords(s[4..], i + 4, f);
      var t := MapWords(s, i, f);
      assert WordAt(t, 0) == w && t[4..] == rest;
      MapWordsInverse(s[4..], i + 4, f, g);
      assert s == WordAt(s, 0).Bytes() + s[4..];
    }
  }

  /** For every buffer, denormalizing undoes normalizing. */
  lemma DenormalizeNormalize(s: seq<byte>)
    ensures Denormalize(Normalize(s)) == s
  {
    forall w, i
      ensures DenormalizeAt(NormalizeAt(w, i), i) == w
    {
      FilterInverse(w, i);
    }
    MapWordsInverse(s, 0, NormalizeAt, DenormalizeAt);
  }

  lemma WordBehind(s: seq<byte>, k: nat)
    requires k > 0 && 4 * k <= |s|
    ensures 4 * k + 4 <= |s| ==> WordAt(s[4..], 4 * (k - 1)) == WordAt(s, 4 * k)
    ensures s[4..][4 * (k - 1)..] == s[4 * k..]
  {}

  /** Word number k of a filtered buffer is the filtered word number k, and the bytes after the last one are kept. */
  lemma {:induction false} MapWordsAt(s: seq<byte>, i: nat, f: WordFilter, k: nat)
    requires 4 * k <= |s|
    ensures 4 * k + 4 <= |s| ==> WordAt(MapWords(s, i, f), 4 * k) == f(WordAt(s, 4 * k), i + 4 * k)
    ensures |s| < 4 * k + 4 ==> MapWords(s, i, f)[4 * k..] == s[4 * k..]
  {
    if |s| >= 4 {
      var r, rest := MapWords(s, i, f), MapWords(s[4..], i + 4, f);
      assert r[4..] == rest && WordAt(r, 0) == f(WordAt(s, 0), i);
      if k > 0 {
        MapWordsAt(s[4..], i + 4, f, k - 1);
        hide MapWords;
        WordBehind(s, k);
        WordBehind(r, k);
      }
    }
  }

  /** Normalizing a buffer filters each word by its position in it. */
  lemma NormalizeAtWord(s: seq<byte>, k: nat)
    requires 4 * k <= |s|
    ensures 4 * k + 4 <= |s| ==>
              WordAt(Normalize(s), 4 * k).Number() == NormalizeWord(WordAt(s, 4 * k).Number(), 4 * k)
    ensures |s| < 4 * k + 4 ==> Normalize(s)[4 * k..] == s[4 * k..]
  {
    MapWordsAt(s, 0, NormalizeAt, k);
    if 4 * k + 4 <= |s| {
      var w := WordAt(s, 4 * k);
      WordLaws(w, 0);
      WordInRange(w.Number(), 4 * k);
      WordLaws(w, NormalizeWord(w.Number(), 4 * k));
    }
  }

  // ----- The loops of the source, in place on data[off .. off + size]

  /** The loop both directions share: it reads a word, filters it and stores its four bytes back. */
  method MapWordsInPlace(data: array<byte>, off: nat, size: nat, f: WordFilter)
    requires off + size <= data.Length
    modifies data
    ensures data[..] == Splice(old(data[..]), off, MapWords(old(data[off..off + size]), 0, f))
  {
    hide *;
    ghost var was, rest := data[..], data[off..off + size];
    ghost var goal := MapWords(rest, 0, f);
    FirstWord(was, off, size, f);
    var i := 0;
    while i + 3 < size
      invariant i <= size && |rest| == size - i
      invariant AtWord(was, data[..], off, size, i, goal, rest, f)
    {
      var w := f(Word(data[off + i], data[off + i + 1], data[off + i + 2], data[off + i + 3]), i);
      MapOneWord(was, data[..], off, size, i, goal, rest, f);
      Scans.StoreWord(data, off + i, w);
      rest := rest[4..];
      i := i + 4;
    }
    LastWord(was, data[..], off, size, i, goal, rest, f);
  }

  /** The loop stands at position i and rest is what the original holds from there on. */
  ghost predicate AtWord(was: seq<byte>, now: seq<byte>, off: nat, size: nat, i: nat, goal: seq<byte>, rest: seq<byte>,
      f: WordFilter)
  {
    Scans.At(was, now, off, size, i, goal, MapWords(rest, i, f)) && rest == was[off + i..off + size]
  }

  lemma FirstWord(was: seq<byte>, off: nat, size: nat, f: WordFilter)
    requires off + size <= |was|
    ensures var rest := was[off..off + size]; AtWord(was, was, off, size, 0, MapWords(rest, 0, f), rest, f)
  {
    var rest := was[off..off + size];
    Scans.Start(was, off, size, MapWords(rest, 0, f));
  }

  lemma LastWord(was: seq<byte>, now: seq<byte>, off: nat, size: nat, i: nat, goal: seq<byte>, rest: seq<byte>,
      f: WordFilter)
    requires AtWord(was, now, off, size, i, goal, rest, f) && |rest| < 4
    ensures now == Splice(was, off, goal)
  {
    Scans.Finish(was, now, off, size, i, goal, rest);
  }

  lemma MapOneWord(was: seq<byte>, now: seq<byte>, off: nat, size: nat, i: nat, goal: seq<byte>, rest: seq<byte>,
      f: WordFilter)
    requires AtWord(was, now, off, size, i, goal, rest, f) && |rest| >= 4
    ensures off + i + 4 <= |now|
    ensures var w := f(Word(now[off + i], now[off + i + 1], now[off + i + 2], now[off + i + 3]), i);
            AtWord(was, Splice(now, off + i, w.Bytes()), off, size, i + 4, goal, rest[4..], f)
  {
    assert now[off + i..] == was[off + i..];
    assert WordAt(rest, 0) == WordAt(now, off + i) by {
      assert forall k :: 0 <= k < 4 ==> now[off + i + k] == now[off + i..][k] == was[off + i..][k] == rest[k];
    }
    var w := f(WordAt(rest, 0), i);
    Scans.Step(was, now, off, size, i, goal, w.Bytes(), MapWords(rest[4..], i + 4, f));
    assert rest[4..] == was[off + i + 4..off + size];
  }

  method NormalizeInPlace(data: array<byte>, off: nat, size: nat)
    requires off + size <= data.Length
    modifies data
    ensures data[..] == Splice(old(data[..]), off, Normalize(old(data[off..off + size])))
  {
    MapWordsInPlace(data, off, size, NormalizeAt);
  }

  method DenormalizeInPlace(data: array<byte>, off: nat, size: nat)
    requires off + size <= data.Length
    modifies data
    ensures data[..] == Splice(old(data[..]), off, Denormalize(old(data[off..off + size])))
  {
    MapWordsInPlace(data, off, size, DenormalizeAt);
  }
}
