/** Reading the section table of an ELF file (selfcode/lgz/lgzv3.c, parse_elf_sections).
    LeField layout: chapter 4 of the System V gABI, 64-bit objects. */
module ElfSections {
  import opened Bytes

  /** A stretch of a file: a section or a chunk. */
  datatype Extent = Extent(offset: nat, size: nat, isCode: bool) {
    function End(): nat {
      offset + size
    }
  }

  datatype Arch = Arm64 | X86

  datatype ElfInfo = NotElf | Elf(sections: seq<Extent>, arch: Arch)

  const HEADER_SIZE: nat := 64
  const SECTION_HEADER_SIZE: nat := 64
  const EM_386: nat := 3
  const EM_X86_64: nat := 62
  const EM_AARCH64: nat := 183
  const SHT_PROGBITS: nat := 1
  const WRAP64: nat := 0x1_0000_0000_0000_0000

  // ----- The file header

  datatype FileHeader = FileHeader(magic: seq<byte>, bits: byte, machine: nat, table: nat, entrySize: nat, count: nat) {
    /** Where the last section header ends. */
    function TableEnd(): nat
      requires count > 0
    {
      EntryAt(count - 1) + SECTION_HEADER_SIZE
    }

    function EntryAt(i: nat): nat {
      table + i * entrySize
    }

    /** The checks that stand before the table of an n-byte file is read; the 64-bit sum wraps. */
    predicate HasTable(n: nat) {
      && magic == [0x7F, 0x45, 0x4C, 0x46]
      && (machine == EM_AARCH64 || machine == EM_X86_64 || machine == EM_386)
      && bits == 2
      && table != 0 && count != 0
      && (table + count * entrySize) % WRAP64 <= n
    }

    function Architecture(): Arch {
      if machine == EM_AARCH64 then Arm64 else X86
    }
  }

  function HeaderOf(s: seq<byte>): FileHeader
    requires |s| >= HEADER_SIZE
  {
    FileHeader(s[0..4], s[4], LeField(s, 18, 2), LeField(s, 40, 8), LeField(s, 58, 2), LeField(s, 60, 2))
  }

  predicate IsElf(s: seq<byte>) {
    |s| >= HEADER_SIZE && HeaderOf(s).HasTable(|s|)
  }

  /** Every section header the source reads lies in the file. The source does not check this;
      reading outside the buffer has no defined result. */
  predicate Readable(s: seq<byte>) {
    IsElf(s) ==> HeaderOf(s).TableEnd() <= |s|
  }

  // ----- Section headers

  datatype SectionHeader = SectionHeader(kind: nat, flags: nat, offset: nat, size: nat) {
    /** Kept: program bits, not empty, and ending inside the n-byte file by the 64-bit sum. */
    predicate IsKept(n: nat) {
      kind == SHT_PROGBITS && size != 0 && (offset + size) % WRAP64 <= n
    }

    /** SHF_EXECINSTR is bit 2 of the flags. */
    function Section(): Extent {
      Extent(offset, size, flags / 4 % 2 == 1)
    }
  }

  function SectionHeaderAt(s: seq<byte>, at: nat): SectionHeader
    requires at + SECTION_HEADER_SIZE <= |s|
  {
    SectionHeader(LeField(s, at + 4, 4), LeField(s, at + 8, 8), LeField(s, at + 24, 8), LeField(s, at + 32, 8))
  }

  lemma EntryInTable(h: FileHeader, i: nat)
    requires i < h.count
    ensures h.table <= h.EntryAt(i) && h.EntryAt(i) + SECTION_HEADER_SIZE <= h.TableEnd()
  {
    MulMonotone(h.entrySize, i, h.count - 1);
  }

  lemma TableHasPlace(h: FileHeader)
    requires h.count > 0
    ensures h.table <= h.TableEnd()
  {
    EntryInTable(h, 0);
  }

  function Entry(s: seq<byte>, h: FileHeader, i: nat): SectionHeader
    requires i < h.count && h.TableEnd() <= |s|
  {
    EntryInTable(h, i);
    SectionHeaderAt(s, h.EntryAt(i))
  }

  /** The kept headers from number i on, in table order. */
  function KeptFrom(s: seq<byte>, h: FileHeader, i: nat): seq<Extent>
    requires h.count > 0 && h.TableEnd() <= |s| && i <= h.count
    decreases h.count - i
  {
    if i == h.count then []
    else (if Entry(s, h, i).IsKept(|s|) then [Entry(s, h, i).Section()] else []) + KeptFrom(s, h, i + 1)
  }

  function Parse(s: seq<byte>): (info: ElfInfo)
    requires Readable(s)
  {
    if IsElf(s) then Elf(Sort(KeptFrom(s, HeaderOf(s), 0)), HeaderOf(s).Architecture()) else NotElf
  }

  // ----- The exchange sort

  /** One pass of the inner loop with x in front: every entry with a smaller offset changes places with it. */
  function Sweep(x: Extent, rest: seq<Extent>): (r: (Extent, seq<Extent>))
    ensures |r.1| == |rest|
    decreases rest
  {
    if rest == [] then (x, [])
    else
      var (front, passed) := if rest[0].offset < x.offset then (rest[0], x) else (x, rest[0]);
      var swept := Sweep(front, rest[1..]);
      (swept.0, [passed] + swept.1)
  }

  function Sort(s: seq<Extent>): (r: seq<Extent>)
    ensures |r| == |s|
    decreases |s|
  {
    if s == [] then [] else
      var (m, r) := Sweep(s[0], s[1..]);
      [m] + Sort(r)
  }

  ghost predicate Sorted(s: seq<Extent>) {
    s != [] ==> (forall e :: e in s[1..] ==> s[0].offset <= e.offset) && Sorted(s[1..])
  }

  lemma MultisetOfCons(e: Extent, s: seq<Extent>)
    ensures multiset([e] + s) == multiset{e} + multiset(s)
  {}

  lemma {:induction false} SweepPermutes(x: Extent, rest: seq<Extent>)
    ensures multiset{Sweep(x, rest).0} + multiset(Sweep(x, rest).1) == multiset{x} + multiset(rest)
    decreases rest
  {
    if rest != [] {
      var y, tail := rest[0], rest[1..];
      var (front, passed) := if y.offset < x.offset then (y, x) else (x, y);
      var swept := Sweep(front, tail);
      SweepPermutes(front, tail);
      assert Sweep(x, rest) == (swept.0, [passed] + swept.1);
      hide Sweep;
      MultisetOfCons(passed, swept.1);
      MultisetOfCons(y, tail);
      assert rest == [y] + tail;
      Regroup(multiset{swept.0}, multiset(swept.1), multiset(tail), x, y, front, passed);
    }
  }

  /** One exchange, or none, in front of a pass that permutes. */
  lemma Regroup(m: multiset<Extent>, r: multiset<Extent>, t: multiset<Extent>, x: Extent, y: Extent, front: Extent,
      passed: Extent)
    requires m + r == multiset{front} + t
    requires (front == x && passed == y) || (front == y && passed == x)
    ensures m + (multiset{passed} + r) == multiset{x} + (multiset{y} + t)
  {
    assert m + (multiset{passed} + r) == (m + r) + multiset{passed};
  }

  lemma {:induction false} SweepFindsMinimum(x: Extent, rest: seq<Extent>)
    ensures Sweep(x, rest).0.offset <= x.offset
    ensures forall e :: e in Sweep(x, rest).1 ==> Sweep(x, rest).0.offset <= e.offset
    decreases rest
  {
    if rest != [] {
      if rest[0].offset < x.offset {
        SweepFindsMinimum(rest[0], rest[1..]);
      } else {
        SweepFindsMinimum(x, rest[1..]);
      }
    }
  }

  lemma {:induction false} SortPermutes(s: seq<Extent>)
    ensures multiset(Sort(s)) == multiset(s)
    decreases |s|
  {
    if s != [] {
      var (m, r) := Sweep(s[0], s[1..]);
      SweepPermutes(s[0], s[1..]);
      SortPermutes(r);
      MultisetOfCons(m, Sort(r));
      MultisetOfCons(s[0], s[1..]);
      assert s == [s[0]] + s[1..];
    }
  }

  /** Nothing moves in a list that is sorted, so sections of one offset stay in the order of the table. */
  lemma {:induction false} SortedStays(s: seq<Extent>)
    requires Sorted(s)
    ensures Sort(s) == s
    decreases |s|
  {
    if s != [] {
      SweepMovesNothing(s[0], s[1..]);
      SortedStays(s[1..]);
      assert s == [s[0]] + s[1..];
    }
  }

  lemma {:induction false} SweepMovesNothing(x: Extent, rest: seq<Extent>)
    requires forall e :: e in rest ==> x.offset <= e.offset
    ensures Sweep(x, rest) == (x, rest)
    decreases rest
  {
    if rest != [] {
      assert rest[0] in rest;
      SweepMovesNothing(x, rest[1..]);
      assert rest == [rest[0]] + rest[1..];
    }
  }

  lemma SameElements(a: seq<Extent>, b: seq<Extent>, e: Extent)
    requires multiset(a) == multiset(b)
    ensures e in a <==> e in b
  {
    assert e in a <==> e in multiset(a);
    assert e in b <==> e in multiset(b);
  }

  lemma {:induction false} SortSorts(s: seq<Extent>)
    ensures Sorted(Sort(s))
    decreases |s|
  {
    if s != [] {
      var (m, r) := Sweep(s[0], s[1..]);
      SweepFindsMinimum(s[0], s[1..]);
      SortSorts(r);
      SortPermutes(r);
      forall e | e in Sort(r)
        ensures m.offset <= e.offset
      {
        SameElements(Sort(r), r, e);
      }
      assert Sort(s)[1..] == Sort(r);
    }
  }

  // ----- What parsing returns

  ghost predicate Contributes(s: seq<byte>, h: FileHeader, k: nat, e: Extent)
    requires k < h.count && h.TableEnd() <= |s|
  {
    Entry(s, h, k).IsKept(|s|) && e == Entry(s, h, k).Section()
  }

  ghost predicate ContributesFrom(s: seq<byte>, h: FileHeader, i: nat, e: Extent)
    requires h.count > 0 && h.TableEnd() <= |s|
  {
    exists k: nat :: i <= k < h.count && Contributes(s, h, k, e)
  }

  lemma ContributesNext(s: seq<byte>, h: FileHeader, i: nat, e: Extent)
    requires h.count > 0 && h.TableEnd() <= |s| && i < h.count
    ensures ContributesFrom(s, h, i, e) <==> Contributes(s, h, i, e) || ContributesFrom(s, h, i + 1, e)
  {
    hide Contributes;
  }

  lemma NothingLeft(s: seq<byte>, h: FileHeader, e: Extent)
    requires h.count > 0 && h.TableEnd() <= |s|
    ensures !ContributesFrom(s, h, h.count, e)
  {}

  lemma {:induction false} KeptFromHolds(s: seq<byte>, h: FileHeader, i: nat, e: Extent)
    requires h.count > 0 && h.TableEnd() <= |s| && i <= h.count
    ensures e in KeptFrom(s, h, i) <==> ContributesFrom(s, h, i, e)
    decreases h.count - i
  {
    hide ContributesFrom, SectionHeaderAt;
    if i < h.count {
      KeptFromHolds(s, h, i + 1, e);
      ContributesNext(s, h, i, e);
    } else {
      NothingLeft(s, h, e);
    }
  }

  /** The sections returned are the kept headers, each as often as it stands in the table, ordered by offset. */
  lemma ParseReturnsKeptHeaders(s: seq<byte>)
    requires IsElf(s) && Readable(s)
    ensures Sorted(Parse(s).sections)
    ensures multiset(Parse(s).sections) == multiset(KeptFrom(s, HeaderOf(s), 0))
    ensures forall e :: e in Parse(s).sections <==> ContributesFrom(s, HeaderOf(s), 0, e)
  {
    var kept := KeptFrom(s, HeaderOf(s), 0);
    SortSorts(kept);
    SortPermutes(kept);
    forall e
      ensures e in Sort(kept) <==> ContributesFrom(s, HeaderOf(s), 0, e)
    {
      KeptFromHolds(s, HeaderOf(s), 0, e);
      SameElements(Sort(kept), kept, e);
    }
  }

  /** A section is code exactly when bit 2 of its flags is set, whatever the other bits are. */
  lemma CodeFlag(h: SectionHeader, hi: nat, lo: nat)
    requires lo < 4
    ensures h.flags == 8 * hi + 4 + lo ==> h.Section().isCode
    ensures h.flags == 8 * hi + lo ==> !h.Section().isCode
  {
    ModUnique(8 * hi + 4 + lo, 4, 2 * hi + 1, lo);
    ModUnique(8 * hi + lo, 4, 2 * hi, lo);
  }

  /** Bit 2 of an eight-byte field is bit 2 of its first byte. */
  lemma FlagByte(s: seq<byte>)
    requires |s| == 8
    ensures Value(s) / 4 % 2 == 1 <==> s[0] % 8 >= 4
  {
    var hi, lo := 32 * Value(s[1..]) + s[0] / 8, s[0] % 4;
    var h := SectionHeader(0, Value(s), 0, 0);
    CodeFlag(h, hi, lo);
  }

  // ----- Parsing, said of the bytes

  /** The machine and the bounds that stand in the first 64 bytes of a supported file. */
  lemma IsElfIff(s: seq<byte>)
    ensures IsElf(s) <==>
              && |s| >= 64
              && s[0] == 0x7F && s[1] == 'E' as int && s[2] == 'L' as int && s[3] == 'F' as int && s[4] == 2
              && (LeField(s, 18, 2) == 183 || LeField(s, 18, 2) == 62 || LeField(s, 18, 2) == 3)
              && LeField(s, 40, 8) != 0 && LeField(s, 60, 2) != 0
              && (LeField(s, 40, 8) + LeField(s, 58, 2) * LeField(s, 60, 2)) % 0x1_0000_0000_0000_0000 <= |s|
    ensures IsElf(s) && Readable(s) ==> Parse(s).arch == if LeField(s, 18, 2) == 183 then Arm64 else X86
  {
    hide LeField;
    if |s| >= 64 {
      assert s[0..4] == [s[0], s[1], s[2], s[3]];
    }
  }

  /** The section header at this place is kept as e: type 1, not empty, its end inside the file in 64-bit arithmetic,
      and code by bit 2 of the flags. */
  ghost predicate KeptAt(s: seq<byte>, at: nat, e: Extent)
    requires at + 64 <= |s|
  {
    && LeField(s, at + 4, 4) == 1 && e.size != 0
    && e.offset == LeField(s, at + 24, 8) && e.size == LeField(s, at + 32, 8)
    && (e.offset + e.size) % 0x1_0000_0000_0000_0000 <= |s|
    && (e.isCode <==> s[at + 8] % 8 >= 4)
  }

  /** How many headers from number i on are kept as e. */
  ghost function TimesKept(s: seq<byte>, h: FileHeader, i: nat, e: Extent): nat
    requires h.count > 0 && h.TableEnd() <= |s| && i <= h.count
    decreases h.count - i
  {
    if i == h.count then 0
    else
      EntryInTable(h, i);
      (if KeptAt(s, h.table + i * h.entrySize, e) then 1 else 0) + TimesKept(s, h, i + 1, e)
  }

  lemma KeptAtIs(s: seq<byte>, h: FileHeader, i: nat, e: Extent)
    requires i < h.count && h.TableEnd() <= |s|
    ensures h.table + i * h.entrySize + 64 <= |s|
    ensures KeptAt(s, h.table + i * h.entrySize, e) <==> Entry(s, h, i).IsKept(|s|) && e == Entry(s, h, i).Section()
  {
    EntryInTable(h, i);
    var at := h.EntryAt(i);
    FlagByte(s[at + 8..at + 16]);
    hide Value;
  }

  lemma {:induction false} TimesInKept(s: seq<byte>, h: FileHeader, i: nat, e: Extent)
    requires h.count > 0 && h.TableEnd() <= |s| && i <= h.count
    ensures multiset(KeptFrom(s, h, i))[e] == TimesKept(s, h, i, e)
    decreases h.count - i
  {
    hide *;
    if i == h.count {
      NoHeader(s, h, e);
    } else {
      TimesInKept(s, h, i + 1, e);
      OneHeader(s, h, i, e);
    }
  }

  lemma NoHeader(s: seq<byte>, h: FileHeader, e: Extent)
    requires h.count > 0 && h.TableEnd() <= |s|
    ensures KeptFrom(s, h, h.count) == [] && TimesKept(s, h, h.count, e) == 0
  {
    hide FileHeader.TableEnd, Entry, KeptAt;
  }

  lemma OneHeader(s: seq<byte>, h: FileHeader, i: nat, e: Extent)
    requires i < h.count && h.TableEnd() <= |s|
    ensures multiset(KeptFrom(s, h, i))[e] - multiset(KeptFrom(s, h, i + 1))[e] ==
            TimesKept(s, h, i, e) - TimesKept(s, h, i + 1, e)
  {
    hide *;
    KeptAtIs(s, h, i, e);
    TimesUnrolled(s, h, i, e);
    KeptUnrolled(s, h, i, e);
  }

  lemma KeptUnrolled(s: seq<byte>, h: FileHeader, i: nat, e: Extent)
    requires i < h.count && h.TableEnd() <= |s|
    ensures multiset(KeptFrom(s, h, i))[e] ==
            multiset(KeptFrom(s, h, i + 1))[e]
              + if Entry(s, h, i).IsKept(|s|) && e == Entry(s, h, i).Section() then 1 else 0
  {
    hide Entry, SectionHeader.IsKept, SectionHeader.Section, FileHeader.TableEnd;
    var rest := KeptFrom(s, h, i + 1);
    if Entry(s, h, i).IsKept(|s|) {
      MultisetOfCons(Entry(s, h, i).Section(), rest);
    } else {
      assert KeptFrom(s, h, i) == rest;
    }
  }

  lemma TimesUnrolled(s: seq<byte>, h: FileHeader, i: nat, e: Extent)
    requires i < h.count && h.TableEnd() <= |s|
    ensures h.table + i * h.entrySize + 64 <= |s|
    ensures TimesKept(s, h, i, e) ==
            (if KeptAt(s, h.table + i * h.entrySize, e) then 1 else 0) + TimesKept(s, h, i + 1, e)
  {
    EntryInTable(h, i);
    hide KeptAt;
  }

  /** What is returned, read off the bytes of the table: the kept headers, each as often as it stands there,
      by offset. */
  lemma ParseFromBytes(s: seq<byte>, e: Extent)
    requires IsElf(s) && Readable(s)
    ensures var h := HeaderOf(s);
            && h.table == LeField(s, 40, 8) && h.entrySize == LeField(s, 58, 2) && h.count == LeField(s, 60, 2)
            && Sorted(Parse(s).sections) && multiset(Parse(s).sections)[e] == TimesKept(s, h, 0, e)
  {
    ParseReturnsKeptHeaders(s);
    TimesInKept(s, HeaderOf(s), 0, e);
  }

  lemma {:induction false} KeptCount(s: seq<byte>, h: FileHeader, i: nat)
    requires h.count > 0 && h.TableEnd() <= |s| && i <= h.count
    ensures |KeptFrom(s, h, i)| <= h.count - i
    decreases h.count - i
  {
    if i < h.count {
      KeptCount(s, h, i + 1);
    }
  }

  lemma SectionCount(s: seq<byte>)
    requires Readable(s) && Parse(s).Elf?
    ensures |Parse(s).sections| < 0x1_0000
  {
    KeptCount(s, HeaderOf(s), 0);
    ValueBound(s[60..62]);
    Pow256Values();
  }

  // ----- Parsing reads nothing but the header and the table

  ghost predicate SameStretch(a: seq<byte>, b: seq<byte>, lo: nat, hi: nat) {
    |a| == |b| && lo <= hi <= |a| && a[lo..hi] == b[lo..hi]
  }

  lemma SubStretch(a: seq<byte>, b: seq<byte>, lo: nat, hi: nat, at: nat, width: nat)
    requires SameStretch(a, b, lo, hi) && lo <= at && at + width <= hi
    ensures a[at..at + width] == b[at..at + width]
  {
    assert a[at..at + width] == a[lo..hi][at - lo..at - lo + width] by {
      SliceOfSlice(a, lo, hi - lo, at - lo, at - lo + width);
    }
    assert b[at..at + width] == b[lo..hi][at - lo..at - lo + width] by {
      SliceOfSlice(b, lo, hi - lo, at - lo, at - lo + width);
    }
  }

  lemma SameHeader(a: seq<byte>, b: seq<byte>)
    requires |a| >= HEADER_SIZE && SameStretch(a, b, 0, HEADER_SIZE)
    ensures HeaderOf(a) == HeaderOf(b)
  {
    SubStretch(a, b, 0, HEADER_SIZE, 0, 4);
    SubStretch(a, b, 0, HEADER_SIZE, 4, 1);
    assert a[4..5][0] == b[4..5][0];
    SubStretch(a, b, 0, HEADER_SIZE, 18, 2);
    SubStretch(a, b, 0, HEADER_SIZE, 40, 8);
    SubStretch(a, b, 0, HEADER_SIZE, 58, 2);
    SubStretch(a, b, 0, HEADER_SIZE, 60, 2);
  }

  lemma SameSectionHeader(a: seq<byte>, b: seq<byte>, lo: nat, hi: nat, at: nat)
    requires SameStretch(a, b, lo, hi) && lo <= at && at + SECTION_HEADER_SIZE <= hi
    ensures SectionHeaderAt(a, at) == SectionHeaderAt(b, at)
  {
    SubStretch(a, b, lo, hi, at + 4, 4);
    SubStretch(a, b, lo, hi, at + 8, 8);
    SubStretch(a, b, lo, hi, at + 24, 8);
    SubStretch(a, b, lo, hi, at + 32, 8);
  }

  lemma {:induction false} SameKept(a: seq<byte>, b: seq<byte>, h: FileHeader, i: nat)
    requires h.count > 0 && h.TableEnd() <= |a| && i <= h.count
    requires SameStretch(a, b, h.table, h.TableEnd())
    ensures KeptFrom(a, h, i) == KeptFrom(b, h, i)
    decreases h.count - i
  {
    if i < h.count {
      EntryInTable(h, i);
      SameSectionHeader(a, b, h.table, h.TableEnd(), h.EntryAt(i));
      SameKept(a, b, h, i + 1);
    }
  }

  /** Two files that agree on the header and the table parse alike. */
  lemma ParseFrame(a: seq<byte>, b: seq<byte>)
    requires IsElf(a) && Readable(a)
    requires SameStretch(a, b, 0, HEADER_SIZE)
    requires SameStretch(a, b, HeaderOf(a).table, HeaderOf(a).TableEnd())
    ensures IsElf(b) && Readable(b) && Parse(b) == Parse(a)
  {
    SameHeader(a, b);
    SameKept(a, b, HeaderOf(a), 0);
  }

  // ----- The loops of the source

  method ExchangeSort(secs: array<Extent>, count: nat)
    requires count <= secs.Length
    modifies secs
    ensures secs[..count] == Sort(old(secs[..count]))
  {
    ghost var goal := Sort(secs[..count]);
    var i := 0;
    assert secs[..0] + Sort(secs[0..count]) == goal by {
      assert secs[0..count] == secs[..count];
    }
    while i + 1 < count
      invariant i <= count
      invariant goal == secs[..i] + Sort(secs[i..count])
    {
      SweepInPlace(secs, i, count, goal);
      i := i + 1;
    }
    ShortSort(secs[i..count]);
    assert secs[..count] == secs[..i] + secs[i..count];
  }

  lemma ShortSort(s: seq<Extent>)
    requires |s| <= 1
    ensures Sort(s) == s
  {
    if |s| == 1 {
      assert Sweep(s[0], s[1..]) == (s[0], []);
    }
  }

  /** What is left of an inner pass: the front element and the entries already looked at. */
  ghost predicate Sweeping(s: seq<Extent>, i: nat, j: nat, count: nat, m: Extent, r: seq<Extent>) {
    && i < j <= count <= |s|
    && m == Sweep(s[i], s[j..count]).0
    && r == s[i + 1..j] + Sweep(s[i], s[j..count]).1
  }

  method SweepInPlace(secs: array<Extent>, i: nat, count: nat, ghost goal: seq<Extent>)
    requires i + 1 < count <= secs.Length
    requires goal == secs[..i] + Sort(secs[i..count])
    modifies secs
    ensures goal == secs[..i + 1] + Sort(secs[i + 1..count])
  {
    hide Sort, Sweep, Sweeping;
    ghost var front := secs[..i];
    ghost var (m, r) := Sweep(secs[i], secs[i + 1..count]);
    SweepStart(secs[..], i, count);
    var j := i + 1;
    while j < count
      invariant i < j <= count && secs[..i] == front
      invariant Sweeping(secs[..], i, j, count, m, r)
    {
      SweepStep(secs[..], i, j, count, m, r);
      if secs[j].offset < secs[i].offset {
        secs[i], secs[j] := secs[j], secs[i];
      }
      j := j + 1;
    }
    SweepEnd(secs[..], i, count, m, r);
  }

  lemma SweepStart(s: seq<Extent>, i: nat, count: nat)
    requires i + 1 < count <= |s|
    ensures var (m, r) := Sweep(s[i], s[i + 1..count]);
            Sweeping(s, i, i + 1, count, m, r) && Sort(s[i..count]) == [m] + Sort(r)
  {
    assert s[i..count][0] == s[i] && s[i..count][1..] == s[i + 1..count];
  }

  lemma SweepStep(s: seq<Extent>, i: nat, j: nat, count: nat, m: Extent, r: seq<Extent>)
    requires j < count && Sweeping(s, i, j, count, m, r)
    ensures var t := if s[j].offset < s[i].offset then s[i := s[j]][j := s[i]] else s;
            Sweeping(t, i, j + 1, count, m, r)
  {
    var t := if s[j].offset < s[i].offset then s[i := s[j]][j := s[i]] else s;
    assert s[j..count][0] == s[j] && s[j..count][1..] == s[j + 1..count];
    assert t[j + 1..count] == s[j + 1..count];
    assert t[i + 1..j + 1] == s[i + 1..j] + [t[j]];
  }

  lemma SweepEnd(s: seq<Extent>, i: nat, count: nat, m: Extent, r: seq<Extent>)
    requires Sweeping(s, i, count, count, m, r)
    ensures s[..i + 1] == s[..i] + [m] && s[i + 1..count] == r
  {
    assert s[count..count] == [];
  }

  method ParseElfSections(data: array<byte>) returns (info: ElfInfo)
    requires Readable(data[..])
    ensures info == Parse(data[..])
  {
    if data.Length < HEADER_SIZE {
      return NotElf;
    }
    var h := HeaderOf(data[..]);
    if !h.HasTable(data.Length) {
      return NotElf;
    }
    var kept := KeepHeaders(data, h);
    info := Elf(kept, h.Architecture());
  }

  method KeepHeaders(data: array<byte>, h: FileHeader) returns (kept: seq<Extent>)
    requires h.count > 0 && h.TableEnd() <= data.Length
    ensures kept == Sort(KeptFrom(data[..], h, 0))
  {
    hide Sort, SectionHeaderAt, KeptFrom;
    ghost var s := data[..];
    var secs := new Extent[h.count];
    var count, i := 0, 0;
    while i < h.count
      invariant count <= i <= h.count
      invariant KeptFrom(s, h, 0) == secs[..count] + KeptFrom(s, h, i)
    {
      ghost var before := secs[..count];
      var header := Entry(data[..], h, i);
      KeptStep(s, h, i, before);
      if header.IsKept(data.Length) {
        secs[count] := header.Section();
        count := count + 1;
        assert secs[..count] == before + [header.Section()];
      }
      i := i + 1;
    }
    NoneKept(s, h);
    assert secs[..count] == KeptFrom(s, h, 0);
    ExchangeSort(secs, count);
    kept := secs[..count];
  }

  lemma KeptStep(s: seq<byte>, h: FileHeader, i: nat, before: seq<Extent>)
    requires h.count > 0 && h.TableEnd() <= |s| && i < h.count
    ensures before + KeptFrom(s, h, i)
         == (if Entry(s, h, i).IsKept(|s|) then before + [Entry(s, h, i).Section()] else before) + KeptFrom(s, h, i + 1)
  {
    hide Entry;
  }

  lemma NoneKept(s: seq<byte>, h: FileHeader)
    requires h.count > 0 && h.TableEnd() <= |s|
    ensures KeptFrom(s, h, h.count) == []
  {}
}
