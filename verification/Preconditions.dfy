/** Files and disks that meet the preconditions of the main results: ELF files with a code section of any content, and
    freshly formatted disks with any entry array. */
module Preconditions {
  import opened Bytes
  import ElfSections
  import Parts
  import Blobs
  import GptDisk
  import GptEntries
  import GptLoad
  import GptSync
  import SlotBackends

  function Blank(n: nat): (z: seq<byte>)
    ensures |z| == n
  {
    seq(n, _ => 0)
  }

  // ----- ELF

  /** A 64-bit file header with a table of section headers at the given place. */
  function ElfHeader(machine: nat, table: nat, count: nat): (h: seq<byte>)
    ensures |h| == ElfSections.HEADER_SIZE
  {
    [0x7F, 0x45, 0x4C, 0x46, 2] + Blank(13) + Le(machine, 2) + Blank(20) + Le(table, 8) + Blank(10) + Le(64, 2)
        + Le(count, 2) + Blank(2)
  }

  /** The header of a section of program bits with these flags. */
  function SectionBytes(flags: nat, offset: nat, size: nat): (h: seq<byte>)
    ensures |h| == ElfSections.SECTION_HEADER_SIZE
  {
    Blank(4) + Le(1, 4) + Le(flags, 8) + Blank(8) + Le(offset, 8) + Le(size, 8) + Blank(24)
  }

  /** File header, the bytes of one section, section table. */
  function ElfFile(machine: nat, flags: nat, code: seq<byte>): seq<byte> {
    ElfHeader(machine, 64 + |code|, 1) + code + SectionBytes(flags, 64, |code|)
  }

  lemma ElfHeaderFields(machine: nat, table: nat, count: nat)
    requires machine < 0x1_0000 && count < 0x1_0000 && table < 0x1_0000_0000_0000_0000
    ensures var h := ElfHeader(machine, table, count);
            ElfSections.HeaderOf(h) == ElfSections.FileHeader([0x7F, 0x45, 0x4C, 0x46], 2, machine, table, 64, count)
  {
    hide Value, Le;
    var h := ElfHeader(machine, table, count);
    assert h[0..4] == [0x7F, 0x45, 0x4C, 0x46] && h[4] == 2;
    assert h[18..20] == Le(machine, 2) && h[40..48] == Le(table, 8) && h[58..60] == Le(64, 2)
        && h[60..62] == Le(count, 2);
    Pow256Values();
    ValueOfFittingLe(machine, 2);
    ValueOfFittingLe(table, 8);
    ValueOfFittingLe(64, 2);
    ValueOfFittingLe(count, 2);
  }

  lemma SectionBytesFields(flags: nat, offset: nat, size: nat)
    requires flags < 0x1_0000_0000_0000_0000
    requires offset < 0x1_0000_0000_0000_0000 && size < 0x1_0000_0000_0000_0000
    ensures ElfSections.SectionHeaderAt(SectionBytes(flags, offset, size), 0)
         == ElfSections.SectionHeader(1, flags, offset, size)
  {
    hide Value, Le;
    var h := SectionBytes(flags, offset, size);
    assert h[4..8] == Le(1, 4) && h[8..16] == Le(flags, 8) && h[24..32] == Le(offset, 8) && h[32..40] == Le(size, 8);
    Pow256Values();
    ValueOfFittingLe(1, 4);
    ValueOfFittingLe(flags, 8);
    ValueOfFittingLe(offset, 8);
    ValueOfFittingLe(size, 8);
  }

  /** Such a file parses to its one section and qualifies for the round trip, whatever the section holds; the section
      is code exactly when bit 2 of its flags is set. */
  lemma ElfFileQualifies(machine: nat, flags: nat, code: seq<byte>)
    requires (machine == 183 || machine == 62 || machine == 3) && flags < 0x1_0000_0000_0000_0000
    requires 0 < |code| < 0x1000_0000_0000_0000
    ensures var s := ElfFile(machine, flags, code);
            && Blobs.WellLaidOut(s)
            && ElfSections.Parse(s) == ElfSections.Elf([ElfSections.Extent(64, |code|, flags % 8 >= 4)],
                 if machine == 183 then ElfSections.Arm64 else ElfSections.X86)
  {
    var s, table := ElfFile(machine, flags, code), 64 + |code|;
    ElfFileFields(machine, flags, code);
    hide ElfFile;
    assert |s| == table + 64;
    OneSection(s, machine, flags, |code|);
  }

  lemma ElfFileFields(machine: nat, flags: nat, code: seq<byte>)
    requires flags < 0x1_0000_0000_0000_0000
    requires machine < 0x1_0000 && |code| < 0x1000_0000_0000_0000
    ensures var s := ElfFile(machine, flags, code);
            && |s| == 128 + |code|
            && ElfSections.HeaderOf(s)
                == ElfSections.FileHeader([0x7F, 0x45, 0x4C, 0x46], 2, machine, 64 + |code|, 64, 1)
            && ElfSections.SectionHeaderAt(s, 64 + |code|) == ElfSections.SectionHeader(1, flags, 64, |code|)
  {
    var s, table := ElfFile(machine, flags, code), 64 + |code|;
    var front, tail := ElfHeader(machine, table, 1), SectionBytes(flags, 64, |code|);
    ElfHeaderFields(machine, table, 1);
    SectionBytesFields(flags, 64, |code|);
    hide ElfHeader, SectionBytes, Value, Le, ElfSections.HeaderOf, ElfSections.SectionHeaderAt;
    ThreeParts(front, code, tail);
    FrontFields(s, front);
    TailFields(s, table, tail);
  }

  /** A file whose only section header describes the bytes between the file header and the table. */
  lemma OneSection(s: seq<byte>, machine: nat, flags: nat, size: nat)
    requires machine == 183 || machine == 62 || machine == 3
    requires 0 < size < 0x1000_0000_0000_0000 && |s| == 128 + size
    requires ElfSections.HeaderOf(s) == ElfSections.FileHeader([0x7F, 0x45, 0x4C, 0x46], 2, machine, 64 + size, 64, 1)
    requires ElfSections.SectionHeaderAt(s, 64 + size) == ElfSections.SectionHeader(1, flags, 64, size)
    ensures Blobs.WellLaidOut(s)
    ensures ElfSections.Parse(s) == ElfSections.Elf([ElfSections.Extent(64, size, flags % 8 >= 4)],
              if machine == 183 then ElfSections.Arm64 else ElfSections.X86)
  {
    hide ElfSections.HeaderOf, ElfSections.SectionHeaderAt;
    var h := ElfSections.HeaderOf(s);
    var e := ElfSections.Extent(64, size, flags % 8 >= 4);
    ElfSections.CodeFlag(ElfSections.SectionHeader(1, flags, 64, size), flags / 8, flags % 4);
    assert h.EntryAt(0) == 64 + size && h.TableEnd() == |s|;
    assert ElfSections.IsElf(s);
    assert ElfSections.Entry(s, h, 0).IsKept(|s|) && ElfSections.Entry(s, h, 0).Section() == e;
    assert ElfSections.KeptFrom(s, h, 1) == [];
    assert ElfSections.KeptFrom(s, h, 0) == [e];
    SortOfOne(e);
    assert ElfSections.Parse(s).sections == [e];
    hide ElfSections.FileHeader.HasTable, ElfSections.FileHeader.TableEnd, ElfSections.KeptFrom, ElfSections.Sort,
         ElfSections.Parse;
    OneIsDisjoint(e, |s|);
    Blobs.DisjointIsEnough(s);
  }

  lemma OneIsDisjoint(e: ElfSections.Extent, n: nat)
    requires e.End() <= n
    ensures Parts.Disjoint([e], 0, n)
  {
    assert [e][1..] == [];
  }

  lemma SortOfOne(e: ElfSections.Extent)
    ensures ElfSections.Sort([e]) == [e]
  {
    assert ElfSections.Sweep(e, []) == (e, []);
    assert ElfSections.Sort([]) == [];
  }

  lemma ThreeParts(a: seq<byte>, b: seq<byte>, c: seq<byte>)
    ensures var s := a + b + c;
            s[0..|a|] == a && s[|a| + |b|..|a| + |b| + |c|] == c && s[|a|..|a| + |b|] == b
  {}

  lemma FrontFields(s: seq<byte>, front: seq<byte>)
    requires |front| == ElfSections.HEADER_SIZE <= |s| && s[0..ElfSections.HEADER_SIZE] == front
    ensures ElfSections.HeaderOf(s) == ElfSections.HeaderOf(front)
  {
    hide Value;
    assert s[0..4] == front[0..4] && s[4] == front[4] && s[18..20] == front[18..20] && s[40..48] == front[40..48];
    assert s[58..60] == front[58..60] && s[60..62] == front[60..62];
  }

  lemma TailFields(s: seq<byte>, at: nat, tail: seq<byte>)
    requires |tail| == ElfSections.SECTION_HEADER_SIZE && at + |tail| <= |s| && s[at..at + |tail|] == tail
    ensures ElfSections.SectionHeaderAt(s, at) == ElfSections.SectionHeaderAt(tail, 0)
  {
    hide Value;
    SliceOfSlice(s, at, |tail|, 4, 8);
    SliceOfSlice(s, at, |tail|, 8, 16);
    SliceOfSlice(s, at, |tail|, 24, 32);
    SliceOfSlice(s, at, |tail|, 32, 40);
  }

  // ----- Formatted disks

  function TableHeader(current: nat, backup: nat, start: nat, count: nat): (h: seq<byte>)
    ensures |h| == GptDisk.HEADER_SIZE
  {
    Le(GptDisk.GPT_SIGNATURE, 8) + Blank(4) + Le(GptDisk.HEADER_SIZE, 4) + Blank(8) + Le(current, 8) + Le(backup, 8)
    + Blank(32) + Le(start, 8) + Le(count, 4) + Le(GptDisk.ENTRY_SIZE, 4) + Blank(4)
  }

  lemma TableHeaderFields(current: nat, backup: nat, start: nat, count: nat)
    requires current < 0x1_0000_0000_0000_0000 && backup < 0x1_0000_0000_0000_0000
    requires start < 0x1_0000_0000_0000_0000 && count < 0x1_0000_0000
    ensures var h := TableHeader(current, backup, start, count);
            && GptDisk.IsGptHeader(h) && GptDisk.CurrentLba(h) == current && GptDisk.BackupLba(h) == backup
            && GptDisk.StartLba(h) == start && GptDisk.EntryCount(h) == count
  {
    hide Value, Le;
    var h := TableHeader(current, backup, start, count);
    assert h[0..8] == Le(GptDisk.GPT_SIGNATURE, 8) && h[12..16] == Le(GptDisk.HEADER_SIZE, 4)
        && h[24..32] == Le(current, 8);
    assert h[32..40] == Le(backup, 8) && h[72..80] == Le(start, 8) && h[80..84] == Le(count, 4);
    assert h[84..88] == Le(GptDisk.ENTRY_SIZE, 4);
    Pow256Values();
    ValueOfFittingLe(GptDisk.GPT_SIGNATURE, 8);
    ValueOfFittingLe(GptDisk.HEADER_SIZE, 4);
    ValueOfFittingLe(current, 8);
    ValueOfFittingLe(backup, 8);
    ValueOfFittingLe(start, 8);
    ValueOfFittingLe(count, 4);
    ValueOfFittingLe(GptDisk.ENTRY_SIZE, 4);
  }

  /** A sealed header that describes the table. */
  function SealedHeader(crc: GptDisk.Crc, h: seq<byte>, table: seq<byte>): (r: seq<byte>)
    requires |h| == GptDisk.HEADER_SIZE
    ensures |r| == GptDisk.HEADER_SIZE
  {
    GptDisk.Seal(crc, GptDisk.WithEntriesCrc(h, crc(table)))
  }

  lemma SealedHeaderIsCopy(crc: GptDisk.Crc, current: nat, backup: nat, start: nat, count: nat, table: seq<byte>)
    requires current < 0x1_0000_0000_0000_0000 && backup < 0x1_0000_0000_0000_0000
    requires start < 0x1_0000_0000_0000_0000 && count < 0x1_0000_0000
    requires |table| == GptDisk.ENTRY_SIZE * count
    ensures var h := SealedHeader(crc, TableHeader(current, backup, start, count), table);
            && GptDisk.IsCopy(crc, h, table) && GptDisk.CurrentLba(h) == current
            && GptDisk.BackupLba(h) == backup && GptDisk.StartLba(h) == start
  {
    hide TableHeader, LeField, GptDisk.Seal, GptDisk.WithEntriesCrc;
    var t := TableHeader(current, backup, start, count);
    TableHeaderFields(current, backup, start, count);
    GptSync.NewHeaderLaws(crc, t, table);
    GptDisk.SameGeometry(t, SealedHeader(crc, t, table));
  }

  /** A disk of 3 + 2 * e blocks: the primary header in block 1, e blocks of entries, their copy, the backup header. */
  function Formatted(crc: GptDisk.Crc, blockSize: nat, table: seq<byte>, n: nat, e: nat): seq<byte>
    requires blockSize >= GptDisk.HEADER_SIZE
  {
    var pad := Blank(blockSize - GptDisk.HEADER_SIZE);
    Blank(blockSize) + SealedHeader(crc, TableHeader(1, 2 + 2 * e, 2, n), table) + pad + table
    + table + SealedHeader(crc, TableHeader(2 + 2 * e, 1, 2 + e, n), table) + pad
  }

  lemma SixParts(a: seq<byte>, p: seq<byte>, pad: seq<byte>, t: seq<byte>, q: seq<byte>)
    requires |p| == |q|
    ensures var s, h, b := a + p + pad + t + t + q + pad, |p|, |a|;
            var at := b + h + |pad|;
            && s[b..b + h] == p && s[at..at + |t|] == t && s[at + |t|..at + 2 * |t|] == t
            && s[at + 2 * |t|..at + 2 * |t| + h] == q && |s| == at + 2 * |t| + h + |pad|
  {}

  /** A formatted disk is good, and loading it gives the array it was formatted with. */
  lemma FormattedIsGood(crc: GptDisk.Crc, blockSize: nat, table: seq<byte>, n: nat, e: nat)
    requires blockSize >= GptDisk.HEADER_SIZE && n < 0x1_0000_0000 && e < 0x1_0000_0000
    requires |table| == GptDisk.ENTRY_SIZE * n == blockSize * e
    ensures var disk := Formatted(crc, blockSize, table, n, e);
            && GptLoad.GoodDisk(crc, disk, blockSize)
            && GptLoad.Loaded(disk, blockSize).table == table
            && GptDisk.EntryCount(GptLoad.Loaded(disk, blockSize).primary) == n
  {
    hide GptDisk.IsCopy, GptLoad.GoodDisk, GptLoad.Loaded, GptLoad.Loadable, LeField, GptDisk.IsGptHeader, Formatted,
         SealedHeader, TableHeader, GptSync.GeometryOf;
    FormattedLayout(crc, blockSize, table, n, e);
    FormattedGeometry(crc, blockSize, table, n, e);
    LoadFormatted(crc, Formatted(crc, blockSize, table, n, e), blockSize, FormattedMemory(crc, table, n, e), n);
  }

  function FormattedMemory(crc: GptDisk.Crc, table: seq<byte>, n: nat, e: nat): (m: GptSync.Memory)
    ensures m.Sized() && m.table == table
  {
    GptSync.Memory(SealedHeader(crc, TableHeader(1, 2 + 2 * e, 2, n), table),
                   SealedHeader(crc, TableHeader(2 + 2 * e, 1, 2 + e, n), table), table)
  }

  lemma FormattedLayout(crc: GptDisk.Crc, blockSize: nat, table: seq<byte>, n: nat, e: nat)
    requires blockSize >= GptDisk.HEADER_SIZE
    ensures var disk, m := Formatted(crc, blockSize, table, n, e), FormattedMemory(crc, table, n, e);
            && |disk| == 3 * blockSize + 2 * |table|
            && disk[blockSize..blockSize + GptDisk.HEADER_SIZE] == m.primary
            && disk[2 * blockSize..2 * blockSize + |table|] == table
            && disk[2 * blockSize + |table|..2 * blockSize + 2 * |table|] == table
            && disk[2 * blockSize + 2 * |table|..2 * blockSize + 2 * |table| + GptDisk.HEADER_SIZE] == m.backup
  {
    hide SealedHeader, TableHeader;
    var m := FormattedMemory(crc, table, n, e);
    SixParts(Blank(blockSize), m.primary, Blank(blockSize - GptDisk.HEADER_SIZE), table, m.backup);
  }

  lemma FormattedGeometry(crc: GptDisk.Crc, blockSize: nat, table: seq<byte>, n: nat, e: nat)
    requires n < 0x1_0000_0000 && e < 0x1_0000_0000
    requires |table| == GptDisk.ENTRY_SIZE * n == blockSize * e
    ensures var m := FormattedMemory(crc, table, n, e);
            && GptDisk.CurrentLba(m.primary) == 1
            && GptDisk.IsCopy(crc, m.primary, table) && GptDisk.IsCopy(crc, m.backup, table)
            && GptSync.GeometryOf(blockSize, m) ==
               GptDisk.Geometry(blockSize, 2 * blockSize, 2 * blockSize + |table|, 2 * blockSize + 2 * |table|, |table|)
  {
    SealedHeaderIsCopy(crc, 1, 2 + 2 * e, 2, n, table);
    SealedHeaderIsCopy(crc, 2 + 2 * e, 1, 2 + e, n, table);
    hide SealedHeader, TableHeader, GptDisk.IsCopy, LeField;
    Blocks(blockSize, e);
  }

  lemma Blocks(blockSize: nat, e: nat)
    ensures blockSize * (2 + e) == 2 * blockSize + blockSize * e
    ensures blockSize * (2 + 2 * e) == 2 * blockSize + 2 * (blockSize * e)
  {}

  /** The regions stand one after the other from block 1 on. */
  lemma LoadFormatted(crc: GptDisk.Crc, disk: seq<byte>, blockSize: nat, m: GptSync.Memory, n: nat)
    requires m.Sized() && blockSize >= GptDisk.HEADER_SIZE && |m.table| == GptDisk.ENTRY_SIZE * n
    requires GptDisk.IsCopy(crc, m.primary, m.table) && GptDisk.IsCopy(crc, m.backup, m.table)
    requires GptDisk.CurrentLba(m.primary) == 1
    requires GptSync.GeometryOf(blockSize, m) ==
             GptDisk.Geometry(blockSize, 2 * blockSize, 2 * blockSize + |m.table|, 2 * blockSize + 2 * |m.table|,
                 |m.table|)
    requires |disk| == 3 * blockSize + 2 * |m.table|
    requires disk[blockSize..blockSize + GptDisk.HEADER_SIZE] == m.primary
    requires disk[2 * blockSize..2 * blockSize + |m.table|] == m.table
    requires disk[2 * blockSize + |m.table|..2 * blockSize + 2 * |m.table|] == m.table
    requires disk[2 * blockSize + 2 * |m.table|..2 * blockSize + 2 * |m.table| + GptDisk.HEADER_SIZE] == m.backup
    ensures GptLoad.GoodDisk(crc, disk, blockSize)
    ensures GptLoad.Loaded(disk, blockSize).table == m.table
    ensures GptDisk.EntryCount(GptLoad.Loaded(disk, blockSize).primary) == n
  {
    hide LeField, GptDisk.IsGptHeader, GptDisk.IsSealed;
    GptSync.LinkedFromRegions(crc, disk, blockSize, m);
    GptLoad.LinkedDiskIsGood(crc, disk, blockSize, m);
  }

  // ----- A disk with both boot partitions

  /** A name in 16-bit units. */
  function Units(name: seq<byte>): (u: seq<byte>)
    ensures |u| == 2 * |name|
  {
    if name == [] then [] else [name[0], 0] + Units(name[1..])
  }

  function NamedEntry(name: seq<byte>): (r: seq<byte>)
    requires |name| <= GptEntries.NAME_UNITS
    ensures |r| == GptDisk.ENTRY_SIZE
  {
    Blank(GptEntries.NAME) + (Units(name) + Blank(2 * GptEntries.NAME_UNITS - 2 * |name|))
  }

  lemma NoUnits(n: nat)
    ensures GptEntries.NameFrom(Units([]) + Blank(n)) == []
  {
    assert Units([]) + Blank(n) == Blank(n);
  }

  lemma FirstUnit(name: seq<byte>, rest: seq<byte>)
    requires name != []
    ensures var field := Units(name) + rest;
            |field| >= 2 && field[0] == name[0] && field[2..] == Units(name[1..]) + rest
  {
    var two: seq<byte>, more := [name[0], 0], Units(name[1..]);
    assert Units(name) == two + more;
    hide Units;
    AfterFront(two, more, rest);
  }

  lemma AfterFront(a: seq<byte>, b: seq<byte>, c: seq<byte>)
    ensures (a + b + c)[|a|..] == b + c && |a + b + c| >= |a|
    ensures forall i :: 0 <= i < |a| ==> (a + b + c)[i] == a[i]
  {}

  lemma {:induction false} NameOfUnits(name: seq<byte>, n: nat)
    requires forall i :: 0 <= i < |name| ==> name[i] != 0
    ensures GptEntries.NameFrom(Units(name) + Blank(n)) == name
  {
    hide Blank;
    if name == [] {
      NoUnits(n);
    } else {
      var field := Units(name) + Blank(n);
      FirstUnit(name, Blank(n));
      NameOfUnits(name[1..], n);
      hide Units;
      assert GptEntries.NameFrom(field) == [field[0]] + GptEntries.NameFrom(field[2..]);
    }
  }

  /** An entry of a table found at its place by its name. */
  lemma NamedEntryIs(table: seq<byte>, i: nat, name: seq<byte>)
    requires 0 < |name| <= GptEntries.NAME_UNITS && forall k :: 0 <= k < |name| ==> name[k] != 0
    requires GptDisk.ENTRY_SIZE * i + GptDisk.ENTRY_SIZE <= |table|
    requires table[GptDisk.ENTRY_SIZE * i..GptDisk.ENTRY_SIZE * i + GptDisk.ENTRY_SIZE] == NamedEntry(name)
    ensures GptEntries.EntryName(table, i) == name && GptEntries.IsNamed(table, i)
  {
    var at := GptDisk.ENTRY_SIZE * i;
    SliceOfSlice(table, at, GptDisk.ENTRY_SIZE, GptEntries.NAME, GptDisk.ENTRY_SIZE);
    assert GptEntries.NameField(table, i) == Units(name) + Blank(2 * GptEntries.NAME_UNITS - 2 * |name|);
    NameOfUnits(name, 2 * GptEntries.NAME_UNITS - 2 * |name|);
  }

  function BootTable(): (t: seq<byte>)
    ensures |t| == 4 * GptDisk.ENTRY_SIZE
  {
    NamedEntry(SlotBackends.BOOT_A) + NamedEntry(SlotBackends.BOOT_B) + Blank(2 * GptDisk.ENTRY_SIZE)
  }

  lemma BootTableEntries()
    ensures GptEntries.EntryName(BootTable(), 0) == SlotBackends.BOOT_A && GptEntries.IsNamed(BootTable(), 0)
    ensures GptEntries.EntryName(BootTable(), 1) == SlotBackends.BOOT_B && GptEntries.IsNamed(BootTable(), 1)
  {
    BootTableSlices();
    NamesAreShort();
    hide NamedEntry, GptEntries.EntryName, GptEntries.IsNamed, BootTable, SlotBackends.BOOT_A, SlotBackends.BOOT_B;
    NamedEntryIs(BootTable(), 0, SlotBackends.BOOT_A);
    NamedEntryIs(BootTable(), 1, SlotBackends.BOOT_B);
  }

  lemma BootTableSlices()
    ensures BootTable()[0..GptDisk.ENTRY_SIZE] == NamedEntry(SlotBackends.BOOT_A)
    ensures BootTable()[GptDisk.ENTRY_SIZE..2 * GptDisk.ENTRY_SIZE] == NamedEntry(SlotBackends.BOOT_B)
  {
    var a, b, rest := NamedEntry(SlotBackends.BOOT_A), NamedEntry(SlotBackends.BOOT_B), Blank(2 * GptDisk.ENTRY_SIZE);
    hide NamedEntry, Blank;
    ThreeParts(a, b, rest);
    assert BootTable()[0..GptDisk.ENTRY_SIZE] == a;
  }

  lemma NamesAreShort()
    ensures |SlotBackends.BOOT_A| == |SlotBackends.BOOT_B| == 6
    ensures forall k :: 0 <= k < 6 ==> SlotBackends.BOOT_A[k] != 0 && SlotBackends.BOOT_B[k] != 0
  {}

  lemma BootTableNamesBoth()
    ensures GptEntries.Find(BootTable(), 4, SlotBackends.BOOT_A).Some?
    ensures GptEntries.Find(BootTable(), 4, SlotBackends.BOOT_B).Some?
  {
    hide GptEntries.Find, GptEntries.EntryName, GptEntries.IsNamed, BootTable;
    var t := BootTable();
    BootTableEntries();
    GptEntries.FindFindsLast(t, 4, SlotBackends.BOOT_A);
    GptEntries.FindFindsLast(t, 4, SlotBackends.BOOT_B);
    assert GptEntries.IsListed(t, 4, 0) && GptEntries.IsListed(t, 4, 1);
  }

  /** Whatever the checksum is, there is a disk on which the slot operations work. */
  lemma BootDiskExists(crc: GptDisk.Crc)
    ensures SlotBackends.BootDisk(crc, Formatted(crc, 512, BootTable(), 4, 1), 512)
  {
    hide BootTable, Formatted, GptLoad.GoodDisk, GptEntries.Find;
    FormattedIsGood(crc, 512, BootTable(), 4, 1);
    BootTableNamesBoth();
  }
}
