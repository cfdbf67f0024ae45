/** A disk with two copies of a GUID partition table, and what may be on it when an update stops half way
    (pixel-source/bootctrl/1.2/GptUtils.cpp and GptUtils.h). Layout: section 5.3 of the UEFI Specification.
    Headers and entries are kept as the packed bytes they are on the disk. */
module GptDisk {
  import opened Bytes

  /** The checksum, as the four bytes that are stored. */
  type Crc = seq<byte> -> Word

  const HEADER_SIZE: nat := 92
  const ENTRY_SIZE: nat := 128
  const GPT_SIGNATURE: nat := 0x5452415020494645

  // ----- Header fields

  const HEADER_CRC: nat := 16
  const ENTRIES_CRC: nat := 88

  function CurrentLba(h: seq<byte>): nat
    requires |h| == HEADER_SIZE
  {
    LeField(h, 24, 8)
  }

  function BackupLba(h: seq<byte>): nat
    requires |h| == HEADER_SIZE
  {
    LeField(h, 32, 8)
  }

  function StartLba(h: seq<byte>): nat
    requires |h| == HEADER_SIZE
  {
    LeField(h, 72, 8)
  }

  function EntryCount(h: seq<byte>): nat
    requires |h| == HEADER_SIZE
  {
    LeField(h, 80, 4)
  }

  function HeaderCrc(h: seq<byte>): seq<byte>
    requires |h| == HEADER_SIZE
  {
    h[HEADER_CRC..HEADER_CRC + 4]
  }

  function EntriesCrc(h: seq<byte>): seq<byte>
    requires |h| == HEADER_SIZE
  {
    h[ENTRIES_CRC..ENTRIES_CRC + 4]
  }

  /** ValidateGptHeader. */
  predicate IsGptHeader(h: seq<byte>)
    requires |h| == HEADER_SIZE
  {
    LeField(h, 0, 8) == GPT_SIGNATURE && LeField(h, 12, 4) == HEADER_SIZE && LeField(h, 84, 4) == ENTRY_SIZE
  }

  /** A header starts with "EFI PART" and says that it has 92 bytes and entries of 128. */
  lemma IsGptHeaderIff(h: seq<byte>)
    requires |h| == HEADER_SIZE == 92
    ensures IsGptHeader(h) <==>
              && h[0] == 'E' as int && h[1] == 'F' as int && h[2] == 'I' as int && h[3] == ' ' as int
              && h[4] == 'P' as int && h[5] == 'A' as int && h[6] == 'R' as int && h[7] == 'T' as int
              && LeField(h, 12, 4) == 92 && LeField(h, 84, 4) == 128
  {
    var name := ['E' as int, 'F' as int, 'I' as int, ' ' as int, 'P' as int, 'A' as int, 'R' as int, 'T' as int];
    SignatureIs();
    LeOfValue(h[0..8]);
    LeOfValue(name);
    assert h[0..8] == name <==>
             h[0] == name[0] && h[1] == name[1] && h[2] == name[2] && h[3] == name[3]
             && h[4] == name[4] && h[5] == name[5] && h[6] == name[6] && h[7] == name[7];
    hide Value, Le;
  }

  lemma SignatureIs()
    ensures Value(['E' as int, 'F' as int, 'I' as int, ' ' as int, 'P' as int, 'A' as int, 'R' as int, 'T' as int])
         == GPT_SIGNATURE
  {
    var low: seq<byte>, high: seq<byte> := [0x45, 0x46, 0x49, 0x20], [0x50, 0x41, 0x52, 0x54];
    FourBytes(0x45, 0x46, 0x49, 0x20);
    FourBytes(0x50, 0x41, 0x52, 0x54);
    var name: seq<byte> := [0x45, 0x46, 0x49, 0x20, 0x50, 0x41, 0x52, 0x54];
    assert name[..4] == low && name[4..] == high;
    Pow256Values();
    ValueSplit(name, 4);
  }

  lemma FourBytes(a: byte, b: byte, c: byte, d: byte)
    ensures Value([a, b, c, d]) == a as int + 0x100 * b as int + 0x1_0000 * c as int + 0x100_0000 * d as int
  {
    assert [a, b, c, d][1..] == [b, c, d] && [b, c, d][1..] == [c, d] && [c, d][1..] == [d] && [d][1..] == [];
    assert Value([d]) == d;
    assert Value([c, d]) == c as int + 256 * d as int;
    assert Value([b, c, d]) == b as int + 256 * Value([c, d]);
  }

  function WithEntriesCrc(h: seq<byte>, w: Word): (r: seq<byte>)
    requires |h| == HEADER_SIZE
    ensures |r| == HEADER_SIZE
  {
    Splice(h, ENTRIES_CRC, w.Bytes())
  }

  function WithHeaderCrc(h: seq<byte>, w: Word): (r: seq<byte>)
    requires |h| == HEADER_SIZE
    ensures |r| == HEADER_SIZE
  {
    Splice(h, HEADER_CRC, w.Bytes())
  }

  /** The header as its checksum is computed: with the checksum field zero. */
  function Unsealed(h: seq<byte>): (r: seq<byte>)
    requires |h| == HEADER_SIZE
    ensures |r| == HEADER_SIZE
  {
    WithHeaderCrc(h, Word(0, 0, 0, 0))
  }

  function Seal(crc: Crc, h: seq<byte>): (r: seq<byte>)
    requires |h| == HEADER_SIZE
    ensures |r| == HEADER_SIZE
  {
    WithHeaderCrc(h, crc(Unsealed(h)))
  }

  ghost predicate IsSealed(crc: Crc, h: seq<byte>)
    requires |h| == HEADER_SIZE
  {
    HeaderCrc(h) == crc(Unsealed(h)).Bytes()
  }

  /** Two headers that differ in the checksum fields at most. */
  ghost predicate SameButCrcs(a: seq<byte>, b: seq<byte>) {
    && |a| == |b| == HEADER_SIZE
    && a[..HEADER_CRC] == b[..HEADER_CRC]
    && a[HEADER_CRC + 4..ENTRIES_CRC] == b[HEADER_CRC + 4..ENTRIES_CRC]
  }

  lemma HeaderParts(h: seq<byte>)
    requires |h| == HEADER_SIZE
    ensures h == h[..HEADER_CRC] + HeaderCrc(h) + h[HEADER_CRC + 4..ENTRIES_CRC] + EntriesCrc(h)
    ensures Unsealed(h) == h[..HEADER_CRC] + [0, 0, 0, 0] + h[HEADER_CRC + 4..ENTRIES_CRC] + EntriesCrc(h)
  {}

  lemma SameField(a: seq<byte>, b: seq<byte>, at: nat, width: nat)
    requires SameButCrcs(a, b)
    requires at + width <= HEADER_CRC || HEADER_CRC + 4 <= at <= at + width <= ENTRIES_CRC
    ensures LeField(a, at, width) == LeField(b, at, width)
  {
    if at + width <= HEADER_CRC {
      SliceOfSlice(a, 0, HEADER_CRC, at, at + width);
      SliceOfSlice(b, 0, HEADER_CRC, at, at + width);
    } else {
      var lo := HEADER_CRC + 4;
      SliceOfSlice(a, lo, ENTRIES_CRC - lo, at - lo, at - lo + width);
      SliceOfSlice(b, lo, ENTRIES_CRC - lo, at - lo, at - lo + width);
    }
  }

  /** Everything but the checksums is read from the same places. */
  lemma SameGeometry(a: seq<byte>, b: seq<byte>)
    requires SameButCrcs(a, b)
    ensures CurrentLba(a) == CurrentLba(b) && BackupLba(a) == BackupLba(b)
    ensures StartLba(a) == StartLba(b) && EntryCount(a) == EntryCount(b)
    ensures IsGptHeader(a) == IsGptHeader(b)
  {
    SameField(a, b, 24, 8);
    SameField(a, b, 32, 8);
    SameField(a, b, 72, 8);
    SameField(a, b, 80, 4);
    SameField(a, b, 0, 8);
    SameField(a, b, 12, 4);
    SameField(a, b, 84, 4);
  }

  lemma WithEntriesCrcLaws(h: seq<byte>, w: Word)
    requires |h| == HEADER_SIZE
    ensures SameButCrcs(h, WithEntriesCrc(h, w))
    ensures HeaderCrc(WithEntriesCrc(h, w)) == HeaderCrc(h) && EntriesCrc(WithEntriesCrc(h, w)) == w.Bytes()
  {}

  lemma WithHeaderCrcLaws(h: seq<byte>, w: Word)
    requires |h| == HEADER_SIZE
    ensures SameButCrcs(h, WithHeaderCrc(h, w))
    ensures HeaderCrc(WithHeaderCrc(h, w)) == w.Bytes() && EntriesCrc(WithHeaderCrc(h, w)) == EntriesCrc(h)
    ensures Unsealed(WithHeaderCrc(h, w)) == Unsealed(h)
  {
    SpliceTwice(h, HEADER_CRC, w.Bytes(), Word(0, 0, 0, 0).Bytes());
  }

  lemma SealSeals(crc: Crc, h: seq<byte>)
    requires |h| == HEADER_SIZE
    ensures IsSealed(crc, Seal(crc, h)) && SameButCrcs(h, Seal(crc, h))
    ensures EntriesCrc(Seal(crc, h)) == EntriesCrc(h)
    ensures HeaderCrc(Seal(crc, h)) == crc(Unsealed(h)).Bytes()
    ensures Unsealed(Seal(crc, h)) == Unsealed(h)
  {
    WithHeaderCrcLaws(h, crc(Unsealed(h)));
  }

  /** Sealed headers that agree outside the checksums and on the entries checksum are equal. */
  lemma SealedUnique(crc: Crc, a: seq<byte>, b: seq<byte>)
    requires SameButCrcs(a, b) && IsSealed(crc, a) && IsSealed(crc, b)
    requires EntriesCrc(a) == EntriesCrc(b)
    ensures a == b
  {
    HeaderParts(a);
    HeaderParts(b);
  }

  // ----- Copies of the table on a disk

  /** Where the two copies are: byte offsets, and the length of an entry array. */
  datatype Geometry = Geometry(primary: nat, entries: nat, backupEntries: nat, backup: nat, length: nat) {
    predicate Fits(n: nat) {
      && primary + HEADER_SIZE <= n && entries + length <= n
      && backupEntries + length <= n && backup + HEADER_SIZE <= n
    }

    /** No two of the four regions share a byte. */
    predicate Apart() {
      && Disjoint(primary, HEADER_SIZE, entries, length) && Disjoint(primary, HEADER_SIZE, backupEntries, length)
      && Disjoint(primary, HEADER_SIZE, backup, HEADER_SIZE) && Disjoint(entries, length, backupEntries, length)
      && Disjoint(entries, length, backup, HEADER_SIZE) && Disjoint(backupEntries, length, backup, HEADER_SIZE)
    }
  }

  predicate Disjoint(a: nat, n: nat, b: nat, m: nat) {
    a + n <= b || b + m <= a
  }

  function Region(disk: seq<byte>, at: nat, n: nat): (r: seq<byte>)
    requires at + n <= |disk|
    ensures |r| == n
  {
    disk[at..at + n]
  }

  /** What the table's reader requires of a copy: a sealed GPT header whose entries checksum matches the array. */
  ghost predicate IsCopy(crc: Crc, h: seq<byte>, table: seq<byte>) {
    && |h| == HEADER_SIZE && IsGptHeader(h) && IsSealed(crc, h)
    && |table| == ENTRY_SIZE * EntryCount(h)
    && EntriesCrc(h) == crc(table).Bytes()
  }

  datatype Recovered = Entries(table: seq<byte>) | Nothing

  /** The array in force: the primary copy's if that copy is good, otherwise the backup's. */
  ghost function Recover(crc: Crc, disk: seq<byte>, g: Geometry): Recovered
    requires g.Fits(|disk|)
  {
    if IsCopy(crc, Region(disk, g.primary, HEADER_SIZE), Region(disk, g.entries, g.length))
    then Entries(Region(disk, g.entries, g.length))
    else if IsCopy(crc, Region(disk, g.backup, HEADER_SIZE), Region(disk, g.backupEntries, g.length))
    then Entries(Region(disk, g.backupEntries, g.length))
    else Nothing
  }

  /** Both copies are good and hold the same array. */
  ghost predicate BothGood(crc: Crc, disk: seq<byte>, g: Geometry) {
    && g.Fits(|disk|) && g.Apart()
    && IsCopy(crc, Region(disk, g.primary, HEADER_SIZE), Region(disk, g.entries, g.length))
    && IsCopy(crc, Region(disk, g.backup, HEADER_SIZE), Region(disk, g.backupEntries, g.length))
    && Region(disk, g.entries, g.length) == Region(disk, g.backupEntries, g.length)
  }

  // ----- Writes, in order, and stopping part of the way

  datatype Write = Write(at: nat, bytes: seq<byte>)

  predicate InBounds(writes: seq<Write>, n: nat) {
    writes != [] ==> writes[0].at + |writes[0].bytes| <= n && InBounds(writes[1..], n)
  }

  /** The first k writes are done, and of write k the first cut bytes. */
  function Stopped(disk: seq<byte>, writes: seq<Write>, k: nat, cut: nat): (r: seq<byte>)
    requires InBounds(writes, |disk|)
    ensures |r| == |disk|
    decreases writes
  {
    if writes == [] then disk
    else
      var w := writes[0];
      if k == 0 then Splice(disk, w.at, if cut <= |w.bytes| then w.bytes[..cut] else w.bytes)
      else Stopped(Splice(disk, w.at, w.bytes), writes[1..], k - 1, cut)
  }

  /** All writes are done. */
  function Perform(disk: seq<byte>, writes: seq<Write>): (r: seq<byte>)
    requires InBounds(writes, |disk|)
    ensures |r| == |disk|
  {
    Stopped(disk, writes, |writes|, 0)
  }

  lemma StopHere(disk: seq<byte>, w: Write, rest: seq<Write>, cut: nat)
    requires InBounds([w] + rest, |disk|) && cut <= |w.bytes|
    ensures w.at + |w.bytes| <= |disk|
    ensures Stopped(disk, [w] + rest, 0, cut) == Splice(disk, w.at, w.bytes[..cut])
  {}

  lemma StopLater(disk: seq<byte>, w: Write, rest: seq<Write>, k: nat, cut: nat)
    requires InBounds([w] + rest, |disk|)
    ensures w.at + |w.bytes| <= |disk| && InBounds(rest, |disk|)
    ensures Stopped(disk, [w] + rest, k + 1, cut) == Stopped(Splice(disk, w.at, w.bytes), rest, k, cut)
  {
    assert ([w] + rest)[1..] == rest;
  }

  lemma RegionPartlyWritten(disk: seq<byte>, at: nat, t: seq<byte>, n: nat)
    requires |t| <= n && at + n <= |disk|
    ensures Region(Splice(disk, at, t), at, n) == t + Region(disk, at, n)[|t|..]
  {}

  lemma RegionElsewhere(disk: seq<byte>, at: nat, t: seq<byte>, b: nat, n: nat)
    requires at + |t| <= |disk| && b + n <= |disk|
    requires at + |t| <= b || b + n <= at
    ensures Region(Splice(disk, at, t), b, n) == Region(disk, b, n)
  {
    SpliceElsewhere(disk, at, t, b, b + n);
  }
}
