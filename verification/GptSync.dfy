/** What Sync writes, and why stopping it anywhere leaves a usable table
    (pixel-source/bootctrl/1.2/GptUtils.cpp, lines 127-180). */
module GptSync {
  import opened Bytes
  import opened GptDisk

  /** The object's view of the table: both headers and the entry array. */
  datatype Memory = Memory(primary: seq<byte>, backup: seq<byte>, table: seq<byte>) {
    predicate Sized() {
      |primary| == GptDisk.HEADER_SIZE && |backup| == GptDisk.HEADER_SIZE
    }
  }

  function NewPrimary(crc: Crc, m: Memory): (h: seq<byte>)
    requires m.Sized()
    ensures |h| == HEADER_SIZE
  {
    Seal(crc, WithEntriesCrc(m.primary, crc(m.table)))
  }

  function NewBackup(crc: Crc, m: Memory): (h: seq<byte>)
    requires m.Sized()
    ensures |h| == HEADER_SIZE
  {
    Seal(crc, WithEntriesCrc(m.backup, crc(m.table)))
  }

  /** The check that skips the update: the header checksum did not change. */
  predicate NothingToDo(crc: Crc, m: Memory)
    requires m.Sized()
  {
    HeaderCrc(m.primary) == HeaderCrc(NewPrimary(crc, m))
  }

  function GeometryOf(blockSize: nat, m: Memory): Geometry
    requires m.Sized()
  {
    Geometry(blockSize * CurrentLba(m.primary), blockSize * StartLba(m.primary),
             blockSize * StartLba(m.backup), blockSize * BackupLba(m.primary), |m.table|)
  }

  /** The four writes, in the order in which they are issued. */
  function Update(crc: Crc, g: Geometry, m: Memory): seq<Write>
    requires m.Sized()
  {
    [Write(g.primary, NewPrimary(crc, m)), Write(g.entries, m.table),
     Write(g.backupEntries, m.table), Write(g.backup, NewBackup(crc, m))]
  }

  function Writes(crc: Crc, blockSize: nat, m: Memory): seq<Write>
    requires m.Sized()
  {
    if NothingToDo(crc, m) then [] else Update(crc, GeometryOf(blockSize, m), m)
  }

  /** The memory after the checksums have been recomputed; the backup header follows before the last write. */
  function Recomputed(crc: Crc, m: Memory): (r: Memory)
    requires m.Sized()
    ensures r.Sized()
  {
    Memory(NewPrimary(crc, m), if NothingToDo(crc, m) then m.backup else NewBackup(crc, m), m.table)
  }

  /** The memory belongs to this disk: the disk is good, and the headers in memory differ from those on it
      in nothing but the entries checksum of the primary and the checksums of the backup. */
  ghost predicate Linked(crc: Crc, disk: seq<byte>, blockSize: nat, m: Memory) {
    && m.Sized() && CurrentLba(m.primary) == 1
    && var g := GeometryOf(blockSize, m);
    && BothGood(crc, disk, g)
    && SameButCrcs(m.primary, Region(disk, g.primary, HEADER_SIZE))
    && HeaderCrc(m.primary) == HeaderCrc(Region(disk, g.primary, HEADER_SIZE))
    && SameButCrcs(m.backup, Region(disk, g.backup, HEADER_SIZE))
  }

  lemma SameButCrcsTransitive(a: seq<byte>, b: seq<byte>, c: seq<byte>)
    requires SameButCrcs(a, b) && SameButCrcs(b, c)
    ensures SameButCrcs(a, c)
  {}

  lemma SameButCrcsSymmetric(a: seq<byte>, b: seq<byte>)
    requires SameButCrcs(a, b)
    ensures SameButCrcs(b, a)
  {}

  lemma NewHeaderLaws(crc: Crc, h: seq<byte>, table: seq<byte>)
    requires |h| == HEADER_SIZE
    ensures var n := Seal(crc, WithEntriesCrc(h, crc(table)));
            && IsSealed(crc, n) && SameButCrcs(h, n) && EntriesCrc(n) == crc(table).Bytes()
  {
    WithEntriesCrcLaws(h, crc(table));
    SealSeals(crc, WithEntriesCrc(h, crc(table)));
    SameButCrcsTransitive(h, WithEntriesCrc(h, crc(table)), Seal(crc, WithEntriesCrc(h, crc(table))));
  }

  /** The bytes of an updated primary header: the checksum of the array from 88 on, in 16 to 19 the checksum of the
      header with zeros there, and everything else as it was. */
  lemma NewPrimaryBytes(crc: Crc, m: Memory)
    requires m.Sized()
    ensures var n := NewPrimary(crc, m);
            && |n| == 92 && n[88..92] == crc(m.table).Bytes()
            && n[..16] == m.primary[..16] && n[20..88] == m.primary[20..88]
            && n[16..20] == crc(n[..16] + [0, 0, 0, 0] + n[20..]).Bytes()
    ensures var n := NewBackup(crc, m);
            && |n| == 92 && n[88..92] == crc(m.table).Bytes()
            && n[..16] == m.backup[..16] && n[20..88] == m.backup[20..88]
            && n[16..20] == crc(n[..16] + [0, 0, 0, 0] + n[20..]).Bytes()
  {
    HeaderBytes(crc, m.primary, m.table);
    HeaderBytes(crc, m.backup, m.table);
  }

  lemma HeaderBytes(crc: Crc, h: seq<byte>, table: seq<byte>)
    requires |h| == HEADER_SIZE
    ensures var n := Seal(crc, WithEntriesCrc(h, crc(table)));
            && |n| == 92 && n[88..92] == crc(table).Bytes() && n[..16] == h[..16] && n[20..88] == h[20..88]
            && n[16..20] == crc(n[..16] + [0, 0, 0, 0] + n[20..]).Bytes()
  {
    var n := Seal(crc, WithEntriesCrc(h, crc(table)));
    NewHeaderLaws(crc, h, table);
    hide Seal, WithEntriesCrc;
    HeaderParts(n);
    assert n[20..] == n[20..88] + n[88..92];
    assert Unsealed(n) == n[..16] + [0, 0, 0, 0] + n[20..];
  }

  /** Which bytes go where: nothing if bytes 16 to 19 of the primary header would not change; otherwise the primary
      header to the block it names at 24, the array to the block it names at 72 and to the block that the backup
      header names at 72, and last the backup header to the block that the primary names at 32. */
  lemma WritesAre(crc: Crc, blockSize: nat, m: Memory)
    requires m.Sized()
    ensures Writes(crc, blockSize, m) ==
            if m.primary[16..20] == NewPrimary(crc, m)[16..20] then []
            else [Write(blockSize * LeField(m.primary, 24, 8), NewPrimary(crc, m)),
                  Write(blockSize * LeField(m.primary, 72, 8), m.table),
                  Write(blockSize * LeField(m.backup, 72, 8), m.table),
                  Write(blockSize * LeField(m.primary, 32, 8), NewBackup(crc, m))]
  {
    hide NewPrimary, NewBackup;
  }

  /** An updated header describes the new array as well as the old one described the old array. */
  lemma NewHeaderIsCopy(crc: Crc, onDisk: seq<byte>, was: seq<byte>, h: seq<byte>, table: seq<byte>)
    requires IsCopy(crc, onDisk, was) && SameButCrcs(h, onDisk) && |table| == |was|
    ensures IsCopy(crc, Seal(crc, WithEntriesCrc(h, crc(table))), table)
    ensures SameButCrcs(onDisk, Seal(crc, WithEntriesCrc(h, crc(table))))
  {
    var n := Seal(crc, WithEntriesCrc(h, crc(table)));
    NewHeaderLaws(crc, h, table);
    SameButCrcsSymmetric(h, onDisk);
    SameButCrcsTransitive(onDisk, h, n);
    SameGeometry(onDisk, n);
  }

  /** A header stopped in the middle of being overwritten still agrees with the old one outside the checksums. */
  lemma TornHeader(a: seq<byte>, b: seq<byte>, cut: nat)
    requires SameButCrcs(a, b) && cut <= HEADER_SIZE
    ensures SameButCrcs(a, b[..cut] + a[cut..])
  {
    var t := b[..cut] + a[cut..];
    forall i | 0 <= i < HEADER_CRC || HEADER_CRC + 4 <= i < ENTRIES_CRC
      ensures t[i] == a[i]
    {
      SameAt(a, b, i);
    }
    assert t[..HEADER_CRC] == a[..HEADER_CRC];
    assert t[HEADER_CRC + 4..ENTRIES_CRC] == a[HEADER_CRC + 4..ENTRIES_CRC];
  }

  lemma SameAt(a: seq<byte>, b: seq<byte>, i: nat)
    requires SameButCrcs(a, b)
    requires i < HEADER_CRC || HEADER_CRC + 4 <= i < ENTRIES_CRC
    ensures a[i] == b[i]
  {
    if i < HEADER_CRC {
      assert a[..HEADER_CRC][i] == b[..HEADER_CRC][i];
    } else {
      assert a[HEADER_CRC + 4..ENTRIES_CRC][i - (HEADER_CRC + 4)]
          == b[HEADER_CRC + 4..ENTRIES_CRC][i - (HEADER_CRC + 4)];
    }
  }

  lemma WordsEqual(a: Word, b: Word)
    ensures a.Bytes() == b.Bytes() <==> a == b
  {
    assert a.Bytes()[0] == a.b0 && a.Bytes()[1] == a.b1 && a.Bytes()[2] == a.b2 && a.Bytes()[3] == a.b3;
    assert b.Bytes()[0] == b.b0 && b.Bytes()[1] == b.b1 && b.Bytes()[2] == b.b2 && b.Bytes()[3] == b.b3;
  }

  // ----- The disk after each write

  lemma UpdateInBounds(crc: Crc, g: Geometry, m: Memory, n: nat)
    requires m.Sized() && g.Fits(n) && g.length == |m.table|
    ensures InBounds(Update(crc, g, m), n)
  {
    var a, b := Write(g.primary, NewPrimary(crc, m)), Write(g.entries, m.table);
    var c, d := Write(g.backupEntries, m.table), Write(g.backup, NewBackup(crc, m));
    OneMoreInBounds(d, [], n);
    OneMoreInBounds(c, [d] + [], n);
    OneMoreInBounds(b, [c] + ([d] + []), n);
    OneMoreInBounds(a, [b] + ([c] + ([d] + [])), n);
    assert Update(crc, g, m) == [a] + ([b] + ([c] + ([d] + [])));
  }

  lemma OneMoreInBounds(w: Write, rest: seq<Write>, n: nat)
    requires w.at + |w.bytes| <= n && InBounds(rest, n)
    ensures InBounds([w] + rest, n)
  {
    assert ([w] + rest)[1..] == rest;
  }

  /** The four regions of a disk. */
  datatype Regions = Regions(primary: seq<byte>, entries: seq<byte>, backupEntries: seq<byte>, backup: seq<byte>)

  function RegionsOf(disk: seq<byte>, g: Geometry): Regions
    requires g.Fits(|disk|)
  {
    Regions(Region(disk, g.primary, HEADER_SIZE), Region(disk, g.entries, g.length),
            Region(disk, g.backupEntries, g.length), Region(disk, g.backup, HEADER_SIZE))
  }

  lemma WritePrimary(disk: seq<byte>, g: Geometry, t: seq<byte>)
    requires g.Fits(|disk|) && g.Apart() && |t| <= HEADER_SIZE
    ensures var r := RegionsOf(disk, g);
            RegionsOf(Splice(disk, g.primary, t), g) == r.(primary := t + r.primary[|t|..])
  {
    hide Region, Splice;
    RegionPartlyWritten(disk, g.primary, t, HEADER_SIZE);
    RegionElsewhere(disk, g.primary, t, g.entries, g.length);
    RegionElsewhere(disk, g.primary, t, g.backupEntries, g.length);
    RegionElsewhere(disk, g.primary, t, g.backup, HEADER_SIZE);
  }

  lemma WriteEntries(disk: seq<byte>, g: Geometry, t: seq<byte>)
    requires g.Fits(|disk|) && g.Apart() && |t| <= g.length
    ensures var r := RegionsOf(disk, g);
            RegionsOf(Splice(disk, g.entries, t), g) == r.(entries := t + r.entries[|t|..])
  {
    hide Region, Splice;
    RegionPartlyWritten(disk, g.entries, t, g.length);
    RegionElsewhere(disk, g.entries, t, g.primary, HEADER_SIZE);
    RegionElsewhere(disk, g.entries, t, g.backupEntries, g.length);
    RegionElsewhere(disk, g.entries, t, g.backup, HEADER_SIZE);
  }

  lemma WriteBackupEntries(disk: seq<byte>, g: Geometry, t: seq<byte>)
    requires g.Fits(|disk|) && g.Apart() && |t| <= g.length
    ensures var r := RegionsOf(disk, g);
            RegionsOf(Splice(disk, g.backupEntries, t), g) == r.(backupEntries := t + r.backupEntries[|t|..])
  {
    hide Region, Splice;
    RegionPartlyWritten(disk, g.backupEntries, t, g.length);
    RegionElsewhere(disk, g.backupEntries, t, g.primary, HEADER_SIZE);
    RegionElsewhere(disk, g.backupEntries, t, g.entries, g.length);
    RegionElsewhere(disk, g.backupEntries, t, g.backup, HEADER_SIZE);
  }

  lemma WriteBackup(disk: seq<byte>, g: Geometry, t: seq<byte>)
    requires g.Fits(|disk|) && g.Apart() && |t| <= HEADER_SIZE
    ensures var r := RegionsOf(disk, g);
            RegionsOf(Splice(disk, g.backup, t), g) == r.(backup := t + r.backup[|t|..])
  {
    hide Region, Splice;
    RegionPartlyWritten(disk, g.backup, t, HEADER_SIZE);
    RegionElsewhere(disk, g.backup, t, g.primary, HEADER_SIZE);
    RegionElsewhere(disk, g.backup, t, g.entries, g.length);
    RegionElsewhere(disk, g.backup, t, g.backupEntries, g.length);
  }

  /** What a region holds when the first cut bytes of t have been written over it. */
  function Torn(t: seq<byte>, was: seq<byte>, cut: nat): seq<byte>
    requires cut <= |t| == |was|
  {
    t[..cut] + was[cut..]
  }

  lemma TornFully(t: seq<byte>, was: seq<byte>)
    requires |t| == |was|
    ensures Torn(t, was, |t|) == t && t + was[|t|..] == t
  {}

  /** The regions when Sync stopped after k whole writes and cut bytes of the next. */
  function StoppedRegions(crc: Crc, r: Regions, m: Memory, k: nat, cut: nat): Regions
    requires m.Sized() && |r.primary| == |r.backup| == HEADER_SIZE && |r.entries| == |r.backupEntries| == |m.table|
    requires k <= 4 && cut <= (if k == 0 || k == 3 then HEADER_SIZE else if k < 3 then |m.table| else 0)
  {
    if k == 0 then r.(primary := Torn(NewPrimary(crc, m), r.primary, cut))
    else if k == 1 then r.(primary := NewPrimary(crc, m), entries := Torn(m.table, r.entries, cut))
    else if k == 2 then
      r.(primary := NewPrimary(crc, m), entries := m.table, backupEntries := Torn(m.table, r.backupEntries, cut))
    else if k == 3 then Regions(NewPrimary(crc, m), m.table, m.table, Torn(NewBackup(crc, m), r.backup, cut))
    else Regions(NewPrimary(crc, m), m.table, m.table, NewBackup(crc, m))
  }

  lemma StoppedAt(crc: Crc, disk: seq<byte>, g: Geometry, m: Memory, k: nat, cut: nat)
    requires m.Sized() && g.Fits(|disk|) && g.Apart() && g.length == |m.table|
    requires k <= 4 && cut <= (if k == 0 || k == 3 then HEADER_SIZE else if k < 3 then |m.table| else 0)
    ensures InBounds(Update(crc, g, m), |disk|)
    ensures RegionsOf(Stopped(disk, Update(crc, g, m), k, cut), g) == StoppedRegions(crc, RegionsOf(disk, g), m, k, cut)
  {
    UpdateInBounds(crc, g, m, |disk|);
    var a, b := Write(g.primary, NewPrimary(crc, m)), Write(g.entries, m.table);
    var c, d := Write(g.backupEntries, m.table), Write(g.backup, NewBackup(crc, m));
    var r := RegionsOf(disk, g);
    hide NewPrimary, NewBackup, Splice, RegionsOf, Stopped, GptDisk.InBounds;
    assert Update(crc, g, m) == [a] + ([b] + ([c] + ([d] + [])));
    if k == 0 {
      StopHere(disk, a, [b] + ([c] + ([d] + [])), cut);
      WritePrimary(disk, g, a.bytes[..cut]);
    } else {
      StopLater(disk, a, [b] + ([c] + ([d] + [])), k - 1, cut);
      WritePrimary(disk, g, a.bytes);
      TornFully(a.bytes, r.primary);
      StoppedAfterOne(Splice(disk, a.at, a.bytes), g, b, c, d, k - 1, cut);
    }
  }

  lemma StoppedAfterOne(one: seq<byte>, g: Geometry, b: Write, c: Write, d: Write, k: nat, cut: nat)
    requires g.Fits(|one|) && g.Apart() && b.at == g.entries && c.at == g.backupEntries && d.at == g.backup
    requires b.bytes == c.bytes && |b.bytes| == g.length && |d.bytes| == HEADER_SIZE
    requires InBounds([b] + ([c] + ([d] + [])), |one|)
    requires k <= 3 && cut <= (if k == 2 then HEADER_SIZE else if k < 2 then g.length else 0)
    ensures var r := RegionsOf(one, g);
            RegionsOf(Stopped(one, [b] + ([c] + ([d] + [])), k, cut), g) ==
              if k == 0 then r.(entries := Torn(b.bytes, r.entries, cut))
              else if k == 1 then r.(entries := b.bytes, backupEntries := Torn(b.bytes, r.backupEntries, cut))
              else if k == 2 then
                r.(entries := b.bytes, backupEntries := b.bytes, backup := Torn(d.bytes, r.backup, cut))
              else r.(entries := b.bytes, backupEntries := b.bytes, backup := d.bytes)
  {
    var r := RegionsOf(one, g);
    hide Splice, RegionsOf, Stopped, GptDisk.InBounds, Torn, Geometry.Fits, Geometry.Apart;
    if k == 0 {
      StopHere(one, b, [c] + ([d] + []), cut);
      WriteEntries(one, g, b.bytes[..cut]);
    } else {
      StopLater(one, b, [c] + ([d] + []), k - 1, cut);
      WriteEntries(one, g, b.bytes);
      TornFully(b.bytes, r.entries);
      StoppedAfterTwo(Splice(one, b.at, b.bytes), g, c, d, k - 1, cut);
    }
  }

  lemma StoppedAfterTwo(two: seq<byte>, g: Geometry, c: Write, d: Write, k: nat, cut: nat)
    requires g.Fits(|two|) && g.Apart() && c.at == g.backupEntries && d.at == g.backup
    requires |c.bytes| == g.length && |d.bytes| == HEADER_SIZE
    requires InBounds([c] + ([d] + []), |two|)
    requires k <= 2 && cut <= (if k == 0 then g.length else if k == 1 then HEADER_SIZE else 0)
    ensures var r := RegionsOf(two, g);
            RegionsOf(Stopped(two, [c] + ([d] + []), k, cut), g) ==
              if k == 0 then r.(backupEntries := Torn(c.bytes, r.backupEntries, cut))
              else if k == 1 then r.(backupEntries := c.bytes, backup := Torn(d.bytes, r.backup, cut))
              else r.(backupEntries := c.bytes, backup := d.bytes)
  {
    var r := RegionsOf(two, g);
    hide Splice, RegionsOf, GptDisk.InBounds;
    if k == 0 {
      StopHere(two, c, [d] + [], cut);
      WriteBackupEntries(two, g, c.bytes[..cut]);
    } else {
      StopLater(two, c, [d] + [], k - 1, cut);
      WriteBackupEntries(two, g, c.bytes);
      TornFully(c.bytes, r.backupEntries);
      var three := Splice(two, c.at, c.bytes);
      if k == 1 {
        StopHere(three, d, [], cut);
        WriteBackup(three, g, d.bytes[..cut]);
      } else {
        StopLater(three, d, [], 0, cut);
        WriteBackup(three, g, d.bytes);
        TornFully(d.bytes, r.backup);
      }
    }
  }

  // ----- Crash safety

  lemma RecoverFromRegions(crc: Crc, disk: seq<byte>, g: Geometry)
    requires g.Fits(|disk|)
    ensures var r := RegionsOf(disk, g);
            && (IsCopy(crc, r.primary, r.entries) ==> Recover(crc, disk, g) == Entries(r.entries))
            && ((!IsCopy(crc, r.primary, r.entries) && IsCopy(crc, r.backup, r.backupEntries)) ==>
                  Recover(crc, disk, g) == Entries(r.backupEntries))
  {}

  /** While the primary header is being overwritten, it can only pass for good if it still is the old one. */
  lemma StoppedInPrimary(crc: Crc, onDisk: seq<byte>, was: seq<byte>, h: seq<byte>, cut: nat)
    requires IsCopy(crc, onDisk, was) && SameButCrcs(onDisk, h) && cut <= HEADER_SIZE
    requires IsCopy(crc, Torn(h, onDisk, cut), was)
    ensures Torn(h, onDisk, cut) == onDisk
  {
    TornHeader(onDisk, h, cut);
    SealedUnique(crc, onDisk, Torn(h, onDisk, cut));
  }

  /** The array caught after cut bytes of the new one does not pass for the new one under the checksum,
      unless it already is the new one. */
  ghost predicate TornDetected(crc: Crc, was: seq<byte>, now: seq<byte>, cut: nat)
    requires cut <= |now| == |was|
  {
    crc(Torn(now, was, cut)) == crc(now) ==> Torn(now, was, cut) == now
  }

  /** Under the new header an array of the right length passes exactly when it has the new array's checksum. */
  lemma PassesUnderNewHeader(crc: Crc, h: seq<byte>, now: seq<byte>, t: seq<byte>)
    requires IsCopy(crc, h, now) && |t| == |now|
    ensures IsCopy(crc, h, t) <==> crc(t) == crc(now)
  {
    WordsEqual(crc(now), crc(t));
  }

  /** When there is something to write, the old and the new array have different checksums: with equal ones the new
      header would be the old one. */
  lemma ChecksumsDiffer(crc: Crc, disk: seq<byte>, blockSize: nat, m: Memory)
    requires Linked(crc, disk, blockSize, m) && !NothingToDo(crc, m)
    ensures crc(Region(disk, GeometryOf(blockSize, m).entries, |m.table|)) != crc(m.table)
  {
    var r := RegionsOf(disk, GeometryOf(blockSize, m));
    if crc(r.entries) == crc(m.table) {
      NewHeaderIsCopy(crc, r.primary, r.entries, m.primary, m.table);
      SealedUnique(crc, r.primary, NewPrimary(crc, m));
      assert false;
    }
  }

  ghost predicate StopsInUpdate(m: Memory, k: nat, cut: nat) {
    k <= 4 && cut <= (if k == 0 || k == 3 then HEADER_SIZE else if k < 3 then |m.table| else 0)
  }

  /** Stopping Sync after any number of whole writes and any number of bytes of the next leaves a table that reads
      as the old array or as the new one: the old one until the primary array is touched, the new one as soon as it is
      complete. Only while it is being overwritten does the checksum have to tell the mixture from the new array. */
  lemma CrashSafe(crc: Crc, disk: seq<byte>, blockSize: nat, m: Memory, k: nat, cut: nat)
    requires Linked(crc, disk, blockSize, m) && !NothingToDo(crc, m) && StopsInUpdate(m, k, cut)
    requires k == 1 && cut > 0
        ==> TornDetected(crc, Region(disk, GeometryOf(blockSize, m).entries, |m.table|), m.table, cut)
    ensures var g := GeometryOf(blockSize, m);
            var was := Region(disk, g.entries, |m.table|);
            && InBounds(Writes(crc, blockSize, m), |disk|)
            && var found := Recover(crc, Stopped(disk, Writes(crc, blockSize, m), k, cut), g);
               && (k == 0 || (k == 1 && cut == 0) ==> found == Entries(was))
               && (k == 1 ==> found == Entries(was) || found == Entries(m.table))
               && (k >= 2 ==> found == Entries(m.table))
  {
    var g := GeometryOf(blockSize, m);
    var r := RegionsOf(disk, g);
    NewHeaderIsCopy(crc, r.primary, r.entries, m.primary, m.table);
    StoppedAt(crc, disk, g, m, k, cut);
    var after := Stopped(disk, Writes(crc, blockSize, m), k, cut);
    RecoverFromRegions(crc, after, g);
    var s := RegionsOf(after, g);
    hide IsCopy, Recover, RegionsOf, Stopped, Update, NewPrimary, NewBackup;
    if k == 0 {
      if IsCopy(crc, s.primary, s.entries) {
        StoppedInPrimary(crc, r.primary, r.entries, NewPrimary(crc, m), cut);
      }
    } else if k == 1 {
      PassesUnderNewHeader(crc, s.primary, m.table, s.entries);
    }
  }

  /** The exact condition: a stop is harmless if and only if it is outside the second write, or the checksum tells
      the mixture it leaves from the new array. */
  lemma CrashSafeIff(crc: Crc, disk: seq<byte>, blockSize: nat, m: Memory, k: nat, cut: nat)
    requires Linked(crc, disk, blockSize, m) && !NothingToDo(crc, m) && StopsInUpdate(m, k, cut)
    ensures var g := GeometryOf(blockSize, m);
            var was := Region(disk, g.entries, |m.table|);
            && InBounds(Writes(crc, blockSize, m), |disk|)
            && var found := Recover(crc, Stopped(disk, Writes(crc, blockSize, m), k, cut), g);
               found == Entries(was) || found == Entries(m.table) <==> (k == 1 ==> TornDetected(crc, was, m.table, cut))
  {
    var g := GeometryOf(blockSize, m);
    var r := RegionsOf(disk, g);
    if k != 1 || TornDetected(crc, r.entries, m.table, cut) {
      CrashSafe(crc, disk, blockSize, m, k, cut);
    } else {
      ChecksumsDiffer(crc, disk, blockSize, m);
      NewHeaderIsCopy(crc, r.primary, r.entries, m.primary, m.table);
      StoppedAt(crc, disk, g, m, k, cut);
      var after := Stopped(disk, Writes(crc, blockSize, m), k, cut);
      RecoverFromRegions(crc, after, g);
      var s := RegionsOf(after, g);
      PassesUnderNewHeader(crc, NewPrimary(crc, m), m.table, s.entries);
    }
  }

  // ----- Whole runs

  lemma Reseal(crc: Crc, h: seq<byte>, w: Word)
    requires |h| == HEADER_SIZE && IsSealed(crc, h) && EntriesCrc(h) == w.Bytes()
    ensures Seal(crc, WithEntriesCrc(h, w)) == h
  {
    SpliceSame(h, ENTRIES_CRC, w.Bytes());
    SealSeals(crc, h);
    SealedUnique(crc, h, Seal(crc, h));
  }

  /** A Sync right after another one, as the destructor's is, writes nothing. That is so even if the first one
      failed part of the way, as the memory already holds the new primary header: what was not written
      stays unwritten. */
  lemma SecondSyncWritesNothing(crc: Crc, blockSize: nat, m: Memory, after: Memory)
    requires m.Sized() && after.Sized()
    requires after.primary == NewPrimary(crc, m) && after.table == m.table
    ensures Writes(crc, blockSize, after) == []
  {
    NewHeaderLaws(crc, m.primary, m.table);
    Reseal(crc, NewPrimary(crc, m), crc(m.table));
  }

  lemma NewMemoryGeometry(crc: Crc, blockSize: nat, m: Memory)
    requires m.Sized()
    ensures GeometryOf(blockSize, Recomputed(crc, m)) == GeometryOf(blockSize, m)
    ensures CurrentLba(Recomputed(crc, m).primary) == CurrentLba(m.primary)
  {
    NewHeaderLaws(crc, m.primary, m.table);
    SameGeometry(m.primary, NewPrimary(crc, m));
    NewHeaderLaws(crc, m.backup, m.table);
    SameGeometry(m.backup, NewBackup(crc, m));
  }

  /** A Sync that is not interrupted keeps both copies good and equal, and leaves the memory linked to the disk.
      It stores the new array unless the header checksum failed to tell it from the old one. */
  lemma SyncKeepsDiskGood(crc: Crc, disk: seq<byte>, blockSize: nat, m: Memory)
    requires Linked(crc, disk, blockSize, m)
    ensures InBounds(Writes(crc, blockSize, m), |disk|)
    ensures var after := Perform(disk, Writes(crc, blockSize, m));
            var g := GeometryOf(blockSize, m);
            && Linked(crc, after, blockSize, Recomputed(crc, m))
            && (Region(after, g.entries, g.length) == m.table <==>
                  (!NothingToDo(crc, m) || Region(disk, g.entries, g.length) == m.table))
  {
    NewMemoryGeometry(crc, blockSize, m);
    if NothingToDo(crc, m) {
      SkippedSync(crc, disk, blockSize, m);
    } else {
      CompletedSync(crc, disk, blockSize, m);
    }
  }

  lemma SkippedSync(crc: Crc, disk: seq<byte>, blockSize: nat, m: Memory)
    requires Linked(crc, disk, blockSize, m) && NothingToDo(crc, m)
    requires GeometryOf(blockSize, Recomputed(crc, m)) == GeometryOf(blockSize, m)
    requires CurrentLba(Recomputed(crc, m).primary) == 1
    ensures Linked(crc, disk, blockSize, Recomputed(crc, m))
  {
    NewHeaderLaws(crc, m.primary, m.table);
    var onDisk := Region(disk, GeometryOf(blockSize, m).primary, HEADER_SIZE);
    SameButCrcsSymmetric(m.primary, NewPrimary(crc, m));
    SameButCrcsTransitive(NewPrimary(crc, m), m.primary, onDisk);
  }

  lemma CompletedSync(crc: Crc, disk: seq<byte>, blockSize: nat, m: Memory)
    requires Linked(crc, disk, blockSize, m) && !NothingToDo(crc, m)
    requires GeometryOf(blockSize, Recomputed(crc, m)) == GeometryOf(blockSize, m)
    requires CurrentLba(Recomputed(crc, m).primary) == 1
    ensures InBounds(Writes(crc, blockSize, m), |disk|)
    ensures var after := Perform(disk, Writes(crc, blockSize, m));
            var g := GeometryOf(blockSize, m);
            Linked(crc, after, blockSize, Recomputed(crc, m)) && Region(after, g.entries, g.length) == m.table
  {
    var g := GeometryOf(blockSize, m);
    var r := RegionsOf(disk, g);
    NewHeaderIsCopy(crc, r.primary, r.entries, m.primary, m.table);
    NewHeaderIsCopy(crc, r.backup, r.backupEntries, m.backup, m.table);
    StoppedAt(crc, disk, g, m, 4, 0);
    var after := Perform(disk, Writes(crc, blockSize, m));
    hide Stopped, RegionsOf, IsCopy, NewPrimary, NewBackup, GptDisk.InBounds, StoppedRegions;
    assert RegionsOf(after, g) == Regions(NewPrimary(crc, m), m.table, m.table, NewBackup(crc, m)) by {
      EndOfUpdate(crc, r, m);
    }
    LinkedFromRegions(crc, after, blockSize, Recomputed(crc, m));
  }

  lemma EndOfUpdate(crc: Crc, r: Regions, m: Memory)
    requires m.Sized() && |r.primary| == |r.backup| == HEADER_SIZE && |r.entries| == |r.backupEntries| == |m.table|
    ensures StoppedRegions(crc, r, m, 4, 0) == Regions(NewPrimary(crc, m), m.table, m.table, NewBackup(crc, m))
  {}

  lemma LinkedFromRegions(crc: Crc, disk: seq<byte>, blockSize: nat, m: Memory)
    requires m.Sized() && CurrentLba(m.primary) == 1
    requires var g := GeometryOf(blockSize, m);
             g.Fits(|disk|) && g.Apart() && RegionsOf(disk, g) == Regions(m.primary, m.table, m.table, m.backup)
    requires IsCopy(crc, m.primary, m.table) && IsCopy(crc, m.backup, m.table)
    ensures Linked(crc, disk, blockSize, m)
    ensures Region(disk, GeometryOf(blockSize, m).entries, |m.table|) == m.table
  {
    hide IsCopy, Region;
  }
}
