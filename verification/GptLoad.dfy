/** What Load leaves in memory, disks in good order, and what a new object makes of a disk on which an update was
    interrupted (pixel-source/bootctrl/1.2/GptUtils.cpp, lines 58-187). */
module GptLoad {
  import opened Bytes
  import opened GptDisk
  import opened GptSync

  /** What Load reads lies on the device. The source does not check this. */
  predicate Loadable(disk: seq<byte>, blockSize: nat) {
    && blockSize + HEADER_SIZE <= |disk|
    && var h := Region(disk, blockSize, HEADER_SIZE);
       (IsGptHeader(h) ==>
          && blockSize * StartLba(h) + ENTRY_SIZE * EntryCount(h) <= |disk|
          && blockSize * BackupLba(h) + HEADER_SIZE <= |disk|)
  }

  /** What Load leaves in memory when the primary header is valid. */
  function Loaded(disk: seq<byte>, blockSize: nat): (m: Memory)
    requires Loadable(disk, blockSize) && IsGptHeader(Region(disk, blockSize, HEADER_SIZE))
    ensures m.Sized()
  {
    var h := Region(disk, blockSize, HEADER_SIZE);
    Memory(h, Region(disk, blockSize * BackupLba(h), HEADER_SIZE),
           Region(disk, blockSize * StartLba(h), ENTRY_SIZE * EntryCount(h)))
  }

  /** Where Load finds what: the header in block 1, the array in the block the header names at 72 and with as many
      entries of 128 bytes as it says at 80, the backup header in the block it names at 32. */
  lemma LoadedIs(disk: seq<byte>, blockSize: nat)
    requires Loadable(disk, blockSize) && IsGptHeader(Region(disk, blockSize, 92))
    ensures var m := Loaded(disk, blockSize);
            var table, backup := blockSize * LeField(m.primary, 72, 8), blockSize * LeField(m.primary, 32, 8);
            && blockSize + 92 <= |disk| && m.primary == disk[blockSize..blockSize + 92]
            && backup + 92 <= |disk| && m.backup == disk[backup..backup + 92]
            && table + 128 * LeField(m.primary, 80, 4) <= |disk|
            && m.table == disk[table..table + 128 * LeField(m.primary, 80, 4)]
  {
    hide IsGptHeader, LeField;
  }

  // ----- Disks in good order

  /** Both copies of the table on this disk are good and equal, the regions are apart, and the primary header
      says that it stands at block 1. */
  ghost predicate GoodDisk(crc: Crc, disk: seq<byte>, blockSize: nat) {
    && Loadable(disk, blockSize) && IsGptHeader(Region(disk, blockSize, HEADER_SIZE))
    && Linked(crc, disk, blockSize, Loaded(disk, blockSize))
  }

  /** A disk linked to some memory is good, and loading it gives the same geometry. */
  lemma LinkedDiskIsGood(crc: Crc, disk: seq<byte>, blockSize: nat, m: Memory)
    requires Linked(crc, disk, blockSize, m)
    ensures GoodDisk(crc, disk, blockSize)
    ensures GeometryOf(blockSize, Loaded(disk, blockSize)) == GeometryOf(blockSize, m)
    ensures Loaded(disk, blockSize).table == Region(disk, GeometryOf(blockSize, m).entries, |m.table|)
  {
    var g := GeometryOf(blockSize, m);
    var h, b := Region(disk, g.primary, HEADER_SIZE), Region(disk, g.backup, HEADER_SIZE);
    SameGeometry(m.primary, h);
    SameGeometry(m.backup, b);
    hide Region, Splice, Value, LeField;
    assert g.primary == blockSize;
    assert Loadable(disk, blockSize);
    var l := Loaded(disk, blockSize);
    assert l.primary == h && l.backup == b && |l.table| == |m.table|;
    SelfSame(h);
    SelfSame(b);
  }

  lemma SelfSame(h: seq<byte>)
    requires |h| == HEADER_SIZE
    ensures SameButCrcs(h, h)
  {}

  /** Any array of the same length may stand in memory. */
  lemma EditKeepsLinked(crc: Crc, disk: seq<byte>, blockSize: nat, m: Memory, table: seq<byte>)
    requires Linked(crc, disk, blockSize, m) && |table| == |m.table|
    ensures Linked(crc, disk, blockSize, m.(table := table))
    ensures GeometryOf(blockSize, m.(table := table)) == GeometryOf(blockSize, m)
  {}

  lemma LoadLinks(crc: Crc, disk: seq<byte>, blockSize: nat)
    requires GoodDisk(crc, disk, blockSize)
    ensures Loadable(disk, blockSize) && IsGptHeader(Region(disk, blockSize, HEADER_SIZE))
    ensures Linked(crc, disk, blockSize, Loaded(disk, blockSize))
  {}

  // ----- A new object on an interrupted disk

  /** The disk when a new object has loaded it and, without an edit, been destroyed. */
  ghost function Reloaded(crc: Crc, disk: seq<byte>, blockSize: nat): (r: seq<byte>)
    requires Loadable(disk, blockSize) && IsGptHeader(Region(disk, blockSize, HEADER_SIZE))
    requires InBounds(Writes(crc, blockSize, Loaded(disk, blockSize)), |disk|)
  {
    Perform(disk, Writes(crc, blockSize, Loaded(disk, blockSize)))
  }

  /** What the regions hold where Sync stopped. */
  ghost function AtStop(crc: Crc, disk: seq<byte>, blockSize: nat, m: Memory, k: nat, cut: nat): (s: Regions)
    requires Linked(crc, disk, blockSize, m) && StopsInUpdate(m, k, cut)
    ensures MemoryOf(s).Sized() && |s.entries| == |m.table|
  {
    StoppedRegions(crc, RegionsOf(disk, GeometryOf(blockSize, m)), m, k, cut)
  }

  function MemoryOf(r: Regions): Memory {
    Memory(r.primary, r.backup, r.entries)
  }

  /** Wherever Sync stopped, both headers still say where everything is. */
  lemma HeadersAtStop(crc: Crc, disk: seq<byte>, blockSize: nat, m: Memory, k: nat, cut: nat)
    requires Linked(crc, disk, blockSize, m) && StopsInUpdate(m, k, cut)
    ensures var r, s := RegionsOf(disk, GeometryOf(blockSize, m)), AtStop(crc, disk, blockSize, m, k, cut);
            SameButCrcs(r.primary, s.primary) && SameButCrcs(r.backup, s.backup)
  {
    var r := RegionsOf(disk, GeometryOf(blockSize, m));
    NewHeaderIsCopy(crc, r.primary, r.entries, m.primary, m.table);
    NewHeaderIsCopy(crc, r.backup, r.backupEntries, m.backup, m.table);
    SelfSame(r.primary);
    SelfSame(r.backup);
    hide NewPrimary, NewBackup, SameButCrcs;
    if k == 0 {
      TornHeader(r.primary, NewPrimary(crc, m), cut);
    } else if k == 3 {
      TornHeader(r.backup, NewBackup(crc, m), cut);
    }
  }

  /** Load takes in what stands there. */
  lemma LoadAtStop(crc: Crc, disk: seq<byte>, blockSize: nat, m: Memory, k: nat, cut: nat)
    requires Linked(crc, disk, blockSize, m) && !NothingToDo(crc, m) && StopsInUpdate(m, k, cut)
    ensures var g := GeometryOf(blockSize, m);
            && InBounds(Writes(crc, blockSize, m), |disk|)
            && var after := Stopped(disk, Writes(crc, blockSize, m), k, cut);
               && RegionsOf(after, g) == AtStop(crc, disk, blockSize, m, k, cut)
               && Loadable(after, blockSize) && IsGptHeader(Region(after, blockSize, HEADER_SIZE))
               && Loaded(after, blockSize) == MemoryOf(RegionsOf(after, g))
               && GeometryOf(blockSize, Loaded(after, blockSize)) == g
  {
    var g := GeometryOf(blockSize, m);
    StoppedAt(crc, disk, g, m, k, cut);
    var after := Stopped(disk, Writes(crc, blockSize, m), k, cut);
    HeadersAtStop(crc, disk, blockSize, m, k, cut);
    LoadRegions(crc, disk, after, blockSize, m);
  }

  lemma LoadRegions(crc: Crc, disk: seq<byte>, after: seq<byte>, blockSize: nat, m: Memory)
    requires Linked(crc, disk, blockSize, m) && |after| == |disk|
    requires var g := GeometryOf(blockSize, m);
             && SameButCrcs(Region(disk, g.primary, HEADER_SIZE), Region(after, g.primary, HEADER_SIZE))
             && SameButCrcs(Region(disk, g.backup, HEADER_SIZE), Region(after, g.backup, HEADER_SIZE))
    ensures var g := GeometryOf(blockSize, m);
            && Loadable(after, blockSize) && IsGptHeader(Region(after, blockSize, HEADER_SIZE))
            && Loaded(after, blockSize) == MemoryOf(RegionsOf(after, g))
            && GeometryOf(blockSize, Loaded(after, blockSize)) == g
  {
    var g := GeometryOf(blockSize, m);
    SameGeometry(m.primary, Region(disk, g.primary, HEADER_SIZE));
    SameGeometry(m.backup, Region(disk, g.backup, HEADER_SIZE));
    SameGeometry(Region(disk, g.primary, HEADER_SIZE), Region(after, g.primary, HEADER_SIZE));
    SameGeometry(Region(disk, g.backup, HEADER_SIZE), Region(after, g.backup, HEADER_SIZE));
    hide Region, SameButCrcs, LeField, IsGptHeader, IsCopy;
    assert g.primary == blockSize;
    assert IsGptHeader(Region(disk, g.primary, HEADER_SIZE)) by {
      PrimaryIsHeader(crc, disk, g);
    }
  }

  lemma PrimaryIsHeader(crc: Crc, disk: seq<byte>, g: Geometry)
    requires BothGood(crc, disk, g)
    ensures IsGptHeader(Region(disk, g.primary, HEADER_SIZE))
        && g.length == ENTRY_SIZE * EntryCount(Region(disk, g.primary, HEADER_SIZE))
  {}

  /** What the regions hold after a new object loaded them and was destroyed. */
  function EndRegions(crc: Crc, s: Regions): (e: Regions)
    requires MemoryOf(s).Sized()
    ensures MemoryOf(e).Sized() && e.entries == s.entries
  {
    var l := MemoryOf(s);
    if NothingToDo(crc, l) then s else Regions(NewPrimary(crc, l), s.entries, s.entries, NewBackup(crc, l))
  }

  lemma ReloadRegions(crc: Crc, disk: seq<byte>, blockSize: nat, m: Memory, k: nat, cut: nat)
    requires Linked(crc, disk, blockSize, m) && !NothingToDo(crc, m) && StopsInUpdate(m, k, cut)
    ensures var g := GeometryOf(blockSize, m);
            && InBounds(Writes(crc, blockSize, m), |disk|)
            && var after := Stopped(disk, Writes(crc, blockSize, m), k, cut);
               && Loadable(after, blockSize) && IsGptHeader(Region(after, blockSize, HEADER_SIZE))
               && InBounds(Writes(crc, blockSize, Loaded(after, blockSize)), |after|)
               && RegionsOf(Reloaded(crc, after, blockSize), g)
                   == EndRegions(crc, AtStop(crc, disk, blockSize, m, k, cut))
  {
    var g := GeometryOf(blockSize, m);
    LoadAtStop(crc, disk, blockSize, m, k, cut);
    var after := Stopped(disk, Writes(crc, blockSize, m), k, cut);
    var l := Loaded(after, blockSize);
    assert g.Fits(|after|) && g.Apart() && g.length == |l.table|;
    hide Linked, RegionsOf, Stopped, NewPrimary, NewBackup, StoppedRegions, NothingToDo, GptDisk.InBounds, IsGptHeader,
         Loadable, Loaded, Geometry.Fits, Geometry.Apart, GeometryOf;
    StoppedAt(crc, after, g, l, 4, 0);
    EndOfUpdate(crc, RegionsOf(after, g), l);
    NoWritesNoChange(after);
  }

  lemma NoWritesNoChange(disk: seq<byte>)
    ensures InBounds([], |disk|) && Perform(disk, []) == disk
  {}

  /** Both copies are good and hold one array. */
  ghost predicate GoodRegions(crc: Crc, e: Regions) {
    IsCopy(crc, e.primary, e.entries) && IsCopy(crc, e.backup, e.backupEntries) && e.entries == e.backupEntries
  }

  /** The regions of a disk on which the memory would be written. */
  ghost predicate Pending(crc: Crc, r: Regions, m: Memory) {
    && GoodRegions(crc, r) && m.Sized() && |m.table| == |r.entries| && !NothingToDo(crc, m)
    && SameButCrcs(m.primary, r.primary) && HeaderCrc(m.primary) == HeaderCrc(r.primary)
        && SameButCrcs(m.backup, r.backup)
  }

  /** Sealing the old headers again for the old array gives them back. */
  lemma OldHeadersAgain(crc: Crc, r: Regions, h: seq<byte>)
    requires GoodRegions(crc, r) && SameButCrcs(r.primary, h)
    ensures Seal(crc, WithEntriesCrc(h, crc(r.entries))) == r.primary
    ensures Seal(crc, WithEntriesCrc(r.backup, crc(r.entries))) == r.backup
  {
    NewHeaderLaws(crc, h, r.entries);
    SameButCrcsTransitive(r.primary, h, Seal(crc, WithEntriesCrc(h, crc(r.entries))));
    SealedUnique(crc, r.primary, Seal(crc, WithEntriesCrc(h, crc(r.entries))));
    Reseal(crc, r.backup, crc(r.entries));
  }

  /** A stop in the first write: the old headers and the old array are put back. */
  lemma StopInFirst(crc: Crc, r: Regions, m: Memory, cut: nat)
    requires Pending(crc, r, m) && cut <= HEADER_SIZE
    ensures EndRegions(crc, r.(primary := Torn(NewPrimary(crc, m), r.primary, cut))) == r
  {
    var n := NewPrimary(crc, m);
    var h := Torn(n, r.primary, cut);
    NewHeaderIsCopy(crc, r.primary, r.entries, m.primary, m.table);
    TornHeader(r.primary, n, cut);
    OldHeadersAgain(crc, r, h);
    var l := MemoryOf(r.(primary := h));
    if NothingToDo(crc, l) {
      TornCrcs(n, r.primary, cut);
      HeaderParts(h);
      HeaderParts(r.primary);
    }
  }

  /** A torn header has the old entries checksum, or the whole new header checksum. */
  lemma TornCrcs(now: seq<byte>, was: seq<byte>, cut: nat)
    requires |now| == |was| == HEADER_SIZE && cut <= HEADER_SIZE
    ensures cut <= ENTRIES_CRC ==> EntriesCrc(Torn(now, was, cut)) == EntriesCrc(was)
    ensures cut > ENTRIES_CRC ==> HeaderCrc(Torn(now, was, cut)) == HeaderCrc(now)
  {}

  /** A stop in the second write before any byte of the array changed: the same. */
  lemma StopBeforeArray(crc: Crc, r: Regions, m: Memory)
    requires Pending(crc, r, m)
    ensures EndRegions(crc, r.(primary := NewPrimary(crc, m))) == r
  {
    NewHeaderIsCopy(crc, r.primary, r.entries, m.primary, m.table);
    OldHeadersAgain(crc, r, NewPrimary(crc, m));
  }

  /** A stop in the second write when the array is neither the old one nor, by its checksum, taken for the new one:
      the mixture is made the table of both copies. */
  lemma StopInArray(crc: Crc, r: Regions, m: Memory, t: seq<byte>)
    requires Pending(crc, r, m) && |t| == |r.entries| && t != r.entries
    ensures var s := r.(primary := NewPrimary(crc, m), entries := t);
            var e := EndRegions(crc, s);
            && e.entries == t
            && (GoodRegions(crc, e) <==> !NothingToDo(crc, MemoryOf(s)))
            && (t == m.table ==> NothingToDo(crc, MemoryOf(s)))
  {
    var n := NewPrimary(crc, m);
    NewHeaderIsCopy(crc, r.primary, r.entries, m.primary, m.table);
    SameButCrcsSymmetric(r.primary, n);
    NewHeaderIsCopy(crc, r.primary, r.entries, n, t);
    SelfSame(r.backup);
    NewHeaderIsCopy(crc, r.backup, r.entries, r.backup, t);
    if t == m.table {
      Reseal(crc, n, crc(t));
    }
  }

  /** A stop after the array is complete: the new object writes nothing. */
  lemma StopAfterArray(crc: Crc, r: Regions, m: Memory, copy: seq<byte>, backup: seq<byte>)
    requires Pending(crc, r, m) && |backup| == HEADER_SIZE
    ensures var s := Regions(NewPrimary(crc, m), m.table, copy, backup); EndRegions(crc, s) == s
  {
    NewHeaderLaws(crc, m.primary, m.table);
    Reseal(crc, NewPrimary(crc, m), crc(m.table));
  }

  /** So the copies are equal again exactly when the backup header had been completed too. */
  lemma BackupCompleteIff(crc: Crc, r: Regions, m: Memory, copy: seq<byte>, backup: seq<byte>)
    requires Pending(crc, r, m) && SameButCrcs(r.backup, backup) && crc(r.entries) != crc(m.table)
    ensures GoodRegions(crc, Regions(NewPrimary(crc, m), m.table, copy, backup))
        <==> copy == m.table && backup == NewBackup(crc, m)
    ensures backup == r.backup ==> backup != NewBackup(crc, m)
  {
    NewHeaderIsCopy(crc, r.primary, r.entries, m.primary, m.table);
    NewHeaderIsCopy(crc, r.backup, r.backupEntries, m.backup, m.table);
    WordsEqual(crc(r.entries), crc(m.table));
    if IsCopy(crc, backup, m.table) {
      var n := NewBackup(crc, m);
      SameButCrcsSymmetric(r.backup, backup);
      SameButCrcsTransitive(backup, r.backup, n);
      SealedUnique(crc, backup, n);
    }
  }

  /** The stop left the old array, or a complete new backup header. */
  ghost predicate Repairable(crc: Crc, disk: seq<byte>, blockSize: nat, m: Memory, k: nat, cut: nat)
    requires Linked(crc, disk, blockSize, m) && StopsInUpdate(m, k, cut)
  {
    var s := AtStop(crc, disk, blockSize, m, k, cut);
    s.entries == Region(disk, GeometryOf(blockSize, m).entries, |m.table|) || s.backup == NewBackup(crc, m)
  }

  lemma PendingFromLinked(crc: Crc, disk: seq<byte>, blockSize: nat, m: Memory)
    requires Linked(crc, disk, blockSize, m) && !NothingToDo(crc, m)
    ensures Pending(crc, RegionsOf(disk, GeometryOf(blockSize, m)), m)
  {}

  /** The regions after stop and reload, in every case. */
  lemma EndAtStop(crc: Crc, disk: seq<byte>, blockSize: nat, m: Memory, k: nat, cut: nat)
    requires Linked(crc, disk, blockSize, m) && !NothingToDo(crc, m) && StopsInUpdate(m, k, cut)
    ensures var r, s := RegionsOf(disk, GeometryOf(blockSize, m)), AtStop(crc, disk, blockSize, m, k, cut);
            var e := EndRegions(crc, s);
            && e.entries == s.entries
            && (s.entries == r.entries ==> e == r)
            && (s.entries != r.entries && s.entries != m.table
                ==> k == 1 && (GoodRegions(crc, e) <==> !NothingToDo(crc, MemoryOf(s))))
            && (s.entries == m.table ==> (GoodRegions(crc, e) <==> s.backup == NewBackup(crc, m)))
            && (k < 3 ==> s.backup != NewBackup(crc, m))
  {
    var r, s := RegionsOf(disk, GeometryOf(blockSize, m)), AtStop(crc, disk, blockSize, m, k, cut);
    PendingFromLinked(crc, disk, blockSize, m);
    ChecksumsDiffer(crc, disk, blockSize, m);
    HeadersAtStop(crc, disk, blockSize, m, k, cut);
    SelfSame(r.backup);
    BackupCompleteIff(crc, r, m, s.backupEntries, s.backup);
    BackupCompleteIff(crc, r, m, r.entries, r.backup);
    hide Linked, RegionsOf, NewPrimary, NewBackup, EndRegions, GoodRegions, Pending, NothingToDo, SameButCrcs;
    if k == 0 {
      StopInFirst(crc, r, m, cut);
    } else if k == 1 {
      if s.entries == r.entries {
        StopBeforeArray(crc, r, m);
      } else {
        StopInArray(crc, r, m, s.entries);
        if s.entries == m.table {
          StopAfterArray(crc, r, m, s.backupEntries, s.backup);
        }
      }
    } else {
      StopAfterArray(crc, r, m, s.backupEntries, s.backup);
    }
  }

  lemma GoodFromRegions(crc: Crc, disk: seq<byte>, g: Geometry)
    requires g.Fits(|disk|) && g.Apart()
    ensures BothGood(crc, disk, g) <==> GoodRegions(crc, RegionsOf(disk, g))
  {}

  /** Loading an interrupted disk and destroying the object without an edit brings back two good copies of the old or
      of the new array if and only if the stop left the old array or a complete new backup header. From the old array
      the disk is restored as it was. A mixture becomes the table of both copies, unless the header checksum misses it:
      then, or when the new array is complete and the backup header is not, nothing is written. */
  lemma ReloadRepairsIff(crc: Crc, disk: seq<byte>, blockSize: nat, m: Memory, k: nat, cut: nat)
    requires Linked(crc, disk, blockSize, m) && !NothingToDo(crc, m) && StopsInUpdate(m, k, cut)
    ensures var g := GeometryOf(blockSize, m);
            && InBounds(Writes(crc, blockSize, m), |disk|)
            && var after := Stopped(disk, Writes(crc, blockSize, m), k, cut);
               && Loadable(after, blockSize) && IsGptHeader(Region(after, blockSize, HEADER_SIZE))
               && InBounds(Writes(crc, blockSize, Loaded(after, blockSize)), |after|)
               && var end := Reloaded(crc, after, blockSize);
                  var was, torn, found := Region(disk, g.entries, g.length), Region(after, g.entries, g.length),
                      Region(end, g.entries, g.length);
                  && (BothGood(crc, end, g) && (found == was || found == m.table)
                      <==> Repairable(crc, disk, blockSize, m, k, cut))
                  && (torn == was ==> RegionsOf(end, g) == RegionsOf(disk, g))
                  && (torn != was && torn != m.table ==>
                        found == torn && (BothGood(crc, end, g) <==> !NothingToDo(crc, Loaded(after, blockSize))))
                  && (torn == m.table ==> Writes(crc, blockSize, Loaded(after, blockSize)) == [])
  {
    var g := GeometryOf(blockSize, m);
    LoadAtStop(crc, disk, blockSize, m, k, cut);
    ReloadRegions(crc, disk, blockSize, m, k, cut);
    EndAtStop(crc, disk, blockSize, m, k, cut);
    ChecksumsDiffer(crc, disk, blockSize, m);
    var after := Stopped(disk, Writes(crc, blockSize, m), k, cut);
    var end := Reloaded(crc, after, blockSize);
    NewArraySkips(crc, disk, blockSize, m, k, cut);
    hide Linked, Stopped, Perform, NewPrimary, NewBackup, Writes, NothingToDo, IsCopy, GptDisk.InBounds, StoppedRegions,
         EndRegions, Loaded, Loadable, Reloaded, BothGood, GoodRegions, IsGptHeader;
    assert g.Fits(|end|) && g.Apart() by {
      GeometryOfLinked(crc, disk, blockSize, m);
    }
    GoodFromRegions(crc, end, g);
  }

  lemma GeometryOfLinked(crc: Crc, disk: seq<byte>, blockSize: nat, m: Memory)
    requires Linked(crc, disk, blockSize, m)
    ensures GeometryOf(blockSize, m).Fits(|disk|) && GeometryOf(blockSize, m).Apart()
  {}

  lemma NewArraySkips(crc: Crc, disk: seq<byte>, blockSize: nat, m: Memory, k: nat, cut: nat)
    requires Linked(crc, disk, blockSize, m) && !NothingToDo(crc, m) && StopsInUpdate(m, k, cut)
    requires InBounds(Writes(crc, blockSize, m), |disk|)
    requires var after := Stopped(disk, Writes(crc, blockSize, m), k, cut);
             && Loadable(after, blockSize) && IsGptHeader(Region(after, blockSize, HEADER_SIZE))
             && Loaded(after, blockSize) == MemoryOf(AtStop(crc, disk, blockSize, m, k, cut))
    ensures var after := Stopped(disk, Writes(crc, blockSize, m), k, cut);
            AtStop(crc, disk, blockSize, m, k, cut).entries == m.table ==>
              Writes(crc, blockSize, Loaded(after, blockSize)) == []
  {
    var s := AtStop(crc, disk, blockSize, m, k, cut);
    if s.entries == m.table {
      ChecksumsDiffer(crc, disk, blockSize, m);
      assert k > 0;
      SecondSyncWritesNothing(crc, blockSize, m, MemoryOf(s));
    }
  }

  /** The disk is then in good order for the next object. */
  lemma ReloadedIsGood(crc: Crc, disk: seq<byte>, blockSize: nat, m: Memory, k: nat, cut: nat)
    requires Linked(crc, disk, blockSize, m) && !NothingToDo(crc, m) && StopsInUpdate(m, k, cut)
    requires Repairable(crc, disk, blockSize, m, k, cut)
    ensures var g := GeometryOf(blockSize, m);
            && InBounds(Writes(crc, blockSize, m), |disk|)
            && var after := Stopped(disk, Writes(crc, blockSize, m), k, cut);
               && Loadable(after, blockSize) && IsGptHeader(Region(after, blockSize, HEADER_SIZE))
               && InBounds(Writes(crc, blockSize, Loaded(after, blockSize)), |after|)
               && GoodDisk(crc, Reloaded(crc, after, blockSize), blockSize)
  {
    var g := GeometryOf(blockSize, m);
    ReloadRepairsIff(crc, disk, blockSize, m, k, cut);
    ReloadRegions(crc, disk, blockSize, m, k, cut);
    var after := Stopped(disk, Writes(crc, blockSize, m), k, cut);
    var end := Reloaded(crc, after, blockSize);
    var e := EndRegions(crc, AtStop(crc, disk, blockSize, m, k, cut));
    assert RegionsOf(end, g) == e;
    HeadersAtEnd(crc, disk, blockSize, m, k, cut);
    hide Linked, Stopped, NewPrimary, NewBackup, Writes, NothingToDo, IsCopy, GptDisk.InBounds, AtStop, EndRegions,
         Loaded, Loadable, Reloaded, GoodDisk, IsGptHeader, Repairable;
    var l := Memory(e.primary, e.backup, e.entries);
    LinkedFromRegions(crc, end, blockSize, l);
    LinkedDiskIsGood(crc, end, blockSize, l);
  }

  lemma HeadersAtEnd(crc: Crc, disk: seq<byte>, blockSize: nat, m: Memory, k: nat, cut: nat)
    requires Linked(crc, disk, blockSize, m) && StopsInUpdate(m, k, cut)
    ensures var e := EndRegions(crc, AtStop(crc, disk, blockSize, m, k, cut));
            var l := Memory(e.primary, e.backup, e.entries);
            CurrentLba(e.primary) == 1 && GeometryOf(blockSize, l) == GeometryOf(blockSize, m)
  {
    var r, s := RegionsOf(disk, GeometryOf(blockSize, m)), AtStop(crc, disk, blockSize, m, k, cut);
    hide LeField, SameButCrcs, IsCopy, IsGptHeader, EndRegions, NothingToDo, NewPrimary, NewBackup, StoppedRegions,
         AtStop;
    HeadersAtStop(crc, disk, blockSize, m, k, cut);
    var e := EndRegions(crc, s);
    EndHeaders(crc, s);
    SameThrice(m.primary, r.primary, s.primary, e.primary);
    SameThrice(m.backup, r.backup, s.backup, e.backup);
  }

  lemma EndHeaders(crc: Crc, s: Regions)
    requires MemoryOf(s).Sized()
    ensures SameButCrcs(s.primary, EndRegions(crc, s).primary) && SameButCrcs(s.backup, EndRegions(crc, s).backup)
  {
    NewHeaderLaws(crc, s.primary, s.entries);
    NewHeaderLaws(crc, s.backup, s.entries);
    SelfSame(s.primary);
    SelfSame(s.backup);
  }

  lemma SameThrice(a: seq<byte>, b: seq<byte>, c: seq<byte>, d: seq<byte>)
    requires SameButCrcs(a, b) && SameButCrcs(b, c) && SameButCrcs(c, d)
    ensures CurrentLba(a) == CurrentLba(d) && StartLba(a) == StartLba(d) && BackupLba(a) == BackupLba(d)
  {
    SameGeometry(a, b);
    SameGeometry(b, c);
    SameGeometry(c, d);
  }
}
