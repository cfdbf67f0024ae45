/** What is left of a table whose repair was interrupted as well, any number of times
    (pixel-source/bootctrl/1.2/GptUtils.cpp, lines 58-187). */
module GptRepairs {
  import opened Bytes
  import opened GptDisk
  import opened GptSync
  import opened GptLoad

  /** The disk holds what the good disk holds, but for the checksums in its primary header. */
  ghost predicate HoldsOld(crc: Crc, good: seq<byte>, disk: seq<byte>, blockSize: nat) {
    && GoodDisk(crc, good, blockSize) && |disk| == |good|
    && var g := GeometryOf(blockSize, Loaded(good, blockSize));
       var r, s := RegionsOf(good, g), RegionsOf(disk, g);
       s == r.(primary := s.primary) && SameButCrcs(r.primary, s.primary)
  }

  /** The stop left the old array. */
  ghost predicate LeavesOld(crc: Crc, disk: seq<byte>, blockSize: nat, m: Memory, k: nat, cut: nat)
    requires Linked(crc, disk, blockSize, m) && StopsInUpdate(m, k, cut)
  {
    AtStop(crc, disk, blockSize, m, k, cut).entries == Region(disk, GeometryOf(blockSize, m).entries, |m.table|)
  }

  /** Then nothing but the checksums of the primary header has changed. */
  lemma StopHoldsOld(crc: Crc, disk: seq<byte>, blockSize: nat, m: Memory, k: nat, cut: nat)
    requires Linked(crc, disk, blockSize, m) && !NothingToDo(crc, m) && StopsInUpdate(m, k, cut)
    requires LeavesOld(crc, disk, blockSize, m, k, cut)
    ensures InBounds(Writes(crc, blockSize, m), |disk|)
    ensures HoldsOld(crc, disk, Stopped(disk, Writes(crc, blockSize, m), k, cut), blockSize)
  {
    LinkedDiskIsGood(crc, disk, blockSize, m);
    LoadAtStop(crc, disk, blockSize, m, k, cut);
    HeadersAtStop(crc, disk, blockSize, m, k, cut);
    ChecksumsDiffer(crc, disk, blockSize, m);
    hide Linked, GoodDisk, Loaded, NewPrimary, NewBackup, Stopped, NothingToDo, GptDisk.InBounds, SameButCrcs;
  }

  /** The next object loads it all the same. */
  lemma OldLoads(crc: Crc, good: seq<byte>, disk: seq<byte>, blockSize: nat)
    requires HoldsOld(crc, good, disk, blockSize)
    ensures Loadable(disk, blockSize) && IsGptHeader(Region(disk, blockSize, HEADER_SIZE))
    ensures var l, g := Loaded(disk, blockSize), GeometryOf(blockSize, Loaded(good, blockSize));
            && g.Fits(|disk|) && g.Apart() && g.length == |l.table|
            && l == MemoryOf(RegionsOf(disk, g)) && GeometryOf(blockSize, l) == g
            && RepairPending(crc, RegionsOf(good, g), l)
            && InBounds(Writes(crc, blockSize, l), |disk|)
  {
    var m := Loaded(good, blockSize);
    var g := GeometryOf(blockSize, m);
    GoodGeometry(crc, good, blockSize);
    SelfSame(RegionsOf(good, g).backup);
    assert Linked(crc, good, blockSize, m);
    hide GoodDisk, Linked, Loadable, Loaded, SameButCrcs, IsGptHeader;
    LoadRegions(crc, good, disk, blockSize, m);
    UpdateInBounds(crc, g, Loaded(disk, blockSize), |disk|);
  }

  lemma GoodGeometry(crc: Crc, good: seq<byte>, blockSize: nat)
    requires GoodDisk(crc, good, blockSize)
    ensures var g := GeometryOf(blockSize, Loaded(good, blockSize));
            g.Fits(|good|) && g.Apart() && GoodRegions(crc, RegionsOf(good, g))
  {}

  /** The memory holds the good array, and headers that differ from the good ones in their checksums at most. */
  ghost predicate RepairPending(crc: Crc, r: Regions, l: Memory) {
    && GoodRegions(crc, r) && l.Sized() && l.table == r.entries && l.backup == r.backup
        && SameButCrcs(r.primary, l.primary)
  }

  /** So the repair writes exactly what the good disk holds. */
  lemma RepairIsGood(crc: Crc, r: Regions, l: Memory)
    requires RepairPending(crc, r, l)
    ensures NewPrimary(crc, l) == r.primary && NewBackup(crc, l) == r.backup
    ensures NothingToDo(crc, l) <==> HeaderCrc(l.primary) == HeaderCrc(r.primary)
  {
    OldHeadersAgain(crc, r, l.primary);
  }

  lemma TornSame(t: seq<byte>, cut: nat)
    requires cut <= |t|
    ensures Torn(t, t, cut) == t
  {}

  /** Wherever the repair stops, the disk still holds the good table. */
  lemma RepairStops(crc: Crc, good: seq<byte>, disk: seq<byte>, blockSize: nat, k: nat, cut: nat)
    requires HoldsOld(crc, good, disk, blockSize) && StopsInUpdate(Loaded(good, blockSize), k, cut)
    ensures Loadable(disk, blockSize) && IsGptHeader(Region(disk, blockSize, HEADER_SIZE))
    ensures InBounds(Writes(crc, blockSize, Loaded(disk, blockSize)), |disk|)
    ensures HoldsOld(crc, good, Stopped(disk, Writes(crc, blockSize, Loaded(disk, blockSize)), k, cut), blockSize)
  {
    OldLoads(crc, good, disk, blockSize);
    var l, g := Loaded(disk, blockSize), GeometryOf(blockSize, Loaded(good, blockSize));
    var r, s := RegionsOf(good, g), RegionsOf(disk, g);
    if !NothingToDo(crc, l) {
      RepairIsGood(crc, r, l);
      hide GoodDisk, Loaded, Loadable, NewPrimary, NewBackup, NothingToDo, IsCopy, RegionsOf, Stopped, GptDisk.InBounds,
           Torn;
      StoppedAt(crc, disk, g, l, k, cut);
      RepairRegions(crc, r, l, s, k, cut);
    }
  }

  lemma RepairRegions(crc: Crc, r: Regions, l: Memory, s: Regions, k: nat, cut: nat)
    requires RepairPending(crc, r, l) && s == r.(primary := l.primary) && StopsInUpdate(l, k, cut)
    ensures |s.primary| == |s.backup| == HEADER_SIZE && |s.entries| == |s.backupEntries| == |l.table|
    ensures var e := StoppedRegions(crc, s, l, k, cut);
            e == r.(primary := e.primary) && SameButCrcs(r.primary, e.primary)
  {
    RepairIsGood(crc, r, l);
    SelfSame(r.primary);
    hide NewPrimary, NewBackup, IsCopy;
    if k == 0 {
      SameButCrcsSymmetric(r.primary, l.primary);
      TornHeader(l.primary, r.primary, cut);
      SameButCrcsTransitive(r.primary, l.primary, Torn(r.primary, l.primary, cut));
    } else if k < 3 {
      TornSame(r.entries, cut);
    } else if k == 3 {
      TornSame(r.backup, cut);
    }
  }

  // ----- Any number of interrupted repairs

  /** How far an object's writes get: k whole writes and cut bytes of the next. */
  datatype Stop = Stop(k: nat, cut: nat)

  ghost predicate AllStop(m: Memory, stops: seq<Stop>) {
    forall s :: s in stops ==> StopsInUpdate(m, s.k, s.cut)
  }

  /** The disk after one object after the other has loaded it and has been cut off at these stops while destroyed. */
  ghost function Attempted(crc: Crc, good: seq<byte>, disk: seq<byte>, blockSize: nat, stops: seq<Stop>): (r: seq<byte>)
    requires HoldsOld(crc, good, disk, blockSize) && AllStop(Loaded(good, blockSize), stops)
    ensures HoldsOld(crc, good, r, blockSize)
    decreases |stops|
  {
    if stops == [] then disk
    else
      RepairStops(crc, good, disk, blockSize, stops[0].k, stops[0].cut);
      Attempted(crc, good, Stopped(disk, Writes(crc, blockSize, Loaded(disk, blockSize)), stops[0].k, stops[0].cut),
          blockSize, stops[1..])
  }

  lemma RecoverOld(crc: Crc, good: seq<byte>, disk: seq<byte>, blockSize: nat)
    requires HoldsOld(crc, good, disk, blockSize)
    ensures var g := GeometryOf(blockSize, Loaded(good, blockSize));
            g.Fits(|disk|) && Recover(crc, disk, g) == Entries(Loaded(good, blockSize).table)
  {
    var g := GeometryOf(blockSize, Loaded(good, blockSize));
    GoodGeometry(crc, good, blockSize);
    LinkedDiskIsGood(crc, good, blockSize, Loaded(good, blockSize));
    hide GoodDisk, Loaded, IsCopy, SameButCrcs;
    RecoverFromRegions(crc, disk, g);
  }

  /** An update is cut off before it changes the array, and then one repair after the other is cut off anywhere:
      a reader that checks both copies finds the old array every time. */
  lemma RepairsKeepTable(crc: Crc, disk: seq<byte>, blockSize: nat, m: Memory, k: nat, cut: nat, stops: seq<Stop>)
    requires Linked(crc, disk, blockSize, m) && !NothingToDo(crc, m) && StopsInUpdate(m, k, cut)
    requires LeavesOld(crc, disk, blockSize, m, k, cut)
    ensures AllStop(m, stops) ==>
              && InBounds(Writes(crc, blockSize, m), |disk|)
              && var g, after := GeometryOf(blockSize, m), Stopped(disk, Writes(crc, blockSize, m), k, cut);
                 && HoldsOld(crc, disk, after, blockSize) && AllStop(Loaded(disk, blockSize), stops)
                 && g.Fits(|disk|)
                 && Recover(crc, Attempted(crc, disk, after, blockSize, stops), g)
                     == Entries(Region(disk, g.entries, g.length))
  {
    LinkedDiskIsGood(crc, disk, blockSize, m);
    hide Linked, NothingToDo, LeavesOld, HoldsOld, GoodDisk, Loaded, Writes, Stopped, GptDisk.InBounds, GeometryOf;
    StopHoldsOld(crc, disk, blockSize, m, k, cut);
    if AllStop(m, stops) {
      SameStops(m, Loaded(disk, blockSize), stops);
      var after := Stopped(disk, Writes(crc, blockSize, m), k, cut);
      RecoverOld(crc, disk, Attempted(crc, disk, after, blockSize, stops), blockSize);
    }
  }

  lemma SameStops(m: Memory, l: Memory, stops: seq<Stop>)
    requires |m.table| == |l.table| && AllStop(m, stops)
    ensures AllStop(l, stops)
  {}

  // ----- A repair that is not interrupted

  /** The header left on the disk does not show the old header checksum beside another entries checksum. */
  ghost predicate Noticed(crc: Crc, good: seq<byte>, disk: seq<byte>, blockSize: nat)
    requires HoldsOld(crc, good, disk, blockSize)
  {
    var g := GeometryOf(blockSize, Loaded(good, blockSize));
    var was, h := RegionsOf(good, g).primary, RegionsOf(disk, g).primary;
    HeaderCrc(h) == HeaderCrc(was) ==> EntriesCrc(h) == EntriesCrc(was)
  }

  /** The exact condition under which the next object that is loaded and destroyed brings back two good copies; then the
      table is what it was, and otherwise nothing is written, by this object or any later one without an edit. */
  lemma RepairedIff(crc: Crc, good: seq<byte>, disk: seq<byte>, blockSize: nat)
    requires HoldsOld(crc, good, disk, blockSize)
    ensures Loadable(disk, blockSize) && IsGptHeader(Region(disk, blockSize, HEADER_SIZE))
    ensures InBounds(Writes(crc, blockSize, Loaded(disk, blockSize)), |disk|)
    ensures var g, end := GeometryOf(blockSize, Loaded(good, blockSize)), Reloaded(crc, disk, blockSize);
            && g.Fits(|end|)
            && (BothGood(crc, end, g) <==> Noticed(crc, good, disk, blockSize))
            && (Noticed(crc, good, disk, blockSize) ==> RegionsOf(end, g) == RegionsOf(good, g))
            && (!Noticed(crc, good, disk, blockSize)
                ==> Writes(crc, blockSize, Loaded(disk, blockSize)) == [] && end == disk)
  {
    OldLoads(crc, good, disk, blockSize);
    GoodGeometry(crc, good, blockSize);
    var l, g := Loaded(disk, blockSize), GeometryOf(blockSize, Loaded(good, blockSize));
    var r := RegionsOf(good, g);
    RepairIsGood(crc, r, l);
    NoWritesNoChange(disk);
    OldHeaderIff(crc, r, l);
    hide GoodDisk, Loaded, Loadable, NewPrimary, NewBackup, RegionsOf, Stopped, GptDisk.InBounds, IsCopy,
         StoppedRegions, SameButCrcs;
    if !NothingToDo(crc, l) {
      StoppedAt(crc, disk, g, l, 4, 0);
      EndOfUpdate(crc, RegionsOf(disk, g), l);
    }
    GoodFromRegions(crc, Reloaded(crc, disk, blockSize), g);
  }

  lemma OldHeaderIff(crc: Crc, r: Regions, l: Memory)
    requires RepairPending(crc, r, l)
    ensures HeaderCrc(l.primary) == HeaderCrc(r.primary) ==>
              (EntriesCrc(l.primary) == EntriesCrc(r.primary) <==> l.primary == r.primary)
    ensures IsCopy(crc, l.primary, r.entries) ==> l.primary == r.primary
  {
    HeaderParts(l.primary);
    HeaderParts(r.primary);
    if IsCopy(crc, l.primary, r.entries) {
      SealedUnique(crc, r.primary, l.primary);
    }
  }

  /** So a disk that is repaired is in good order for the next object. */
  lemma RepairedIsGood(crc: Crc, good: seq<byte>, disk: seq<byte>, blockSize: nat)
    requires HoldsOld(crc, good, disk, blockSize) && Noticed(crc, good, disk, blockSize)
    ensures Loadable(disk, blockSize) && IsGptHeader(Region(disk, blockSize, HEADER_SIZE))
    ensures InBounds(Writes(crc, blockSize, Loaded(disk, blockSize)), |disk|)
    ensures GoodDisk(crc, Reloaded(crc, disk, blockSize), blockSize)
  {
    var m := Loaded(good, blockSize);
    RepairedIff(crc, good, disk, blockSize);
    GoodGeometry(crc, good, blockSize);
    var end := Reloaded(crc, disk, blockSize);
    LinkedDiskIsGood(crc, good, blockSize, m);
    assert RegionsOf(end, GeometryOf(blockSize, m)) == Regions(m.primary, m.table, m.table, m.backup);
    LinkedFromRegions(crc, end, blockSize, m);
    LinkedDiskIsGood(crc, end, blockSize, m);
  }

  /** A header whose repair stops between its two checksums shows the old one beside the new one. */
  lemma TornBetweenCrcs(was: seq<byte>, now: seq<byte>)
    requires |was| == |now| == HEADER_SIZE
    ensures HeaderCrc(Torn(was, now, ENTRIES_CRC)) == HeaderCrc(was)
    ensures EntriesCrc(Torn(was, now, ENTRIES_CRC)) == EntriesCrc(now)
    ensures Torn(now, was, HEADER_SIZE) == now
  {}

  lemma AttemptedOnce(crc: Crc, good: seq<byte>, disk: seq<byte>, blockSize: nat, s: Stop)
    requires HoldsOld(crc, good, disk, blockSize) && StopsInUpdate(Loaded(good, blockSize), s.k, s.cut)
    ensures AllStop(Loaded(good, blockSize), [s])
    ensures Loadable(disk, blockSize) && IsGptHeader(Region(disk, blockSize, HEADER_SIZE))
    ensures InBounds(Writes(crc, blockSize, Loaded(disk, blockSize)), |disk|)
    ensures Attempted(crc, good, disk, blockSize, [s])
        == Stopped(disk, Writes(crc, blockSize, Loaded(disk, blockSize)), s.k, s.cut)
  {
    RepairStops(crc, good, disk, blockSize, s.k, s.cut);
    hide HoldsOld, Loaded, Writes, Stopped;
    assert [s][1..] == [];
  }

  /** The new primary header is on the disk, whole, and the array is the old one. */
  lemma FirstStop(crc: Crc, disk: seq<byte>, blockSize: nat, m: Memory)
    requires Linked(crc, disk, blockSize, m) && !NothingToDo(crc, m)
    ensures LeavesOld(crc, disk, blockSize, m, 0, HEADER_SIZE) && InBounds(Writes(crc, blockSize, m), |disk|)
    ensures var g, first := GeometryOf(blockSize, m), Stopped(disk, Writes(crc, blockSize, m), 0, HEADER_SIZE);
            && HoldsOld(crc, disk, first, blockSize) && GeometryOf(blockSize, Loaded(disk, blockSize)) == g
            && RegionsOf(first, g).primary == NewPrimary(crc, m)
  {
    LinkedDiskIsGood(crc, disk, blockSize, m);
    LoadAtStop(crc, disk, blockSize, m, 0, HEADER_SIZE);
    TornBetweenCrcs(RegionsOf(disk, GeometryOf(blockSize, m)).primary, NewPrimary(crc, m));
    hide NewPrimary, Stopped, Loaded, GoodDisk;
    StopHoldsOld(crc, disk, blockSize, m, 0, HEADER_SIZE);
  }

  lemma SecondStop(crc: Crc, good: seq<byte>, disk: seq<byte>, blockSize: nat)
    requires HoldsOld(crc, good, disk, blockSize)
    requires var g := GeometryOf(blockSize, Loaded(good, blockSize));
             HeaderCrc(RegionsOf(disk, g).primary) != HeaderCrc(RegionsOf(good, g).primary)
    ensures Loadable(disk, blockSize) && IsGptHeader(Region(disk, blockSize, HEADER_SIZE))
    ensures InBounds(Writes(crc, blockSize, Loaded(disk, blockSize)), |disk|)
    ensures var g := GeometryOf(blockSize, Loaded(good, blockSize));
            var second := Stopped(disk, Writes(crc, blockSize, Loaded(disk, blockSize)), 0, ENTRIES_CRC);
            RegionsOf(second, g).primary == Torn(RegionsOf(good, g).primary, RegionsOf(disk, g).primary, ENTRIES_CRC)
  {
    OldLoads(crc, good, disk, blockSize);
    var l, g := Loaded(disk, blockSize), GeometryOf(blockSize, Loaded(good, blockSize));
    RepairIsGood(crc, RegionsOf(good, g), l);
    hide GoodDisk, Loaded, Loadable, NewPrimary, NewBackup, NothingToDo, IsCopy, RegionsOf, Stopped, GptDisk.InBounds,
         Torn;
    StoppedAt(crc, disk, g, l, 0, ENTRIES_CRC);
  }

  /** The family in which it fails: the whole new primary header is written, and its repair stops between the two
      checksums. Whatever the checksum function, the update and the disk, the primary copy stays bad from then on. */
  lemma SecondStopIsFinal(crc: Crc, disk: seq<byte>, blockSize: nat, m: Memory)
    requires Linked(crc, disk, blockSize, m) && !NothingToDo(crc, m)
    ensures LeavesOld(crc, disk, blockSize, m, 0, HEADER_SIZE) && InBounds(Writes(crc, blockSize, m), |disk|)
    ensures var first := Stopped(disk, Writes(crc, blockSize, m), 0, HEADER_SIZE);
            && HoldsOld(crc, disk, first, blockSize) && AllStop(Loaded(disk, blockSize), [Stop(0, ENTRIES_CRC)])
            && var second := Attempted(crc, disk, first, blockSize, [Stop(0, ENTRIES_CRC)]);
               !Noticed(crc, disk, second, blockSize)
  {
    var g := GeometryOf(blockSize, m);
    var r := RegionsOf(disk, g);
    FirstStop(crc, disk, blockSize, m);
    ChecksumsDiffer(crc, disk, blockSize, m);
    WordsEqual(crc(r.entries), crc(m.table));
    NewHeaderLaws(crc, m.primary, m.table);
    PendingFromLinked(crc, disk, blockSize, m);
    var first := Stopped(disk, Writes(crc, blockSize, m), 0, HEADER_SIZE);
    hide Linked, Stopped, Loaded, NewPrimary, Writes, GoodDisk, RegionsOf, GptDisk.InBounds, Attempted, LeavesOld,
         HoldsOld;
    AttemptedOnce(crc, disk, first, blockSize, Stop(0, ENTRIES_CRC));
    SecondStop(crc, disk, first, blockSize);
    TornBetweenCrcs(r.primary, RegionsOf(first, g).primary);
  }

  // ----- Crashes that the next objects make up for

  /** The update is cut off, the objects loaded after it are cut off in turn, and then one is not. */
  ghost predicate Survivable(crc: Crc, disk: seq<byte>, blockSize: nat, m: Memory, k: nat, cut: nat, again: seq<Stop>)
    requires Linked(crc, disk, blockSize, m) && !NothingToDo(crc, m) && StopsInUpdate(m, k, cut)
  {
    if again == [] then Repairable(crc, disk, blockSize, m, k, cut)
    else
      && LeavesOld(crc, disk, blockSize, m, k, cut) && AllStop(m, again)
      && (StopHoldsOld(crc, disk, blockSize, m, k, cut);
          LinkedDiskIsGood(crc, disk, blockSize, m);
          SameStops(m, Loaded(disk, blockSize), again);
          Noticed(crc, disk, Attempted(crc, disk, Stopped(disk, Writes(crc, blockSize, m), k, cut), blockSize, again),
              blockSize))
  }

  ghost function Survived(crc: Crc, disk: seq<byte>, blockSize: nat, m: Memory, k: nat, cut: nat,
      again: seq<Stop>): (r: seq<byte>)
    requires Linked(crc, disk, blockSize, m) && !NothingToDo(crc, m) && StopsInUpdate(m, k, cut)
    requires Survivable(crc, disk, blockSize, m, k, cut, again)
    ensures GoodDisk(crc, r, blockSize)
  {
    if again == [] then
      ReloadedIsGood(crc, disk, blockSize, m, k, cut);
      Reloaded(crc, Stopped(disk, Writes(crc, blockSize, m), k, cut), blockSize)
    else
      StopHoldsOld(crc, disk, blockSize, m, k, cut);
      LinkedDiskIsGood(crc, disk, blockSize, m);
      SameStops(m, Loaded(disk, blockSize), again);
      var before := Attempted(crc, disk, Stopped(disk, Writes(crc, blockSize, m), k, cut), blockSize, again);
      RepairedIsGood(crc, disk, before, blockSize);
      Reloaded(crc, before, blockSize)
  }
}
