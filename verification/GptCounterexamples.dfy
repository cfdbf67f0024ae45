/** Inputs at which a table update goes wrong: stops that leave neither array, stops that no reload repairs, and a
    checksum that misses an edit. */
module GptCounterexamples {
  import opened Bytes
  import opened GptDisk
  import opened GptSync
  import opened GptLoad
  import Slots
  import SlotBackends
  import opened Preconditions

  // ----- An edit the checksum notices

  /** A header with the entries checksum of this array. */
  ghost predicate HeaderFor(crc: Crc, table: seq<byte>, h: seq<byte>) {
    |h| == HEADER_SIZE && EntriesCrc(h) == crc(table).Bytes()
  }

  /** The checksum tells headers for the one array from headers for the other. */
  ghost predicate TellsApart(crc: Crc, was: seq<byte>, now: seq<byte>) {
    forall a, b :: HeaderFor(crc, was, a) && HeaderFor(crc, now, b) ==> crc(a) != crc(b)
  }

  /** Then there is something to write. */
  lemma ToldApart(crc: Crc, disk: seq<byte>, blockSize: nat, now: seq<byte>)
    requires GoodDisk(crc, disk, blockSize)
    requires |now| == |Loaded(disk, blockSize).table| && TellsApart(crc, Loaded(disk, blockSize).table, now)
    ensures var m := Loaded(disk, blockSize).(table := now);
            Linked(crc, disk, blockSize, m)
                && GeometryOf(blockSize, m) == GeometryOf(blockSize, Loaded(disk, blockSize))
            && !NothingToDo(crc, m)
  {
    var l := Loaded(disk, blockSize);
    LoadLinks(crc, disk, blockSize);
    LoadedIsCopy(crc, disk, blockSize);
    EditKeepsLinked(crc, disk, blockSize, l, now);
    NewHeaderLaws(crc, l.primary, now);
    UnsealedKeepsEntries(l.primary);
    UnsealedKeepsEntries(Seal(crc, WithEntriesCrc(l.primary, crc(now))));
    var a, b := Unsealed(l.primary), Unsealed(Seal(crc, WithEntriesCrc(l.primary, crc(now))));
    WordsEqual(crc(a), crc(b));
    hide Loaded, GoodDisk, Linked, Unsealed, Seal, WithEntriesCrc, Loadable, IsGptHeader;
    assert HeaderFor(crc, l.table, a) && HeaderFor(crc, now, b);
    assert crc(a) != crc(b);
  }

  lemma UnsealedKeepsEntries(h: seq<byte>)
    requires |h| == HEADER_SIZE
    ensures EntriesCrc(Unsealed(h)) == EntriesCrc(h)
  {
    WithHeaderCrcLaws(h, Word(0, 0, 0, 0));
  }

  lemma LoadedIsCopy(crc: Crc, disk: seq<byte>, blockSize: nat)
    requires GoodDisk(crc, disk, blockSize)
    ensures IsCopy(crc, Loaded(disk, blockSize).primary, Loaded(disk, blockSize).table)
  {
    LinkedDiskIsGood(crc, disk, blockSize, Loaded(disk, blockSize));
  }

  // ----- A mixture that is neither array

  /** Looks at the first byte, and at the first byte of a header's entries checksum. */
  function FirstBytes(): Crc {
    s => if |s| > ENTRIES_CRC then Word(s[0], s[ENTRIES_CRC], 0, 0) else Word(0, 0, 0, 0)
  }

  /** Another array, changed in its first two bytes. */
  function OtherStart(t: seq<byte>): (r: seq<byte>)
    requires |t| >= 2
    ensures |r| == |t| && r[0] != t[0] && r[1] != t[1] && r[2..] == t[2..]
  {
    [if t[0] == 0 then 1 else 0, if t[1] == 0 then 1 else 0] + t[2..]
  }

  lemma FirstBytesTell(was: seq<byte>, now: seq<byte>)
    requires |was| == |now| > ENTRIES_CRC && was[0] != now[0]
    ensures TellsApart(FirstBytes(), was, now)
  {
    var crc := FirstBytes();
    forall a, b | HeaderFor(crc, was, a) && HeaderFor(crc, now, b)
      ensures crc(a) != crc(b)
    {
      assert EntriesCrc(a)[0] == a[ENTRIES_CRC] == was[0] && EntriesCrc(b)[0] == b[ENTRIES_CRC] == now[0];
    }
  }

  /** On every disk in good order with an entry there is an update that leaves neither array when it stops after the
      first byte of the second write: the byte is enough to satisfy the new checksum. */
  lemma MixtureIsNeither(disk: seq<byte>, blockSize: nat) returns (m: Memory)
    requires GoodDisk(FirstBytes(), disk, blockSize) && EntryCount(Loaded(disk, blockSize).primary) > 0
    ensures Linked(FirstBytes(), disk, blockSize, m) && !NothingToDo(FirstBytes(), m) && StopsInUpdate(m, 1, 1)
    ensures var g, crc := GeometryOf(blockSize, m), FirstBytes();
            && InBounds(Writes(crc, blockSize, m), |disk|)
            && var found := Recover(crc, Stopped(disk, Writes(crc, blockSize, m), 1, 1), g);
               found != Entries(Region(disk, g.entries, |m.table|)) && found != Entries(m.table)
  {
    var crc, l := FirstBytes(), Loaded(disk, blockSize);
    var was, now := l.table, OtherStart(l.table);
    m := l.(table := now);
    FirstBytesTell(was, now);
    ToldApart(crc, disk, blockSize, now);
    LinkedDiskIsGood(crc, disk, blockSize, l);
    assert crc(Torn(now, was, 1)) == crc(now) && Torn(now, was, 1)[1] != now[1];
    hide FirstBytes, Loaded, GoodDisk, Linked, NothingToDo, Writes, Stopped, Recover, Torn, OtherStart,
         GptDisk.InBounds;
    CrashSafeIff(crc, disk, blockSize, m, 1, 1);
  }

  // ----- A stop that no reload repairs

  /** Every update, under every checksum, stopped between the two arrays: the backup copy stays behind. */
  lemma BackupStaysBehind(crc: Crc, disk: seq<byte>, blockSize: nat, m: Memory)
    requires Linked(crc, disk, blockSize, m) && !NothingToDo(crc, m)
    ensures StopsInUpdate(m, 2, 0) && !Repairable(crc, disk, blockSize, m, 2, 0)
  {
    ChecksumsDiffer(crc, disk, blockSize, m);
    EndAtStop(crc, disk, blockSize, m, 2, 0);
    hide Linked, NothingToDo, NewPrimary, NewBackup;
  }

  // ----- An edit the checksum misses

  function Constant(): Crc {
    s => Word(0, 0, 0, 0)
  }

  lemma ConstantMissesAll(m: Memory)
    requires m.Sized() && IsSealed(Constant(), m.primary)
    ensures NothingToDo(Constant(), m)
  {
    SealSeals(Constant(), WithEntriesCrc(m.primary, Constant()(m.table)));
  }

  /** On every disk under the constant checksum there is a slot change that is lost: the disk stays as it is. */
  lemma EditIsLost(env: Slots.Env, disk: seq<byte>, blockSize: nat) returns (c: Slots.Call)
    requires env.Valid() && SlotBackends.BootDisk(Constant(), disk, blockSize)
    ensures !SlotBackends.EditDetected(Constant(), env, disk, blockSize, c)
    ensures SlotBackends.GptEffect(Constant(), env, disk, blockSize, c) == disk
    ensures Slots.Effect(env, SlotBackends.DiskMachine(Constant(), disk, blockSize), c)
         != SlotBackends.DiskMachine(Constant(), disk, blockSize)
  {
    var crc := Constant();
    hide Constant, SlotBackends.BootDisk, SlotBackends.GptEffect, SlotBackends.GptEdit, SlotBackends.EntriesOf, Loaded,
         IsSealed, NothingToDo, SlotBackends.GptMachine, Linked;
    var was := SlotBackends.DiskMachine(crc, disk, blockSize);
    BootDiskIsGood(crc, disk, blockSize);
    LoadLinks(crc, disk, blockSize);
    c := if was.a.active then Slots.SetActiveBootSlot(1, true) else Slots.SetActiveBootSlot(0, true);
    SlotBackends.GptEditRefines(env, Loaded(disk, blockSize).table, SlotBackends.EntriesOf(crc, disk, blockSize), c);
    LoadedIsSealed(crc, disk, blockSize);
    hide GoodDisk;
    ConstantMissesAll(SlotBackends.Edited(crc, env, disk, blockSize, c));
    SlotBackends.EditStoredIffDetected(crc, env, disk, blockSize, c);
  }

  lemma BootDiskIsGood(crc: Crc, disk: seq<byte>, blockSize: nat)
    requires SlotBackends.BootDisk(crc, disk, blockSize)
    ensures GoodDisk(crc, disk, blockSize)
  {}

  lemma LoadedIsSealed(crc: Crc, disk: seq<byte>, blockSize: nat)
    requires GoodDisk(crc, disk, blockSize)
    ensures IsSealed(crc, Loaded(disk, blockSize).primary)
  {
    LinkedDiskIsGood(crc, disk, blockSize, Loaded(disk, blockSize));
  }

  /** There is such a disk. */
  lemma LossyDiskExists()
    ensures SlotBackends.BootDisk(Constant(), Formatted(Constant(), 512, BootTable(), 4, 1), 512)
  {
    BootDiskExists(Constant());
  }
}
