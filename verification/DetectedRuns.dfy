/** A checksum and a disk with which every run of slot calls is noticed, so that the agreement of the two slot backends
    is not an empty statement. */
module DetectedRuns {
  import opened Bytes
  import opened Codec
  import opened Slots
  import opened SlotBackends
  import opened Preconditions
  import GptCounterexamples
  import GptDisk
  import opened GptSync
  import opened GptEntries
  import opened GptLoad

  const TABLE: nat := 4 * GptDisk.ENTRY_SIZE

  /** The upper halves of the attributes of entries 0 and 1, and the entries checksum of a header. */
  function FlagBytes(): GptDisk.Crc {
    s => if |s| == GptDisk.HEADER_SIZE then WordAt(s, GptDisk.ENTRIES_CRC)
         else if |s| == TABLE then Word(s[54], s[55], s[182], s[183])
         else Word(0, 0, 0, 0)
  }

  /** The attributes hold nothing below the flags. */
  const FLAGS: nat := 0x1_0000_0000_0000

  predicate OnlyFlags(v: nat) {
    v % FLAGS == 0
  }

  /** Attributes that hold flags only are known from their last two bytes. */
  lemma FlagsOf(s: seq<byte>)
    requires |s| == 8 && OnlyFlags(Value(s))
    ensures Value(s) == FLAGS * Value(s[6..])
  {
    ValueSplit(s, 6);
    ValueBound(s[..6]);
    SixBytes();
    ModUnique(Value(s), FLAGS, Value(s[6..]), Value(s[..6]));
  }

  lemma SixBytes()
    ensures Pow256(6) == FLAGS
  {
    Pow256Values();
    assert Pow256(6) == 256 * Pow256(5) && Pow256(5) == 256 * Pow256(4);
  }

  lemma FlagsStay(v: nat)
    requires OnlyFlags(v)
    ensures OnlyFlags(SetBit(v, SUCCESSFUL)) && OnlyFlags(SetBit(v, UNBOOTABLE)) && OnlyFlags(ClearBit(v, ACTIVE))
        && OnlyFlags(FRESH)
  {
  }

  // ----- One edit

  const AT: BootEntries := BootEntries(0, 1)

  ghost predicate TidyTable(t: seq<byte>) {
    |t| == TABLE && OnlyFlags(Attributes(t, 0)) && OnlyFlags(Attributes(t, 1))
  }

  lemma SameFlags(t: seq<byte>, u: seq<byte>)
    requires TidyTable(t) && TidyTable(u) && FlagBytes()(t) == FlagBytes()(u)
    ensures Attributes(t, 0) == Attributes(u, 0) && Attributes(t, 1) == Attributes(u, 1)
  {
    assert t[48..56][6..] == [t[54], t[55]] && t[176..184][6..] == [t[182], t[183]];
    assert u[48..56][6..] == [u[54], u[55]] && u[176..184][6..] == [u[182], u[183]];
    hide Value;
    FlagsOf(t[48..56]);
    FlagsOf(u[48..56]);
    FlagsOf(t[176..184]);
    FlagsOf(u[176..184]);
  }

  lemma StoreKeepsTidy(t: seq<byte>, i: nat, v: nat)
    requires TidyTable(t) && i < 2 && OnlyFlags(v) && v < WRAP64
    ensures TidyTable(WithAttributes(t, i, v))
  {
    hide WithAttributes, Attributes;
    AttributesLaws(t, i, v, 0);
    AttributesLaws(t, i, v, 1);
  }

  lemma EditKeepsTidy(env: Env, t: seq<byte>, c: Call)
    requires env.Valid() && TidyTable(t)
    ensures TidyTable(GptEdit(env, t, AT, c))
  {
    assert AT.Fit(t);
    AttributesFit(t, 0);
    AttributesFit(t, 1);
    StoresFit(Attributes(t, 0));
    StoresFit(Attributes(t, 1));
    FlagsStay(Attributes(t, 0));
    FlagsStay(Attributes(t, 1));
    hide WithAttributes, Attributes, SetBit, ClearBit, OnlyFlags;
    match c
    case MarkBootSuccessful =>
      if env.slots > 0 {
        StoreKeepsTidy(t, env.current, SetBit(Attributes(t, env.current), SUCCESSFUL));
      }
    case SetActiveBootSlot(slot, _) =>
      if slot < 2 {
        var v := ClearBit(Attributes(t, 1 - slot), ACTIVE);
        StoreKeepsTidy(t, 1 - slot, v);
        StoreKeepsTidy(WithAttributes(t, 1 - slot, v), slot, FRESH);
      }
    case SetSlotAsUnbootable(slot) =>
      if slot < 2 {
        StoreKeepsTidy(t, slot, SetBit(Attributes(t, slot), UNBOOTABLE));
      }
    case _ =>
  }

  /** Outside the attributes of the two entries nothing changes. */
  ghost predicate SameElsewhere(t: seq<byte>, u: seq<byte>) {
    && |t| == |u| == TABLE
    && t[..48] == u[..48] && t[56..176] == u[56..176] && t[184..] == u[184..]
  }

  lemma StoreElsewhere(t: seq<byte>, u: seq<byte>, i: nat, v: nat)
    requires SameElsewhere(t, u) && i < 2
    ensures SameElsewhere(t, WithAttributes(u, i, v))
  {
    var at := GptDisk.ENTRY_SIZE * i + ATTRIBUTES;
    SpliceElsewhere(u, at, Le(v, 8), 0, 48);
    SpliceElsewhere(u, at, Le(v, 8), 56, 176);
    SpliceElsewhere(u, at, Le(v, 8), 184, TABLE);
  }

  lemma EditElsewhere(env: Env, t: seq<byte>, c: Call)
    requires env.Valid() && |t| == TABLE
    ensures SameElsewhere(t, GptEdit(env, t, AT, c))
  {
    hide WithAttributes, Attributes, SetBit, ClearBit;
    match c
    case MarkBootSuccessful =>
      if env.slots > 0 {
        StoreElsewhere(t, t, env.current, SetBit(Attributes(t, env.current), SUCCESSFUL));
      }
    case SetActiveBootSlot(slot, _) =>
      if slot < 2 {
        var v := ClearBit(Attributes(t, 1 - slot), ACTIVE);
        StoreElsewhere(t, t, 1 - slot, v);
        StoreElsewhere(t, WithAttributes(t, 1 - slot, v), slot, FRESH);
      }
    case SetSlotAsUnbootable(slot) =>
      if slot < 2 {
        StoreElsewhere(t, t, slot, SetBit(Attributes(t, slot), UNBOOTABLE));
      }
    case _ =>
  }

  lemma SameAttributesSameTable(t: seq<byte>, u: seq<byte>)
    requires SameElsewhere(t, u) && Attributes(t, 0) == Attributes(u, 0) && Attributes(t, 1) == Attributes(u, 1)
    ensures t == u
  {
    LeOfValue(t[48..56]);
    LeOfValue(u[48..56]);
    LeOfValue(t[176..184]);
    LeOfValue(u[176..184]);
    assert t == t[..48] + t[48..56] + t[56..176] + t[176..184] + t[184..];
    assert u == u[..48] + u[48..56] + u[56..176] + u[176..184] + u[184..];
  }

  /** An edit that changes the table changes its checksum. */
  lemma EditSeen(env: Env, t: seq<byte>, c: Call)
    requires env.Valid() && TidyTable(t) && GptEdit(env, t, AT, c) != t
    ensures GptCounterexamples.TellsApart(FlagBytes(), t, GptEdit(env, t, AT, c))
  {
    var u := GptEdit(env, t, AT, c);
    EditKeepsTidy(env, t, c);
    EditElsewhere(env, t, c);
    if FlagBytes()(t) == FlagBytes()(u) {
      SameFlags(t, u);
      SameAttributesSameTable(t, u);
    }
    HeadersSeen(t, u);
  }

  lemma HeadersSeen(t: seq<byte>, u: seq<byte>)
    requires FlagBytes()(t) != FlagBytes()(u)
    ensures GptCounterexamples.TellsApart(FlagBytes(), t, u)
  {
    var crc := FlagBytes();
    WordsEqual(crc(t), crc(u));
    forall a, b | GptCounterexamples.HeaderFor(crc, t, a) && GptCounterexamples.HeaderFor(crc, u, b)
      ensures crc(a) != crc(b)
    {
      assert WordAt(a, GptDisk.ENTRIES_CRC).Bytes() == GptDisk.EntriesCrc(a);
      assert WordAt(b, GptDisk.ENTRIES_CRC).Bytes() == GptDisk.EntriesCrc(b);
    }
  }

  // ----- Runs

  /** A boot disk whose first two entries are the boot partitions, with nothing but flags in their attributes. */
  ghost predicate Tidy(disk: seq<byte>, blockSize: nat) {
    && BootDisk(FlagBytes(), disk, blockSize)
    && TidyTable(Loaded(disk, blockSize).table) && EntriesOf(FlagBytes(), disk, blockSize) == AT
  }

  lemma CallSeen(env: Env, disk: seq<byte>, blockSize: nat, c: Call)
    requires env.Valid() && Tidy(disk, blockSize)
    ensures EditDetected(FlagBytes(), env, disk, blockSize, c)
  {
    var l := Loaded(disk, blockSize);
    var u := GptEdit(env, l.table, AT, c);
    hide FlagBytes, GptEdit, GoodDisk, Loaded, Loadable, NothingToDo, TidyTable;
    if u != l.table {
      EditSeen(env, l.table, c);
      GptCounterexamples.ToldApart(FlagBytes(), disk, blockSize, u);
    }
  }

  lemma CallKeepsTidy(env: Env, disk: seq<byte>, blockSize: nat, c: Call)
    requires env.Valid() && Tidy(disk, blockSize) && EditDetected(FlagBytes(), env, disk, blockSize, c)
    ensures Tidy(GptEffect(FlagBytes(), env, disk, blockSize, c), blockSize)
  {
    var l := Loaded(disk, blockSize);
    EffectStoresEdit(FlagBytes(), env, disk, blockSize, c);
    GptEffectRefines(FlagBytes(), env, disk, blockSize, c);
    EditKeepsTidy(env, l.table, c);
    EditKeepsNames(env, l.table, GptDisk.EntryCount(l.primary), AT, c, BOOT_A);
    EditKeepsNames(env, l.table, GptDisk.EntryCount(l.primary), AT, c, BOOT_B);
    hide FlagBytes, GptEdit, GoodDisk, Loaded, Loadable, GptEffect, Find, TidyTable, EditDetected;
  }

  /** From a tidy disk on, every call of every run is noticed. */
  lemma {:induction false} TidyRunDetected(env: Env, disk: seq<byte>, blockSize: nat, calls: seq<Call>)
    requires env.Valid() && Tidy(disk, blockSize)
    ensures RunDetected(FlagBytes(), env, disk, blockSize, calls)
    decreases calls
  {
    if calls != [] {
      hide Tidy, FlagBytes, GptEffect, EditDetected;
      CallSeen(env, disk, blockSize, calls[0]);
      CallKeepsTidy(env, disk, blockSize, calls[0]);
      TidyRunDetected(env, GptEffect(FlagBytes(), env, disk, blockSize, calls[0]), blockSize, calls[1..]);
    }
  }

  // ----- The run exists

  lemma BootTableIsTidy()
    ensures TidyTable(BootTable()) && Attributes(BootTable(), 0) == 0 && Attributes(BootTable(), 1) == 0
  {
    BootTableSlices();
    BlankAttributes(BootTable(), 0, BOOT_A);
    BlankAttributes(BootTable(), 1, BOOT_B);
  }

  lemma BlankAttributes(t: seq<byte>, i: nat, name: seq<byte>)
    requires GptDisk.ENTRY_SIZE * i + GptDisk.ENTRY_SIZE <= |t| && |name| <= NAME_UNITS
    requires t[GptDisk.ENTRY_SIZE * i..GptDisk.ENTRY_SIZE * i + GptDisk.ENTRY_SIZE] == NamedEntry(name)
    ensures Attributes(t, i) == 0
  {
    SliceOfSlice(t, GptDisk.ENTRY_SIZE * i, GptDisk.ENTRY_SIZE, ATTRIBUTES, ATTRIBUTES + 8);
    assert NamedEntry(name)[ATTRIBUTES..ATTRIBUTES + 8] == Blank(8);
    ValueOfBlank(8);
  }

  lemma {:induction false} ValueOfBlank(n: nat)
    ensures Value(Blank(n)) == 0
  {
    if n > 0 {
      ValueOfBlank(n - 1);
      assert Blank(n)[1..] == Blank(n - 1);
    }
  }

  /** The last entry of that name is the one expected. */
  lemma BootEntriesAre()
    ensures Find(BootTable(), 4, BOOT_A) == Some(0) && Find(BootTable(), 4, BOOT_B) == Some(1)
  {
    var t := BootTable();
    BootTableEntries();
    BootTableNamesBoth();
    ThirdIsNameless();
    FindFindsLast(t, 4, BOOT_A);
    FindFindsLast(t, 4, BOOT_B);
    var a, b := Find(t, 4, BOOT_A).value, Find(t, 4, BOOT_B).value;
    hide Find, EntryName, IsNamed, BootTable;
    assert IsListed(t, 4, a) && IsListed(t, 4, b);
    assert BOOT_A[5] != BOOT_B[5];
    ListedBefore(t, a);
    ListedBefore(t, b);
  }

  lemma ListedBefore(t: seq<byte>, i: nat)
    requires Holds(t, 4) && IsListed(t, 4, i) && !IsNamed(t, 2)
    ensures i < 2
  {}

  lemma ThirdIsNameless()
    ensures !IsNamed(BootTable(), 2)
  {
    var rest := Blank(2 * GptDisk.ENTRY_SIZE);
    assert BootTable()[2 * GptDisk.ENTRY_SIZE..] == rest;
    SliceOfSlice(BootTable(), 2 * GptDisk.ENTRY_SIZE, 2 * GptDisk.ENTRY_SIZE, NAME, GptDisk.ENTRY_SIZE);
    assert NameField(BootTable(), 2) == rest[NAME..GptDisk.ENTRY_SIZE];
  }

  function FlagDisk(): seq<byte> {
    Formatted(FlagBytes(), 512, BootTable(), 4, 1)
  }

  lemma TidyFrom(disk: seq<byte>, blockSize: nat, t: seq<byte>)
    requires BootDisk(FlagBytes(), disk, blockSize) && Loaded(disk, blockSize).table == t && TidyTable(t)
    requires GptDisk.EntryCount(Loaded(disk, blockSize).primary) == 4
    requires Find(t, 4, BOOT_A) == Some(0) && Find(t, 4, BOOT_B) == Some(1)
    requires Attributes(t, 0) == 0 && Attributes(t, 1) == 0
    ensures Tidy(disk, blockSize)
    ensures DiskMachine(FlagBytes(), disk, blockSize) == Machine(SlotOfAttributes(0), SlotOfAttributes(0))
  {
    hide FlagBytes, GoodDisk, Loaded, Loadable, Find, Attributes, SlotOfAttributes, OnlyFlags;
  }

  lemma FlagDiskIsTidy()
    ensures Tidy(FlagDisk(), 512)
    ensures DiskMachine(FlagBytes(), FlagDisk(), 512) == Machine(SlotOfAttributes(0), SlotOfAttributes(0))
  {
    hide FlagBytes, BootTable, Formatted, BootDisk, GoodDisk, Loaded, Loadable, Find, Attributes, SlotOfAttributes,
         TidyTable, Tidy, DiskMachine;
    BootDiskExists(FlagBytes());
    FormattedIsGood(FlagBytes(), 512, BootTable(), 4, 1);
    BootTableIsTidy();
    BootEntriesAre();
    TidyFrom(FlagDisk(), 512, BootTable());
  }

  lemma BlankSlots()
    ensures DevMachine(Blank(DEVINFO_SIZE)) == Machine(SlotOfAttributes(0), SlotOfAttributes(0))
    ensures SlotOfAttributes(0) == Slot(false, false, false, 0)
  {}

  /** For every sequence of calls: the run over this disk is noticed, a fresh devinfo agrees with the disk, and so both
      backends answer alike; and the calls do change slots. */
  lemma EveryRunIsDetected(env: Env, calls: seq<Call>)
    requires env.Valid()
    ensures var crc, disk, d := FlagBytes(), FlagDisk(), Blank(DEVINFO_SIZE);
            && BootDisk(crc, disk, 512) && RunDetected(crc, env, disk, 512, calls)
            && DevMachine(d) == DiskMachine(crc, disk, 512)
            && DevRun(env, d, calls).0 == GptRun(crc, env, disk, 512, calls).0
            && Effect(env, DevMachine(d), Call.SetActiveBootSlot(0, true)) != DevMachine(d)
  {
    hide FlagDisk, FlagBytes, BootDisk, DiskMachine, DevMachine, RunDetected, SlotOfAttributes, DevRun, GptRun;
    BlankSlots();
    FlagDiskIsTidy();
    TidyRunDetected(env, FlagDisk(), 512, calls);
    BackendsAgree(FlagBytes(), env, Blank(DEVINFO_SIZE), FlagDisk(), 512, calls);
  }
}
