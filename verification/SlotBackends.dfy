/** The slot operations over their two backends, devinfo and GPT attributes, and why both are the same machine
    (pixel-source/bootctrl/1.2/BootControl.cpp, lines 86-178, 290-364 and 408-510). */
module SlotBackends {
  import opened Bytes
  import opened Slots
  import opened Codec
  import GptDisk
  import opened GptSync
  import opened GptEntries
  import opened GptLoad
  import opened GptRuns

  // ----- devinfo

  function SlotData(slot: nat): nat {
    AB_DATA + 4 * slot
  }

  /** isDevInfoValid: the magic number, and version 3.3 or later. */
  predicate SupportsSlots(d: seq<byte>)
    requires |d| == DEVINFO_SIZE
  {
    Value(d[0..4]) == 0x49564544 && Value(d[4..6]) * 0x1_0000 + Value(d[6..8]) >= 0x0003_0003
  }

  function DevSlot(d: seq<byte>, slot: nat): Slot
    requires |d| == DEVINFO_SIZE && slot < 2
  {
    SlotOfDevInfo(d[SlotData(slot)], d[SlotData(slot) + 1])
  }

  function DevMachine(d: seq<byte>): Machine
    requires |d| == DEVINFO_SIZE
  {
    Machine(DevSlot(d, 0), DevSlot(d, 1))
  }

  function PutFlag(d: seq<byte>, slot: nat, bit: nat, on: bool): (r: seq<byte>)
    requires |d| == DEVINFO_SIZE && slot < 2
    requires bit == 1 || bit == 2 || bit == 4 || bit == 8
    ensures |r| == |d|
  {
    d[SlotData(slot) + 1 := Put(d[SlotData(slot) + 1], bit, on)]
  }

  function InitSlot(d: seq<byte>, slot: nat): (r: seq<byte>)
    requires |d| == DEVINFO_SIZE && slot < 2
    ensures |r| == |d|
  {
    d[SlotData(slot) := MAX_RETRY][SlotData(slot) + 1 := InitFlags(d[SlotData(slot) + 1])]
  }

  /** Where a slot stands in devinfo: the retry count, then a byte with the bits unbootable, successful and active. */
  lemma DevSlotBytes(d: seq<byte>, slot: nat)
    requires |d| == DEVINFO_SIZE == 128 && slot < 2
    ensures var s, at := DevSlot(d, slot), 48 + 4 * slot;
            && s.retry == d[at] && (s.unbootable <==> d[at + 1] % 2 == 1)
            && (s.successful <==> d[at + 1] / 2 % 2 == 1) && (s.active <==> d[at + 1] / 4 % 2 == 1)
    ensures var e, at := InitSlot(d, slot), 48 + 4 * slot;
            && e[at] == 3 && e[at + 1] % 16 == 4 && e[at + 1] / 16 == d[at + 1] / 16
            && forall i :: 0 <= i < 128 && i != at && i != at + 1 ==> e[i] == d[i]
  {
    InitClearsOthers(d[48 + 4 * slot + 1]);
    InitFlagsIs(d[48 + 4 * slot + 1]);
    hide InitFlags;
  }

  /** devinfo is used if it starts with "DEVI" and its version is 3.3 or later. */
  lemma SupportsSlotsIff(d: seq<byte>)
    requires |d| == DEVINFO_SIZE
    ensures SupportsSlots(d) <==>
              && d[0] == 'D' as int && d[1] == 'E' as int && d[2] == 'V' as int && d[3] == 'I' as int
              && var major, minor := LeField(d, 4, 2), LeField(d, 6, 2);
                 major > 3 || (major == 3 && minor >= 3)
  {
    var magic := d[0..4];
    Pow256Values();
    ValueBound(d[6..8]);
    var devi := ['D' as int, 'E' as int, 'V' as int, 'I' as int];
    assert Value(devi) == 0x49564544 by {
      assert devi[1..][1..][1..] == [0x49] && devi[1..][1..] == [0x56, 0x49] && devi[1..] == [0x45, 0x56, 0x49];
      assert Value([]) == 0;
      assert Value([0x49]) == 0x49;
      assert Value([0x56, 0x49]) == 0x4956;
      assert Value([0x45, 0x56, 0x49]) == 0x495645;
    }
    LeOfValue(magic);
    LeOfValue(devi);
    hide Value, Le;
    assert Value(magic) == 0x49564544 <==> magic == devi;
  }

  function DevEffect(env: Env, d: seq<byte>, c: Call): (r: seq<byte>)
    requires env.Valid() && |d| == DEVINFO_SIZE
    ensures |r| == |d|
  {
    match c
    case MarkBootSuccessful => if env.slots == 0 then d else PutFlag(d, env.current, DEV_SUCCESSFUL, true)
    case SetActiveBootSlot(slot, _) =>
      if slot >= 2 then d else InitSlot(PutFlag(d, 1 - slot, DEV_ACTIVE, false), slot)
    case SetSlotAsUnbootable(slot) => if slot >= 2 then d else PutFlag(d, slot, DEV_UNBOOTABLE, true)
    case _ => d
  }

  /** The devinfo path does to the stored slots what the machine does. */
  lemma DevEffectRefines(env: Env, d: seq<byte>, c: Call)
    requires env.Valid() && |d| == DEVINFO_SIZE
    ensures DevMachine(DevEffect(env, d, c)) == Effect(env, DevMachine(d), c)
  {
    hide Put, Bit, InitFlags;
    match c
    case MarkBootSuccessful =>
      FlagChange(d[SlotData(env.current) + 1], DEV_SUCCESSFUL, true);
    case SetActiveBootSlot(slot, _) =>
      if slot < 2 {
        FlagChange(d[SlotData(1 - slot) + 1], DEV_ACTIVE, false);
        InitFlagsIs(d[SlotData(slot) + 1]);
      }
    case SetSlotAsUnbootable(slot) =>
      if slot < 2 {
        FlagChange(d[SlotData(slot) + 1], DEV_UNBOOTABLE, true);
      }
    case _ =>
  }

  lemma FlagChange(flags: byte, bit: nat, on: bool)
    requires bit == 1 || bit == 2 || bit == 4 || bit == 8
    ensures forall retry: byte :: SlotOfDevInfo(retry, Put(flags, bit, on)) ==
              Slot(if bit == DEV_ACTIVE then on else Bit(flags, DEV_ACTIVE),
                   if bit == DEV_SUCCESSFUL then on else Bit(flags, DEV_SUCCESSFUL),
                   if bit == DEV_UNBOOTABLE then on else Bit(flags, DEV_UNBOOTABLE), retry)
  {
    hide Put, Bit;
    PutKeepsOthers(flags, bit, on, DEV_ACTIVE);
    PutKeepsOthers(flags, bit, on, DEV_SUCCESSFUL);
    PutKeepsOthers(flags, bit, on, DEV_UNBOOTABLE);
  }

  /** Nothing outside the two slot records changes, so a valid devinfo stays valid. */
  lemma DevEffectFrame(env: Env, d: seq<byte>, c: Call)
    requires env.Valid() && |d| == DEVINFO_SIZE
    ensures forall k :: 0 <= k < DEVINFO_SIZE && !(AB_DATA <= k < AB_DATA + 8) ==> DevEffect(env, d, c)[k] == d[k]
    ensures SupportsSlots(DevEffect(env, d, c)) == SupportsSlots(d)
  {
    hide Put, InitFlags;
    var e := DevEffect(env, d, c);
    assert e[0..4] == d[0..4] && e[4..6] == d[4..6] && e[6..8] == d[6..8];
  }

  // ----- GPT attributes

  const BOOT_A: seq<byte> := [0x62, 0x6F, 0x6F, 0x74, 0x5F, 0x61]
  const BOOT_B: seq<byte> := [0x62, 0x6F, 0x6F, 0x74, 0x5F, 0x62]

  lemma BootNames()
    ensures BOOT_A == ['b' as int, 'o' as int, 'o' as int, 't' as int, '_' as int, 'a' as int]
    ensures BOOT_B == ['b' as int, 'o' as int, 'o' as int, 't' as int, '_' as int, 'b' as int]
  {}

  /** The entries that Load finds for the two boot partitions. */
  datatype BootEntries = BootEntries(a: nat, b: nat) {
    function At(slot: nat): nat
      requires slot < 2
    {
      if slot == 0 then a else b
    }

    predicate Fit(table: seq<byte>) {
      a != b && GptDisk.ENTRY_SIZE * a + GptDisk.ENTRY_SIZE <= |table|
          && GptDisk.ENTRY_SIZE * b + GptDisk.ENTRY_SIZE <= |table|
    }
  }

  function GptSlot(table: seq<byte>, at: BootEntries, slot: nat): Slot
    requires at.Fit(table) && slot < 2
  {
    SlotOfAttributes(Attributes(table, at.At(slot)))
  }

  function GptMachine(table: seq<byte>, at: BootEntries): Machine
    requires at.Fit(table)
  {
    Machine(GptSlot(table, at, 0), GptSlot(table, at, 1))
  }

  /** The edits of the entry array. */
  function GptEdit(env: Env, table: seq<byte>, at: BootEntries, c: Call): (r: seq<byte>)
    requires env.Valid() && at.Fit(table)
    ensures |r| == |table|
  {
    match c
    case MarkBootSuccessful =>
      if env.slots == 0 then table
      else WithAttributes(table, at.At(env.current), SetBit(Attributes(table, at.At(env.current)), SUCCESSFUL))
    case SetActiveBootSlot(slot, _) =>
      if slot >= 2 then table
      else
        var cleared := WithAttributes(table, at.At(1 - slot), ClearBit(Attributes(table, at.At(1 - slot)), ACTIVE));
        WithAttributes(cleared, at.At(slot), FRESH)
    case SetSlotAsUnbootable(slot) =>
      if slot >= 2 then table
      else WithAttributes(table, at.At(slot), SetBit(Attributes(table, at.At(slot)), UNBOOTABLE))
    case _ => table
  }

  lemma AttributesFit(table: seq<byte>, i: nat)
    requires GptDisk.ENTRY_SIZE * i + GptDisk.ENTRY_SIZE <= |table|
    ensures Attributes(table, i) < WRAP64
  {
    var at := GptDisk.ENTRY_SIZE * i + ATTRIBUTES;
    ValueBound(table[at..at + 8]);
    Pow256Values();
  }

  lemma StoreChangesOneSlot(table: seq<byte>, at: BootEntries, slot: nat, v: nat)
    requires at.Fit(table) && slot < 2 && v < WRAP64
    ensures at.Fit(WithAttributes(table, at.At(slot), v))
    ensures GptMachine(WithAttributes(table, at.At(slot), v), at)
        == GptMachine(table, at).With(slot, SlotOfAttributes(v))
  {
    hide WithAttributes, Attributes, SlotOfAttributes;
    AttributesLaws(table, at.At(slot), v, at.At(0));
    AttributesLaws(table, at.At(slot), v, at.At(1));
  }

  /** The GPT path does to the stored slots what the machine does. */
  lemma GptEditRefines(env: Env, table: seq<byte>, at: BootEntries, c: Call)
    requires env.Valid() && at.Fit(table)
    ensures GptMachine(GptEdit(env, table, at, c), at) == Effect(env, GptMachine(table, at), c)
  {
    hide WithAttributes, Attributes, SlotOfAttributes, SetBit, ClearBit;
    match c
    case MarkBootSuccessful =>
      var v := Attributes(table, at.At(env.current));
      AttributesFit(table, at.At(env.current));
      StoresFit(v);
      SetSuccessful(v);
      StoreChangesOneSlot(table, at, env.current, SetBit(v, SUCCESSFUL));
    case SetActiveBootSlot(slot, _) =>
      if slot < 2 {
        var v := Attributes(table, at.At(1 - slot));
        AttributesFit(table, at.At(1 - slot));
        StoresFit(v);
        ClearActive(v);
        FreshAttributes();
        StoreChangesOneSlot(table, at, 1 - slot, ClearBit(v, ACTIVE));
        StoreChangesOneSlot(WithAttributes(table, at.At(1 - slot), ClearBit(v, ACTIVE)), at, slot, FRESH);
      }
    case SetSlotAsUnbootable(slot) =>
      if slot < 2 {
        var v := Attributes(table, at.At(slot));
        AttributesFit(table, at.At(slot));
        StoresFit(v);
        SetUnbootable(v);
        StoreChangesOneSlot(table, at, slot, SetBit(v, UNBOOTABLE));
      }
    case _ =>
  }

  /** The entries of a table are 128 bytes apart, and their attributes are the eight bytes from 48 on. */
  lemma AttributesAre(table: seq<byte>, i: nat)
    requires 128 * i + 128 <= |table|
    ensures Attributes(table, i) == LeField(table, 128 * i + 48, 8)
  {}

  /** setActiveBootSlot, bit by bit: the active entry gets priority 3, three retries and the active bit, and no other;
      the inactive one loses its active bit and keeps every other; nothing else in the array changes. */
  lemma ActivatedBits(m: Memory, active: nat, inactive: nat, k: nat)
    requires active != inactive && 128 * active + 128 <= |m.table| && 128 * inactive + 128 <= |m.table|
    ensures var t := Activated(m, active, inactive).table;
            && LeField(t, 128 * active + 48, 8) == 0x01F0_0000_0000_0000
            && LeField(t, 128 * active + 48, 8) / Pow2(52) % 4 == 3
            && (Bit(LeField(t, 128 * inactive + 48, 8), Pow2(k)) <==>
                  k != 54 && Bit(LeField(m.table, 128 * inactive + 48, 8), Pow2(k)))
  {
    var v := Attributes(m.table, inactive);
    var cleared := WithAttributes(m.table, inactive, ClearBit(v, ACTIVE));
    AttributesFit(m.table, inactive);
    StoresFit(v);
    FreshFields();
    FlagWeights();
    BitsAfterStore(v, 54, k);
    AttributesAre(m.table, inactive);
    AttributesAre(Activated(m, active, inactive).table, active);
    AttributesAre(Activated(m, active, inactive).table, inactive);
    hide WithAttributes, Attributes, ClearBit, Bit, LeField;
    AttributesLaws(m.table, inactive, ClearBit(v, ACTIVE), inactive);
    AttributesLaws(cleared, active, FRESH, active);
    AttributesLaws(cleared, active, FRESH, inactive);
  }

  lemma ActivatedElsewhere(m: Memory, active: nat, inactive: nat, i: nat)
    requires 128 * active + 128 <= |m.table| && 128 * inactive + 128 <= |m.table| && i < |m.table|
    requires !(128 * active + 48 <= i < 128 * active + 56) && !(128 * inactive + 48 <= i < 128 * inactive + 56)
    ensures Activated(m, active, inactive).table[i] == m.table[i]
  {}

  /** The edits of a call: those of setActiveBootSlot, or one flag set with every other bit kept. */
  lemma EditBits(env: Env, m: Memory, at: BootEntries, c: Call, k: nat)
    requires env.Valid() && at.Fit(m.table)
    ensures var t := GptEdit(env, m.table, at, c);
            match c
            case SetActiveBootSlot(slot, _) =>
              t == if slot < 2 then Activated(m, at.At(slot), at.At(1 - slot)).table else m.table
            case MarkBootSuccessful => env.slots == 0 ==> t == m.table
            case SetSlotAsUnbootable(slot) => slot >= 2 ==> t == m.table
            case _ => t == m.table
    ensures c.MarkBootSuccessful? && env.slots > 0 ==>
              FlagSet(m.table, GptEdit(env, m.table, at, c), at.At(env.current), at.At(1 - env.current), 58, k)
    ensures c.SetSlotAsUnbootable? && c.slot < 2 ==>
              FlagSet(m.table, GptEdit(env, m.table, at, c), at.At(c.slot), at.At(1 - c.slot), 59, k)
  {
    hide WithAttributes, Attributes, SetBit, ClearBit, FlagSet;
    if c.MarkBootSuccessful? && env.slots > 0 {
      OneFlagSet(m.table, at.At(env.current), at.At(1 - env.current), 58, k);
    } else if c.SetSlotAsUnbootable? && c.slot < 2 {
      OneFlagSet(m.table, at.At(c.slot), at.At(1 - c.slot), 59, k);
    }
  }

  /** From one array to the other, bit flag of one entry's attributes is set, and bit k of them, like the attributes of
      another entry, stays as it was. */
  ghost predicate FlagSet(was: seq<byte>, now: seq<byte>, i: nat, other: nat, flag: nat, k: nat)
    requires 128 * i + 128 <= |was| == |now| && 128 * other + 128 <= |was|
  {
    && (Bit(LeField(now, 128 * i + 48, 8), Pow2(k)) <==> k == flag || Bit(LeField(was, 128 * i + 48, 8), Pow2(k)))
    && LeField(now, 128 * other + 48, 8) == LeField(was, 128 * other + 48, 8)
  }

  lemma OneFlagSet(t: seq<byte>, i: nat, other: nat, flag: nat, k: nat)
    requires 128 * i + 128 <= |t| && 128 * other + 128 <= |t| && i != other && (flag == 58 || flag == 59)
    ensures var v := Attributes(t, i);
            && (flag == 58 ==> FlagSet(t, WithAttributes(t, i, SetBit(v, SUCCESSFUL)), i, other, flag, k))
            && (flag == 59 ==> FlagSet(t, WithAttributes(t, i, SetBit(v, UNBOOTABLE)), i, other, flag, k))
  {
    var v := Attributes(t, i);
    var w := SetBit(v, if flag == 58 then SUCCESSFUL else UNBOOTABLE);
    AttributesFit(t, i);
    StoresFit(v);
    FlagWeights();
    BitsAfterStore(v, flag, k);
    var now := WithAttributes(t, i, w);
    AttributesAre(t, i);
    AttributesAre(t, other);
    AttributesAre(now, i);
    AttributesAre(now, other);
    hide WithAttributes, Attributes, SetBit, Bit, LeField;
    AttributesLaws(t, i, w, i);
    AttributesLaws(t, i, w, other);
  }

  // ----- The GPT backend on a disk

  /** A good disk whose table names both boot partitions. */
  ghost predicate BootDisk(crc: GptDisk.Crc, disk: seq<byte>, blockSize: nat) {
    && GoodDisk(crc, disk, blockSize)
    && var m := Loaded(disk, blockSize);
       var n := GptDisk.EntryCount(m.primary);
       && Holds(m.table, n) && Find(m.table, n, BOOT_A).Some? && Find(m.table, n, BOOT_B).Some?
  }

  ghost function EntriesOf(crc: GptDisk.Crc, disk: seq<byte>, blockSize: nat): (at: BootEntries)
    requires BootDisk(crc, disk, blockSize)
    ensures at.Fit(Loaded(disk, blockSize).table)
  {
    var m := Loaded(disk, blockSize);
    var n := GptDisk.EntryCount(m.primary);
    FoundInRange(m.table, n, BOOT_A);
    FoundInRange(m.table, n, BOOT_B);
    BootEntries(Find(m.table, n, BOOT_A).value, Find(m.table, n, BOOT_B).value)
  }

  /** What a fresh object holds after Load: the header fields keep what stood in their place if the header is
      not valid. */
  function Opened(disk: seq<byte>, blockSize: nat, fields: Memory): (m: Memory)
    requires Loadable(disk, blockSize) && fields.Sized()
    ensures m.Sized()
  {
    var h := GptDisk.Region(disk, blockSize, GptDisk.HEADER_SIZE);
    if GptDisk.IsGptHeader(h) then Loaded(disk, blockSize) else Memory(h, fields.backup, fields.table)
  }

  /** The entry found for one boot partition: none if the disk does not load or the table does not name it. */
  function EntryFor(disk: seq<byte>, blockSize: nat, slot: nat): (r: Option<nat>)
    requires Loadable(disk, blockSize) && slot < 2
    ensures r.Some? ==>
              && GptDisk.IsGptHeader(GptDisk.Region(disk, blockSize, GptDisk.HEADER_SIZE))
              && GptDisk.ENTRY_SIZE * r.value + GptDisk.ENTRY_SIZE <= |Loaded(disk, blockSize).table|
  {
    if !GptDisk.IsGptHeader(GptDisk.Region(disk, blockSize, GptDisk.HEADER_SIZE)) then None
    else
      var m := Loaded(disk, blockSize);
      var n := GptDisk.EntryCount(m.primary);
      var name := if slot == 0 then BOOT_A else BOOT_B;
      var r := Find(m.table, n, name);
      if r.Some? then
        FoundInRange(m.table, n, name);
        r
      else None
  }

  /** On any disk that loads, the entry of a slot is the last one named "boot_a" or "boot_b" before the first without a
      name. */
  lemma EntryForIs(disk: seq<byte>, blockSize: nat, slot: nat, i: nat)
    requires Loadable(disk, blockSize) && slot < 2
    requires GptDisk.IsGptHeader(GptDisk.Region(disk, blockSize, GptDisk.HEADER_SIZE))
    ensures var m := Loaded(disk, blockSize);
            var n := GptDisk.EntryCount(m.primary);
            EntryFor(disk, blockSize, slot) == Some(i) <==>
              IsLastNamed(m.table, n, if slot == 0 then BOOT_A else BOOT_B, i)
  {
    var m := Loaded(disk, blockSize);
    var n := GptDisk.EntryCount(m.primary);
    var name := if slot == 0 then BOOT_A else BOOT_B;
    FindFindsLast(m.table, n, name);
    hide EntryName, Loaded, Loadable, GptDisk.IsGptHeader, Find, GptDisk.EntryCount;
    var found := Find(m.table, n, name);
    if IsLastNamed(m.table, n, name, i) && found.Some? {
      OneLastNamed(m.table, n, name, i, found.value);
    }
  }

  lemma OneLastNamed(table: seq<byte>, n: nat, name: seq<byte>, i: nat, j: nat)
    requires Holds(table, n) && IsLastNamed(table, n, name, i) && IsLastNamed(table, n, name, j)
    ensures i == j
  {
    hide EntryName, IsListed;
  }

  lemma EntriesAreFound(crc: GptDisk.Crc, disk: seq<byte>, blockSize: nat)
    requires GoodDisk(crc, disk, blockSize)
    ensures BootDisk(crc, disk, blockSize) <==> EntryFor(disk, blockSize, 0).Some? && EntryFor(disk, blockSize, 1).Some?
    ensures BootDisk(crc, disk, blockSize) ==>
              forall slot: nat :: slot < 2
                  ==> EntryFor(disk, blockSize, slot) == Some(EntriesOf(crc, disk, blockSize).At(slot))
  {}

  /** The memory when the attributes of one slot have been given a flag; unchanged if the slot has no entry. */
  function Flagged(disk: seq<byte>, blockSize: nat, fields: Memory, slot: nat, flag: nat): (m: Memory)
    requires Loadable(disk, blockSize) && fields.Sized() && slot < 2 && flag > 0
    ensures m.Sized()
  {
    match EntryFor(disk, blockSize, slot)
    case None => Opened(disk, blockSize, fields)
    case Some(i) =>
      var l := Loaded(disk, blockSize);
      l.(table := WithAttributes(l.table, i, SetBit(Attributes(l.table, i), flag)))
  }

  /** The memory after the two edits of setActiveBootSlot. */
  function Activated(m: Memory, active: nat, inactive: nat): (r: Memory)
    requires GptDisk.ENTRY_SIZE * active + GptDisk.ENTRY_SIZE <= |m.table|
    requires GptDisk.ENTRY_SIZE * inactive + GptDisk.ENTRY_SIZE <= |m.table|
    ensures r.primary == m.primary && r.backup == m.backup && |r.table| == |m.table|
  {
    var cleared := WithAttributes(m.table, inactive, ClearBit(Attributes(m.table, inactive), ACTIVE));
    m.(table := WithAttributes(cleared, active, FRESH))
  }

  /** The memory that setActiveBootSlot leaves: unchanged if an entry is missing. */
  function Switched(disk: seq<byte>, blockSize: nat, fields: Memory, slot: nat): (m: Memory)
    requires Loadable(disk, blockSize) && fields.Sized() && slot < 2
    ensures m.Sized()
  {
    var a, b := EntryFor(disk, blockSize, slot), EntryFor(disk, blockSize, 1 - slot);
    if a.Some? && b.Some? then Activated(Loaded(disk, blockSize), a.value, b.value) else Opened(disk, blockSize, fields)
  }

  ghost function DiskMachine(crc: GptDisk.Crc, disk: seq<byte>, blockSize: nat): Machine
    requires BootDisk(crc, disk, blockSize)
  {
    GptMachine(Loaded(disk, blockSize).table, EntriesOf(crc, disk, blockSize))
  }

  /** The memory of the object when the edits are made. */
  ghost function Edited(crc: GptDisk.Crc, env: Env, disk: seq<byte>, blockSize: nat, c: Call): (m: Memory)
    requires env.Valid() && BootDisk(crc, disk, blockSize)
    ensures Linked(crc, disk, blockSize, m)
  {
    var m := Loaded(disk, blockSize);
    var table := GptEdit(env, m.table, EntriesOf(crc, disk, blockSize), c);
    EditKeepsLinked(crc, disk, blockSize, m, table);
    m.(table := table)
  }

  /** The disk after load, edit, sync and destroy. */
  ghost function GptEffect(crc: GptDisk.Crc, env: Env, disk: seq<byte>, blockSize: nat, c: Call): seq<byte>
    requires env.Valid() && BootDisk(crc, disk, blockSize)
  {
    Synced(crc, disk, blockSize, Edited(crc, env, disk, blockSize, c))
  }

  /** The checksum of the header tells the edited table from the one on the disk. */
  ghost predicate EditDetected(crc: GptDisk.Crc, env: Env, disk: seq<byte>, blockSize: nat, c: Call)
    requires env.Valid() && BootDisk(crc, disk, blockSize)
  {
    var m := Edited(crc, env, disk, blockSize, c);
    m.table == Loaded(disk, blockSize).table || !NothingToDo(crc, m)
  }

  lemma EditKeepsNames(env: Env, table: seq<byte>, n: nat, at: BootEntries, c: Call, name: seq<byte>)
    requires env.Valid() && at.Fit(table) && Holds(table, n)
    ensures Find(GptEdit(env, table, at, c), n, name) == Find(table, n, name)
  {
    hide WithAttributes, Attributes, Find, SetBit, ClearBit;
    match c
    case MarkBootSuccessful =>
      var v := Attributes(table, at.At(env.current));
      AttributesFit(table, at.At(env.current));
      StoresFit(v);
      FindAfterStore(table, n, at.At(env.current), SetBit(v, SUCCESSFUL), name);
    case SetActiveBootSlot(slot, _) =>
      if slot < 2 {
        var v := Attributes(table, at.At(1 - slot));
        AttributesFit(table, at.At(1 - slot));
        StoresFit(v);
        FindAfterStore(table, n, at.At(1 - slot), ClearBit(v, ACTIVE), name);
        FindAfterStore(WithAttributes(table, at.At(1 - slot), ClearBit(v, ACTIVE)), n, at.At(slot), FRESH, name);
      }
    case SetSlotAsUnbootable(slot) =>
      if slot < 2 {
        var v := Attributes(table, at.At(slot));
        AttributesFit(table, at.At(slot));
        StoresFit(v);
        FindAfterStore(table, n, at.At(slot), SetBit(v, UNBOOTABLE), name);
      }
    case _ =>
  }

  /** After an uninterrupted call the disk holds the edited table, if the checksum noticed the edit. */
  lemma EffectStoresEdit(crc: GptDisk.Crc, env: Env, disk: seq<byte>, blockSize: nat, c: Call)
    requires env.Valid() && BootDisk(crc, disk, blockSize) && EditDetected(crc, env, disk, blockSize, c)
    ensures var after := GptEffect(crc, env, disk, blockSize, c);
            && GoodDisk(crc, after, blockSize)
            && Loaded(after, blockSize).table == Edited(crc, env, disk, blockSize, c).table
            && GptDisk.EntryCount(Loaded(after, blockSize).primary)
                == GptDisk.EntryCount(Loaded(disk, blockSize).primary)
  {
    var m := Edited(crc, env, disk, blockSize, c);
    LinkedDiskIsGood(crc, disk, blockSize, Loaded(disk, blockSize));
    SyncStoresTable(crc, disk, blockSize, Loaded(disk, blockSize), m);
  }

  /** Exactly when the checksum misses the edit, the call leaves the disk as it was and the edit is lost. */
  lemma EditStoredIffDetected(crc: GptDisk.Crc, env: Env, disk: seq<byte>, blockSize: nat, c: Call)
    requires env.Valid() && BootDisk(crc, disk, blockSize)
    ensures var after := GptEffect(crc, env, disk, blockSize, c);
            && GoodDisk(crc, after, blockSize)
            && (Loaded(after, blockSize).table == Edited(crc, env, disk, blockSize, c).table
                <==> EditDetected(crc, env, disk, blockSize, c))
            && (!EditDetected(crc, env, disk, blockSize, c) ==> after == disk)
  {
    if EditDetected(crc, env, disk, blockSize, c) {
      EffectStoresEdit(crc, env, disk, blockSize, c);
    } else {
      assert Writes(crc, blockSize, Edited(crc, env, disk, blockSize, c)) == [];
    }
  }

  lemma SyncStoresTable(crc: GptDisk.Crc, disk: seq<byte>, blockSize: nat, l: Memory, m: Memory)
    requires Linked(crc, disk, blockSize, m) && GoodDisk(crc, disk, blockSize) && l == Loaded(disk, blockSize)
    requires m == l.(table := m.table) && |m.table| == |l.table|
    requires m.table == l.table || !NothingToDo(crc, m)
    ensures var after := Synced(crc, disk, blockSize, m);
            && GoodDisk(crc, after, blockSize)
            && Loaded(after, blockSize).table == m.table
            && GptDisk.EntryCount(Loaded(after, blockSize).primary) == GptDisk.EntryCount(l.primary)
  {
    var after := Synced(crc, disk, blockSize, m);
    SyncKeepsDiskGood(crc, disk, blockSize, m);
    SyncedInvariant(crc, disk, blockSize, m);
    LinkedDiskIsGood(crc, disk, blockSize, l);
    NewHeaderLaws(crc, m.primary, m.table);
    var r := Recomputed(crc, m);
    assert GptDisk.SameButCrcs(l.primary, r.primary) && r.table == m.table && m.Sized();
    assert after == GptDisk.Perform(disk, Writes(crc, blockSize, m));
    hide Linked, GoodDisk, Synced, Recomputed, Loaded, Loadable, Writes, GptDisk.Perform, GptDisk.Region,
         GptDisk.InBounds, NothingToDo, GeometryOf, GptDisk.SameButCrcs;
    NewMemoryGeometry(crc, blockSize, m);
    LinkedDiskIsGood(crc, after, blockSize, r);
    SameCounts(crc, after, blockSize, r, l);
  }

  lemma SameCounts(crc: GptDisk.Crc, after: seq<byte>, blockSize: nat, m: Memory, l: Memory)
    requires Linked(crc, after, blockSize, m) && GoodDisk(crc, after, blockSize)
    requires l.Sized() && GptDisk.SameButCrcs(l.primary, m.primary)
    ensures GptDisk.EntryCount(Loaded(after, blockSize).primary) == GptDisk.EntryCount(l.primary)
  {
    GptDisk.SameGeometry(l.primary, m.primary);
    GptDisk.SameGeometry(m.primary, GptDisk.Region(after, GeometryOf(blockSize, m).primary, GptDisk.HEADER_SIZE));
  }

  /** One call on the GPT backend is one step of the machine, and the disk is fit for the next call. */
  lemma GptEffectRefines(crc: GptDisk.Crc, env: Env, disk: seq<byte>, blockSize: nat, c: Call)
    requires env.Valid() && BootDisk(crc, disk, blockSize) && EditDetected(crc, env, disk, blockSize, c)
    ensures var after := GptEffect(crc, env, disk, blockSize, c);
            BootDisk(crc, after, blockSize)
            && DiskMachine(crc, after, blockSize) == Effect(env, DiskMachine(crc, disk, blockSize), c)
  {
    var l, at := Loaded(disk, blockSize), EntriesOf(crc, disk, blockSize);
    EffectStoresEdit(crc, env, disk, blockSize, c);
    EditKeepsNames(env, l.table, GptDisk.EntryCount(l.primary), at, c, BOOT_A);
    EditKeepsNames(env, l.table, GptDisk.EntryCount(l.primary), at, c, BOOT_B);
    GptEditRefines(env, l.table, at, c);
    hide GoodDisk, GptEffect, GptEdit, Loaded, Loadable, Find, GptMachine, Effect;
  }

  // ----- Runs of calls

  /** The answers and the final state of the slot machine over a list of calls. */
  function MachineRun(env: Env, m: Machine, calls: seq<Call>): (r: (seq<Answer>, Machine))
    requires env.Valid()
    decreases calls
  {
    if calls == [] then ([], m)
    else
      var (answers, end) := MachineRun(env, Effect(env, m, calls[0]), calls[1..]);
      ([Reply(env, m, calls[0])] + answers, end)
  }

  /** The same over devinfo; an answer is read from the stored bits. */
  function DevRun(env: Env, d: seq<byte>, calls: seq<Call>): (r: (seq<Answer>, seq<byte>))
    requires env.Valid() && |d| == DEVINFO_SIZE
    ensures |r.1| == DEVINFO_SIZE
    decreases calls
  {
    if calls == [] then ([], d)
    else
      var (answers, end) := DevRun(env, DevEffect(env, d, calls[0]), calls[1..]);
      ([Reply(env, DevMachine(d), calls[0])] + answers, end)
  }

  /** Along the run, the checksum notices every edit. */
  ghost predicate RunDetected(crc: GptDisk.Crc, env: Env, disk: seq<byte>, blockSize: nat, calls: seq<Call>)
    requires env.Valid() && BootDisk(crc, disk, blockSize)
    decreases calls
  {
    calls == []
    || (EditDetected(crc, env, disk, blockSize, calls[0])
        && (GptEffectRefines(crc, env, disk, blockSize, calls[0]);
            RunDetected(crc, env, GptEffect(crc, env, disk, blockSize, calls[0]), blockSize, calls[1..])))
  }

  /** The same over a GPT disk. */
  ghost function GptRun(crc: GptDisk.Crc, env: Env, disk: seq<byte>, blockSize: nat,
      calls: seq<Call>): (r: (seq<Answer>, seq<byte>))
    requires env.Valid() && BootDisk(crc, disk, blockSize) && RunDetected(crc, env, disk, blockSize, calls)
    ensures BootDisk(crc, r.1, blockSize)
    decreases calls
  {
    if calls == [] then ([], disk)
    else
      GptEffectRefines(crc, env, disk, blockSize, calls[0]);
      var (answers, end) := GptRun(crc, env, GptEffect(crc, env, disk, blockSize, calls[0]), blockSize, calls[1..]);
      ([Reply(env, DiskMachine(crc, disk, blockSize), calls[0])] + answers, end)
  }

  lemma {:induction false} DevRunRefines(env: Env, d: seq<byte>, calls: seq<Call>)
    requires env.Valid() && |d| == DEVINFO_SIZE
    ensures (DevRun(env, d, calls).0, DevMachine(DevRun(env, d, calls).1)) == MachineRun(env, DevMachine(d), calls)
    decreases calls
  {
    hide Effect, DevEffect, Reply, DevMachine;
    if calls != [] {
      DevEffectRefines(env, d, calls[0]);
      DevRunRefines(env, DevEffect(env, d, calls[0]), calls[1..]);
    }
  }

  lemma {:induction false} GptRunRefines(crc: GptDisk.Crc, env: Env, disk: seq<byte>, blockSize: nat, calls: seq<Call>)
    requires env.Valid() && BootDisk(crc, disk, blockSize) && RunDetected(crc, env, disk, blockSize, calls)
    ensures var r := GptRun(crc, env, disk, blockSize, calls);
            (r.0, DiskMachine(crc, r.1, blockSize)) == MachineRun(env, DiskMachine(crc, disk, blockSize), calls)
    decreases calls
  {
    hide Effect, GptEffect, Reply, DiskMachine, BootDisk, EditDetected;
    if calls != [] {
      GptEffectRefines(crc, env, disk, blockSize, calls[0]);
      GptRunRefines(crc, env, GptEffect(crc, env, disk, blockSize, calls[0]), blockSize, calls[1..]);
    }
  }

  /** Starting from slots that agree, both backends give the same answers to every sequence of calls and end with
      slots that agree. */
  lemma BackendsAgree(crc: GptDisk.Crc, env: Env, d: seq<byte>, disk: seq<byte>, blockSize: nat, calls: seq<Call>)
    requires env.Valid() && |d| == DEVINFO_SIZE && BootDisk(crc, disk, blockSize)
    requires RunDetected(crc, env, disk, blockSize, calls)
    requires DevMachine(d) == DiskMachine(crc, disk, blockSize)
    ensures DevRun(env, d, calls).0 == GptRun(crc, env, disk, blockSize, calls).0
    ensures DevMachine(DevRun(env, d, calls).1)
        == DiskMachine(crc, GptRun(crc, env, disk, blockSize, calls).1, blockSize)
  {
    hide DevMachine, DiskMachine, BootDisk, RunDetected;
    DevRunRefines(env, d, calls);
    GptRunRefines(crc, env, disk, blockSize, calls);
  }

  predicate OneActive(m: Machine) {
    m.a.active != m.b.active
  }

  /** Exactly one slot is active from the first setActiveBootSlot on, whatever the slots were before and whatever
      calls follow. */
  lemma {:induction false} RunKeepsOneActive(env: Env, m: Machine, calls: seq<Call>)
    requires env.Valid()
    requires OneActive(m) || exists i :: 0 <= i < |calls| && calls[i].SetActiveBootSlot? && calls[i].slot < 2
    ensures OneActive(MachineRun(env, m, calls).1)
    decreases calls
  {
    if calls != [] {
      var c, next := calls[0], Effect(env, m, calls[0]);
      if !OneActive(m) && !(c.SetActiveBootSlot? && c.slot < 2) {
        var i :| 0 <= i < |calls| && calls[i].SetActiveBootSlot? && calls[i].slot < 2;
        assert calls[1..][i - 1] == calls[i];
      }
      RunKeepsOneActive(env, next, calls[1..]);
    }
  }
}
