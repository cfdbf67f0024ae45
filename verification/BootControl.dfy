/** The slot operations as methods over the devinfo buffer and the block device
    (pixel-source/bootctrl/1.2/BootControl.cpp, lines 86-178, 290-364, 408-477 and 503-510). */
module BootControl {
  import opened Bytes
  import opened Slots
  import opened Codec
  import GptDisk
  import opened GptSync
  import opened GptEntries
  import opened GptLoad
  import opened GptUtils
  import opened GptRuns
  import opened SlotBackends

  // ----- One object from Load to its destructor

  /** Load on a fresh object, whose header fields hold whatever stood in their place. */
  method OpenTable(crc: GptDisk.Crc, device: BlockDevice, blockSize: nat, fields: Memory)
      returns (gpt: GptUtils, ok: bool)
    requires Loadable(device.bytes, blockSize) && fields.Sized() && fields.table == []
    ensures fresh(gpt) && gpt.crc == crc && gpt.device == device && gpt.blockSize == blockSize && gpt.open
    ensures gpt.memory == Opened(device.bytes, blockSize, fields)
    ensures ok == GptDisk.IsGptHeader(GptDisk.Region(device.bytes, blockSize, GptDisk.HEADER_SIZE))
    ensures ok ==> gpt.Indexed()
    ensures !ok ==> gpt.entries == map[]
  {
    gpt := new GptUtils(crc, device, blockSize, fields);
    ok := gpt.Load();
  }

  method FindSlot(gpt: GptUtils, slot: nat, ghost disk: seq<byte>, ghost fields: Memory) returns (entry: Option<nat>)
    requires slot < 2 && Loadable(disk, gpt.blockSize) && fields.Sized()
    requires gpt.memory == Opened(disk, gpt.blockSize, fields)
    requires if GptDisk.IsGptHeader(GptDisk.Region(disk, gpt.blockSize, GptDisk.HEADER_SIZE)) then gpt.Indexed()
        else gpt.entries == map[]
    ensures entry == EntryFor(disk, gpt.blockSize, slot)
  {
    entry := gpt.GetPartitionEntry(if slot == 0 then BOOT_A else BOOT_B);
  }

  /** Load, and the entries of a slot and of the other one. */
  method OpenBoth(crc: GptDisk.Crc, device: BlockDevice, blockSize: nat, fields: Memory, slot: nat)
    returns (gpt: GptUtils, own: Option<nat>, other: Option<nat>)
    requires Loadable(device.bytes, blockSize) && fields.Sized() && fields.table == [] && slot < 2
    ensures fresh(gpt) && gpt.crc == crc && gpt.device == device && gpt.blockSize == blockSize && gpt.open
    ensures gpt.memory == Opened(device.bytes, blockSize, fields)
    ensures own == EntryFor(device.bytes, blockSize, slot) && other == EntryFor(device.bytes, blockSize, 1 - slot)
  {
    var loaded;
    gpt, loaded := OpenTable(crc, device, blockSize, fields);
    hide EntryFor, Opened;
    own := FindSlot(gpt, slot, device.bytes, fields);
    other := FindSlot(gpt, 1 - slot, device.bytes, fields);
  }

  /** The two edits of setActiveBootSlot. */
  method StoreBoth(gpt: GptUtils, active: nat, inactive: nat)
    requires GptDisk.ENTRY_SIZE * active + GptDisk.ENTRY_SIZE <= |gpt.memory.table|
    requires GptDisk.ENTRY_SIZE * inactive + GptDisk.ENTRY_SIZE <= |gpt.memory.table|
    modifies gpt
    ensures gpt.memory == Activated(old(gpt.memory), active, inactive) && gpt.open == old(gpt.open)
  {
    AttributesFit(gpt.memory.table, inactive);
    StoresFit(Attributes(gpt.memory.table, inactive));
    hide WithAttributes, Attributes, ClearBit, Holds, NameMap;
    gpt.StoreAttributes(inactive, ClearBit(Attributes(gpt.memory.table, inactive), ACTIVE));
    gpt.StoreAttributes(active, FRESH);
  }

  /** Sync, if asked for, and the destructor: the writes are issued once. */
  method CloseTable(gpt: GptUtils, sync: bool)
    requires gpt.open && gpt.memory.Sized()
    modifies gpt, gpt.device
    ensures var r := Issue(old(gpt.device.bytes), Writes(gpt.crc, gpt.blockSize, old(gpt.memory)),
        old(gpt.device.writesLeft));
            gpt.device.bytes == r.disk && gpt.device.writesLeft == r.left
  {
    ghost var m := gpt.memory;
    hide Writes, NewPrimary;
    if sync {
      var ret := gpt.Sync();
      SecondSyncWritesNothing(gpt.crc, gpt.blockSize, m, gpt.memory);
    }
    gpt.Destroy();
  }

  /** On a disk in good order, with enough writes left, this is an uninterrupted Sync. */
  lemma ClosedIsSynced(crc: GptDisk.Crc, disk: seq<byte>, blockSize: nat, m: Memory, left: nat)
    requires Linked(crc, disk, blockSize, m) && left >= 4
    ensures Issue(disk, Writes(crc, blockSize, m), left).disk == Synced(crc, disk, blockSize, m)
    ensures Issue(disk, Writes(crc, blockSize, m), left).left + 4 >= left
  {
    assert m.Sized();
    AtMostFour(crc, blockSize, m);
    SyncKeepsDiskGood(crc, disk, blockSize, m);
    hide Linked, Writes, GptDisk.Stopped, GptDisk.Perform;
    IssueInBounds(disk, Writes(crc, blockSize, m), left);
    StoppedAfterAll(disk, Writes(crc, blockSize, m), left);
  }

  lemma AtMostFour(crc: GptDisk.Crc, blockSize: nat, m: Memory)
    requires m.Sized()
    ensures |Writes(crc, blockSize, m)| <= 4
  {}

  lemma UneditedSync(crc: GptDisk.Crc, disk: seq<byte>, blockSize: nat)
    requires GoodDisk(crc, disk, blockSize)
    ensures Linked(crc, disk, blockSize, Loaded(disk, blockSize))
    ensures Writes(crc, blockSize, Loaded(disk, blockSize)) == []
    ensures Synced(crc, disk, blockSize, Loaded(disk, blockSize)) == disk
  {
    UneditedSyncWritesNothing(crc, disk, blockSize);
  }

  /** Calls that are turned down, that have no slots to work on, or that only ask. */
  predicate Idle(env: Env, c: Call) {
    match c
    case MarkBootSuccessful => env.slots == 0
    case SetActiveBootSlot(slot, _) => slot >= 2
    case SetSlotAsUnbootable(slot) => slot >= 2
    case _ => true
  }

  lemma NoEditNoChange(crc: GptDisk.Crc, env: Env, disk: seq<byte>, blockSize: nat, c: Call)
    requires env.Valid() && BootDisk(crc, disk, blockSize)
    requires Idle(env, c)
    ensures GptEffect(crc, env, disk, blockSize, c) == disk
  {
    UneditedSync(crc, disk, blockSize);
    var l := Loaded(disk, blockSize);
    assert l.(table := l.table) == l;
  }

  // ----- The edits are those of the slot machine

  lemma FlagEdit(crc: GptDisk.Crc, env: Env, disk: seq<byte>, blockSize: nat, fields: Memory, c: Call, slot: nat,
      flag: nat)
    requires env.Valid() && BootDisk(crc, disk, blockSize) && fields.Sized() && slot < 2
    requires || (c.MarkBootSuccessful? && env.slots > 0 && slot == env.current && flag == SUCCESSFUL)
             || (c == Call.SetSlotAsUnbootable(slot) && flag == UNBOOTABLE)
    ensures Flagged(disk, blockSize, fields, slot, flag) == Edited(crc, env, disk, blockSize, c)
  {
    EntriesAreFound(crc, disk, blockSize);
    hide WithAttributes, Attributes, SetBit, Find, EntryFor, GoodDisk;
  }

  lemma ActiveEdit(crc: GptDisk.Crc, env: Env, disk: seq<byte>, blockSize: nat, fields: Memory, slot: nat, lunSet: bool)
    requires env.Valid() && BootDisk(crc, disk, blockSize) && fields.Sized() && slot < 2
    ensures Switched(disk, blockSize, fields, slot)
        == Edited(crc, env, disk, blockSize, Call.SetActiveBootSlot(slot, lunSet))
  {
    EntriesAreFound(crc, disk, blockSize);
    hide WithAttributes, Attributes, ClearBit, Find, EntryFor, GoodDisk;
  }

  /** The flag as Load finds it on the disk: unset if the disk does not load or the table does not name the slot. */
  predicate HasFlag(disk: seq<byte>, blockSize: nat, slot: nat, flag: nat)
    requires Loadable(disk, blockSize) && slot < 2 && flag > 0
  {
    var i := EntryFor(disk, blockSize, slot);
    i.Some? && Bit(Attributes(Loaded(disk, blockSize).table, i.value), flag)
  }

  // ----- The class

  class BootControl {
    const env: Env
    const crc: GptDisk.Crc
    const device: BlockDevice
    const blockSize: nat
    const devinfo: array<byte>
    /** What the header fields of a fresh GptUtils hold. */
    const fields: Memory

    constructor (env: Env, crc: GptDisk.Crc, device: BlockDevice, blockSize: nat, devinfo: array<byte>, fields: Memory)
      ensures this.env == env && this.crc == crc && this.device == device && this.blockSize == blockSize
      ensures this.devinfo == devinfo && this.fields == fields
    {
      this.env, this.crc, this.device, this.blockSize := env, crc, device, blockSize;
      this.devinfo, this.fields := devinfo, fields;
    }

    /** devinfo decides which backend is used; what Load reads lies on the device. */
    ghost predicate Usable()
      reads this, device, devinfo
    {
      && env.Valid() && devinfo.Length == DEVINFO_SIZE && fields.Sized() && fields.table == []
      && (SupportsSlots(devinfo[..]) || Loadable(device.bytes, blockSize))
    }

    /** The selected backend stores both slots: on a disk, it is in good order, the table names both boot partitions,
        and enough writes succeed for one update. */
    ghost predicate HasSlots()
      reads this, device, devinfo
      requires Usable()
    {
      SupportsSlots(devinfo[..]) || (BootDisk(crc, device.bytes, blockSize) && device.writesLeft >= 4)
    }

    /** The slots as the selected backend stores them. */
    ghost function Stored(): Machine
      reads this, device, devinfo
      requires Usable() && HasSlots()
    {
      if SupportsSlots(devinfo[..]) then DevMachine(devinfo[..]) else DiskMachine(crc, device.bytes, blockSize)
    }

    /** The selected backend makes the effect of the call, and the other one is not touched. */
    twostate predicate Performs(c: Call)
      reads this, device, devinfo
      requires old(Usable()) && old(HasSlots()) && devinfo.Length == DEVINFO_SIZE
    {
      && device.writesLeft + 4 >= old(device.writesLeft)
      && if old(SupportsSlots(devinfo[..]))
         then devinfo[..] == DevEffect(env, old(devinfo[..]), c) && device.bytes == old(device.bytes)
              && device.writesLeft == old(device.writesLeft)
         else device.bytes == GptEffect(crc, env, old(device.bytes), blockSize, c) && devinfo[..] == old(devinfo[..])
    }

    /** Neither backend is touched. */
    twostate predicate Untouched()
      reads this, device, devinfo
    {
      device.bytes == old(device.bytes) && devinfo[..] == old(devinfo[..])
          && device.writesLeft == old(device.writesLeft)
    }

    /** An object with this memory was synced and destroyed. */
    twostate predicate Closes(m: Memory)
      reads this, device, devinfo
      requires m.Sized()
    {
      var r := Issue(old(device.bytes), Writes(crc, blockSize, m), old(device.writesLeft));
      device.bytes == r.disk && device.writesLeft == r.left && devinfo[..] == old(devinfo[..])
    }

    method PutDevFlag(slot: nat, bit: nat, on: bool)
      requires devinfo.Length == DEVINFO_SIZE && slot < 2
      requires bit == 1 || bit == 2 || bit == 4 || bit == 8
      modifies devinfo
      ensures devinfo[..] == PutFlag(old(devinfo[..]), slot, bit, on)
    {
      hide Put;
      devinfo[SlotData(slot) + 1] := Put(devinfo[SlotData(slot) + 1], bit, on);
    }

    method DevInfoInitSlot(slot: nat)
      requires devinfo.Length == DEVINFO_SIZE && slot < 2
      modifies devinfo
      ensures devinfo[..] == InitSlot(old(devinfo[..]), slot)
    {
      hide Put;
      devinfo[SlotData(slot)] := MAX_RETRY;
      devinfo[SlotData(slot) + 1] := InitFlags(devinfo[SlotData(slot) + 1]);
    }

    /** setSlotFlag, and the GPT path of setSlotAsUnbootable: false exactly when no entry is found. The object is
        destroyed, and so synced, in every case. */
    method SetSlotFlag(slot: nat, flag: nat) returns (ok: bool)
      requires Loadable(device.bytes, blockSize) && fields.Sized() && fields.table == [] && slot < 2
      requires flag == SUCCESSFUL || flag == UNBOOTABLE
      modifies device
      ensures ok == EntryFor(old(device.bytes), blockSize, slot).Some?
      ensures Closes(Flagged(old(device.bytes), blockSize, fields, slot, flag))
    {
      hide EntryFor, Find, Loaded, Loadable, WithAttributes, Attributes, SetBit, Writes, Issue;
      ghost var disk := device.bytes;
      var gpt, loaded := OpenTable(crc, device, blockSize, fields);
      var entry := FindSlot(gpt, slot, disk, fields);
      if entry.None? {
        CloseTable(gpt, false);
        return false;
      }
      var i := entry.value;
      AttributesFit(gpt.memory.table, i);
      StoresFit(Attributes(gpt.memory.table, i));
      gpt.StoreAttributes(i, SetBit(Attributes(gpt.memory.table, i), flag));
      CloseTable(gpt, true);
      ok := true;
    }

    /** isSlotFlagSet: the object is loaded, read and destroyed. A slot without an entry has no flag set. */
    method IsSlotFlagSet(slot: nat, flag: nat) returns (on: bool)
      requires Loadable(device.bytes, blockSize) && fields.Sized() && fields.table == [] && slot < 2 && flag > 0
      modifies device
      ensures on == HasFlag(old(device.bytes), blockSize, slot, flag)
      ensures Closes(Opened(old(device.bytes), blockSize, fields))
    {
      ghost var disk := device.bytes;
      var gpt, loaded := OpenTable(crc, device, blockSize, fields);
      var entry := FindSlot(gpt, slot, disk, fields);
      on := entry.Some? && Bit(Attributes(gpt.memory.table, entry.value), flag);
      hide Attributes, Bit, Loadable, Loaded, Writes, Issue;
      CloseTable(gpt, false);
    }

    /** The GPT path of setActiveBootSlot: it fails exactly when an entry is missing. The destructor writes
        the edits. */
    method ActivateInGpt(slot: nat) returns (ok: bool)
      requires Loadable(device.bytes, blockSize) && fields.Sized() && fields.table == [] && slot < 2
      modifies device
      ensures ok == (EntryFor(old(device.bytes), blockSize, slot).Some?
          && EntryFor(old(device.bytes), blockSize, 1 - slot).Some?)
      ensures Closes(Switched(old(device.bytes), blockSize, fields, slot))
    {
      SwitchedIs(device.bytes, blockSize, fields, slot);
      hide EntryFor, Switched, Opened, Activated, Loadable, Issue, Writes;
      var gpt, active, inactive := OpenBoth(crc, device, blockSize, fields, slot);
      ok := active.Some? && inactive.Some?;
      if ok {
        StoreBoth(gpt, active.value, inactive.value);
      }
      CloseTable(gpt, false);
    }

    /** written tells whether writing devinfo back to its partition works; it is changed in memory in any case. */
    method MarkBootSuccessful(written: bool) returns (answer: Answer)
      requires Usable()
      modifies device, devinfo
      ensures old(HasSlots()) ==> Performs(Call.MarkBootSuccessful)
      ensures old(HasSlots()) && (old(SupportsSlots(devinfo[..])) ==> written) ==>
                answer == Reply(env, old(Stored()), Call.MarkBootSuccessful)
      ensures env.slots == 0 ==> answer == Done(true) && Untouched()
      ensures env.slots > 0 && old(SupportsSlots(devinfo[..])) ==> answer == Done(written)
      ensures env.slots > 0 && !old(SupportsSlots(devinfo[..])) ==>
                && answer == Done(EntryFor(old(device.bytes), blockSize, env.current).Some?)
                && Closes(Flagged(old(device.bytes), blockSize, fields, env.current, SUCCESSFUL))
    {
      hide GoodDisk, Linked, Find, GptEdit, Synced, DiskMachine, DevMachine, Put, InitFlags, NothingToDo;
      ghost var disk, left := device.bytes, device.writesLeft;
      ghost var both := HasSlots();
      if env.slots == 0 {
        if !SupportsSlots(devinfo[..]) && both {
          NoEditNoChange(crc, env, device.bytes, blockSize, Call.MarkBootSuccessful);
        }
        return Done(true);
      }
      var ok := written;
      if SupportsSlots(devinfo[..]) {
        PutDevFlag(env.current, DEV_SUCCESSFUL, true);
      } else {
        if both {
          FlagPerforms(crc, env, disk, blockSize, fields, left, Call.MarkBootSuccessful, env.current, SUCCESSFUL);
        }
        hide BootDisk, Loadable, EntryFor, Flagged, GptEffect, Issue, Writes;
        ok := SetSlotFlag(env.current, SUCCESSFUL);
      }
      answer := Done(ok);
    }

    /** The source takes the entry of the slot without looking whether there is one. */
    method SetSlotAsUnbootable(slot: nat, written: bool) returns (answer: Answer)
      requires Usable()
      requires slot < 2 && !SupportsSlots(devinfo[..]) ==> EntryFor(device.bytes, blockSize, slot).Some?
      modifies device, devinfo
      ensures old(HasSlots()) ==> Performs(Call.SetSlotAsUnbootable(slot))
      ensures old(HasSlots()) && (old(SupportsSlots(devinfo[..])) ==> written) ==>
                answer == Reply(env, old(Stored()), Call.SetSlotAsUnbootable(slot))
      ensures slot >= 2 ==> answer == Done(false) && Untouched()
      ensures slot < 2 && old(SupportsSlots(devinfo[..])) ==> answer == Done(written)
      ensures slot < 2 && !old(SupportsSlots(devinfo[..])) ==>
                answer == Done(true) && Closes(Flagged(old(device.bytes), blockSize, fields, slot, UNBOOTABLE))
    {
      hide GoodDisk, Linked, Find, GptEdit, Synced, DiskMachine, DevMachine, Put, InitFlags, NothingToDo;
      ghost var disk, left := device.bytes, device.writesLeft;
      ghost var both := HasSlots();
      if slot >= 2 {
        if !SupportsSlots(devinfo[..]) && both {
          NoEditNoChange(crc, env, device.bytes, blockSize, Call.SetSlotAsUnbootable(slot));
        }
        return Done(false);
      }
      if SupportsSlots(devinfo[..]) {
        PutDevFlag(slot, DEV_UNBOOTABLE, true);
        return Done(written);
      }
      if both {
        FlagPerforms(crc, env, disk, blockSize, fields, left, Call.SetSlotAsUnbootable(slot), slot, UNBOOTABLE);
      }
      hide BootDisk, Loadable, EntryFor, Flagged, GptEffect, Issue, Writes;
      var ok := SetSlotFlag(slot, UNBOOTABLE);
      answer := Done(true);
    }

    method SetActiveBootSlot(slot: nat, lunSet: bool, written: bool) returns (answer: Answer)
      requires Usable()
      modifies device, devinfo
      ensures old(HasSlots()) ==> Performs(Call.SetActiveBootSlot(slot, lunSet))
      ensures old(HasSlots()) && (old(SupportsSlots(devinfo[..])) ==> written) ==>
                answer == Reply(env, old(Stored()), Call.SetActiveBootSlot(slot, lunSet))
      ensures slot >= 2 ==> answer == Done(false) && Untouched()
      ensures slot < 2 && old(SupportsSlots(devinfo[..])) ==> answer == Done(written && lunSet)
      ensures slot < 2 && !old(SupportsSlots(devinfo[..])) ==>
                && answer == Done(EntryFor(old(device.bytes), blockSize, 0).Some?
                    && EntryFor(old(device.bytes), blockSize, 1).Some? && lunSet)
                && Closes(Switched(old(device.bytes), blockSize, fields, slot))
    {
      hide GoodDisk, Linked, Find, GptEdit, Synced, DiskMachine, DevMachine, Put, InitFlags, NothingToDo;
      ghost var disk, left := device.bytes, device.writesLeft;
      ghost var both := HasSlots();
      if slot >= 2 {
        if !SupportsSlots(devinfo[..]) && both {
          NoEditNoChange(crc, env, device.bytes, blockSize, Call.SetActiveBootSlot(slot, lunSet));
        }
        return Done(false);
      }
      var ok := written;
      if SupportsSlots(devinfo[..]) {
        PutDevFlag(1 - slot, DEV_ACTIVE, false);
        DevInfoInitSlot(slot);
      } else {
        if both {
          ActivePerforms(crc, env, disk, blockSize, fields, left, slot, lunSet);
        }
        hide BootDisk, Loadable, EntryFor, Switched, GptEffect, Issue, Writes;
        ok := ActivateInGpt(slot);
      }
      answer := Done(ok && lunSet);
    }

    method IsSlotBootable(slot: nat) returns (answer: Answer)
      requires Usable()
      modifies device
      ensures old(HasSlots()) ==> answer == Reply(env, old(Stored()), Call.IsSlotBootable(slot)) && Untouched()
      ensures env.slots == 0 ==> answer == No && Untouched()
      ensures 0 < env.slots <= slot ==> answer == InvalidSlot && Untouched()
      ensures slot < env.slots && !old(SupportsSlots(devinfo[..])) ==>
                answer == if HasFlag(old(device.bytes), blockSize, slot, UNBOOTABLE) then No else Yes
      ensures Untouched() || (!old(SupportsSlots(devinfo[..])) && Closes(Opened(old(device.bytes), blockSize, fields)))
    {
      ghost var disk, both := device.bytes, HasSlots();
      if env.slots == 0 {
        return No;
      }
      if slot >= env.slots {
        return InvalidSlot;
      }
      var unbootable;
      if SupportsSlots(devinfo[..]) {
        unbootable := Bit(devinfo[SlotData(slot) + 1], DEV_UNBOOTABLE);
      } else {
        if both {
          QueryIsFree(crc, disk, blockSize, fields, device.writesLeft);
        }
        unbootable := IsSlotFlagSet(slot, UNBOOTABLE);
      }
      answer := if unbootable then No else Yes;
    }

    method IsSlotMarkedSuccessful(slot: nat) returns (answer: Answer)
      requires Usable()
      modifies device
      ensures old(HasSlots()) ==> answer == Reply(env, old(Stored()), Call.IsSlotMarkedSuccessful(slot)) && Untouched()
      ensures env.slots == 0 ==> answer == Yes && Untouched()
      ensures 0 < env.slots <= slot ==> answer == InvalidSlot && Untouched()
      ensures slot < env.slots && !old(SupportsSlots(devinfo[..])) ==>
                answer == if HasFlag(old(device.bytes), blockSize, slot, SUCCESSFUL) then Yes else No
      ensures Untouched() || (!old(SupportsSlots(devinfo[..])) && Closes(Opened(old(device.bytes), blockSize, fields)))
    {
      ghost var disk, both := device.bytes, HasSlots();
      if env.slots == 0 {
        return Yes;
      }
      if slot >= env.slots {
        return InvalidSlot;
      }
      var successful;
      if SupportsSlots(devinfo[..]) {
        successful := Bit(devinfo[SlotData(slot) + 1], DEV_SUCCESSFUL);
      } else {
        if both {
          QueryIsFree(crc, disk, blockSize, fields, device.writesLeft);
        }
        successful := IsSlotFlagSet(slot, SUCCESSFUL);
      }
      answer := if successful then Yes else No;
    }

    method GetActiveBootSlot() returns (answer: Answer)
      requires Usable()
      modifies device
      ensures old(HasSlots()) ==> answer == Reply(env, old(Stored()), Call.GetActiveBootSlot) && Untouched()
      ensures env.slots == 0 ==> answer == SlotNumber(0) && Untouched()
      ensures env.slots > 0 && !old(SupportsSlots(devinfo[..])) ==>
                answer == SlotNumber(if HasFlag(old(device.bytes), blockSize, 1, ACTIVE) then 1 else 0)
      ensures Untouched() || (!old(SupportsSlots(devinfo[..])) && Closes(Opened(old(device.bytes), blockSize, fields)))
    {
      ghost var disk, both := device.bytes, HasSlots();
      if env.slots == 0 {
        return SlotNumber(0);
      }
      var active;
      if SupportsSlots(devinfo[..]) {
        active := Bit(devinfo[SlotData(1) + 1], DEV_ACTIVE);
      } else {
        if both {
          QueryIsFree(crc, disk, blockSize, fields, device.writesLeft);
        }
        active := IsSlotFlagSet(1, ACTIVE);
      }
      answer := SlotNumber(if active then 1 else 0);
    }

    // ----- Sequences of calls

    /** One call, with devinfo written back. */
    method Execute(c: Call) returns (answer: Answer)
      requires Usable() && HasSlots()
      modifies device, devinfo
      ensures Performs(c) && answer == Reply(env, old(Stored()), c)
    {
      ghost var disk := device.bytes;
      match c
      case MarkBootSuccessful => answer := MarkBootSuccessful(true);
      case SetActiveBootSlot(slot, lunSet) => answer := SetActiveBootSlot(slot, lunSet, true);
      case SetSlotAsUnbootable(slot) =>
        SlotsHaveEntries();
        answer := SetSlotAsUnbootable(slot, true);
      case IsSlotBootable(slot) =>
        QueryChangesNothing(c);
        answer := IsSlotBootable(slot);
      case IsSlotMarkedSuccessful(slot) =>
        QueryChangesNothing(c);
        answer := IsSlotMarkedSuccessful(slot);
      case GetActiveBootSlot =>
        QueryChangesNothing(c);
        answer := GetActiveBootSlot();
    }

    lemma SlotsHaveEntries()
      requires Usable() && HasSlots()
      ensures !SupportsSlots(devinfo[..])
          ==> forall slot: nat :: slot < 2 ==> EntryFor(device.bytes, blockSize, slot).Some?
    {
      if !SupportsSlots(devinfo[..]) {
        QueryIsFree(crc, device.bytes, blockSize, fields, device.writesLeft);
      }
    }

    lemma QueryChangesNothing(c: Call)
      requires Usable() && HasSlots() && (c.IsSlotBootable? || c.IsSlotMarkedSuccessful? || c.GetActiveBootSlot?)
      ensures DevEffect(env, devinfo[..], c) == devinfo[..]
      ensures !SupportsSlots(devinfo[..]) ==> GptEffect(crc, env, device.bytes, blockSize, c) == device.bytes
    {
      if !SupportsSlots(devinfo[..]) {
        NoEditNoChange(crc, env, device.bytes, blockSize, c);
      }
    }

    /** Enough for the calls: a GPT backend needs four writes for each, and a checksum that notices the edits. */
    ghost predicate Ready(calls: seq<Call>)
      reads this, device, devinfo
      requires Usable()
    {
      SupportsSlots(devinfo[..])
      || (BootDisk(crc, device.bytes, blockSize) && device.writesLeft >= 4 + 4 * |calls|
          && RunDetected(crc, env, device.bytes, blockSize, calls))
    }

    /** Any sequence of calls gives the answers of the slot machine and leaves its slots stored. */
    method ExecuteAll(calls: seq<Call>) returns (answers: seq<Answer>)
      requires Usable() && Ready(calls)
      modifies device, devinfo
      ensures Usable() && HasSlots()
      ensures (answers, Stored()) == MachineRun(env, old(Stored()), calls)
    {
      hide BootDisk, DiskMachine, DevMachine, RunDetected, Effect, Reply, SupportsSlots, Loadable, GptEffect, DevEffect,
           MachineRun, Prepend;
      answers := [];
      var i := 0;
      ghost var start := Stored();
      assert calls[0..] == calls;
      PrependNone(MachineRun(env, start, calls));
      while i < |calls|
        invariant i <= |calls| && Usable() && Ready(calls[i..])
        invariant MachineRun(env, start, calls) == Prepend(answers, MachineRun(env, Stored(), calls[i..]))
      {
        assert calls[i..][0] == calls[i] && calls[i..][1..] == calls[i + 1..];
        PrependFirst(env, Stored(), calls[i..], answers);
        var answer := ExecuteFirst(calls[i..]);
        answers := answers + [answer];
        i := i + 1;
      }
      assert calls[i..] == [];
      PrependLast(env, Stored(), answers);
    }

    /** The first of some calls is one step of the machine, and the backend is ready for the others. */
    method ExecuteFirst(calls: seq<Call>) returns (answer: Answer)
      requires Usable() && calls != [] && Ready(calls)
      modifies device, devinfo
      ensures Usable() && Ready(calls[1..])
      ensures answer == Reply(env, old(Stored()), calls[0]) && Stored() == Effect(env, old(Stored()), calls[0])
    {
      ghost var d, disk := devinfo[..], device.bytes;
      if SupportsSlots(d) {
        DevEffectRefines(env, d, calls[0]);
        DevEffectFrame(env, d, calls[0]);
      } else {
        GptNext(crc, env, disk, blockSize, calls);
      }
      hide BootDisk, DiskMachine, DevMachine, SupportsSlots, Loadable, GptEffect, DevEffect, RunDetected, Effect, Reply;
      answer := Execute(calls[0]);
    }
  }

  lemma GptNext(crc: GptDisk.Crc, env: Env, disk: seq<byte>, blockSize: nat, calls: seq<Call>)
    requires env.Valid() && BootDisk(crc, disk, blockSize) && calls != []
        && RunDetected(crc, env, disk, blockSize, calls)
    ensures var after := GptEffect(crc, env, disk, blockSize, calls[0]);
            && Loadable(after, blockSize) && BootDisk(crc, after, blockSize)
            && DiskMachine(crc, after, blockSize) == Effect(env, DiskMachine(crc, disk, blockSize), calls[0])
            && RunDetected(crc, env, after, blockSize, calls[1..])
  {
    GptEffectRefines(crc, env, disk, blockSize, calls[0]);
    BootDiskLoads(crc, GptEffect(crc, env, disk, blockSize, calls[0]), blockSize);
    hide BootDisk, DiskMachine, GptEffect, Effect, Loadable, EditDetected;
  }

  /** One system that keeps its slots in devinfo and one that keeps them in GPT attributes, starting from equal slots:
      they give the same answers to the same calls and end with equal slots. */
  method ExecuteOnBoth(dev: BootControl, gpt: BootControl, calls: seq<Call>)
      returns (devAnswers: seq<Answer>, gptAnswers: seq<Answer>)
    requires dev.Usable() && gpt.Usable() && dev.Ready(calls) && gpt.Ready(calls)
    requires SupportsSlots(dev.devinfo[..]) && !SupportsSlots(gpt.devinfo[..])
    requires dev.devinfo != gpt.devinfo && dev.device != gpt.device && dev.env == gpt.env
    requires dev.Stored() == gpt.Stored()
    modifies dev.device, dev.devinfo, gpt.device, gpt.devinfo
    ensures devAnswers == gptAnswers
    ensures dev.Usable() && dev.HasSlots() && gpt.Usable() && gpt.HasSlots() && dev.Stored() == gpt.Stored()
  {
    hide MachineRun, BootDisk, DiskMachine, DevMachine, RunDetected, Loadable;
    devAnswers := dev.ExecuteAll(calls);
    gptAnswers := gpt.ExecuteAll(calls);
  }

  lemma BootDiskLoads(crc: GptDisk.Crc, disk: seq<byte>, blockSize: nat)
    requires BootDisk(crc, disk, blockSize)
    ensures Loadable(disk, blockSize)
  {}

  /** The answers given so far, before those of the rest of a run. */
  function Prepend(answers: seq<Answer>, rest: (seq<Answer>, Machine)): (seq<Answer>, Machine) {
    (answers + rest.0, rest.1)
  }

  lemma PrependNone(rest: (seq<Answer>, Machine))
    ensures Prepend([], rest) == rest
  {
    assert [] + rest.0 == rest.0;
  }

  lemma PrependFirst(env: Env, m: Machine, calls: seq<Call>, answers: seq<Answer>)
    requires env.Valid() && calls != []
    ensures Prepend(answers, MachineRun(env, m, calls)) ==
            Prepend(answers + [Reply(env, m, calls[0])], MachineRun(env, Effect(env, m, calls[0]), calls[1..]))
  {
    hide Effect, Reply;
    var rest := MachineRun(env, Effect(env, m, calls[0]), calls[1..]);
    assert answers + ([Reply(env, m, calls[0])] + rest.0) == (answers + [Reply(env, m, calls[0])]) + rest.0;
  }

  lemma PrependLast(env: Env, m: Machine, answers: seq<Answer>)
    requires env.Valid()
    ensures Prepend(answers, MachineRun(env, m, [])) == (answers, m)
  {
    assert answers + [] == answers;
  }

  lemma SwitchedIs(disk: seq<byte>, blockSize: nat, fields: Memory, slot: nat)
    requires Loadable(disk, blockSize) && fields.Sized() && slot < 2
    ensures var a, b := EntryFor(disk, blockSize, slot), EntryFor(disk, blockSize, 1 - slot);
            var m := Opened(disk, blockSize, fields);
            if a.Some? && b.Some?
            then && GptDisk.ENTRY_SIZE * a.value + GptDisk.ENTRY_SIZE <= |m.table|
                 && GptDisk.ENTRY_SIZE * b.value + GptDisk.ENTRY_SIZE <= |m.table|
                 && Switched(disk, blockSize, fields, slot) == Activated(m, a.value, b.value)
            else Switched(disk, blockSize, fields, slot) == m
  {}

  lemma FlagPerforms(crc: GptDisk.Crc, env: Env, disk: seq<byte>, blockSize: nat, fields: Memory, left: nat, c: Call,
      slot: nat, flag: nat)
    requires env.Valid() && BootDisk(crc, disk, blockSize) && fields.Sized() && slot < 2 && left >= 4
    requires || (c.MarkBootSuccessful? && env.slots > 0 && slot == env.current && flag == SUCCESSFUL)
             || (c == Call.SetSlotAsUnbootable(slot) && flag == UNBOOTABLE)
    ensures EntryFor(disk, blockSize, slot).Some?
    ensures var r := Issue(disk, Writes(crc, blockSize, Flagged(disk, blockSize, fields, slot, flag)), left);
            r.disk == GptEffect(crc, env, disk, blockSize, c) && r.left + 4 >= left
  {
    EntriesAreFound(crc, disk, blockSize);
    FlagEdit(crc, env, disk, blockSize, fields, c, slot, flag);
    hide BootDisk, EntryFor, Flagged, Issue, Writes, Linked, Synced;
    ClosedIsSynced(crc, disk, blockSize, Edited(crc, env, disk, blockSize, c), left);
  }

  lemma ActivePerforms(crc: GptDisk.Crc, env: Env, disk: seq<byte>, blockSize: nat, fields: Memory, left: nat,
      slot: nat, lunSet: bool)
    requires env.Valid() && BootDisk(crc, disk, blockSize) && fields.Sized() && slot < 2 && left >= 4
    ensures EntryFor(disk, blockSize, 0).Some? && EntryFor(disk, blockSize, 1).Some?
    ensures var r := Issue(disk, Writes(crc, blockSize, Switched(disk, blockSize, fields, slot)), left);
            r.disk == GptEffect(crc, env, disk, blockSize, Call.SetActiveBootSlot(slot, lunSet)) && r.left + 4 >= left
  {
    EntriesAreFound(crc, disk, blockSize);
    ActiveEdit(crc, env, disk, blockSize, fields, slot, lunSet);
    hide BootDisk, EntryFor, Switched, Issue, Writes, Linked, Synced;
    ClosedIsSynced(crc, disk, blockSize, Edited(crc, env, disk, blockSize, Call.SetActiveBootSlot(slot, lunSet)), left);
  }

  lemma QueryIsFree(crc: GptDisk.Crc, disk: seq<byte>, blockSize: nat, fields: Memory, left: nat)
    requires BootDisk(crc, disk, blockSize) && fields.Sized()
    ensures Issue(disk, Writes(crc, blockSize, Opened(disk, blockSize, fields)), left) == Issued(disk, left, true)
    ensures forall slot: nat :: slot < 2 ==>
              EntryFor(disk, blockSize, slot) == Some(EntriesOf(crc, disk, blockSize).At(slot))
  {
    EntriesAreFound(crc, disk, blockSize);
    UneditedSync(crc, disk, blockSize);
  }
}
