/** The GptUtils class over a block device (pixel-source/bootctrl/1.2/GptUtils.cpp and GptUtils.h). */
module GptUtils {
  import opened Bytes
  import opened GptDisk
  import opened GptSync
  import opened GptEntries
  import opened GptLoad
  import opened Codec

  // ----- Writes to a device

  /** What a list of writes comes to: the disk, how many more writes succeed, and whether all were done. */
  datatype Issued = Issued(disk: seq<byte>, left: nat, all: bool)

  /** The writes are done in order, up to the first that fails: writes fail when none are left, or outside
      the device. */
  function Issue(disk: seq<byte>, writes: seq<Write>, left: nat): (r: Issued)
    ensures |r.disk| == |disk| && r.left <= left && left <= r.left + |writes|
    decreases writes
  {
    if writes == [] then Issued(disk, left, true)
    else if left == 0 || writes[0].at + |writes[0].bytes| > |disk| then Issued(disk, left, false)
    else Issue(Splice(disk, writes[0].at, writes[0].bytes), writes[1..], left - 1)
  }

  /** Writes inside the device stop only when none are left. */
  lemma {:induction false} IssueInBounds(disk: seq<byte>, writes: seq<Write>, left: nat)
    requires GptDisk.InBounds(writes, |disk|)
    ensures Issue(disk, writes, left) ==
            Issued(Stopped(disk, writes, left, 0), if left >= |writes| then left - |writes| else 0, left >= |writes|)
    decreases writes
  {
    if writes != [] {
      if left == 0 {
        SpliceSame(disk, writes[0].at, []);
      } else {
        IssueInBounds(Splice(disk, writes[0].at, writes[0].bytes), writes[1..], left - 1);
      }
    }
  }

  /** A sufficient number of writes inside the device are all done. */
  lemma {:induction false} StoppedAfterAll(disk: seq<byte>, writes: seq<Write>, k: nat)
    requires GptDisk.InBounds(writes, |disk|) && k >= |writes|
    ensures Stopped(disk, writes, k, 0) == Perform(disk, writes)
    decreases writes
  {
    hide Splice;
    if writes != [] {
      StoppedAfterAll(Splice(disk, writes[0].at, writes[0].bytes), writes[1..], k - 1);
    }
  }

  /** Two lists of writes, one after the other. */
  lemma {:induction false} IssueBoth(disk: seq<byte>, u: seq<Write>, v: seq<Write>, left: nat)
    ensures Issue(disk, u + v, left) ==
            var first := Issue(disk, u, left); if !first.all then first else Issue(first.disk, v, first.left)
    decreases u
  {
    hide Splice;
    if u == [] {
      assert u + v == v;
    } else {
      assert (u + v)[0] == u[0] && (u + v)[1..] == u[1..] + v;
      if left > 0 && u[0].at + |u[0].bytes| <= |disk| {
        IssueBoth(Splice(disk, u[0].at, u[0].bytes), u[1..], v, left - 1);
      }
    }
  }

  /** A block device: writes that fail change nothing. */
  class BlockDevice {
    var bytes: seq<byte>
    var writesLeft: nat

    method Write(at: nat, t: seq<byte>) returns (ok: bool)
      modifies this
      ensures Issued(bytes, writesLeft, ok) == Issue(old(bytes), [GptDisk.Write(at, t)], old(writesLeft))
    {
      ok := writesLeft > 0 && at + |t| <= |bytes|;
      if ok {
        bytes := Splice(bytes, at, t);
        writesLeft := writesLeft - 1;
      }
    }
  }

  // ----- The class

  class GptUtils {
    const crc: Crc
    const device: BlockDevice
    const blockSize: nat
    var open: bool
    var memory: Memory
    var entries: map<seq<byte>, nat>

    /** The two header fields hold whatever stood in their place. */
    constructor (crc: Crc, device: BlockDevice, blockSize: nat, fields: Memory)
      requires fields.Sized() && fields.table == []
      ensures this.crc == crc && this.device == device && this.blockSize == blockSize
      ensures !open && entries == map[] && memory == fields
    {
      this.crc, this.device, this.blockSize := crc, device, blockSize;
      open, memory, entries := false, fields, map[];
    }

    /** The map holds the names of the loaded array. */
    ghost predicate Indexed()
      reads this
    {
      && memory.Sized()
      && var n := EntryCount(memory.primary);
         Holds(memory.table, n) && entries == NameMap(memory.table, n, 0, map[])
    }

    /** The object does not clear its map, so loading twice adds to it. */
    method Load() returns (ok: bool)
      requires Loadable(device.bytes, blockSize) && memory.Sized()
      modifies this
      ensures open && memory.Sized()
      ensures ok == IsGptHeader(Region(device.bytes, blockSize, HEADER_SIZE))
      ensures ok ==> memory == Loaded(device.bytes, blockSize)
      ensures ok ==> entries == NameMap(memory.table, EntryCount(memory.primary), 0, old(entries))
      ensures ok && old(entries) == map[] ==> Indexed()
      ensures !ok ==> entries == old(entries)
      ensures !ok ==>
                memory == Memory(Region(device.bytes, blockSize, HEADER_SIZE), old(memory.backup), old(memory.table))
    {
      open := true;
      var primary := Region(device.bytes, blockSize, HEADER_SIZE);
      if !IsGptHeader(primary) {
        memory := memory.(primary := primary);
        return false;
      }
      memory := Loaded(device.bytes, blockSize);
      var n := EntryCount(primary);
      ghost var was := entries;
      var i := 0;
      while i < n && IsNamed(memory.table, i)
        invariant i <= n && memory == Loaded(device.bytes, blockSize) && open
        invariant NameMap(memory.table, n, 0, was) == NameMap(memory.table, n, i, entries)
      {
        entries := entries[EntryName(memory.table, i) := i];
        i := i + 1;
      }
      ok := true;
    }

    /** Of the entries before the first nameless one, the last with that name, if there is one. */
    method GetPartitionEntry(name: seq<byte>) returns (entry: Option<nat>)
      ensures Indexed() ==> (var n := EntryCount(memory.primary);
                             && entry == Find(memory.table, n, name)
                             && (entry.Some? ==> IsLastNamed(memory.table, n, name, entry.value))
                             && (entry.None? ==> forall j :: 0 <= j && IsListed(memory.table, n, j) ==>
                                                   EntryName(memory.table, j) != name))
      ensures entries == map[] ==> entry == None
    {
      entry := if name in entries then Some(entries[name]) else None;
      if Indexed() {
        FindFindsLast(memory.table, EntryCount(memory.primary), name);
      }
    }

    /** A store through the entry pointer; the names stay where they are. */
    method StoreAttributes(i: nat, v: nat)
      requires ENTRY_SIZE * i + ENTRY_SIZE <= |memory.table| && v < WRAP64
      modifies this
      ensures memory == old(memory).(table := WithAttributes(old(memory.table), i, v))
      ensures open == old(open) && entries == old(entries)
      ensures old(Indexed()) ==> Indexed()
    {
      if Indexed() {
        MapAfterStore(memory.table, EntryCount(memory.primary), i, v);
      }
      memory := memory.(table := WithAttributes(memory.table, i, v));
    }

    /** The writes are issued in order until one fails. */
    method Sync() returns (ret: int)
      requires memory.Sized()
      modifies this, device
      ensures open == old(open) && entries == old(entries) && memory.Sized()
      ensures !open ==>
                && ret == -1 && memory == old(memory)
                && device.bytes == old(device.bytes) && device.writesLeft == old(device.writesLeft)
      ensures open ==>
                && Issued(device.bytes, device.writesLeft, ret == 0) ==
                   Issue(old(device.bytes), Writes(crc, blockSize, old(memory)), old(device.writesLeft))
                && (ret == 0 || ret == -1)
                && memory.primary == NewPrimary(crc, old(memory)) && memory.table == old(memory.table)
                && (ret == 0 ==> memory == Recomputed(crc, old(memory)))
    {
      if !open {
        return -1;
      }
      var writes := Writes(crc, blockSize, memory);
      if NothingToDo(crc, memory) {
        memory := memory.(primary := NewPrimary(crc, memory));
        return 0;
      }
      UpdateHasFourWrites(crc, blockSize, memory);
      SameBackup(crc, memory);
      hide Splice, NewPrimary, NewBackup, Writes, NothingToDo, Recomputed, Issue;
      IssueBoth(device.bytes, [writes[0], writes[1], writes[2]], [writes[3]], device.writesLeft);
      assert writes == [writes[0], writes[1], writes[2]] + [writes[3]];
      memory := memory.(primary := NewPrimary(crc, memory));
      var ok := WriteThree(writes[0], writes[1], writes[2]);
      if !ok {
        return -1;
      }
      memory := memory.(backup := NewBackup(crc, memory));
      ok := device.Write(writes[3].at, writes[3].bytes);
      ret := if ok then 0 else -1;
    }

    /** The first three writes, up to the first that fails. */
    method WriteThree(a: Write, b: Write, c: Write) returns (ok: bool)
      modifies device
      ensures Issued(device.bytes, device.writesLeft, ok) == Issue(old(device.bytes), [a, b, c], old(device.writesLeft))
    {
      hide Issue;
      IssueBoth(device.bytes, [a], [b, c], device.writesLeft);
      assert [a] + [b, c] == [a, b, c];
      ok := device.Write(a.at, a.bytes);
      if !ok {
        return false;
      }
      IssueBoth(device.bytes, [b], [c], device.writesLeft);
      assert [b] + [c] == [b, c];
      ok := device.Write(b.at, b.bytes);
      if !ok {
        return false;
      }
      ok := device.Write(c.at, c.bytes);
    }

    /** The destructor. */
    method Destroy()
      requires memory.Sized()
      modifies this, device
      ensures !open
      ensures !old(open) ==> device.bytes == old(device.bytes) && device.writesLeft == old(device.writesLeft)
      ensures old(open) ==>
                var r := Issue(old(device.bytes), Writes(crc, blockSize, old(memory)), old(device.writesLeft));
                device.bytes == r.disk && device.writesLeft == r.left
    {
      if open {
        var ret := Sync();
        open := false;
      }
    }
  }

  lemma UpdateHasFourWrites(crc: Crc, blockSize: nat, m: Memory)
    requires m.Sized() && !NothingToDo(crc, m)
    ensures var w := Writes(crc, blockSize, m); |w| == 4 && w == [w[0], w[1], w[2], w[3]]
    ensures Recomputed(crc, m) == Memory(NewPrimary(crc, m), NewBackup(crc, m), m.table)
  {}

  lemma SameBackup(crc: Crc, m: Memory)
    requires m.Sized()
    ensures NewBackup(crc, m.(primary := NewPrimary(crc, m))) == NewBackup(crc, m)
  {}
}
