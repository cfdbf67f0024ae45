/** Any number of load, edit, sync and destroy cycles on one disk, some of them cut off by a crash
    (pixel-source/bootctrl/1.2/GptUtils.cpp, lines 58-187). */
module GptRuns {
  import opened Bytes
  import opened GptDisk
  import opened GptSync
  import opened GptEntries
  import opened GptLoad
  import opened GptRepairs
  import opened Codec

  // ----- Runs

  /** Crash: the object's Sync is cut off after k writes and cut bytes of the next; afterwards new objects are loaded
      and destroyed, which are cut off in turn at the stops listed, and a last one is not. */
  datatype Action = Load | Store(i: nat, v: nat) | Sync | Destroy | Crash(k: nat, cut: nat, again: seq<Stop>)

  /** The disk, and the memory of the object while it is open. */
  datatype State = State(disk: seq<byte>, open: Option<Memory>)

  ghost predicate Invariant(crc: Crc, blockSize: nat, st: State) {
    && GoodDisk(crc, st.disk, blockSize)
    && (st.open.Some? ==> Linked(crc, st.disk, blockSize, st.open.value))
  }

  /** Calls on a closed object do nothing. Stores go to an entry of the array, and crashes are such that
      the last reload repairs the disk. */
  ghost predicate Possible(crc: Crc, blockSize: nat, st: State, a: Action)
    requires Invariant(crc, blockSize, st)
  {
    st.open.Some? ==>
      && (a.Store? ==> ENTRY_SIZE * a.i + ENTRY_SIZE <= |st.open.value.table|)
      && (a.Crash? ==> !NothingToDo(crc, st.open.value) && StopsInUpdate(st.open.value, a.k, a.cut)
                       && Survivable(crc, st.disk, blockSize, st.open.value, a.k, a.cut, a.again))
  }

  ghost function Step(crc: Crc, blockSize: nat, st: State, a: Action): State
    requires Invariant(crc, blockSize, st) && Possible(crc, blockSize, st, a)
  {
    match a
    case Load => State(st.disk, Some(Loaded(st.disk, blockSize)))
    case Store(i, v) =>
      if st.open.None? then st
      else State(st.disk, Some(st.open.value.(table := WithAttributes(st.open.value.table, i, v))))
    case Sync =>
      if st.open.None? then st
      else State(Synced(crc, st.disk, blockSize, st.open.value), Some(Recomputed(crc, st.open.value)))
    case Destroy =>
      if st.open.None? then st
      else State(Synced(crc, st.disk, blockSize, st.open.value), None)
    case Crash(k, cut, again) =>
      if st.open.None? then st
      else State(Survived(crc, st.disk, blockSize, st.open.value, k, cut, again), None)
  }

  /** The disk after an uninterrupted Sync. */
  ghost function Synced(crc: Crc, disk: seq<byte>, blockSize: nat, m: Memory): (r: seq<byte>)
    requires Linked(crc, disk, blockSize, m)
    ensures |r| == |disk|
  {
    SyncKeepsDiskGood(crc, disk, blockSize, m);
    Perform(disk, Writes(crc, blockSize, m))
  }

  lemma SyncedInvariant(crc: Crc, disk: seq<byte>, blockSize: nat, m: Memory)
    requires Linked(crc, disk, blockSize, m)
    ensures Linked(crc, Synced(crc, disk, blockSize, m), blockSize, Recomputed(crc, m))
    ensures GoodDisk(crc, Synced(crc, disk, blockSize, m), blockSize)
  {
    assert m.Sized();
    hide Linked, GoodDisk, Perform, Writes, Recomputed, GptDisk.InBounds;
    SyncKeepsDiskGood(crc, disk, blockSize, m);
    var after := Perform(disk, Writes(crc, blockSize, m));
    assert Synced(crc, disk, blockSize, m) == after;
    assert Linked(crc, after, blockSize, Recomputed(crc, m));
    LinkedDiskIsGood(crc, after, blockSize, Recomputed(crc, m));
  }

  lemma StepKeepsInvariant(crc: Crc, blockSize: nat, st: State, a: Action)
    requires Invariant(crc, blockSize, st) && Possible(crc, blockSize, st, a)
    ensures Invariant(crc, blockSize, Step(crc, blockSize, st, a))
  {
    hide Linked, GoodDisk, Synced, Recomputed, Loadable, Survived, Survivable, NothingToDo;
    LoadLinks(crc, st.disk, blockSize);
    if st.open.Some? {
      var m := st.open.value;
      if a.Store? {
        EditKeepsLinked(crc, st.disk, blockSize, m, WithAttributes(m.table, a.i, a.v));
      } else if !a.Crash? {
        SyncedInvariant(crc, st.disk, blockSize, m);
      }
    }
  }

  /** The states of a run; a run ends early at an action that is not possible. */
  ghost function Run(crc: Crc, blockSize: nat, st: State, actions: seq<Action>): State
    requires Invariant(crc, blockSize, st)
    decreases |actions|
  {
    if actions == [] || !Possible(crc, blockSize, st, actions[0]) then st
    else
      StepKeepsInvariant(crc, blockSize, st, actions[0]);
      Run(crc, blockSize, Step(crc, blockSize, st, actions[0]), actions[1..])
  }

  /** After any run, with any crashes in it that reloading repairs, both copies on the disk are good, hold the same
      array, and are what a reader that checks them recovers. */
  lemma {:induction false} RunKeepsDiskGood(crc: Crc, blockSize: nat, st: State, actions: seq<Action>)
    requires Invariant(crc, blockSize, st)
    ensures var end := Run(crc, blockSize, st, actions);
            && Invariant(crc, blockSize, end)
            && var m := Loaded(end.disk, blockSize);
               BothGood(crc, end.disk, GeometryOf(blockSize, m))
                   && Recover(crc, end.disk, GeometryOf(blockSize, m)) == Entries(m.table)
    decreases |actions|
  {
    if actions == [] || !Possible(crc, blockSize, st, actions[0]) {
      LinkedDiskIsGood(crc, st.disk, blockSize, Loaded(st.disk, blockSize));
    } else {
      StepKeepsInvariant(crc, blockSize, st, actions[0]);
      RunKeepsDiskGood(crc, blockSize, Step(crc, blockSize, st, actions[0]), actions[1..]);
    }
  }

  /** Loading and destroying without an edit in between writes nothing. */
  lemma UneditedSyncWritesNothing(crc: Crc, disk: seq<byte>, blockSize: nat)
    requires GoodDisk(crc, disk, blockSize)
    ensures Writes(crc, blockSize, Loaded(disk, blockSize)) == []
  {
    var m := Loaded(disk, blockSize);
    LinkedDiskIsGood(crc, disk, blockSize, m);
    Reseal(crc, m.primary, crc(m.table));
  }
}
