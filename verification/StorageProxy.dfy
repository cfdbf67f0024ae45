/** The storage proxy as the program it is: loops over short transfers, handlers, and the request loop
    (selfcode/recovery_storageproxyd/recovery_storageproxyd.c, lines 241-268, 360-380 and 411-657). */
module StorageProxy {
  import opened Bytes
  import opened Codec
  import ByteFiles
  import Rpmb
  import opened StorageSpec

  // ----- The operating system

  /** What the system decides about one call on a file: how much at most it moves, or a failure. */
  datatype Verdict = Moves(most: nat) | Fails(errno: nat)

  /** The verdicts to come: on pread and pwrite, and on the calls that are done at once. */
  datatype Schedule = Schedule(transfers: seq<Verdict>, calls: seq<Verdict>)

  ghost predicate IsTail(left: seq<Verdict>, all: seq<Verdict>) {
    |left| <= |all| && left == all[|all| - |left|..]
  }

  /** What is left of a schedule. */
  ghost predicate Rest(left: Schedule, all: Schedule) {
    IsTail(left.transfers, all.transfers) && IsTail(left.calls, all.calls)
  }

  lemma RestOfRest(a: Schedule, b: Schedule, c: Schedule)
    requires Rest(a, b) && Rest(b, c)
    ensures Rest(a, c)
  {}

  /** A failure comes from the schedule: that of a transfer from the verdicts on transfers, and it is no interruption
      (error 4); that of another call from the verdicts on those. */
  ghost predicate FromSchedule(fault: Fault, schedule: Schedule, transfer: bool) {
    fault.Fault? ==>
      if transfer then Fails(fault.errno) in schedule.transfers && fault.errno != 4
          else Fails(fault.errno) in schedule.calls
  }

  lemma FromRest(fault: Fault, left: Schedule, all: Schedule, transfer: bool)
    requires Rest(left, all) && FromSchedule(fault, left, transfer)
    ensures FromSchedule(fault, all, transfer)
  {}

  /** The open files, and a schedule. When the verdicts are used up, every call does all it is asked to. */
  class Kernel {
    var store: Store
    var schedule: Schedule

    method NextTransfer() returns (v: Option<Verdict>)
      modifies this`schedule
      ensures schedule.calls == old(schedule.calls)
      ensures old(schedule.transfers) == [] ==> v == None && schedule.transfers == []
      ensures old(schedule.transfers) != []
          ==> v == Some(old(schedule.transfers)[0]) && schedule.transfers == old(schedule.transfers)[1..]
    {
      if schedule.transfers == [] {
        return None;
      }
      v := Some(schedule.transfers[0]);
      schedule := schedule.(transfers := schedule.transfers[1..]);
    }

    method NextCall() returns (v: Option<Verdict>)
      modifies this`schedule
      ensures schedule.transfers == old(schedule.transfers)
      ensures old(schedule.calls) == [] ==> v == None && schedule.calls == []
      ensures old(schedule.calls) != []
          ==> v == Some(old(schedule.calls)[0]) && schedule.calls == old(schedule.calls)[1..]
    {
      if schedule.calls == [] {
        return None;
      }
      v := Some(schedule.calls[0]);
      schedule := schedule.(calls := schedule.calls[1..]);
    }

    /** Writes some bytes from the front of data; n is negative for a failure. */
    method Pwrite(fd: nat, data: seq<byte>, off: int) returns (n: int, errno: nat)
      requires data != []
      modifies this
      ensures Rest(schedule, old(schedule))
      ensures !old(store).Open(fd) ==> n == -1 && errno == EBADF && store == old(store)
      ensures old(store).Open(fd) && off < 0 ==> n == -1 && errno == EINVAL && store == old(store)
      ensures old(store).Open(fd) && off >= 0 ==>
                if n < 0 then store == old(store) && |schedule.transfers| < |old(schedule.transfers)|
                    && old(schedule.transfers)[0] == Fails(errno)
                else n <= |data| && (n < |data| ==> |schedule.transfers| < |old(schedule.transfers)|)
                     && store == old(store).Put(fd, ByteFiles.Write(old(store).File(fd), off, data[..n]))
    {
      if !store.Open(fd) {
        return -1, EBADF;
      }
      if off < 0 {
        return -1, EINVAL;
      }
      var v := NextTransfer();
      n, errno := |data|, 0;
      if v.Some? && v.value.Fails? {
        return -1, v.value.errno;
      }
      if v.Some? && v.value.most < |data| {
        n := v.value.most;
      }
      assert data[..|data|] == data;
      store := store.Put(fd, ByteFiles.Write(store.File(fd), off, data[..n]));
    }

    /** Reads some bytes to a place in a buffer; 0 means the end of the file. */
    method Pread(fd: nat, buf: array<byte>, at: nat, size: nat, off: int) returns (n: int, errno: nat)
      requires 0 < size && at + size <= buf.Length
      modifies this`schedule, buf
      ensures Rest(schedule, old(schedule))
      ensures !store.Open(fd) ==> n == -1 && errno == EBADF
      ensures store.Open(fd) && off < 0 ==> n == -1 && errno == EINVAL
      ensures n < 0 ==> buf[..] == old(buf[..])
      ensures store.Open(fd) && off >= 0 ==>
                if n < 0 then
                  |schedule.transfers| < |old(schedule.transfers)| && old(schedule.transfers)[0] == Fails(errno)
                else && n <= size
                     && (0 < n < size && off + n < |store.File(fd)| ==>
                           |schedule.transfers| < |old(schedule.transfers)|)
                     && (n == 0 <==> off >= |store.File(fd)|)
                     && n == |ByteFiles.Read(store.File(fd), off, n)|
                     && buf[..] == Splice(old(buf[..]), at, ByteFiles.Read(store.File(fd), off, n))
    {
      if !store.Open(fd) {
        return -1, EBADF;
      }
      if off < 0 {
        return -1, EINVAL;
      }
      var v := NextTransfer();
      if v.Some? && v.value.Fails? {
        return -1, v.value.errno;
      }
      var most := if v.Some? && v.value.most < size then (if v.value.most == 0 then 1 else v.value.most) else size;
      var data := ByteFiles.Read(store.File(fd), off, most);
      n, errno := |data|, 0;
      assert data == ByteFiles.Read(store.File(fd), off, n);
      StoreBytes(buf, at, data);
    }

    /** A call that is done at once or fails. */
    method Decide() returns (failed: bool, errno: nat, ghost fault: Fault)
      modifies this`schedule
      ensures Rest(schedule, old(schedule)) && FromSchedule(fault, old(schedule), false)
      ensures failed == fault.Fault? && (failed ==> errno == fault.errno)
    {
      var v := NextCall();
      if v.Some? && v.value.Fails? {
        return true, v.value.errno, Fault(v.value.errno, 0);
      }
      return false, 0, NoFault;
    }

    method Fstat(fd: nat) returns (size: nat, failed: bool, errno: nat, ghost fault: Fault)
      modifies this`schedule
      ensures Rest(schedule, old(schedule)) && FromSchedule(fault, old(schedule), false)
      ensures StatFile(store, fd, fault) == if failed then None else Some(size)
      ensures failed ==> errno == StatError(store, fd, fault)
    {
      if !store.Open(fd) {
        return 0, true, EBADF, NoFault;
      }
      size := |store.File(fd)|;
      failed, errno, fault := Decide();
    }

    method Ftruncate(fd: nat, size: int) returns (failed: bool, errno: nat, ghost fault: Fault)
      modifies this
      ensures Rest(schedule, old(schedule)) && FromSchedule(fault, old(schedule), false)
      ensures Written(store, if failed then Some(errno) else None) == ResizeFile(old(store), fd, size, fault)
    {
      if !store.Open(fd) {
        return true, EBADF, NoFault;
      }
      if size < 0 {
        return true, EINVAL, NoFault;
      }
      failed, errno, fault := Decide();
      if !failed {
        store := store.Put(fd, ByteFiles.Resize(store.File(fd), size));
      }
    }

    /** The handle is gone even when close reports a failure. */
    method Close(fd: nat) returns (failed: bool, errno: nat, ghost fault: Fault)
      modifies this
      ensures Rest(schedule, old(schedule)) && FromSchedule(fault, old(schedule), false)
      ensures Written(store, if failed then Some(errno) else None) == CloseFile(old(store), fd, fault)
    {
      if fd !in store.handles {
        return true, EBADF, NoFault;
      }
      failed, errno, fault := Decide();
      store := Store(store.handles - {fd}, store.files);
    }
  }

  // ----- Whole transfers

  lemma PutBack(s: Store, fd: nat)
    requires s.Open(fd)
    ensures s.Put(fd, s.File(fd)) == s
  {}

  lemma MoreWritten(s: Store, fd: nat, off: nat, data: seq<byte>, i: nat, n: nat)
    requires s.Open(fd) && i + n <= |data|
    ensures var now := s.Put(fd, ByteFiles.Write(s.File(fd), off, data[..i]));
            now.Put(fd, ByteFiles.Write(now.File(fd), off + i, data[i..i + n])) ==
            s.Put(fd, ByteFiles.Write(s.File(fd), off, data[..i + n]))
  {
    hide ByteFiles.Write;
    ByteFiles.WriteInPieces(s.File(fd), off, data[..i], data[i..i + n]);
    assert data[..i] + data[i..i + n] == data[..i + n];
    var now := s.Put(fd, ByteFiles.Write(s.File(fd), off, data[..i]));
    var f := ByteFiles.Write(s.File(fd), off, data[..i + n]);
    assert now.Put(fd, f) == s.Put(fd, f);
  }

  /** For every schedule of short transfers, interruptions and failures, the loop is one atomic write, or a
      failure after a part of it. */
  method WriteFull(kernel: Kernel, fd: nat, data: seq<byte>, off: int)
    returns (failed: bool, errno: nat, ghost fault: Fault)
    modifies kernel
    ensures Rest(kernel.schedule, old(kernel.schedule)) && FromSchedule(fault, old(kernel.schedule), true)
    ensures fault.Fault? ==> fault.done < |data|
    ensures Written(kernel.store, if failed then Some(errno) else None)
        == WriteFile(old(kernel.store), fd, off, data, fault)
  {
    hide ByteFiles.Write;
    ghost var was, all := kernel.store, kernel.schedule;
    failed, errno, fault := false, 0, NoFault;
    var b, i := data, 0;
    if was.Open(fd) {
      WriteNothing(was.File(fd), if off < 0 then 0 else off);
      PutBack(was, fd);
    }
    while b != []
      invariant i <= |data| && b == data[i..]
      invariant Rest(kernel.schedule, all)
      invariant i > 0 ==> was.Open(fd) && off >= 0
      invariant kernel.store == if was.Open(fd) && off >= 0
                                then was.Put(fd, ByteFiles.Write(was.File(fd), off, data[..i])) else was
      decreases |kernel.schedule.transfers|, |b|
    {
      ghost var left := kernel.schedule;
      var n;
      n, errno := kernel.Pwrite(fd, b, off + i);
      RestOfRest(kernel.schedule, left, all);
      if n < 0 {
        if errno == EINTR {
          continue;
        }
        fault := if was.Open(fd) && off >= 0 then Fault(errno, i) else NoFault;
        return true, errno, fault;
      }
      MoreWritten(was, fd, off, data, i, n);
      assert b[..n] == data[i..i + n];
      b := b[n..];
      i := i + n;
    }
    assert data[..i] == data;
  }

  lemma WriteNothing(f: seq<byte>, off: nat)
    ensures ByteFiles.Write(f, off, []) == f
  {}

  /** For every schedule, the loop is one read cut off at the end of the file, or a failure. */
  method ReadFull(kernel: Kernel, fd: nat, buf: array<byte>, size: nat, off: int)
    returns (total: int, errno: nat, ghost fault: Fault)
    requires size <= buf.Length
    modifies kernel`schedule, buf
    ensures Rest(kernel.schedule, old(kernel.schedule)) && FromSchedule(fault, old(kernel.schedule), true)
    ensures total <= size
    ensures ReadFile(kernel.store, fd, off, size, fault) == if total < 0 then Got([], Some(errno))
        else Got(buf[..total], None)
  {
    hide ByteFiles.Read;
    ghost var f, all := if kernel.store.Open(fd) then kernel.store.File(fd) else [], kernel.schedule;
    errno, fault, total := 0, NoFault, 0;
    var left: nat := size;
    if off >= 0 {
      ReadNothing(f, off);
    }
    while left > 0
      invariant 0 <= total && total + left == size
      invariant Rest(kernel.schedule, all)
      invariant total > 0 ==> kernel.store.Open(fd) && off >= 0 && off + total <= |f|
      invariant off >= 0 ==> buf[..total] == ByteFiles.Read(f, off, total)
      decreases |kernel.schedule.transfers|, left
    {
      ghost var before := kernel.schedule;
      ghost var had := buf[..];
      var n;
      n, errno := kernel.Pread(fd, buf, total, left, off + total);
      RestOfRest(kernel.schedule, before, all);
      if n < 0 {
        if errno == EINTR {
          continue;
        }
        fault := if kernel.store.Open(fd) && off >= 0 then Fault(errno, 0) else NoFault;
        total := -1;
        return;
      }
      if n == 0 {
        ReadStops(f, off, total, left);
        return;
      }
      ReadGrows(f, off, total, n);
      GrowBuffer(had, total, ByteFiles.Read(f, off + total, n));
      left := left - n;
      total := total + n;
    }
  }

  lemma ReadNothing(f: seq<byte>, off: nat)
    ensures ByteFiles.Read(f, off, 0) == []
  {}

  lemma ReadGrows(f: seq<byte>, off: nat, m: nat, n: nat)
    requires off + m < |f| && n == |ByteFiles.Read(f, off + m, n)|
    ensures off + m + n <= |f|
    ensures ByteFiles.Read(f, off, m + n) == ByteFiles.Read(f, off, m) + ByteFiles.Read(f, off + m, n)
  {
    ByteFiles.ReadInPieces(f, off, m, n);
  }

  lemma ReadStops(f: seq<byte>, off: nat, total: nat, left: nat)
    requires off + total >= |f| && (total > 0 ==> off + total <= |f|)
    ensures ByteFiles.Read(f, off, total + left) == ByteFiles.Read(f, off, total)
  {}

  lemma GrowBuffer(buf: seq<byte>, at: nat, data: seq<byte>)
    requires at + |data| <= |buf|
    ensures Splice(buf, at, data)[..at + |data|] == buf[..at] + data
  {}

  // ----- The connection

  /** Packets to come, replies sent, and how many more replies the peer takes. */
  class Channel {
    var incoming: seq<seq<byte>>
    var sent: seq<seq<byte>>
    var room: nat

    method Receive() returns (r: Option<Request>)
      modifies this`incoming
      ensures old(incoming) == [] ==> r == None && incoming == []
      ensures old(incoming) != [] ==> r == GetMessage(old(incoming)[0]) && incoming == old(incoming)[1..]
    {
      if incoming == [] {
        return None;
      }
      r := GetMessage(incoming[0]);
      incoming := incoming[1..];
    }

    /** ipc_respond. */
    method Respond(head: Header, result: nat, payload: seq<byte>) returns (ok: bool)
      modifies this`sent, this`room
      ensures Took(old(sent), old(room), Reply(head, result, payload), sent, room, ok)
    {
      if room == 0 {
        return false;
      }
      sent := sent + [Reply(head, result, payload)];
      room := room - 1;
      return true;
    }
  }

  ghost predicate Took(sent: seq<seq<byte>>, room: nat, reply: seq<byte>, sentNow: seq<seq<byte>>, roomNow: nat,
      ok: bool)
  {
    if room == 0 then sentNow == sent && roomNow == 0 && !ok else sentNow == sent + [reply] && roomNow == room - 1 && ok
  }

  // ----- Runs that are not over

  /** Whatever faults are still to come, the whole run is what has been sent so far and the run from here. */
  ghost predicate Ahead(w: World, st: State, all: seq<seq<byte>>, room: nat, faults: seq<Fault>,
                        now: State, left: seq<seq<byte>>, roomNow: nat, told: seq<seq<byte>>)
  {
    && |faults| + |left| == |all|
    && forall g: seq<Fault> :: |g| == |left| ==> RunsOn(w, st, all, room, faults, now, left, roomNow, told, g)
  }

  ghost predicate RunsOn(w: World, st: State, all: seq<seq<byte>>, room: nat, faults: seq<Fault>,
                         now: State, left: seq<seq<byte>>, roomNow: nat, told: seq<seq<byte>>, g: seq<Fault>)
    requires |faults| + |left| == |all| && |g| == |left|
  {
    Run(w, st, all, faults + g, room) ==
    Done(Run(w, now, left, g, roomNow).state, told + Run(w, now, left, g, roomNow).replies)
  }

  lemma AheadAtStart(w: World, st: State, all: seq<seq<byte>>, room: nat)
    ensures Ahead(w, st, all, room, [], st, all, room, [])
  {
    hide Run;
    forall g: seq<Fault> | |g| == |all|
      ensures RunsOn(w, st, all, room, [], st, all, room, [], g)
    {
      assert [] + g == g;
    }
  }

  lemma AheadStep(w: World, st: State, all: seq<seq<byte>>, room: nat, faults: seq<Fault>,
                  now: State, left: seq<seq<byte>>, roomNow: nat, told: seq<seq<byte>>, fault: Fault)
    requires Ahead(w, st, all, room, faults, now, left, roomNow, told)
    requires left != [] && GetMessage(left[0]).Some? && roomNow > 0
    ensures var r := GetMessage(left[0]).value; var done := Step(w, now, r, fault);
            Ahead(w, st, all, room, faults + [fault], done.state, left[1..], roomNow - 1,
                  told + [Reply(r.head, done.result, done.payload)])
  {
    hide Step, Reply, GetMessage;
    var r := GetMessage(left[0]).value;
    var done := Step(w, now, r, fault);
    var reply := Reply(r.head, done.result, done.payload);
    forall g: seq<Fault> | |g| == |left| - 1
      ensures RunsOn(w, st, all, room, faults + [fault], done.state, left[1..], roomNow - 1, told + [reply], g)
    {
      assert RunsOn(w, st, all, room, faults, now, left, roomNow, told, [fault] + g);
      assert faults + ([fault] + g) == (faults + [fault]) + g;
      assert ([fault] + g)[1..] == g;
      assert told + ([reply] + Run(w, done.state, left[1..], g, roomNow - 1).replies) ==
             (told + [reply]) + Run(w, done.state, left[1..], g, roomNow - 1).replies;
    }
  }

  /** The run is over: at the end of the packets, at a malformed one, or because the peer takes no reply. */
  lemma AheadEnds(w: World, st: State, all: seq<seq<byte>>, room: nat, faults: seq<Fault>,
                  now: State, left: seq<seq<byte>>, roomNow: nat, told: seq<seq<byte>>, g: seq<Fault>)
    requires Ahead(w, st, all, room, faults, now, left, roomNow, told) && |g| == |left|
    ensures left == [] || GetMessage(left[0]).None? ==> Run(w, st, all, faults + g, room) == Done(now, told)
    ensures left != [] && GetMessage(left[0]).Some? && roomNow == 0 ==>
              Run(w, st, all, faults + g, room) == Done(Step(w, now, GetMessage(left[0]).value, g[0]).state, told)
  {
    hide Step, Reply, GetMessage;
    assert RunsOn(w, st, all, room, faults, now, left, roomNow, told, g);
  }

  function NoFaults(n: nat): (g: seq<Fault>)
    ensures |g| == n && forall i :: 0 <= i < n ==> g[i] == NoFault
  {
    if n == 0 then [] else [NoFault] + NoFaults(n - 1)
  }

  predicate Transfers(cmd: nat) {
    cmd == FILE_READ || cmd == FILE_WRITE
  }

  // ----- Where faults come from

  /** The faults of the packets served so far come from the schedule. */
  ghost predicate AllFromSchedule(faults: seq<Fault>, packets: seq<seq<byte>>, schedule: Schedule) {
    && |faults| == |packets|
    && forall k :: 0 <= k < |faults| && GetMessage(packets[k]).Some? ==>
         FromSchedule(faults[k], schedule, Transfers(GetMessage(packets[k]).value.head.cmd))
  }

  lemma TailFromSchedule(faults: seq<Fault>, packets: seq<seq<byte>>, schedule: Schedule)
    requires AllFromSchedule(faults, packets, schedule) && packets != []
    ensures AllFromSchedule(faults[1..], packets[1..], schedule)
  {
    hide FromSchedule, GetMessage;
  }

  /** Nothing fails: transfers are only cut short or interrupted (error 4), and no other call fails. */
  ghost predicate Quiet(schedule: Schedule) {
    && (forall v :: v in schedule.transfers ==> v.Fails? ==> v.errno == 4)
    && (forall v :: v in schedule.calls ==> v.Moves?)
  }

  /** Then the run is the one without faults, for every mix of requests: all replies and the final state are
      independent of the schedule. */
  lemma {:induction false} QuietRun(w: World, st: State, packets: seq<seq<byte>>, faults: seq<Fault>, room: nat,
      schedule: Schedule)
    requires AllFromSchedule(faults, packets, schedule) && Quiet(schedule)
    ensures Run(w, st, packets, faults, room) == Run(w, st, packets, NoFaults(|packets|), room)
    decreases |packets|
  {
    hide Step, Reply, GetMessage;
    if packets != [] && GetMessage(packets[0]).Some? {
      assert faults[0] == NoFault by {
        assert FromSchedule(faults[0], schedule, Transfers(GetMessage(packets[0]).value.head.cmd));
      }
      var r := GetMessage(packets[0]).value;
      assert NoFaults(|packets|)[1..] == NoFaults(|packets| - 1);
      if room > 0 {
        TailFromSchedule(faults, packets, schedule);
        QuietRun(w, Step(w, st, r, NoFault).state, packets[1..], faults[1..], room - 1, schedule);
      }
    }
  }

  // ----- The daemon

  class Proxy {
    const world: World
    const kernel: Kernel
    const driver: Rpmb.Driver
    const channel: Channel
    const fileBuffer: array<byte>

    ghost predicate Valid() {
      && driver.device == world.device && driver.buffer != fileBuffer
      && driver.buffer.Length == Rpmb.READ_BUFFER && fileBuffer.Length == MAX_READ_SIZE
    }

    ghost function Now(): State
      reads this, kernel, driver, driver.buffer
    {
      State(kernel.store, driver.Now())
    }

    constructor (world: World, kernel: Kernel, driver: Rpmb.Driver, channel: Channel)
      requires driver.device == world.device && driver.buffer.Length == Rpmb.READ_BUFFER
      ensures Valid() && fresh(fileBuffer)
      ensures this.world == world && this.kernel == kernel && this.driver == driver && this.channel == channel
    {
      this.world, this.kernel, this.driver, this.channel := world, kernel, driver, channel;
      fileBuffer := new byte[MAX_READ_SIZE](_ => 0);
    }

    /** The request was served as the given step, and its one reply was sent if the peer took it. */
    twostate predicate Served(head: Header, done: Stepped, ok: bool)
      reads this, kernel, driver, driver.buffer, channel
    {
      && Now() == done.state
      && Took(old(channel.sent), old(channel.room), Reply(head, done.result, done.payload), channel.sent, channel.room,
          ok)
      && channel.incoming == old(channel.incoming)
      && Rest(kernel.schedule, old(kernel.schedule))
    }

    method HandleFileRead(head: Header, body: seq<byte>) returns (ok: bool, ghost fault: Fault)
      requires Valid()
      modifies kernel, channel, fileBuffer
      ensures Served(head, StepRead(old(Now()), body, fault), ok)
      ensures FromSchedule(fault, old(kernel.schedule), true)
    {
      hide ReadFile, Reply;
      fault := NoFault;
      if |body| != 16 {
        ok := channel.Respond(head, ERR_NOT_VALID, []);
        return;
      }
      var size := LeField(body, 4, 4);
      if size > MAX_READ_SIZE {
        ok := channel.Respond(head, ERR_NOT_VALID, []);
        return;
      }
      var n, errno;
      n, errno, fault := ReadFull(kernel, LeField(body, 0, 4), fileBuffer, size, AsInt64(LeField(body, 8, 8)));
      if n < 0 {
        ok := channel.Respond(head, Translate(errno), []);
        return;
      }
      ok := channel.Respond(head, NO_ERROR, fileBuffer[..n]);
    }

    method HandleFileWrite(head: Header, body: seq<byte>) returns (ok: bool, ghost fault: Fault)
      requires Valid()
      modifies kernel, channel
      ensures Served(head, StepWrite(old(Now()), body, fault), ok)
      ensures FromSchedule(fault, old(kernel.schedule), true)
    {
      hide WriteFile, Reply;
      fault := NoFault;
      if |body| < 16 {
        ok := channel.Respond(head, ERR_NOT_VALID, []);
        return;
      }
      var failed, errno;
      failed, errno, fault := WriteFull(kernel, LeField(body, 8, 4), body[16..], AsInt64(LeField(body, 0, 8)));
      if failed {
        ok := channel.Respond(head, Translate(errno), []);
        return;
      }
      ok := channel.Respond(head, NO_ERROR, []);
    }

    method HandleFileGetSize(head: Header, body: seq<byte>) returns (ok: bool, ghost fault: Fault)
      requires Valid()
      modifies kernel, channel
      ensures Served(head, StepGetSize(old(Now()), body, fault), ok)
      ensures FromSchedule(fault, old(kernel.schedule), false)
    {
      hide StatFile, StatError, Reply, Le;
      fault := NoFault;
      if |body| != 4 {
        ok := channel.Respond(head, ERR_NOT_VALID, []);
        return;
      }
      var size, failed, errno;
      size, failed, errno, fault := kernel.Fstat(LeField(body, 0, 4));
      if failed {
        ok := channel.Respond(head, Translate(errno), []);
        return;
      }
      ok := channel.Respond(head, NO_ERROR, Le(size, 8));
    }

    method HandleFileSetSize(head: Header, body: seq<byte>) returns (ok: bool, ghost fault: Fault)
      requires Valid()
      modifies kernel, channel
      ensures Served(head, StepSetSize(old(Now()), body, fault), ok)
      ensures FromSchedule(fault, old(kernel.schedule), false)
    {
      hide ResizeFile, Reply;
      fault := NoFault;
      if |body| != 16 {
        ok := channel.Respond(head, ERR_NOT_VALID, []);
        return;
      }
      var failed, errno;
      failed, errno, fault := kernel.Ftruncate(LeField(body, 8, 4), AsInt64(LeField(body, 0, 8)));
      if failed {
        ok := channel.Respond(head, Translate(errno), []);
        return;
      }
      ok := channel.Respond(head, NO_ERROR, []);
    }

    method HandleFileGetMaxSize(head: Header, body: seq<byte>) returns (ok: bool, ghost fault: Fault)
      requires Valid()
      modifies kernel, channel
      ensures Served(head, StepGetMaxSize(old(Now()), body, fault), ok)
      ensures FromSchedule(fault, old(kernel.schedule), false)
    {
      hide StatFile, StatError, Reply, Le;
      fault := NoFault;
      if |body| != 4 {
        ok := channel.Respond(head, ERR_NOT_VALID, []);
        return;
      }
      var size, failed, errno;
      size, failed, errno, fault := kernel.Fstat(LeField(body, 0, 4));
      if failed {
        ok := channel.Respond(head, Translate(errno), []);
        return;
      }
      ok := channel.Respond(head, NO_ERROR, Le(MAX_FILE_SIZE, 8));
    }

    method HandleFileClose(head: Header, body: seq<byte>) returns (ok: bool, ghost fault: Fault)
      requires Valid()
      modifies kernel, channel
      ensures Served(head, StepClose(old(Now()), body, fault), ok)
      ensures FromSchedule(fault, old(kernel.schedule), false)
    {
      hide CloseFile, Reply;
      fault := NoFault;
      if |body| != 4 {
        ok := channel.Respond(head, ERR_NOT_VALID, []);
        return;
      }
      var failed, errno;
      failed, errno, fault := kernel.Close(LeField(body, 0, 4));
      if failed {
        ok := channel.Respond(head, Translate(errno), []);
        return;
      }
      ok := channel.Respond(head, NO_ERROR, []);
    }

    method HandleRpmbSend(head: Header, body: seq<byte>) returns (ok: bool)
      requires Valid()
      modifies driver, driver.buffer, channel
      ensures Served(head, StepRpmb(world.device, old(Now()), body), ok)
    {
      hide Rpmb.Send, Reply;
      if |body| < 16 {
        ok := channel.Respond(head, ERR_NOT_VALID, []);
        return;
      }
      var reliable, plain, read := LeField(body, 0, 4), LeField(body, 4, 4), LeField(body, 8, 4);
      if |body| != 16 + reliable + plain {
        ok := channel.Respond(head, ERR_NOT_VALID, []);
        return;
      }
      if reliable % MMC_BLOCK_SIZE != 0 || plain % MMC_BLOCK_SIZE != 0 || read % MMC_BLOCK_SIZE != 0
         || read > driver.buffer.Length {
        ok := channel.Respond(head, ERR_NOT_VALID, []);
        return;
      }
      var sent := driver.SendUfsRpmb(body[16..16 + reliable], body[16 + reliable..], read);
      if !sent {
        ok := channel.Respond(head, ERR_GENERIC, []);
        return;
      }
      ok := channel.Respond(head, NO_ERROR, driver.buffer[..read]);
    }

    /** Opening and deleting by name, which the model takes from outside. */
    method HandlePath(r: Request) returns (ok: bool)
      requires Valid()
      modifies kernel, channel
      ensures Served(r.head, StepPath(world, old(Now()), r), ok)
    {
      hide Reply;
      var a := world.paths(kernel.store, r.head.cmd, r.body);
      kernel.store := a.store;
      ok := channel.Respond(r.head, a.result, a.payload);
    }

    method HandleReq(r: Request) returns (ok: bool, ghost fault: Fault)
      requires Valid()
      modifies kernel, driver, driver.buffer, channel, fileBuffer
      ensures Served(r.head, Step(world, old(Now()), r, fault), ok)
      ensures FromSchedule(fault, old(kernel.schedule), Transfers(r.head.cmd))
    {
      hide StepRpmb, StepPath, StepClose, StepRead, StepWrite, StepGetSize, StepSetSize, StepGetMaxSize, Reply;
      fault := NoFault;
      var cmd := r.head.cmd;
      if cmd == RPMB_SEND {
        ok := HandleRpmbSend(r.head, r.body);
      } else if cmd == FILE_DELETE || cmd == FILE_OPEN {
        ok := HandlePath(r);
      } else if cmd == FILE_CLOSE {
        ok, fault := HandleFileClose(r.head, r.body);
      } else if cmd == FILE_READ {
        ok, fault := HandleFileRead(r.head, r.body);
      } else if cmd == FILE_WRITE {
        ok, fault := HandleFileWrite(r.head, r.body);
      } else if cmd == FILE_GET_SIZE {
        ok, fault := HandleFileGetSize(r.head, r.body);
      } else if cmd == FILE_SET_SIZE {
        ok, fault := HandleFileSetSize(r.head, r.body);
      } else if cmd == FILE_GET_MAX_SIZE {
        ok, fault := HandleFileGetMaxSize(r.head, r.body);
      } else {
        ok := channel.Respond(r.head, ERR_UNIMPLEMENTED, []);
      }
    }

    /** The request loop serves the packets as the run of the specification does, for some faults, each of which
        comes from the verdicts on calls of its kind. If transfers are only cut short or interrupted and nothing else
        fails, it is the run without faults. */
    method ProxyLoop() returns (ghost faults: seq<Fault>)
      requires Valid()
      modifies kernel, driver, driver.buffer, channel, fileBuffer
      ensures |faults| == |old(channel.incoming)|
      ensures var run := Run(world, old(Now()), old(channel.incoming), faults, old(channel.room));
              Now() == run.state && channel.sent == old(channel.sent) + run.replies
      ensures AllFromSchedule(faults, old(channel.incoming), old(kernel.schedule))
      ensures Quiet(old(kernel.schedule)) ==>
                var run := Run(world, old(Now()), old(channel.incoming), NoFaults(|old(channel.incoming)|),
                    old(channel.room));
                Now() == run.state && channel.sent == old(channel.sent) + run.replies
    {
      hide Run, Step, Reply, GetMessage, Ahead, FromSchedule, Rest, Quiet;
      ghost var st, all, room, sent, schedule := Now(), channel.incoming, channel.room, channel.sent, kernel.schedule;
      ghost var told: seq<seq<byte>> := [];
      faults := [];
      AheadAtStart(world, st, all, room);
      RestOfAll(schedule);
      while true
        invariant Ahead(world, st, all, room, faults, Now(), channel.incoming, channel.room, told)
        invariant |faults| <= |all| && channel.incoming == all[|faults|..]
        invariant channel.sent == sent + told
        invariant Rest(kernel.schedule, schedule)
        invariant AllFromSchedule(faults, all[..|faults|], schedule)
        decreases |channel.incoming|
      {
        ghost var left, now, roomNow, before := channel.incoming, Now(), channel.room, kernel.schedule;
        ghost var rest := NoFaults(|left|);
        var r := channel.Receive();
        if r.None? {
          AheadEnds(world, st, all, room, faults, now, left, roomNow, told, rest);
          NoneFromSchedule(faults, all, schedule, rest);
          faults := faults + rest;
          QuietIfSo(world, st, all, faults, room, schedule);
          return;
        }
        ghost var fault;
        var ok;
        ok, fault := HandleReq(r.value);
        FromRest(fault, before, schedule, Transfers(r.value.head.cmd));
        RestOfRest(kernel.schedule, before, schedule);
        OneMoreFromSchedule(faults, all, schedule, fault);
        if !ok {
          AheadEnds(world, st, all, room, faults, now, left, roomNow, told, [fault] + rest[1..]);
          NoneFromSchedule(faults + [fault], all, schedule, rest[1..]);
          assert faults + [fault] + rest[1..] == faults + ([fault] + rest[1..]);
          faults := faults + [fault] + rest[1..];
          QuietIfSo(world, st, all, faults, room, schedule);
          return;
        }
        AheadStep(world, st, all, room, faults, now, left, roomNow, told, fault);
        ghost var done := Step(world, now, r.value, fault);
        told := told + [Reply(r.value.head, done.result, done.payload)];
        faults := faults + [fault];
      }
    }
  }

  lemma QuietIfSo(w: World, st: State, packets: seq<seq<byte>>, faults: seq<Fault>, room: nat, schedule: Schedule)
    requires AllFromSchedule(faults, packets, schedule)
    ensures Quiet(schedule) ==> Run(w, st, packets, faults, room) == Run(w, st, packets, NoFaults(|packets|), room)
  {
    if Quiet(schedule) {
      QuietRun(w, st, packets, faults, room, schedule);
    }
  }

  lemma RestOfAll(schedule: Schedule)
    ensures Rest(schedule, schedule)
  {}

  lemma OneMoreFromSchedule(faults: seq<Fault>, all: seq<seq<byte>>, schedule: Schedule, fault: Fault)
    requires |faults| < |all| && AllFromSchedule(faults, all[..|faults|], schedule)
    requires GetMessage(all[|faults|]).Some?
    requires FromSchedule(fault, schedule, Transfers(GetMessage(all[|faults|]).value.head.cmd))
    ensures AllFromSchedule(faults + [fault], all[..|faults| + 1], schedule)
  {
    hide FromSchedule, GetMessage;
  }

  lemma NoneFromSchedule(faults: seq<Fault>, all: seq<seq<byte>>, schedule: Schedule, rest: seq<Fault>)
    requires |faults| + |rest| == |all| && AllFromSchedule(faults, all[..|faults|], schedule)
    requires forall i :: 0 <= i < |rest| ==> rest[i] == NoFault
    ensures AllFromSchedule(faults + rest, all, schedule)
  {
    hide GetMessage;
  }
}
