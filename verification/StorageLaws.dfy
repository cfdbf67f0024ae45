/** What a client of the storage proxy sees, from the numbers and fields of one request to the reply of the next
    (selfcode/recovery_storageproxyd/recovery_storageproxyd.c, lines 70-182, 253-268 and 382-657). */
module StorageLaws {
  import opened Bytes
  import opened Codec
  import ByteFiles
  import Rpmb
  import opened StorageSpec

  // ----- The requests, byte by byte

  predicate AsksRead(r: Request, fd: nat, n: nat, off: nat) {
    r.head.cmd == 8 && r.body == Le(fd, 4) + Le(n, 4) + Le(off, 8)
    && fd < 0x1_0000_0000 && n < 0x1_0000_0000 && off < 0x1_0000_0000_0000_0000
  }

  predicate AsksWrite(r: Request, fd: nat, off: nat, data: seq<byte>) {
    r.head.cmd == 10 && r.body == Le(off, 8) + Le(fd, 4) + Le(0, 4) + data
    && fd < 0x1_0000_0000 && off < 0x1_0000_0000_0000_0000
  }

  predicate AsksResize(r: Request, fd: nat, size: nat) {
    r.head.cmd == 14 && r.body == Le(size, 8) + Le(fd, 4) + Le(0, 4)
    && fd < 0x1_0000_0000 && size < 0x1_0000_0000_0000_0000
  }

  /** Close, size and largest size name a handle only. */
  predicate AsksAbout(r: Request, cmd: nat, fd: nat) {
    cmd in [6, 12, 24] && r.head.cmd == cmd && r.body == Le(fd, 4) && fd < 0x1_0000_0000
  }

  lemma ReadFields(r: Request, fd: nat, n: nat, off: nat)
    requires AsksRead(r, fd, n, off)
    ensures |r.body| == 16 && LeField(r.body, 0, 4) == fd && LeField(r.body, 4, 4) == n && LeField(r.body, 8, 8) == off
  {
    hide Le, LeField;
    ReadBodyFields(fd, n, off);
  }

  lemma WriteFields(r: Request, fd: nat, off: nat, data: seq<byte>)
    requires AsksWrite(r, fd, off, data)
    ensures |r.body| == 16 + |data| && LeField(r.body, 0, 8) == off && LeField(r.body, 8, 4) == fd
            && r.body[16..] == data
  {
    hide Le, LeField;
    WriteBodyFields(off, fd, data);
  }

  lemma ResizeFields(r: Request, fd: nat, size: nat)
    requires AsksResize(r, fd, size)
    ensures |r.body| == 16 && LeField(r.body, 0, 8) == size && LeField(r.body, 8, 4) == fd
  {
    hide Le, LeField;
    WriteBodyFields(size, fd, []);
    assert WriteBody(size, fd, []) == Le(size, 8) + Le(fd, 4) + Le(0, 4);
  }

  lemma AboutFields(r: Request, cmd: nat, fd: nat)
    requires AsksAbout(r, cmd, fd)
    ensures |r.body| == 4 && LeField(r.body, 0, 4) == fd
  {
    hide Le, LeField;
    HandleField(fd);
  }

  /** A packet with room for its body is taken as the request it spells, and cut off when it has none. */
  lemma PacketIsTaken(h: Header, body: seq<byte>)
    requires Fits32(h)
    ensures |body| <= 4096 ==>
              GetMessage(h.Bytes() + body) == if h.size == 24 + |body| then Some(Request(h, body)) else None
    ensures |body| > 4096 ==>
              GetMessage(h.Bytes() + body) == if h.size == 4120 then Some(Request(h, body[..4096])) else None
  {
    hide Le, Header.Bytes, HeaderOf;
    HeaderRoundTrip(h, body);
    var packet := h.Bytes() + body;
    assert packet[24..|packet|] == body;
    if |body| > 4096 {
      assert packet[24..4120] == body[..4096];
    }
  }

  /** A packet shorter than a header ends the service. */
  lemma ShortPacket(packet: seq<byte>)
    requires |packet| < 24
    ensures GetMessage(packet).None?
  {}

  /** A reply carries the number of its request with the lowest bit set. */
  lemma ResponseBit(cmd: nat)
    ensures Answered(cmd) / 2 == cmd / 2 && Answered(cmd) % 2 == 1
  {}

  /** The error numbers of the operating system, as the client is told them. */
  lemma ErrorTable(errno: nat)
    ensures Translate(errno) ==
            if errno == 0 then 0
            else if errno == 2 then 5
            else if errno == 17 then 6
            else if errno in [1, 13] then 4
            else if errno in [9, 20, 22, 36] then 2
            else 1
  {}

  // ----- A read after a change of size or a write

  /** How many bytes of a file of that size a read of n bytes at a position returns. */
  function Available(size: nat, off: nat, n: nat): nat {
    if off >= size then 0 else if off + n <= size then n else size - off
  }

  /** A read returns what lies in the file, up to its end, and changes nothing. */
  lemma ReadReturns(w: World, st: State, r: Request, fd: nat, n: nat, off: nat)
    requires AsksRead(r, fd, n, off) && n <= 4096 && off < 0x8000_0000_0000_0000 && st.store.Open(fd)
    ensures var f, got := st.store.File(fd), Step(w, st, r, NoFault);
            && got.state == st && got.result == 0
            && |got.payload| == Available(|f|, off, n)
            && forall i :: 0 <= i < |got.payload| ==> got.payload[i] == f[off + i]
  {
    hide LeField, Le;
    ReadFields(r, fd, n, off);
  }

  /** A read after a change of size, through any handle of the file: bytes below both sizes are those from before,
      bytes in the grown part are zero, and nothing is read from the new size on. */
  lemma ReadAfterResize(w: World, st: State, change: Request, fd: nat, size: nat, get: Request, other: nat, n: nat,
      off: nat)
    requires AsksResize(change, fd, size) && size < 0x8000_0000_0000_0000
    requires AsksRead(get, other, n, off) && off < 0x8000_0000_0000_0000 && n <= 4096
    requires st.store.Open(fd) && st.store.Open(other) && st.store.handles[fd] == st.store.handles[other]
    ensures var was, now := st.store.File(fd), Step(w, st, change, NoFault);
            var got := Step(w, now.state, get, NoFault);
            && now.result == 0 && now.payload == []
            && got.state == now.state && got.result == 0
            && |got.payload| == Available(size, off, n)
            && forall i :: 0 <= i < |got.payload| ==> got.payload[i] == if off + i < |was| then was[off + i] else 0
  {
    hide LeField, Le, ByteFiles.Resize, AsksRead, AsksResize, StepRead;
    ResizeFields(change, fd, size);
    var was := st.store.File(fd);
    var now := ResizedStore(w, st, change, fd, size);
    ReadReturns(w, now, get, other, n, off);
    var f, got := now.store.File(other), Step(w, now, get, NoFault);
    forall i | 0 <= i < |got.payload|
      ensures got.payload[i] == if off + i < |was| then was[off + i] else 0
    {
      ByteFiles.ResizeAt(was, size, off + i);
      assert ByteFiles.ByteAt(f, off + i) == Some(f[off + i]);
    }
  }

  lemma ResizedStore(w: World, st: State, change: Request, fd: nat, size: nat) returns (now: State)
    requires AsksResize(change, fd, size) && size < 0x8000_0000_0000_0000 && st.store.Open(fd)
    ensures now == st.(store := st.store.Put(fd, ByteFiles.Resize(st.store.File(fd), size)))
    ensures Step(w, st, change, NoFault) == Stepped(now, 0, [])
  {
    hide LeField, Le, ByteFiles.Resize;
    ResizeFields(change, fd, size);
    now := st.(store := st.store.Put(fd, ByteFiles.Resize(st.store.File(fd), size)));
  }

  /** How many bytes of a write take effect. */
  function Kept(data: seq<byte>, fault: Fault): (k: nat)
    ensures k <= |data|
  {
    if fault.NoFault? || fault.done > |data| then |data| else fault.done
  }

  /** A read after a write, whole or failed part of the way, through any handle of the file: the bytes that took
      effect, the old bytes around them, zeros in a hole, and nothing beyond the end. */
  lemma ReadAfterWrite(w: World, st: State, put: Request, fd: nat, at: nat, data: seq<byte>, fault: Fault,
      get: Request, other: nat, n: nat, off: nat)
    requires AsksWrite(put, fd, at, data) && at < 0x8000_0000_0000_0000 && data != []
    requires AsksRead(get, other, n, off) && off < 0x8000_0000_0000_0000 && n <= 4096
    requires st.store.Open(fd) && st.store.Open(other) && st.store.handles[fd] == st.store.handles[other]
    ensures var was, now, kept := st.store.File(fd), Step(w, st, put, fault), Kept(data, fault);
            var got := Step(w, now.state, get, NoFault);
            && now.result == (if fault.NoFault? then 0 else Translate(fault.errno)) && now.payload == []
            && got.state == now.state && got.result == 0
            && |got.payload| == Available(if kept > 0 && at + kept > |was| then at + kept else |was|, off, n)
            && forall i :: 0 <= i < |got.payload| ==>
                 got.payload[i] == if at <= off + i < at + kept then data[off + i - at]
                                   else if off + i < |was| then was[off + i] else 0
  {
    hide LeField, Le, ByteFiles.Write, AsksRead, AsksWrite, StepRead;
    var was, kept := st.store.File(fd), Kept(data, fault);
    var part := data[..kept];
    var now := WrittenStore(w, st, put, fd, at, data, fault);
    ReadReturns(w, now, get, other, n, off);
    WriteSize(was, at, part);
    var f, got := now.store.File(other), Step(w, now, get, NoFault);
    forall i | 0 <= i < |got.payload|
      ensures got.payload[i] == if at <= off + i < at + kept then data[off + i - at]
                                else if off + i < |was| then was[off + i] else 0
    {
      ByteFiles.WriteAt(was, at, part, off + i);
      assert ByteFiles.ByteAt(f, off + i) == Some(f[off + i]);
    }
  }

  lemma WriteSize(f: seq<byte>, off: nat, data: seq<byte>)
    ensures |ByteFiles.Write(f, off, data)| == if data != [] && off + |data| > |f| then off + |data| else |f|
  {}

  lemma WrittenStore(w: World, st: State, put: Request, fd: nat, at: nat, data: seq<byte>, fault: Fault)
    returns (now: State)
    requires AsksWrite(put, fd, at, data) && at < 0x8000_0000_0000_0000 && data != [] && st.store.Open(fd)
    ensures now == st.(store := st.store.Put(fd, ByteFiles.Write(st.store.File(fd), at, data[..Kept(data, fault)])))
    ensures Step(w, st, put, fault) == Stepped(now, if fault.NoFault? then 0 else Translate(fault.errno), [])
  {
    hide LeField, Le, ByteFiles.Write, Translate;
    WriteFields(put, fd, at, data);
    assert data[..|data|] == data;
    now := st.(store := st.store.Put(fd, ByteFiles.Write(st.store.File(fd), at, data[..Kept(data, fault)])));
  }

  /** The size of an open file, and the largest size it may have, as eight bytes. */
  lemma SizesAreTold(w: World, st: State, r: Request, fd: nat)
    requires st.store.Open(fd)
    ensures AsksAbout(r, 12, fd) ==> Step(w, st, r, NoFault) == Stepped(st, 0, Le(|st.store.File(fd)|, 8))
    ensures AsksAbout(r, 24, fd) ==> Step(w, st, r, NoFault) == Stepped(st, 0, Le(0x100_0000_0000, 8))
  {
    hide Le, LeField;
    if AsksAbout(r, r.head.cmd, fd) {
      AboutFields(r, r.head.cmd, fd);
    }
  }

  // ----- Handles

  /** Closing takes the handle away, also when a failure is reported, and leaves every file and every other handle. */
  lemma CloseRemoves(w: World, st: State, r: Request, fd: nat, fault: Fault)
    requires AsksAbout(r, 6, fd) && fd in st.store.handles
    ensures var now := Step(w, st, r, fault);
            && now.result == (if fault.NoFault? then 0 else Translate(fault.errno)) && now.payload == []
            && fd !in now.state.store.handles
            && now.state.store.files == st.store.files && now.state.rpmb == st.rpmb
            && forall h: nat :: h != fd ==>
                 && (h in now.state.store.handles <==> h in st.store.handles)
                 && (h in st.store.handles ==> now.state.store.handles[h] == st.store.handles[h])
  {
    hide Le, LeField, Translate;
    AboutFields(r, 6, fd);
  }

  /** A handle that is not open gets nothing done: reads and writes of something, changes of size, questions and
      closing are answered with 2, and nothing changes. */
  lemma NotOpen(w: World, st: State, r: Request, fd: nat, n: nat, off: nat, data: seq<byte>, fault: Fault)
    requires fd !in st.store.handles
    requires || (AsksRead(r, fd, n, off) && n > 0)
             || (AsksWrite(r, fd, off, data) && data != [])
             || AsksResize(r, fd, off)
             || (AsksAbout(r, r.head.cmd, fd) && (fault.NoFault? || r.head.cmd == 6))
    ensures Step(w, st, r, fault) == Stepped(st, 2, [])
  {
    hide LeField, Le;
    if AsksRead(r, fd, n, off) {
      ReadFields(r, fd, n, off);
    } else if AsksWrite(r, fd, off, data) {
      WriteFields(r, fd, off, data);
    } else if AsksResize(r, fd, off) {
      ResizeFields(r, fd, off);
    } else {
      AboutFields(r, r.head.cmd, fd);
    }
  }

  /** What a handle names is gone for the requests after it was closed. */
  lemma ClosedStaysClosed(w: World, st: State, close: Request, fd: nat, fault: Fault, r: Request, n: nat, off: nat)
    requires AsksAbout(close, 6, fd) && fd in st.store.handles && AsksRead(r, fd, n, off) && n > 0
    ensures var now := Step(w, st, close, fault).state; Step(w, now, r, NoFault) == Stepped(now, 2, [])
  {
    hide *;
    CloseRemoves(w, st, close, fd, fault);
    NotOpen(w, Step(w, st, close, fault).state, r, fd, n, off, [], NoFault);
  }

  /** An offset or a size with the top bit set is negative, and turned down. */
  lemma NegativeIsRefused(w: World, st: State, r: Request, fd: nat, n: nat, off: nat, data: seq<byte>)
    requires off >= 0x8000_0000_0000_0000
    requires (AsksRead(r, fd, n, off) && n > 0) || (AsksWrite(r, fd, off, data) && data != []) || AsksResize(r, fd, off)
    ensures Step(w, st, r, NoFault) == Stepped(st, 2, [])
  {
    hide LeField, Le;
    if AsksRead(r, fd, n, off) {
      ReadFields(r, fd, n, off);
    } else if AsksWrite(r, fd, off, data) {
      WriteFields(r, fd, off, data);
    } else {
      ResizeFields(r, fd, off);
    }
  }

  // ----- What is turned down

  /** A request of the wrong length, or for more than 4096 bytes, is answered with 2; an unknown one with 3.
      Nothing changes. */
  lemma MalformedIsRefused(w: World, st: State, r: Request, fault: Fault)
    ensures r.head.cmd in [6, 12, 24] && |r.body| != 4 ==> Step(w, st, r, fault) == Stepped(st, 2, [])
    ensures r.head.cmd in [8, 14] && |r.body| != 16 ==> Step(w, st, r, fault) == Stepped(st, 2, [])
    ensures r.head.cmd == 10 && |r.body| < 16 ==> Step(w, st, r, fault) == Stepped(st, 2, [])
    ensures r.head.cmd == 8 && |r.body| == 16 && LeField(r.body, 4, 4) > 4096 ==>
              Step(w, st, r, fault) == Stepped(st, 2, [])
    ensures r.head.cmd !in [2, 4, 6, 8, 10, 12, 14, 16, 24] ==> Step(w, st, r, fault) == Stepped(st, 3, [])
  {
    hide LeField;
  }

  /** Opening and deleting by name answer and leave the files as their path answers say, and keep the device. */
  lemma PathsDecide(w: World, st: State, r: Request, fault: Fault)
    requires r.head.cmd == 2 || r.head.cmd == 4
    ensures var now, a := Step(w, st, r, fault), w.paths(st.store, r.head.cmd, r.body);
            && now.state.store == a.store && now.state.rpmb == st.rpmb
            && now.result == a.result && now.payload == a.payload
  {}

  /** Reads, questions and changes of size that the operating system fails report its error and change nothing. */
  lemma FailureIsTold(w: World, st: State, r: Request, fd: nat, n: nat, off: nat, errno: nat, done: nat)
    requires st.store.Open(fd) && off < 0x8000_0000_0000_0000
    requires (AsksRead(r, fd, n, off) && 0 < n <= 4096) || AsksResize(r, fd, off)
             || (AsksAbout(r, r.head.cmd, fd) && r.head.cmd != 6)
    ensures Step(w, st, r, Fault(errno, done)) == Stepped(st, Translate(errno), [])
  {
    hide LeField, Le, Translate;
    if AsksRead(r, fd, n, off) {
      ReadFields(r, fd, n, off);
    } else if AsksResize(r, fd, off) {
      ResizeFields(r, fd, off);
    } else {
      AboutFields(r, r.head.cmd, fd);
    }
  }

  // ----- RPMB requests

  /** What an RPMB request must say: its two parts to write are exactly its payload, all three sizes are whole
      blocks of 512 bytes, and the part to read has at most 4096. */
  ghost predicate RpmbSizes(body: seq<byte>, reliable: nat, plain: nat, read: nat) {
    |body| >= 16 && LeField(body, 0, 4) == reliable && LeField(body, 4, 4) == plain && LeField(body, 8, 4) == read
    && |body| == 16 + reliable + plain
    && reliable % 512 == 0 && plain % 512 == 0 && read % 512 == 0 && read <= 4096
  }

  /** A request is turned down exactly when its sizes are wrong, without a call. */
  lemma RpmbRefusedIff(w: World, st: State, r: Request, fault: Fault)
    requires r.head.cmd == 16
    ensures Step(w, st, r, fault).result == 2 <==>
              !exists a: nat, b: nat, c: nat :: RpmbSizes(r.body, a, b, c)
    ensures Step(w, st, r, fault).result == 2 ==> Step(w, st, r, fault) == Stepped(st, 2, [])
  {
    hide LeField, Rpmb.Send;
    if AcceptsRpmb(r.body) {
      assert RpmbSizes(r.body, LeField(r.body, 0, 4), LeField(r.body, 4, 4), LeField(r.body, 8, 4));
    }
  }

  /** Otherwise the calls are those of its two parts and its read size. The request succeeds exactly when the
      device refuses none of them, and then answers with the bytes the last one returned; where that returned
      fewer than asked for, the buffer still holds what it held before. */
  lemma RpmbAnswer(w: World, st: State, r: Request, fault: Fault, reliable: nat, plain: nat, read: nat)
    requires r.head.cmd == 16 && RpmbSizes(r.body, reliable, plain, read) && |st.rpmb.buffer| == 4096
    ensures var now, calls := Step(w, st, r, fault), |st.rpmb.trace|;
            var sent := Rpmb.Send(w.device, st.rpmb, r.body[16..16 + reliable], r.body[16 + reliable..], read);
            && now.state == State(st.store, sent.state) && calls <= |now.state.rpmb.trace|
            && now.result == (if forall k :: calls <= k < |now.state.rpmb.trace| ==> w.device(k).Ran? then 0 else 1)
            && (now.result == 1 ==> now.payload == [])
            && (now.result == 0 ==> |now.payload| == read)
            && (now.result == 0 && read > 0 ==>
                  var last := |now.state.rpmb.trace| - 1;
                  && last >= calls && w.device(last).Ran?
                  && now.state.rpmb.trace[last] == Rpmb.ReceiveCall(read)
                  && forall i :: 0 <= i < read ==>
                       now.payload[i] == if i < |w.device(last).data| then w.device(last).data[i]
                                         else st.rpmb.buffer[i])
  {
    hide LeField, Rpmb.Send, Rpmb.ReceiveCall, Rpmb.Check, Rpmb.Received;
    var first, second := r.body[16..16 + reliable], r.body[16 + reliable..];
    Rpmb.StopsAtRefusal(w.device, st.rpmb, first, second, read);
    Rpmb.BufferAfter(w.device, st.rpmb, first, second, read);
    var sent := Rpmb.Send(w.device, st.rpmb, first, second, read);
    if sent.ok && read > 0 {
      Rpmb.ReceivedAt(st.rpmb.buffer, read, w.device(|sent.state.trace| - 1));
    }
  }
}
