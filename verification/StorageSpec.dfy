/** What every request to the storage proxy should do: one step on open files seen as arrays of bytes, and one reply
    (selfcode/recovery_storageproxyd/recovery_storageproxyd.c, lines 70-182, 253-268, 382-395 and 411-657). */
module StorageSpec {
  import opened Bytes
  import opened Codec
  import ByteFiles
  import Rpmb

  // ----- Commands, results and error numbers

  const FILE_DELETE: nat := 2
  const FILE_OPEN: nat := 4
  const FILE_CLOSE: nat := 6
  const FILE_READ: nat := 8
  const FILE_WRITE: nat := 10
  const FILE_GET_SIZE: nat := 12
  const FILE_SET_SIZE: nat := 14
  const RPMB_SEND: nat := 16
  const FILE_GET_MAX_SIZE: nat := 24

  const NO_ERROR: nat := 0
  const ERR_GENERIC: nat := 1
  const ERR_NOT_VALID: nat := 2
  const ERR_UNIMPLEMENTED: nat := 3
  const ERR_ACCESS: nat := 4
  const ERR_NOT_FOUND: nat := 5
  const ERR_EXIST: nat := 6

  const EPERM: nat := 1
  const ENOENT: nat := 2
  const EINTR: nat := 4
  const EBADF: nat := 9
  const EACCES: nat := 13
  const EEXIST: nat := 17
  const ENOTDIR: nat := 20
  const EINVAL: nat := 22
  const ENAMETOOLONG: nat := 36

  const HEADER: nat := 24
  const REQUEST_ROOM: nat := 4096
  const MAX_READ_SIZE: nat := 4096
  const MMC_BLOCK_SIZE: nat := 512
  const MAX_FILE_SIZE: nat := 0x100_0000_0000

  function Translate(errno: nat): nat {
    if errno == 0 then NO_ERROR
    else if errno == ENOENT then ERR_NOT_FOUND
    else if errno == EEXIST then ERR_EXIST
    else if errno == EACCES || errno == EPERM then ERR_ACCESS
    else if errno == EBADF || errno == EINVAL || errno == ENOTDIR || errno == ENAMETOOLONG then ERR_NOT_VALID
    else ERR_GENERIC
  }

  // ----- Messages

  datatype Header = Header(cmd: nat, opId: nat, flags: nat, size: nat, result: nat, reserved: nat) {
    function Bytes(): (b: seq<byte>)
      ensures |b| == HEADER
    {
      Le(cmd, 4) + Le(opId, 4) + Le(flags, 4) + Le(size, 4) + Le(result, 4) + Le(reserved, 4)
    }
  }

  function HeaderOf(s: seq<byte>): Header
    requires |s| >= HEADER
  {
    Header(LeField(s, 0, 4), LeField(s, 4, 4), LeField(s, 8, 4), LeField(s, 12, 4), LeField(s, 16, 4),
        LeField(s, 20, 4))
  }

  datatype Request = Request(head: Header, body: seq<byte>)

  /** ipc_get_msg: what does not fit the buffer is cut off, and the size field must agree with what came. */
  function GetMessage(packet: seq<byte>): Option<Request> {
    var n := if |packet| <= HEADER + REQUEST_ROOM then |packet| else HEADER + REQUEST_ROOM;
    if n < HEADER then None
    else
      var head := HeaderOf(packet);
      if head.size != n then None else Some(Request(head, packet[HEADER..n]))
  }

  function Answered(cmd: nat): nat {
    if cmd % 2 == 0 then cmd + 1 else cmd
  }

  /** ipc_respond: the header of the request, with the response bit, the new size and the result, and the payload. */
  function Reply(head: Header, result: nat, payload: seq<byte>): seq<byte> {
    head.(cmd := Answered(head.cmd), size := HEADER + |payload|, result := result).Bytes() + payload
  }

  // ----- Open files

  /** Open handles, the file each one stands for, and what every file holds. Two handles may name one file. */
  datatype Store = Store(handles: map<nat, nat>, files: map<nat, seq<byte>>) {
    predicate Open(fd: nat) {
      fd in handles && handles[fd] in files
    }

    function File(fd: nat): seq<byte>
      requires Open(fd)
    {
      files[handles[fd]]
    }

    function Put(fd: nat, f: seq<byte>): Store
      requires Open(fd)
    {
      Store(handles, files[handles[fd] := f])
    }
  }

  /** A failure the operating system decides on: an error number, after part of a transfer. */
  datatype Fault = NoFault | Fault(errno: nat, done: nat)

  datatype Written = Written(store: Store, errno: Option<nat>)

  function WriteFile(s: Store, fd: nat, off: int, data: seq<byte>, fault: Fault): Written {
    if data == [] then Written(s, None)
    else if !s.Open(fd) then Written(s, Some(EBADF))
    else if off < 0 then Written(s, Some(EINVAL))
    else
      match fault
      case NoFault => Written(s.Put(fd, ByteFiles.Write(s.File(fd), off, data)), None)
      case Fault(errno, done) =>
        var part := if done <= |data| then data[..done] else data;
        Written(s.Put(fd, ByteFiles.Write(s.File(fd), off, part)), Some(errno))
  }

  datatype Got = Got(data: seq<byte>, errno: Option<nat>)

  function ReadFile(s: Store, fd: nat, off: int, n: nat, fault: Fault): Got {
    if n == 0 then Got([], None)
    else if !s.Open(fd) then Got([], Some(EBADF))
    else if off < 0 then Got([], Some(EINVAL))
    else if fault.Fault? then Got([], Some(fault.errno))
    else Got(ByteFiles.Read(s.File(fd), off, n), None)
  }

  function ResizeFile(s: Store, fd: nat, size: int, fault: Fault): Written {
    if !s.Open(fd) then Written(s, Some(EBADF))
    else if size < 0 then Written(s, Some(EINVAL))
    else if fault.Fault? then Written(s, Some(fault.errno))
    else Written(s.Put(fd, ByteFiles.Resize(s.File(fd), size)), None)
  }

  function CloseFile(s: Store, fd: nat, fault: Fault): Written {
    if fd !in s.handles then Written(s, Some(EBADF))
    else Written(Store(s.handles - {fd}, s.files), if fault.Fault? then Some(fault.errno) else None)
  }

  /** fstat: the size of an open file. */
  function StatFile(s: Store, fd: nat, fault: Fault): Option<nat> {
    if s.Open(fd) && fault.NoFault? then Some(|s.File(fd)|) else None
  }

  function StatError(s: Store, fd: nat, fault: Fault): nat {
    if s.Open(fd) && fault.Fault? then fault.errno else EBADF
  }

  function AsInt64(n: nat): int {
    if n < 0x8000_0000_0000_0000 then n else n - 0x1_0000_0000_0000_0000
  }

  // ----- One request

  datatype State = State(store: Store, rpmb: Rpmb.State)

  datatype PathAnswer = PathAnswer(store: Store, result: nat, payload: seq<byte>)

  /** What the model takes from outside: opening and deleting files by name, and the RPMB device. */
  datatype World = World(paths: (Store, nat, seq<byte>) -> PathAnswer, device: Rpmb.Device)

  datatype Stepped = Stepped(state: State, result: nat, payload: seq<byte>)

  function Refuse(st: State): Stepped {
    Stepped(st, ERR_NOT_VALID, [])
  }

  function ResultOf(errno: Option<nat>): nat {
    match errno
    case None => NO_ERROR
    case Some(e) => Translate(e)
  }

  function StepRead(st: State, body: seq<byte>, fault: Fault): Stepped {
    if |body| != 16 || LeField(body, 4, 4) > MAX_READ_SIZE then Refuse(st)
    else
      var got := ReadFile(st.store, LeField(body, 0, 4), AsInt64(LeField(body, 8, 8)), LeField(body, 4, 4), fault);
      Stepped(st, ResultOf(got.errno), got.data)
  }

  function StepWrite(st: State, body: seq<byte>, fault: Fault): Stepped {
    if |body| < 16 then Refuse(st)
    else
      var w := WriteFile(st.store, LeField(body, 8, 4), AsInt64(LeField(body, 0, 8)), body[16..], fault);
      Stepped(st.(store := w.store), ResultOf(w.errno), [])
  }

  function StepGetSize(st: State, body: seq<byte>, fault: Fault): Stepped {
    if |body| != 4 then Refuse(st)
    else
      match StatFile(st.store, LeField(body, 0, 4), fault)
      case Some(size) => Stepped(st, NO_ERROR, Le(size, 8))
      case None => Stepped(st, Translate(StatError(st.store, LeField(body, 0, 4), fault)), [])
  }

  function StepGetMaxSize(st: State, body: seq<byte>, fault: Fault): Stepped {
    if |body| != 4 then Refuse(st)
    else
      match StatFile(st.store, LeField(body, 0, 4), fault)
      case Some(size) => Stepped(st, NO_ERROR, Le(MAX_FILE_SIZE, 8))
      case None => Stepped(st, Translate(StatError(st.store, LeField(body, 0, 4), fault)), [])
  }

  function StepSetSize(st: State, body: seq<byte>, fault: Fault): Stepped {
    if |body| != 16 then Refuse(st)
    else
      var w := ResizeFile(st.store, LeField(body, 8, 4), AsInt64(LeField(body, 0, 8)), fault);
      Stepped(st.(store := w.store), ResultOf(w.errno), [])
  }

  function StepClose(st: State, body: seq<byte>, fault: Fault): Stepped {
    if |body| != 4 then Refuse(st)
    else
      var w := CloseFile(st.store, LeField(body, 0, 4), fault);
      Stepped(st.(store := w.store), ResultOf(w.errno), [])
  }

  /** The sizes an RPMB request names: the payload is exactly the two parts to write, all are whole blocks,
      and the part to read fits the buffer. */
  predicate AcceptsRpmb(body: seq<byte>) {
    && |body| >= 16
    && |body| == 16 + LeField(body, 0, 4) + LeField(body, 4, 4)
    && LeField(body, 0, 4) % MMC_BLOCK_SIZE == 0
    && LeField(body, 4, 4) % MMC_BLOCK_SIZE == 0
    && LeField(body, 8, 4) % MMC_BLOCK_SIZE == 0
    && LeField(body, 8, 4) <= Rpmb.READ_BUFFER
  }

  function StepRpmb(device: Rpmb.Device, st: State, body: seq<byte>): Stepped {
    if !AcceptsRpmb(body) then Refuse(st)
    else
      var middle, read := 16 + LeField(body, 0, 4), LeField(body, 8, 4);
      var sent := Rpmb.Send(device, st.rpmb, body[16..middle], body[middle..], read);
      var now := st.(rpmb := sent.state);
      if !sent.ok then Stepped(now, ERR_GENERIC, [])
      else Stepped(now, NO_ERROR, if read <= |sent.state.buffer| then sent.state.buffer[..read] else [])
  }

  function StepPath(w: World, st: State, r: Request): Stepped {
    var a := w.paths(st.store, r.head.cmd, r.body);
    Stepped(st.(store := a.store), a.result, a.payload)
  }

  function Step(w: World, st: State, r: Request, fault: Fault): Stepped {
    var cmd := r.head.cmd;
    if cmd == RPMB_SEND then StepRpmb(w.device, st, r.body)
    else if cmd == FILE_DELETE || cmd == FILE_OPEN then StepPath(w, st, r)
    else if cmd == FILE_CLOSE then StepClose(st, r.body, fault)
    else if cmd == FILE_READ then StepRead(st, r.body, fault)
    else if cmd == FILE_WRITE then StepWrite(st, r.body, fault)
    else if cmd == FILE_GET_SIZE then StepGetSize(st, r.body, fault)
    else if cmd == FILE_SET_SIZE then StepSetSize(st, r.body, fault)
    else if cmd == FILE_GET_MAX_SIZE then StepGetMaxSize(st, r.body, fault)
    else Stepped(st, ERR_UNIMPLEMENTED, [])
  }

  // ----- Runs

  datatype Done = Done(state: State, replies: seq<seq<byte>>)

  /** Serving packets until one is malformed or the peer takes no more replies: room counts those it takes. */
  function Run(w: World, st: State, packets: seq<seq<byte>>, faults: seq<Fault>, room: nat): Done
    requires |faults| == |packets|
    decreases |packets|
  {
    if packets == [] || GetMessage(packets[0]).None? then Done(st, [])
    else
      var r := GetMessage(packets[0]).value;
      var now := Step(w, st, r, faults[0]);
      if room == 0 then Done(now.state, [])
      else
        var rest := Run(w, now.state, packets[1..], faults[1..], room - 1);
        Done(rest.state, [Reply(r.head, now.result, now.payload)] + rest.replies)
  }

  /** How many packets come before the first malformed one. */
  function WellFormed(packets: seq<seq<byte>>): (n: nat)
    ensures n <= |packets|
  {
    if packets == [] || GetMessage(packets[0]).None? then 0 else 1 + WellFormed(packets[1..])
  }

  lemma {:induction false} WellFormedAt(packets: seq<seq<byte>>, k: nat)
    requires k < WellFormed(packets)
    ensures GetMessage(packets[k]).Some?
  {
    if k > 0 {
      WellFormedAt(packets[1..], k - 1);
    }
  }

  /** A reply belongs to a request: the response bit is set, the operation is the same, and the size is its length. */
  ghost predicate Answers(reply: seq<byte>, packet: seq<byte>) {
    && |reply| >= HEADER && GetMessage(packet).Some?
    && var asked, told := GetMessage(packet).value.head, HeaderOf(reply);
    && told.cmd == Answered(asked.cmd) && told.opId == asked.opId && told.flags == asked.flags
    && told.reserved == asked.reserved && told.size == |reply|
  }

  /** Opening and deleting answer with a result and at most a handle. */
  ghost predicate ShortAnswers(w: World) {
    forall s, cmd, body :: |w.paths(s, cmd, body).payload| <= 4 && w.paths(s, cmd, body).result < 0x1_0000_0000
  }

  lemma PartsOfHeader(h: Header, tail: seq<byte>)
    ensures var s := h.Bytes() + tail;
            && s[0..4] == Le(h.cmd, 4) && s[4..8] == Le(h.opId, 4) && s[8..12] == Le(h.flags, 4)
            && s[12..16] == Le(h.size, 4) && s[16..20] == Le(h.result, 4) && s[20..24] == Le(h.reserved, 4)
  {
    hide Le;
  }

  predicate Fits32(h: Header) {
    h.cmd < 0x1_0000_0000 && h.opId < 0x1_0000_0000 && h.flags < 0x1_0000_0000
    && h.size < 0x1_0000_0000 && h.result < 0x1_0000_0000 && h.reserved < 0x1_0000_0000
  }

  /** A header is read back from its bytes. */
  lemma HeaderRoundTrip(h: Header, tail: seq<byte>)
    requires Fits32(h)
    ensures HeaderOf(h.Bytes() + tail) == h
  {
    hide Le, Value, Header.Bytes;
    PartsOfHeader(h, tail);
    Pow256Values();
    ValueOfFittingLe(h.cmd, 4);
    ValueOfFittingLe(h.opId, 4);
    ValueOfFittingLe(h.flags, 4);
    ValueOfFittingLe(h.size, 4);
    ValueOfFittingLe(h.result, 4);
    ValueOfFittingLe(h.reserved, 4);
  }

  lemma HeaderFits(s: seq<byte>)
    requires |s| >= HEADER
    ensures Fits32(HeaderOf(s))
  {
    hide Value;
    Pow256Values();
    ValueBound(s[0..4]);
    ValueBound(s[4..8]);
    ValueBound(s[8..12]);
    ValueBound(s[12..16]);
    ValueBound(s[16..20]);
    ValueBound(s[20..24]);
  }

  lemma ReplyAnswers(packet: seq<byte>, result: nat, payload: seq<byte>)
    requires GetMessage(packet).Some? && result < 0x1_0000_0000 && |payload| < 0x1000_0000
    ensures Answers(Reply(GetMessage(packet).value.head, result, payload), packet)
    ensures HeaderOf(Reply(GetMessage(packet).value.head, result, payload)).result == result
    ensures Reply(GetMessage(packet).value.head, result, payload)[HEADER..] == payload
  {
    hide Header.Bytes, HeaderOf;
    HeaderFits(packet);
    var h := HeaderOf(packet).(cmd := Answered(HeaderOf(packet).cmd), size := HEADER + |payload|, result := result);
    HeaderRoundTrip(h, payload);
  }

  lemma StepFits(w: World, st: State, r: Request, fault: Fault)
    requires ShortAnswers(w)
    ensures |Step(w, st, r, fault).payload| <= 4096 && Step(w, st, r, fault).result < 0x1_0000_0000
  {
    hide ByteFiles.Read, ByteFiles.Write, ByteFiles.Resize, Rpmb.Send, Value, AcceptsRpmb, WriteFile, ResizeFile,
         CloseFile;
    if r.head.cmd == RPMB_SEND {
      RpmbFits(w.device, st, r.body);
    }
  }

  lemma RpmbFits(device: Rpmb.Device, st: State, body: seq<byte>)
    ensures |StepRpmb(device, st, body).payload| <= 4096
  {
    hide Rpmb.Send, Value;
  }

  /** The state after k packets, and the reply to packet k. */
  function After(w: World, st: State, packets: seq<seq<byte>>, faults: seq<Fault>, k: nat): State
    requires |faults| == |packets| && k <= WellFormed(packets)
    decreases k
  {
    if k == 0 then st
    else
      var r := GetMessage(packets[0]).value;
      After(w, Step(w, st, r, faults[0]).state, packets[1..], faults[1..], k - 1)
  }

  /** Over any run there is exactly one reply to each well-formed request, in order, up to those the peer takes.
      Each carries the response bit, the same operation and its own length, and the result and the payload of
      the step that its request makes on the state its predecessors left. */
  lemma {:induction false} OneReplyPerRequest(w: World, st: State, packets: seq<seq<byte>>, faults: seq<Fault>,
      room: nat)
    requires |faults| == |packets| && ShortAnswers(w)
    ensures var replies := Run(w, st, packets, faults, room).replies;
            |replies| == if room <= WellFormed(packets) then room else WellFormed(packets)
    ensures forall k :: 0 <= k < |Run(w, st, packets, faults, room).replies| ==>
              RepliesTo(w, st, packets, faults, k, Run(w, st, packets, faults, room).replies[k])
    decreases |packets|
  {
    hide Step, GetMessage, Reply, Answers;
    if packets != [] && GetMessage(packets[0]).Some? && room > 0 {
      var r := GetMessage(packets[0]).value;
      var now := Step(w, st, r, faults[0]);
      var rest := Run(w, now.state, packets[1..], faults[1..], room - 1);
      OneReplyPerRequest(w, now.state, packets[1..], faults[1..], room - 1);
      StepFits(w, st, r, faults[0]);
      ReplyAnswers(packets[0], now.result, now.payload);
      var replies := Run(w, st, packets, faults, room).replies;
      forall k | 0 <= k < |replies|
        ensures RepliesTo(w, st, packets, faults, k, replies[k])
      {
        if k > 0 {
          assert RepliesTo(w, now.state, packets[1..], faults[1..], k - 1, rest.replies[k - 1]);
        }
      }
    }
  }

  ghost predicate RepliesTo(w: World, st: State, packets: seq<seq<byte>>, faults: seq<Fault>, k: nat, reply: seq<byte>)
    requires |faults| == |packets|
  {
    && k < WellFormed(packets) && Answers(reply, packets[k])
    && var now := Step(w, After(w, st, packets, faults, k), GetMessage(packets[k]).value, faults[k]);
    HeaderOf(reply).result == now.result && reply[HEADER..] == now.payload
  }

  // ----- What the requests do to the files

  /** The body of a write or a change of size, and of a read. */
  function WriteBody(off: nat, fd: nat, data: seq<byte>): seq<byte> {
    Le(off, 8) + Le(fd, 4) + Le(0, 4) + data
  }

  function ReadBody(fd: nat, size: nat, off: nat): seq<byte> {
    Le(fd, 4) + Le(size, 4) + Le(off, 8)
  }

  lemma WriteBodyFields(off: nat, fd: nat, data: seq<byte>)
    requires off < 0x1_0000_0000_0000_0000 && fd < 0x1_0000_0000
    ensures var b := WriteBody(off, fd, data);
            |b| == 16 + |data| && LeField(b, 0, 8) == off && LeField(b, 8, 4) == fd && b[16..] == data
  {
    hide Value, Le;
    var b := WriteBody(off, fd, data);
    assert b[0..8] == Le(off, 8) && b[8..12] == Le(fd, 4);
    Pow256Values();
    ValueOfFittingLe(off, 8);
    ValueOfFittingLe(fd, 4);
  }

  lemma ReadBodyFields(fd: nat, size: nat, off: nat)
    requires off < 0x1_0000_0000_0000_0000 && fd < 0x1_0000_0000 && size < 0x1_0000_0000
    ensures var b := ReadBody(fd, size, off);
            |b| == 16 && LeField(b, 0, 4) == fd && LeField(b, 4, 4) == size && LeField(b, 8, 8) == off
  {
    hide Value, Le;
    var b := ReadBody(fd, size, off);
    assert b[0..4] == Le(fd, 4) && b[4..8] == Le(size, 4) && b[8..16] == Le(off, 8);
    Pow256Values();
    ValueOfFittingLe(off, 8);
    ValueOfFittingLe(fd, 4);
    ValueOfFittingLe(size, 4);
  }

  /** What a write request stored is what a read request for the same place returns, through any handle of the file. */
  lemma WriteThenRead(st: State, off: nat, fd: nat, other: nat, data: seq<byte>)
    requires fd < 0x1_0000_0000 && other < 0x1_0000_0000 && off < 0x8000_0000_0000_0000 && |data| <= MAX_READ_SIZE
    requires st.store.Open(fd) && st.store.Open(other) && st.store.handles[fd] == st.store.handles[other]
    ensures var w := StepWrite(st, WriteBody(off, fd, data), NoFault);
            && w.result == NO_ERROR
            && StepRead(w.state, ReadBody(other, |data|, off), NoFault) == Stepped(w.state, NO_ERROR, data)
  {
    hide ByteFiles.Write, ByteFiles.Read, WriteBody, ReadBody, LeField;
    WriteBodyFields(off, fd, data);
    ReadBodyFields(other, |data|, off);
    ByteFiles.ReadBack(st.store.File(fd), off, data);
  }

  /** A write that failed part way is repaired by doing it again. */
  lemma RetryRepairs(s: Store, fd: nat, off: int, data: seq<byte>, fault: Fault)
    ensures WriteFile(WriteFile(s, fd, off, data, fault).store, fd, off, data, NoFault) ==
            WriteFile(s, fd, off, data, NoFault)
  {
    hide ByteFiles.Write;
    if data != [] && s.Open(fd) && off >= 0 {
      var f := s.File(fd);
      var part := if fault.NoFault? then data else if fault.done <= |data| then data[..fault.done] else data;
      WriteOver(f, off, part, data[|part|..]);
      assert part + data[|part|..] == data;
      assert s.Put(fd, ByteFiles.Write(f, off, part)).Put(fd, ByteFiles.Write(f, off, data)) ==
             s.Put(fd, ByteFiles.Write(f, off, data));
    }
  }

  lemma WriteOver(f: seq<byte>, off: nat, a: seq<byte>, b: seq<byte>)
    ensures ByteFiles.Write(ByteFiles.Write(f, off, a), off, a + b) == ByteFiles.Write(f, off, a + b)
  {
    var twice, once := ByteFiles.Write(ByteFiles.Write(f, off, a), off, a + b), ByteFiles.Write(f, off, a + b);
    forall i: nat
      ensures ByteFiles.ByteAt(twice, i) == ByteFiles.ByteAt(once, i)
    {
      hide ByteFiles.Write;
      ByteFiles.WriteAt(f, off, a, i);
      ByteFiles.WriteAt(ByteFiles.Write(f, off, a), off, a + b, i);
      ByteFiles.WriteAt(f, off, a + b, i);
    }
    ByteFiles.SameBytes(twice, once);
  }

  /** The file a request may change, if any. */
  function Target(st: State, r: Request): Option<nat> {
    if (r.head.cmd == FILE_WRITE || r.head.cmd == FILE_SET_SIZE) && |r.body| >= 16
        && st.store.Open(LeField(r.body, 8, 4))
    then Some(st.store.handles[LeField(r.body, 8, 4)]) else None
  }

  predicate ByPath(cmd: nat) {
    cmd == FILE_OPEN || cmd == FILE_DELETE
  }

  /** A request changes no file but the one its handle names, and no handle but the one it closes. */
  lemma OthersUntouched(w: World, st: State, r: Request, fault: Fault)
    requires !ByPath(r.head.cmd)
    ensures var now := Step(w, st, r, fault).state.store;
            && now.files.Keys == st.store.files.Keys
            && (forall id :: id in now.files && Some(id) != Target(st, r) ==> now.files[id] == st.store.files[id])
            && (r.head.cmd != FILE_CLOSE ==> now.handles == st.store.handles)
            && (forall fd :: fd in st.store.handles && (|r.body| != 4 || fd != LeField(r.body, 0, 4)) ==>
                  fd in now.handles && now.handles[fd] == st.store.handles[fd])
  {
    hide ByteFiles.Read, ByteFiles.Write, ByteFiles.Resize, Rpmb.Send, LeField, Translate, AcceptsRpmb;
  }

  /** A request the proxy itself turns down, without a failure of the operating system, leaves everything as it was. */
  lemma ErrorChangesNothing(w: World, st: State, r: Request)
    requires !ByPath(r.head.cmd) && r.head.cmd != RPMB_SEND
    ensures Step(w, st, r, NoFault).result != NO_ERROR ==> Step(w, st, r, NoFault).state == st
  {
    hide ByteFiles.Read, ByteFiles.Write, ByteFiles.Resize, LeField;
  }

  /** Sizes are reported as writes and changes of size leave them. */
  lemma SizeIsReported(st: State, fd: nat, off: nat, data: seq<byte>)
    requires fd < 0x1_0000_0000 && off < 0x8000_0000_0000_0000 && st.store.Open(fd)
    ensures var w := StepWrite(st, WriteBody(off, fd, data), NoFault).state;
            var size := |st.store.File(fd)|;
            StepGetSize(w, Le(fd, 4), NoFault) ==
            Stepped(w, NO_ERROR, Le(if data != [] && off + |data| > size then off + |data| else size, 8))
    ensures var w := StepSetSize(st, WriteBody(off, fd, []), NoFault).state;
            StepGetSize(w, Le(fd, 4), NoFault) == Stepped(w, NO_ERROR, Le(off, 8))
  {
    hide LeField, WriteBody, Le, Value;
    WriteBodyFields(off, fd, data);
    WriteBodyFields(off, fd, []);
    HandleField(fd);
  }

  lemma HandleField(fd: nat)
    requires fd < 0x1_0000_0000
    ensures LeField(Le(fd, 4), 0, 4) == fd
  {
    hide Value, Le;
    Pow256Values();
    ValueOfFittingLe(fd, 4);
    assert Le(fd, 4)[0..4] == Le(fd, 4);
  }

  // ----- What an RPMB request puts on the wire

  /** A request with wrong sizes issues no call. An accepted one issues calls of the known shape, whose two slices
      are exactly the payload, as long as the request says. */
  lemma RpmbTrace(device: Rpmb.Device, st: State, body: seq<byte>)
    returns (reliable: seq<byte>, plain: seq<byte>, i: nat, j: nat)
    ensures !AcceptsRpmb(body)
        ==> StepRpmb(device, st, body).state == st && StepRpmb(device, st, body).result == ERR_NOT_VALID
    ensures AcceptsRpmb(body) ==>
              var t := StepRpmb(device, st, body).state.rpmb.trace;
              && reliable + plain == body[16..] && |reliable| == LeField(body, 0, 4) && |plain| == LeField(body, 4, 4)
              && |st.rpmb.trace| <= |t| && t[..|st.rpmb.trace|] == st.rpmb.trace
              && Rpmb.Shape(t[|st.rpmb.trace|..], reliable, plain, LeField(body, 8, 4), i, j)
  {
    hide LeField, Rpmb.Send, Rpmb.Shape;
    reliable, plain, i, j := [], [], 0, 0;
    if AcceptsRpmb(body) {
      var middle := 16 + LeField(body, 0, 4);
      reliable, plain := body[16..middle], body[middle..];
      i, j := Rpmb.TraceShape(device, st.rpmb, reliable, plain, LeField(body, 8, 4));
    }
  }
}
