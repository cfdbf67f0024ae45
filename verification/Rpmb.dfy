/** Sending one RPMB request as SCSI commands
    (selfcode/recovery_storageproxyd/recovery_storageproxyd.c, lines 271-357). */
module Rpmb {
  import opened Bytes

  const READ_BUFFER: nat := 4096
  const WRITE_RETRY: nat := 1
  const READ_RETRY: nat := 3

  // ----- Commands and their results

  /** One SG_IO call: the command descriptor block, the direction, the number of bytes to move, and those to send. */
  datatype Call = Call(cdb: seq<byte>, toDevice: bool, length: nat, data: seq<byte>)

  /** Refused: the ioctl itself fails. Otherwise the status codes, the sense bytes written, and the bytes read. */
  datatype Result = Refused | Ran(status: nat, host: nat, driver: nat, sense: seq<byte>, data: seq<byte>)

  /** The answer of the device to each SG_IO call, by the number of calls before it. */
  type Device = nat -> Result

  datatype Verdict = Good | Again | Bad

  function Low(b: byte, bits: nat): nat
    requires bits > 0
  {
    b % bits
  }

  /** The sense key and the additional sense code, in the format that the first sense byte names. */
  function SenseKey(s: seq<byte>): nat
    requires |s| > 0
  {
    var format := Low(s[0], 0x80);
    if format >= 0x72 then (if |s| > 1 then Low(s[1], 0x10) else 0)
    else if format >= 0x70 && |s| > 2 then Low(s[2], 0x10)
    else 0
  }

  function SenseCode(s: seq<byte>): nat
    requires |s| > 0
  {
    var format := Low(s[0], 0x80);
    if format >= 0x72 then (if |s| > 2 then s[2] else 0)
    else if format >= 0x70 && |s| > 12 then s[12]
    else 0
  }

  function Check(r: Result): Verdict
    requires r.Ran?
  {
    if r.status == 0 && r.host == 0 && r.driver == 0 then Good
    else if |r.sense| > 0 && (SenseKey(r.sense) == 0 || SenseKey(r.sense) == 0x0F) then Good
    else if |r.sense| > 0 && SenseKey(r.sense) == 6 && SenseCode(r.sense) == 0x29 then Again
    else Bad
  }

  function BigEndian(n: nat): seq<byte> {
    var b := Le(n, 4);
    [b[3], b[2], b[1], b[0]]
  }

  function Cdb(opcode: byte, length: nat): seq<byte> {
    [opcode, 0xEC, 0, 1, 0, 0] + BigEndian(length) + [0, 0]
  }

  function SendCall(data: seq<byte>): Call {
    Call(Cdb(0xB5, |data|), true, |data|, data)
  }

  function ReceiveCall(length: nat): Call {
    Call(Cdb(0xA2, length), false, length, [])
  }

  /** The block announces exactly the bytes the call moves, most significant byte first. */
  lemma CdbAnnouncesLength(opcode: byte, length: nat)
    requires length < 0x1_0000_0000
    ensures var c := Cdb(opcode, length); |c| == 12 && c[0] == opcode && Value([c[9], c[8], c[7], c[6]]) == length
  {
    Pow256Values();
    ValueOfFittingLe(length, 4);
    var c, b := Cdb(opcode, length), Le(length, 4);
    assert [c[9], c[8], c[7], c[6]] == b;
  }

  /** A sending command is SECURITY PROTOCOL OUT for the RPMB protocol with all of its data, a reading one
      SECURITY PROTOCOL IN; both announce the bytes they move, most significant byte first. */
  lemma CommandBlocks(data: seq<byte>, length: nat, a: byte, b: byte, c: byte, d: byte)
    requires a * 0x100_0000 + b * 0x1_0000 + c * 0x100 + d == length
    ensures |data| == length ==>
              SendCall(data) == Call([0xB5, 0xEC, 0, 1, 0, 0, a, b, c, d, 0, 0], true, length, data)
    ensures ReceiveCall(length) == Call([0xA2, 0xEC, 0, 1, 0, 0, a, b, c, d, 0, 0], false, length, [])
  {
    BigEndianIs(length, a, b, c, d);
    assert Cdb(0xB5, length) == [0xB5, 0xEC, 0, 1, 0, 0, a, b, c, d, 0, 0];
    assert Cdb(0xA2, length) == [0xA2, 0xEC, 0, 1, 0, 0, a, b, c, d, 0, 0];
  }

  lemma BigEndianIs(length: nat, a: byte, b: byte, c: byte, d: byte)
    requires a * 0x100_0000 + b * 0x1_0000 + c * 0x100 + d == length
    ensures BigEndian(length) == [a, b, c, d]
  {
    LeOfValue([d, c, b, a]);
    assert [d, c, b, a][1..] == [c, b, a] && [c, b, a][1..] == [b, a] && [b, a][1..] == [a];
    assert Value([a]) == a + 256 * Value([]);
    assert Value([b, a]) == b + 256 * Value([a]);
    assert Value([c, b, a]) == c + 256 * Value([b, a]);
    assert Value([d, c, b, a]) == length;
  }

  /** When a command is to be issued again: the device reports a unit attention (sense key 6) after a reset
      (code 0x29), found in bytes 1 and 2 of sense data of the descriptor format and in bytes 2 and 12 of the fixed
      format, as far as they were written. */
  lemma AgainIff(r: Result)
    requires r.Ran?
    ensures Check(r).Again? <==>
              && (r.status != 0 || r.host != 0 || r.driver != 0)
              && |r.sense| > 2
              && (r.sense[0] % 128 >= 0x72 ==> r.sense[1] % 16 == 6 && r.sense[2] == 0x29)
              && (r.sense[0] % 128 < 0x72 ==>
                    r.sense[0] % 128 >= 0x70 && |r.sense| > 12 && r.sense[2] % 16 == 6 && r.sense[12] == 0x29)
  {}

  /** A command counts as done when all codes are zero, or when the sense data, without which nothing is excused,
      hold no key other than 0 or 15. */
  lemma GoodIff(r: Result)
    requires r.Ran?
    ensures Check(r).Good? <==>
              || (r.status == 0 && r.host == 0 && r.driver == 0)
              || (&& |r.sense| > 0
                  && (r.sense[0] % 128 >= 0x72 && |r.sense| > 1 ==> r.sense[1] % 16 in [0, 15])
                  && (0x70 <= r.sense[0] % 128 < 0x72 && |r.sense| > 2 ==> r.sense[2] % 16 in [0, 15]))
  {}

  // ----- The calls one request makes

  /** How often a command is issued: again while the device asks for it and retries are left. */
  function Tries(device: Device, before: nat, retries: nat): (n: nat)
    ensures 1 <= n <= retries + 1
    decreases retries
  {
    var r := device(before);
    if r.Ran? && Check(r).Again? && retries > 0 then 1 + Tries(device, before + 1, retries - 1) else 1
  }

  function Repeat(c: Call, n: nat): (r: seq<Call>)
    ensures |r| == n && forall i :: 0 <= i < n ==> r[i] == c
  {
    if n == 0 then [] else [c] + Repeat(c, n - 1)
  }

  datatype State = State(trace: seq<Call>, buffer: seq<byte>)

  datatype Sent = Sent(state: State, ok: bool)

  /** A command that sends data, with its retries; an empty one is not issued. */
  function SendStage(device: Device, s: State, data: seq<byte>, retries: nat): Sent {
    if data == [] then Sent(s, true)
    else
      var n := Tries(device, |s.trace|, retries);
      Sent(State(s.trace + Repeat(SendCall(data), n), s.buffer), device(|s.trace| + n - 1).Ran?)
  }

  /** The bytes the device returned, at the front of the reply buffer. */
  function Received(buffer: seq<byte>, length: nat, r: Result): (b: seq<byte>)
    ensures |b| == |buffer|
  {
    if r.Refused? then buffer
    else
      var data := if |r.data| <= length then r.data else r.data[..length];
      if |data| <= |buffer| then Splice(buffer, 0, data) else buffer
  }

  function ReceiveStage(device: Device, s: State, length: nat): Sent {
    if length == 0 then Sent(s, true)
    else
      var r := device(|s.trace|);
      Sent(State(s.trace + [ReceiveCall(length)], Received(s.buffer, length, r)), r.Ran?)
  }

  /** The whole request: reliable write, write, read. It stops at the first call the device refuses. */
  function Send(device: Device, s: State, reliable: seq<byte>, plain: seq<byte>, read: nat): Sent {
    var first := SendStage(device, s, reliable, WRITE_RETRY);
    if !first.ok then first
    else
      var second := SendStage(device, first.state, plain, if reliable != [] then 0 else READ_RETRY);
      if !second.ok then second else ReceiveStage(device, second.state, read)
  }

  // ----- The shape of the trace

  ghost predicate AllAre(calls: seq<Call>, c: Call) {
    forall i :: 0 <= i < |calls| ==> calls[i] == c
  }

  /** What one request may put on the wire: i reliable writes, then writes up to j, then at most one read.
      Every repetition is the same call with the same bytes. */
  ghost predicate Shape(calls: seq<Call>, reliable: seq<byte>, plain: seq<byte>, read: nat, i: nat, j: nat) {
    && i <= j <= |calls| <= j + 1
    && AllAre(calls[..i], SendCall(reliable)) && i <= 2 && (reliable == [] ==> i == 0)
    && AllAre(calls[i..j], SendCall(plain)) && j - i <= (if reliable != [] then 1 else 4) && (plain == [] ==> j == i)
    && AllAre(calls[j..], ReceiveCall(read)) && (read == 0 ==> |calls| == j)
  }

  /** For every request and every sequence of answers, the calls have that shape; each command with something to
      move is issued at least once if no earlier call was refused. */
  lemma TraceShape(device: Device, s: State, reliable: seq<byte>, plain: seq<byte>, read: nat) returns (i: nat, j: nat)
    ensures var t := Send(device, s, reliable, plain, read).state.trace;
            |s.trace| <= |t| && t[..|s.trace|] == s.trace && Shape(t[|s.trace|..], reliable, plain, read, i, j)
    ensures Send(device, s, reliable, plain, read).ok ==>
              && (reliable != [] ==> i > 0) && (plain != [] ==> j > i)
              && (read > 0 ==> |Send(device, s, reliable, plain, read).state.trace| == |s.trace| + j + 1)
  {
    hide Send;
    var a, b, c := StagesCall(device, s, reliable, plain, read);
    i, j := |a|, |a| + |b|;
    var t := s.trace + (a + b + c);
    assert t[..|s.trace|] == s.trace && t[|s.trace|..] == a + b + c;
    ThreeParts(a, b, c);
  }

  lemma ThreeParts(a: seq<Call>, b: seq<Call>, c: seq<Call>)
    ensures var s := a + b + c; s[..|a|] == a && s[|a|..|a| + |b|] == b && s[|a| + |b|..] == c
  {}

  /** What each stage adds to the trace. */
  lemma StagesCall(device: Device, s: State, reliable: seq<byte>, plain: seq<byte>, read: nat)
    returns (a: seq<Call>, b: seq<Call>, c: seq<Call>)
    ensures Send(device, s, reliable, plain, read).state.trace == s.trace + (a + b + c)
    ensures AllAre(a, SendCall(reliable)) && |a| <= 2 && (reliable == [] ==> a == [])
    ensures AllAre(b, SendCall(plain)) && |b| <= (if reliable != [] then 1 else 4) && (plain == [] ==> b == [])
    ensures AllAre(c, ReceiveCall(read)) && |c| <= 1 && (read == 0 ==> c == [])
    ensures Send(device, s, reliable, plain, read).ok ==>
              (reliable != [] ==> a != []) && (plain != [] ==> b != []) && (read > 0 ==> c != [])
  {
    hide SendStage, ReceiveStage;
    var retries := if reliable != [] then 0 else READ_RETRY;
    var first := SendStage(device, s, reliable, WRITE_RETRY);
    a := StageCalls(device, s, reliable, WRITE_RETRY);
    b, c := [], [];
    if first.ok {
      var second := SendStage(device, first.state, plain, retries);
      b := StageCalls(device, first.state, plain, retries);
      if second.ok {
        c := if read == 0 then [] else [ReceiveCall(read)];
        ReceiveAddsOne(device, second.state, read);
      }
    }
    assert (s.trace + a) + b == s.trace + (a + b);
    assert (s.trace + (a + b)) + c == s.trace + (a + b + c);
  }

  /** What a sending stage adds to the trace. */
  lemma StageCalls(device: Device, s: State, data: seq<byte>, retries: nat) returns (calls: seq<Call>)
    ensures SendStage(device, s, data, retries).state.trace == s.trace + calls
    ensures AllAre(calls, SendCall(data)) && |calls| <= retries + 1 && (data == [] <==> calls == [])
    ensures data == [] ==> SendStage(device, s, data, retries).ok
  {
    calls := if data == [] then [] else Repeat(SendCall(data), Tries(device, |s.trace|, retries));
  }

  lemma ReceiveAddsOne(device: Device, s: State, length: nat)
    ensures ReceiveStage(device, s, length).state.trace == s.trace + if length == 0 then [] else [ReceiveCall(length)]
  {}

  /** A command is issued once more exactly when the device asked for it and a retry is left. */
  lemma {:induction false} RetriedWhileAsked(device: Device, before: nat, retries: nat)
    ensures var n := Tries(device, before, retries);
            && (forall k :: before <= k < before + n - 1 ==> device(k).Ran? && Check(device(k)).Again?)
            && (n <= retries ==> !(device(before + n - 1).Ran? && Check(device(before + n - 1)).Again?))
    decreases retries
  {
    hide Check;
    var r := device(before);
    if r.Ran? && Check(r).Again? && retries > 0 {
      RetriedWhileAsked(device, before + 1, retries - 1);
    }
  }

  /** As long as the device asks, all retries are used up. */
  lemma {:induction false} TriesUsedUp(device: Device, before: nat, retries: nat)
    requires forall k: nat :: before <= k < before + retries ==> device(k).Ran? && Check(device(k)).Again?
    ensures Tries(device, before, retries) == retries + 1
    decreases retries
  {
    hide Check;
    if retries > 0 {
      assert device(before).Ran? && Check(device(before)).Again?;
      TriesUsedUp(device, before + 1, retries - 1);
    }
  }

  /** A device that asks every time gets a reliable write twice and the write behind it once; without a reliable
      write it gets the write four times; a reading command is never repeated. */
  lemma RetriesAre(device: Device, s: State, reliable: seq<byte>, plain: seq<byte>, read: nat)
    requires forall k: nat :: device(k).Ran? && Check(device(k)).Again?
    ensures |Send(device, s, reliable, plain, read).state.trace| == |s.trace|
              + (if reliable != [] then 2 else 0)
              + (if plain == [] then 0 else if reliable != [] then 1 else 4)
              + (if read > 0 then 1 else 0)
  {
    hide Check, Cdb, Received;
    var retries := if reliable != [] then 0 else READ_RETRY;
    var first := SendStage(device, s, reliable, WRITE_RETRY);
    StageUsesUp(device, s, reliable, WRITE_RETRY);
    StageUsesUp(device, first.state, plain, retries);
    ReceiveAddsOne(device, SendStage(device, first.state, plain, retries).state, read);
  }

  lemma StageUsesUp(device: Device, s: State, data: seq<byte>, retries: nat)
    requires forall k: nat :: device(k).Ran? && Check(device(k)).Again?
    ensures var sent := SendStage(device, s, data, retries);
            sent.ok && |sent.state.trace| == |s.trace| + if data == [] then 0 else retries + 1
  {
    hide Check;
    TriesUsedUp(device, |s.trace|, retries);
  }

  lemma StageStops(device: Device, s: State, data: seq<byte>, retries: nat)
    ensures var sent := SendStage(device, s, data, retries);
            && |s.trace| <= |sent.state.trace|
            && (forall k :: |s.trace| <= k < |sent.state.trace| - 1 ==> device(k).Ran?)
            && (|s.trace| < |sent.state.trace| ==> sent.ok == device(|sent.state.trace| - 1).Ran?)
            && (|s.trace| == |sent.state.trace| ==> sent.ok)
  {
    hide Check;
    if data != [] {
      RetriedWhileAsked(device, |s.trace|, retries);
    }
  }

  /** A request succeeds exactly when none of its calls is refused, and after a refused call there is no other. */
  lemma StopsAtRefusal(device: Device, s: State, reliable: seq<byte>, plain: seq<byte>, read: nat)
    ensures var sent := Send(device, s, reliable, plain, read);
            && (forall k :: |s.trace| <= k < |sent.state.trace| - 1 ==> device(k).Ran?)
            && (sent.ok <==> forall k :: |s.trace| <= k < |sent.state.trace| ==> device(k).Ran?)
  {
    hide SendStage;
    var first := SendStage(device, s, reliable, WRITE_RETRY);
    StageStops(device, s, reliable, WRITE_RETRY);
    StageStops(device, first.state, plain, if reliable != [] then 0 else READ_RETRY);
  }

  // ----- What the device returned

  /** The reply buffer byte by byte: what was read, and behind it what stood there. */
  lemma ReceivedAt(buffer: seq<byte>, length: nat, r: Result)
    requires r.Ran? && length <= |buffer|
    ensures forall i :: 0 <= i < |buffer| ==>
              Received(buffer, length, r)[i] == if i < length && i < |r.data| then r.data[i] else buffer[i]
  {}

  lemma StageKeepsBuffer(device: Device, s: State, data: seq<byte>, retries: nat)
    ensures SendStage(device, s, data, retries).state.buffer == s.buffer
  {}

  lemma ReceiveBuffer(device: Device, s: State, length: nat)
    ensures var sent := ReceiveStage(device, s, length);
            && (length == 0 ==> sent.state == s && sent.ok)
            && (length > 0 ==> var n := |s.trace|;
                  && sent.state.trace == s.trace + [ReceiveCall(length)]
                  && sent.state.buffer == Received(s.buffer, length, device(n)) && sent.ok == device(n).Ran?)
  {}

  /** Sending leaves the reply buffer alone. A request that succeeds and reads ends with the reading call, and the
      buffer holds what that returned. */
  lemma BufferAfter(device: Device, s: State, reliable: seq<byte>, plain: seq<byte>, read: nat)
    ensures var sent := Send(device, s, reliable, plain, read);
            var n := |sent.state.trace|;
            && |s.trace| <= n && |sent.state.buffer| == |s.buffer|
            && (sent.ok && read == 0 ==> sent.state.buffer == s.buffer)
            && (sent.ok && read > 0 ==>
                  && n > |s.trace| && sent.state.trace[n - 1] == ReceiveCall(read) && device(n - 1).Ran?
                  && sent.state.buffer == Received(s.buffer, read, device(n - 1)))
  {
    hide SendStage, ReceiveStage, Received, ReceiveCall;
    var retries := if reliable != [] then 0 else READ_RETRY;
    var first := SendStage(device, s, reliable, WRITE_RETRY);
    var second := SendStage(device, first.state, plain, retries);
    StageKeepsBuffer(device, s, reliable, WRITE_RETRY);
    StageKeepsBuffer(device, first.state, plain, retries);
    StageStops(device, s, reliable, WRITE_RETRY);
    StageStops(device, first.state, plain, retries);
    ReceiveBuffer(device, second.state, read);
  }

  // ----- The program

  class Driver {
    const device: Device
    var trace: seq<Call>
    const buffer: array<byte>

    ghost function Now(): State
      reads this, buffer
    {
      State(trace, buffer[..])
    }

    constructor (device: Device)
      ensures this.device == device && fresh(buffer) && buffer.Length == READ_BUFFER
      ensures Now() == State([], seq(READ_BUFFER, _ => 0))
    {
      this.device := device;
      trace := [];
      buffer := new byte[READ_BUFFER](_ => 0);
    }

    /** One ioctl. */
    method SgIo(c: Call) returns (r: Result)
      modifies this, buffer
      ensures r == device(|old(trace)|)
      ensures trace == old(trace) + [c]
      ensures buffer[..] == if c.toDevice then old(buffer[..]) else Received(old(buffer[..]), c.length, r)
    {
      r := device(|trace|);
      trace := trace + [c];
      if !c.toDevice && r.Ran? {
        var data := if |r.data| <= c.length then r.data else r.data[..c.length];
        if |data| <= buffer.Length {
          StoreBytes(buffer, 0, data);
        }
      }
    }

    method SendWithRetries(data: seq<byte>, retries: nat) returns (ok: bool)
      requires data != []
      modifies this, buffer
      ensures Sent(Now(), ok) == SendStage(device, old(Now()), data, retries)
    {
      hide Check, Cdb, Received, Repeat;
      RepeatNone(SendCall(data));
      var retry := retries;
      ghost var done := 0;
      ghost var was, n := trace, Tries(device, |trace|, retries);
      while true
        invariant trace == was + Repeat(SendCall(data), done) && buffer[..] == old(buffer[..])
        invariant done + Tries(device, |trace|, retry) == n
        decreases retry
      {
        var r := SgIo(SendCall(data));
        RepeatOneMore(SendCall(data), done);
        done := done + 1;
        if r.Refused? {
          return false;
        }
        if !(Check(r).Again? && retry > 0) {
          return true;
        }
        retry := retry - 1;
      }
    }

    method SendUfsRpmb(reliable: seq<byte>, plain: seq<byte>, read: nat) returns (ok: bool)
      modifies this, buffer
      ensures Sent(Now(), ok) == Send(device, old(Now()), reliable, plain, read)
    {
      if reliable != [] {
        ok := SendWithRetries(reliable, WRITE_RETRY);
        if !ok {
          return;
        }
      }
      if plain != [] {
        ok := SendWithRetries(plain, if reliable != [] then 0 else READ_RETRY);
        if !ok {
          return;
        }
      }
      if read > 0 {
        var r := SgIo(ReceiveCall(read));
        if r.Refused? {
          return false;
        }
      }
      return true;
    }
  }

  lemma RepeatNone(c: Call)
    ensures Repeat(c, 0) == []
  {}

  lemma {:induction false} RepeatOneMore(c: Call, n: nat)
    ensures Repeat(c, n) + [c] == Repeat(c, n + 1)
  {
    if n > 0 {
      RepeatOneMore(c, n - 1);
    }
  }
}
