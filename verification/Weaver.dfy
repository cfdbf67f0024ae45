/** The weaver service over the security chip's call interface
    (selfcode/recovery_weaver/recovery_weaver.cpp, lines 108-142 and 150-304). */
module Weaver {
  import opened Bytes
  import opened Varints
  import opened Protobuf

  const GET_CONFIG: nat := 0
  const WRITE: nat := 1
  const READ: nat := 2

  /** What one call to the chip reports. */
  datatype Answer = Answer(ret: int, status: nat, reply: seq<byte>) {
    predicate Success() {
      ret >= 0 && status == 0
    }
  }

  /** The chip: a command, its arguments and the room for the reply. */
  type Chip = (nat, seq<byte>, nat) -> Answer

  datatype Status = OK | INCORRECT_KEY | THROTTLE | FAILED

  datatype Config = Config(slots: int, keySize: int, valueSize: int)

  datatype Response = Response(timeout: nat, value: seq<byte>, status: Status)

  /** Undefined: the reply does not fit the buffer, or a length in it wraps the position of the reading loop. */
  datatype Outcome<+T> = Done(value: T) | ServiceError(code: nat) | Undefined

  function AsInt32(n: nat): int {
    if n < 0x8000_0000 then n else n - TWO_32
  }

  function AsUint32(n: int): nat
    requires -0x8000_0000 <= n < 0x8000_0000
  {
    if n < 0 then n + TWO_32 else n
  }

  function StatusOf(error: nat): Status {
    if error == 0 then OK else if error == 1 then INCORRECT_KEY else if error == 2 then THROTTLE else FAILED
  }

  // ----- The meaning of a reply

  function ConfigFrom(a: Answer): Outcome<Config> {
    if !a.Success() then ServiceError(1)
    else if |a.reply| > 64 || Read(a.reply, 0).ending == Wrapped then Undefined
    else
      var items := Read(a.reply, 0).items;
      Done(Config(AsInt32(NumberFrom(items, 1, 0)), AsInt32(NumberFrom(items, 2, 0)), AsInt32(NumberFrom(items, 3, 0))))
  }

  function ResponseFrom(a: Answer): Outcome<Response> {
    if !a.Success() then Done(Response(0, [], FAILED))
    else if |a.reply| > 128 || Read(a.reply, 0).ending == Wrapped then Undefined
    else
      var items := Read(a.reply, 0).items;
      Done(Response(NumberFrom(items, 2, 0), DataFrom(a.reply, items, 3, []), StatusOf(NumberFrom(items, 1, 0))))
  }

  /** getConfig reports the last value the chip's message states for each of the three fields, and 0 for an
      absent one. */
  lemma ConfigOfMessage(a: Answer, fs: seq<Field>)
    requires a.Success() && a.reply == Message(fs) && |a.reply| <= 64 && AllWellFormed(fs)
    ensures ConfigFrom(a) ==
            Done(Config(AsInt32(LastNumber(fs, 1, 0)), AsInt32(LastNumber(fs, 2, 0)), AsInt32(LastNumber(fs, 3, 0))))
  {
    assert [] + Message(fs) == a.reply;
    ReadMessage([], fs);
    NumbersOfMessage(fs, 0, 1, 0);
    NumbersOfMessage(fs, 0, 2, 0);
    NumbersOfMessage(fs, 0, 3, 0);
  }

  /** read reports the last status, timeout and value the chip's message states. */
  lemma ResponseOfMessage(a: Answer, fs: seq<Field>)
    requires a.Success() && a.reply == Message(fs) && |a.reply| <= 128 && AllWellFormed(fs)
    ensures ResponseFrom(a) == Done(Response(LastNumber(fs, 2, 0), LastData(fs, 3, []), StatusOf(LastNumber(fs, 1, 0))))
  {
    assert [] + Message(fs) == a.reply;
    ReadMessage([], fs);
    NumbersOfMessage(fs, 0, 1, 0);
    NumbersOfMessage(fs, 0, 2, 0);
    DataOfMessage([], fs, 3, []);
  }

  /** The status read reports, by the error number the chip states last, 0 if it states none. */
  lemma StatusIs(error: nat)
    ensures StatusOf(error) == OK <==> error == 0
    ensures StatusOf(error) == INCORRECT_KEY <==> error == 1
    ensures StatusOf(error) == THROTTLE <==> error == 2
    ensures StatusOf(error) == FAILED <==> error >= 3
  {}

  /** A reply that becomes unreadable behind some fields reports what these fields state. */
  lemma RepliesUpToUnreadable(a: Answer, fs: seq<Field>, tail: seq<byte>)
    requires a.ret >= 0 && a.status == 0 && a.reply == Message(fs) + tail && AllWellFormed(fs) && Unreadable(tail)
    ensures |a.reply| <= 64 ==>
              ConfigFrom(a) ==
              Done(Config(AsInt32(LastNumber(fs, 1, 0)), AsInt32(LastNumber(fs, 2, 0)), AsInt32(LastNumber(fs, 3, 0))))
    ensures |a.reply| <= 128 ==>
              ResponseFrom(a) ==
              Done(Response(LastNumber(fs, 2, 0), LastData(fs, 3, []), StatusOf(LastNumber(fs, 1, 0))))
  {
    hide Read, Unreadable, Message, Copied, StatusOf, NumberFrom, DataFrom, LastNumber, LastData, ItemsOf,
         AllWellFormed, AsInt32;
    if |a.reply| <= 128 {
      ReadUpToUnreadable(fs, tail);
      NumbersOfMessage(fs, 0, 1, 0);
      NumbersOfMessage(fs, 0, 2, 0);
      NumbersOfMessage(fs, 0, 3, 0);
      assert [] + Message(fs) + tail == a.reply;
      DataOfFields([], fs, tail, 3, []);
    }
  }

  /** A call that fails, or that the chip answers with a status other than 0, is an error of getConfig and a
      failed read; otherwise nothing but a reply that is too long, or a length that wraps, keeps either from
      an answer. */
  lemma FailuresAre(a: Answer)
    ensures ConfigFrom(a) == ServiceError(1) <==> a.ret < 0 || a.status != 0
    ensures a.ret < 0 || a.status != 0 ==> ResponseFrom(a) == Done(Response(0, [], FAILED))
    ensures ConfigFrom(a).Undefined? <==>
              a.ret >= 0 && a.status == 0 && (|a.reply| > 64 || Read(a.reply, 0).ending == Wrapped)
    ensures ResponseFrom(a).Undefined? <==>
              a.ret >= 0 && a.status == 0 && (|a.reply| > 128 || Read(a.reply, 0).ending == Wrapped)
  {
    hide Read;
  }

  // ----- The requests

  function ReadFields(slot: int, key: seq<byte>): seq<Field>
    requires -0x8000_0000 <= slot < 0x8000_0000
  {
    [NumericField(1, AsUint32(slot)), BinaryField(2, key)]
  }

  function WriteFields(slot: int, key: seq<byte>, value: seq<byte>): seq<Field>
    requires -0x8000_0000 <= slot < 0x8000_0000
  {
    [NumericField(1, AsUint32(slot)), BinaryField(2, key), BinaryField(3, value)]
  }

  lemma MessageOfTwo(f: Field, g: Field)
    ensures Message([f, g]) == f.Bytes() + g.Bytes()
  {
    hide Field.Bytes;
    assert [f, g][1..] == [g] && [g][1..] == [];
    assert Message([g]) == g.Bytes() + [];
  }

  lemma MessageOfThree(f: Field, g: Field, h: Field)
    ensures Message([f, g, h]) == f.Bytes() + g.Bytes() + h.Bytes()
  {
    hide Field.Bytes;
    assert [f, g, h][1..] == [g, h];
    MessageOfTwo(g, h);
  }

  /** The bytes of both requests: the slot as field 1, the key as field 2 and the value as field 3. */
  lemma RequestsAre(slot: int, key: seq<byte>, value: seq<byte>)
    requires -0x8000_0000 <= slot < 0x8000_0000
    requires |key| == 16 && |value| == 16
    ensures var v := Varint(if slot < 0 then slot + 0x1_0000_0000 else slot);
            && Message(ReadFields(slot, key)) == [8] + v + [18, 16] + key
            && Message(WriteFields(slot, key, value)) == [8] + v + [18, 16] + key + [26, 16] + value
  {
    var v := Varint(AsUint32(slot));
    var f, g, h := NumericField(1, AsUint32(slot)), BinaryField(2, key), BinaryField(3, value);
    assert Varint(8) == [8] && Varint(18) == [18] && Varint(26) == [26] && Varint(16) == [16];
    assert f.Bytes() == [8] + v && g.Bytes() == [18] + [16] + key && h.Bytes() == [26] + [16] + value;
    hide *;
    MessageOfTwo(f, g);
    MessageOfThree(f, g, h);
    assert ReadFields(slot, key) == [f, g] && WriteFields(slot, key, value) == [f, g, h] by {
      FieldsAre(slot, key, value);
    }
    assert [8] + v + ([18] + [16] + key) == [8] + v + [18, 16] + key;
    assert [8] + v + [18, 16] + key + ([26] + [16] + value) == [8] + v + [18, 16] + key + [26, 16] + value;
  }

  lemma FieldsAre(slot: int, key: seq<byte>, value: seq<byte>)
    requires -0x8000_0000 <= slot < 0x8000_0000
    ensures ReadFields(slot, key) == [NumericField(1, AsUint32(slot)), BinaryField(2, key)]
    ensures WriteFields(slot, key, value) ==
            [NumericField(1, AsUint32(slot)), BinaryField(2, key), BinaryField(3, value)]
  {}

  /** How long the two kinds of fields in a request are. */
  lemma FieldLengths(slot: int, tag: nat, data: seq<byte>)
    requires -0x8000_0000 <= slot < 0x8000_0000
    requires tag < 16 && |data| == 16
    ensures |NumericField(tag, AsUint32(slot)).Bytes()| == 1 + |Varint(AsUint32(slot))| <= 6
    ensures |NumericField(tag, AsUint32(slot)).Bytes()| == 6 <==> slot < 0 || slot >= 0x1000_0000
    ensures |BinaryField(tag, data).Bytes()| == 18
  {
    var v := AsUint32(slot);
    VarintLength(v, 5);
    VarintLength(v, 4);
    Pow128Values();
    assert Varint(tag * 8) == [tag * 8] && Varint(tag * 8 + 2) == [tag * 8 + 2] && Varint(16) == [16];
  }

  /** Every write request fits the 64-byte buffer; it has at most 42 bytes, and 42 exactly for slot ids
      that are negative or at least 2 to the power 28. */
  lemma WriteRequestFits(slot: int, key: seq<byte>, value: seq<byte>)
    requires -0x8000_0000 <= slot < 0x8000_0000
    requires |key| == 16 && |value| == 16
    ensures |Message(WriteFields(slot, key, value))| == 37 + |Varint(AsUint32(slot))| <= 42
    ensures |Message(WriteFields(slot, key, value))| == 42 <==> slot < 0 || slot >= 0x1000_0000
  {
    hide Field.Bytes, Varint, Message;
    FieldLengths(slot, 1, key);
    FieldLengths(slot, 2, key);
    FieldLengths(slot, 3, value);
    MessageOfThree(NumericField(1, AsUint32(slot)), BinaryField(2, key), BinaryField(3, value));
  }

  /** A chip that reads a write request by the same rules finds exactly the slot, the key and the value. */
  lemma WriteRequestReadBack(slot: int, key: seq<byte>, value: seq<byte>)
    requires -0x8000_0000 <= slot < 0x8000_0000
    requires |key| == 16 && |value| == 16
    ensures var request := Message(WriteFields(slot, key, value)); var r := Read(request, 0);
            && r.ending == AtEnd
            && AsInt32(NumberFrom(r.items, 1, 0)) == slot
            && DataFrom(request, r.items, 2, []) == key && DataFrom(request, r.items, 3, []) == value
  {
    hide Field.Bytes, Field.WellFormed, Varint, Number, Message, Read, ItemsOf, Field.Tag;
    var fs := WriteFields(slot, key, value);
    WriteRequestFits(slot, key, value);
    WrittenFields(1, AsUint32(slot), key);
    WrittenFields(2, 0, key);
    WrittenFields(3, 0, value);
    assert [] + Message(fs) == Message(fs);
    ReadMessage([], fs);
    NumbersOfMessage(fs, 0, 1, 0);
    DataOfMessage([], fs, 2, []);
    DataOfMessage([], fs, 3, []);
    Unfold(fs);
  }

  /** And in a read request the slot and the key. */
  lemma ReadRequestReadBack(slot: int, key: seq<byte>)
    requires -0x8000_0000 <= slot < 0x8000_0000
    requires |key| == 16
    ensures var request := Message(ReadFields(slot, key)); var r := Read(request, 0);
            && r.ending == AtEnd && |request| <= 24
            && AsInt32(NumberFrom(r.items, 1, 0)) == slot && DataFrom(request, r.items, 2, []) == key
  {
    hide Field.Bytes, Field.WellFormed, Varint, Number, Message, Read, ItemsOf, Field.Tag;
    var fs := ReadFields(slot, key);
    FieldLengths(slot, 1, key);
    FieldLengths(slot, 2, key);
    MessageOfTwo(fs[0], fs[1]);
    WrittenFields(1, AsUint32(slot), key);
    WrittenFields(2, 0, key);
    assert [] + Message(fs) == Message(fs);
    ReadMessage([], fs);
    NumbersOfMessage(fs, 0, 1, 0);
    DataOfMessage([], fs, 2, []);
    LastOneWins(fs, 1, 0, 0);
    LastDataWins(fs, 2, 1, []);
  }

  lemma Unfold(fs: seq<Field>)
    requires |fs| == 3 && fs[0].Numeric? && fs[1].Binary? && fs[2].Binary?
    requires fs[0].Tag() == 1 && fs[1].Tag() == 2 && fs[2].Tag() == 3
    ensures LastNumber(fs, 1, 0) == Number(fs[0].value) % TWO_32
    ensures LastData(fs, 2, []) == fs[1].data && LastData(fs, 3, []) == fs[2].data
  {
    hide Number, Field.Tag;
    LastOneWins(fs, 1, 0, 0);
    var two, three := fs[1..], fs[2..];
    assert two[1..] == three && three[1..] == [];
    assert LastData(two, 2, []) == LastData(three, 2, fs[1].data) == LastData([], 2, fs[1].data);
    assert LastData(two, 3, []) == LastData(three, 3, []) == LastData([], 3, fs[2].data);
  }

  // ----- The reading loops

  /** The 64-bit sum that guards the copy in read cannot wrap unless the 32-bit position does. */
  lemma GuardIsExact(at: nat, length: nat)
    requires at < TWO_32 && length < TWO_64
    requires at + length % TWO_32 < TWO_32
    ensures (at + length) % TWO_64 == at + length
  {
    var q, r := length / TWO_32, length % TWO_32;
    assert length == q * TWO_32 + r;
    assert q <= 0xFFFF_FFFF;
  }

  /** Where a reading loop stands: what the rest of the reply still says, added to what is known, is the
      whole reading. */
  ghost predicate At(s: seq<byte>, pos: nat, tag: nat, known: nat) {
    NumberFrom(Read(s, 0).items, tag, 0) == NumberFrom(Read(s, pos).items, tag, known)
  }

  ghost predicate AtData(s: seq<byte>, pos: nat, tag: nat, known: seq<byte>) {
    DataFrom(s, Read(s, 0).items, tag, []) == DataFrom(s, Read(s, pos).items, tag, known)
  }

  lemma Unchanged(s: seq<byte>, pos: nat, tag: nat, known: nat)
    requires At(s, pos, tag, known) && pos < |s|
    requires Next(s, pos).Took? && Next(s, pos).pos < TWO_32
    requires !(Next(s, pos).item.Plain? && Next(s, pos).item.tag == tag)
    ensures At(s, Next(s, pos).pos, tag, known)
  {
    hide Next;
    var t := Next(s, pos);
    assert Read(s, pos).items[1..] == Read(s, t.pos).items;
  }

  lemma Learned(s: seq<byte>, pos: nat, tag: nat, known: nat)
    requires At(s, pos, tag, known) && pos < |s|
    requires Next(s, pos).Took? && Next(s, pos).pos < TWO_32
    requires Next(s, pos).item.Plain? && Next(s, pos).item.tag == tag
    ensures At(s, Next(s, pos).pos, tag, Next(s, pos).item.number % TWO_32)
  {
    hide Next;
    var t := Next(s, pos);
    assert Read(s, pos).items[1..] == Read(s, t.pos).items;
  }

  lemma DataStep(s: seq<byte>, pos: nat, tag: nat, known: seq<byte>)
    requires AtData(s, pos, tag, known) && pos < |s|
    requires Next(s, pos).Took? && Next(s, pos).pos < TWO_32
    ensures AtData(s, Next(s, pos).pos, tag, Copied(s, Next(s, pos).item, tag, known))
  {
    hide Next, Copied;
    var t := Next(s, pos);
    assert Read(s, pos).items[1..] == Read(s, t.pos).items;
  }

  lemma SameEnding(s: seq<byte>, pos: nat)
    requires pos < |s|
    ensures Next(s, pos).Broke? ==> Read(s, pos).ending == Broken && Read(s, pos).items == []
    ensures Next(s, pos).Took? ==>
              Read(s, pos).ending == if Next(s, pos).pos >= TWO_32 then Wrapped else Read(s, Next(s, pos).pos).ending
  {
    hide Next;
  }

  /** The loop of getConfig. */
  method ParseConfig(buf: array<byte>, len: nat) returns (slots: nat, keySize: nat, valueSize: nat, followed: bool)
    requires len <= buf.Length < TWO_32
    ensures followed == (Read(buf[..len], 0).ending != Wrapped)
    ensures followed ==> (var items := Read(buf[..len], 0).items;
                          slots == NumberFrom(items, 1, 0) && keySize == NumberFrom(items, 2, 0)
                          && valueSize == NumberFrom(items, 3, 0))
  {
    hide Read, Decode, At;
    ghost var s := buf[..len];
    StartsAt(s);
    slots, keySize, valueSize := 0, 0, 0;
    var pos := 0;
    while pos < len
      invariant Read(s, 0).ending == Read(s, pos).ending
      invariant At(s, pos, 1, slots) && At(s, pos, 2, keySize) && At(s, pos, 3, valueSize)
      decreases len - pos
    {
      SameEnding(s, pos);
      var ok, tag, next := DecodeVarint(buf, len, pos);
      if !ok {
        Ends(s, pos);
        return slots, keySize, valueSize, true;
      }
      var field, wire := tag / 8 % TWO_32, tag % 8;
      if wire == 0 {
        var val;
        ok, val, next := DecodeVarint(buf, len, next);
        if !ok {
          Ends(s, pos);
          return slots, keySize, valueSize, true;
        }
        Turned(s, pos, slots, keySize, valueSize, field, val % TWO_32);
        if field == 1 {
          slots := val % TWO_32;
        } else if field == 2 {
          keySize := val % TWO_32;
        } else if field == 3 {
          valueSize := val % TWO_32;
        }
      } else if wire == 2 {
        var length;
        ok, length, next := DecodeVarint(buf, len, next);
        if !ok {
          Ends(s, pos);
          return slots, keySize, valueSize, true;
        }
        next := next + length % TWO_32;
        if next >= TWO_32 {
          return slots, keySize, valueSize, false;
        }
        Unchanged(s, pos, 1, slots);
        Unchanged(s, pos, 2, keySize);
        Unchanged(s, pos, 3, valueSize);
      } else {
        Ends(s, pos);
        return slots, keySize, valueSize, true;
      }
      pos := next;
    }
    Ends(s, pos);
    followed := true;
  }

  lemma StartsAt(s: seq<byte>)
    ensures forall tag: nat :: At(s, 0, tag, 0)
    ensures forall tag: nat :: AtData(s, 0, tag, [])
  {}

  /** The loop has left: at the end of the reply or beyond it, or at something it cannot read. */
  lemma Ends(s: seq<byte>, pos: nat)
    requires pos >= |s| || Next(s, pos).Broke?
    ensures Read(s, pos).ending != Wrapped
    ensures forall tag: nat, known: nat :: At(s, pos, tag, known) ==> NumberFrom(Read(s, 0).items, tag, 0) == known
    ensures forall tag: nat, known: seq<byte> ::
              AtData(s, pos, tag, known) ==> DataFrom(s, Read(s, 0).items, tag, []) == known
  {}

  lemma CopiedWhen(s: seq<byte>, field: nat, at: nat, length: nat, known: seq<byte>)
    ensures field == 3 && at + length <= |s| ==> Copied(s, Span(field, at, length), 3, known) == s[at..at + length]
    ensures field != 3 || at + length > |s| ==> Copied(s, Span(field, at, length), 3, known) == known
    ensures Copied(s, Plain(field, length), 3, known) == known
  {}

  lemma Turned(s: seq<byte>, pos: nat, one: nat, two: nat, three: nat, field: nat, v: nat)
    requires At(s, pos, 1, one) && At(s, pos, 2, two) && At(s, pos, 3, three) && pos < |s|
    requires Next(s, pos).Took? && Next(s, pos).pos < TWO_32 && Next(s, pos).item.Plain?
    requires Next(s, pos).item.tag == field && Next(s, pos).item.number % TWO_32 == v
    ensures At(s, Next(s, pos).pos, 1, if field == 1 then v else one)
    ensures At(s, Next(s, pos).pos, 2, if field == 2 then v else two)
    ensures At(s, Next(s, pos).pos, 3, if field == 3 then v else three)
  {
    hide At, Next;
    if field == 1 { Learned(s, pos, 1, one); } else { Unchanged(s, pos, 1, one); }
    if field == 2 { Learned(s, pos, 2, two); } else { Unchanged(s, pos, 2, two); }
    if field == 3 { Learned(s, pos, 3, three); } else { Unchanged(s, pos, 3, three); }
  }

  /** The loop of read. */
  method ParseResponse(buf: array<byte>, len: nat) returns (error: nat, timeout: nat, value: seq<byte>, followed: bool)
    requires len <= buf.Length < TWO_32
    ensures followed == (Read(buf[..len], 0).ending != Wrapped)
    ensures followed ==> (var items := Read(buf[..len], 0).items;
                          error == NumberFrom(items, 1, 0) && timeout == NumberFrom(items, 2, 0)
                          && value == DataFrom(buf[..len], items, 3, []))
  {
    hide Read, Decode, Copied, At, AtData;
    ghost var s := buf[..len];
    StartsAt(s);
    error, timeout, value := 0, 0, [];
    var pos := 0;
    while pos < len
      invariant Read(s, 0).ending == Read(s, pos).ending
      invariant At(s, pos, 1, error) && At(s, pos, 2, timeout) && AtData(s, pos, 3, value)
      decreases len - pos
    {
      SameEnding(s, pos);
      var ok, tag, next := DecodeVarint(buf, len, pos);
      if !ok {
        Ends(s, pos);
        return error, timeout, value, true;
      }
      var field, wire := tag / 8 % TWO_32, tag % 8;
      if wire == 0 {
        var val;
        ok, val, next := DecodeVarint(buf, len, next);
        if !ok {
          Ends(s, pos);
          return error, timeout, value, true;
        }
        DataStep(s, pos, 3, value);
        CopiedWhen(s, field, 0, val, value);
        TurnedTwo(s, pos, error, timeout, field, val % TWO_32);
        if field == 1 {
          error := val % TWO_32;
        } else if field == 2 {
          timeout := val % TWO_32;
        }
      } else if wire == 2 {
        var length;
        ok, length, next := DecodeVarint(buf, len, next);
        if !ok {
          Ends(s, pos);
          return error, timeout, value, true;
        }
        if next + length % TWO_32 >= TWO_32 {
          return error, timeout, value, false;
        }
        GuardIsExact(next, length);
        DataStep(s, pos, 3, value);
        Unchanged(s, pos, 1, error);
        Unchanged(s, pos, 2, timeout);
        CopiedWhen(s, field, next, length, value);
        if field == 3 && (next + length) % TWO_64 <= len {
          SliceOfPrefix(buf[..], len, next, next + length);
          assert s == buf[..][..len] && buf[next..next + length] == buf[..][next..next + length];
          value := buf[next..next + length];
        }
        next := next + length % TWO_32;
      } else {
        Ends(s, pos);
        return error, timeout, value, true;
      }
      pos := next;
    }
    Ends(s, pos);
    followed := true;
  }

  lemma SliceOfPrefix(b: seq<byte>, len: nat, lo: nat, hi: nat)
    requires lo <= hi <= len <= |b|
    ensures b[..len][lo..hi] == b[lo..hi]
  {}

  lemma TurnedTwo(s: seq<byte>, pos: nat, one: nat, two: nat, field: nat, v: nat)
    requires At(s, pos, 1, one) && At(s, pos, 2, two) && pos < |s|
    requires Next(s, pos).Took? && Next(s, pos).pos < TWO_32 && Next(s, pos).item.Plain?
    requires Next(s, pos).item.tag == field && Next(s, pos).item.number % TWO_32 == v
    ensures At(s, Next(s, pos).pos, 1, if field == 1 then v else one)
    ensures At(s, Next(s, pos).pos, 2, if field == 2 then v else two)
  {
    hide At, Next;
    if field == 1 { Learned(s, pos, 1, one); } else { Unchanged(s, pos, 1, one); }
    if field == 2 { Learned(s, pos, 2, two); } else { Unchanged(s, pos, 2, two); }
  }

  // ----- The service

  /** The part of nos_call that copies the reply out. */
  method CopyReply(reply: seq<byte>, buf: array<byte>)
    requires |reply| <= buf.Length
    modifies buf
    ensures buf[..|reply|] == reply
  {
    StoreBytes(buf, 0, reply);
  }

  method GetConfig(chip: Chip) returns (r: Outcome<Config>)
    ensures r == ConfigFrom(chip(0, [], 64))
  {
    var a := chip(GET_CONFIG, [], 64);
    if a.ret < 0 || a.status != 0 {
      return ServiceError(1);
    }
    if |a.reply| > 64 {
      return Undefined;
    }
    var buf := new byte[64](_ => 0);
    CopyReply(a.reply, buf);
    var slots, keySize, valueSize, followed := ParseConfig(buf, |a.reply|);
    if !followed {
      return Undefined;
    }
    return Done(Config(AsInt32(slots), AsInt32(keySize), AsInt32(valueSize)));
  }

  method BuildRead(slot: int, key: seq<byte>) returns (buf: array<byte>, len: nat)
    requires -0x8000_0000 <= slot < 0x8000_0000 && |key| == 16
    ensures len <= buf.Length == 64 && buf[..len] == Message(ReadFields(slot, key))
  {
    hide Splice, Field.Bytes, Message;
    buf := new byte[64](_ => 0);
    FieldLengths(slot, 1, key);
    FieldLengths(slot, 2, key);
    ghost var f, g := NumericField(1, AsUint32(slot)), BinaryField(2, key);
    MessageOfTwo(f, g);
    Appended(buf[..], 0, f.Bytes());
    len := EncodeUint32(buf, 0, 1, AsUint32(slot));
    Appended(buf[..], len, g.Bytes());
    len := EncodeBytes(buf, len, 2, key);
  }

  method BuildWrite(slot: int, key: seq<byte>, value: seq<byte>) returns (buf: array<byte>, len: nat)
    requires -0x8000_0000 <= slot < 0x8000_0000 && |key| == 16 && |value| == 16
    ensures len <= buf.Length == 64 && buf[..len] == Message(WriteFields(slot, key, value))
  {
    hide Splice, Field.Bytes, Message;
    buf := new byte[64](_ => 0);
    FieldLengths(slot, 1, key);
    FieldLengths(slot, 2, key);
    FieldLengths(slot, 3, value);
    ghost var f, g, h := NumericField(1, AsUint32(slot)), BinaryField(2, key), BinaryField(3, value);
    MessageOfThree(f, g, h);
    Appended(buf[..], 0, f.Bytes());
    len := EncodeUint32(buf, 0, 1, AsUint32(slot));
    Appended(buf[..], len, g.Bytes());
    len := EncodeBytes(buf, len, 2, key);
    Appended(buf[..], len, h.Bytes());
    len := EncodeBytes(buf, len, 3, value);
  }

  lemma Appended(buf: seq<byte>, pos: nat, t: seq<byte>)
    requires pos + |t| <= |buf|
    ensures Splice(buf, pos, t)[..pos + |t|] == buf[..pos] + t
  {}

  method ReadSlot(chip: Chip, slot: int, key: seq<byte>) returns (r: Outcome<Response>)
    requires -0x8000_0000 <= slot < 0x8000_0000
    ensures |key| != 16 ==> r == Done(Response(0, [], FAILED))
    ensures |key| == 16 ==> r == ResponseFrom(chip(2, Message(ReadFields(slot, key)), 128))
  {
    if |key| != 16 {
      return Done(Response(0, [], FAILED));
    }
    var request, len := BuildRead(slot, key);
    var a := chip(READ, request[..len], 128);
    if a.ret < 0 || a.status != 0 {
      return Done(Response(0, [], FAILED));
    }
    if |a.reply| > 128 {
      return Undefined;
    }
    var buf := new byte[128](_ => 0);
    CopyReply(a.reply, buf);
    var error, timeout, value, followed := ParseResponse(buf, |a.reply|);
    if !followed {
      return Undefined;
    }
    return Done(Response(timeout, value, StatusOf(error)));
  }

  method WriteSlot(chip: Chip, slot: int, key: seq<byte>, value: seq<byte>) returns (r: Outcome<()>)
    requires -0x8000_0000 <= slot < 0x8000_0000
    ensures |key| != 16 || |value| != 16 ==> r == ServiceError(1)
    ensures |key| == 16 && |value| == 16 ==>
              r == if chip(1, Message(WriteFields(slot, key, value)), 0).Success() then Done(())
                  else ServiceError(1)
  {
    if |key| != 16 || |value| != 16 {
      return ServiceError(1);
    }
    var request, len := BuildWrite(slot, key, value);
    var a := chip(WRITE, request[..len], 0);
    if a.ret < 0 || a.status != 0 {
      return ServiceError(1);
    }
    return Done(());
  }
}
