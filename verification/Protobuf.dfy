/** Messages of wire types 0 and 2, written and read field by field
    (selfcode/recovery_weaver/recovery_weaver.cpp, lines 71-83, 168-188 and 230-255;
    Protocol Buffers Encoding, "Message Structure" and "Last One Wins"). */
module Protobuf {
  import opened Bytes
  import opened Varints

  const TWO_32: nat := 0x1_0000_0000

  // ----- The format

  /** A field as it stands in a message, with every varint in whatever form its writer chose. */
  datatype Field =
    | Numeric(key: seq<byte>, value: seq<byte>)
    | Binary(key: seq<byte>, length: seq<byte>, data: seq<byte>)
  {
    function Bytes(): seq<byte> {
      match this
      case Numeric(key, value) => key + value
      case Binary(key, length, data) => key + length + data
    }

    function Tag(): nat {
      Number(key) / 8 % TWO_32
    }

    predicate WellFormed() {
      IsVarint(key) &&
      match this
      case Numeric(key, value) => Number(key) % 8 == 0 && IsVarint(value)
      case Binary(key, length, data) => Number(key) % 8 == 2 && IsVarint(length) && Number(length) == |data|
    }
  }

  function Message(fs: seq<Field>): seq<byte> {
    if fs == [] then [] else fs[0].Bytes() + Message(fs[1..])
  }

  predicate AllWellFormed(fs: seq<Field>) {
    forall i :: 0 <= i < |fs| ==> fs[i].WellFormed()
  }

  /** The number a message states for a tag, as a uint32: the last field with that tag wins. */
  function LastNumber(fs: seq<Field>, tag: nat, default: nat): nat {
    if fs == [] then default
    else LastNumber(fs[1..], tag, if fs[0].Numeric? && fs[0].Tag() == tag then Number(fs[0].value) % TWO_32
        else default)
  }

  function LastData(fs: seq<Field>, tag: nat, default: seq<byte>): seq<byte> {
    if fs == [] then default
    else LastData(fs[1..], tag, if fs[0].Binary? && fs[0].Tag() == tag then fs[0].data else default)
  }

  lemma {:induction false} LastOneWins(fs: seq<Field>, tag: nat, i: nat, default: nat)
    requires i < |fs| && fs[i].Numeric? && fs[i].Tag() == tag
    requires forall j :: i < j < |fs| ==> !(fs[j].Numeric? && fs[j].Tag() == tag)
    ensures LastNumber(fs, tag, default) == Number(fs[i].value) % TWO_32
  {
    var rest := fs[1..];
    assert forall j :: 0 <= j < |rest| ==> rest[j] == fs[j + 1];
    if i > 0 {
      LastOneWins(rest, tag, i - 1, if fs[0].Numeric? && fs[0].Tag() == tag then Number(fs[0].value) % TWO_32
          else default);
    } else {
      NoneKeepsDefault(rest, tag, Number(fs[0].value) % TWO_32);
    }
  }

  lemma {:induction false} NoneKeepsDefault(fs: seq<Field>, tag: nat, default: nat)
    requires forall j :: 0 <= j < |fs| ==> !(fs[j].Numeric? && fs[j].Tag() == tag)
    ensures LastNumber(fs, tag, default) == default
  {
    if fs != [] {
      var rest := fs[1..];
      assert forall j :: 0 <= j < |rest| ==> rest[j] == fs[j + 1];
      NoneKeepsDefault(rest, tag, default);
    }
  }

  /** The bytes stated last for a tag win too. */
  lemma {:induction false} LastDataWins(fs: seq<Field>, tag: nat, i: nat, default: seq<byte>)
    requires i < |fs| && fs[i].Binary? && fs[i].Tag() == tag
    requires forall j :: i < j < |fs| ==> !(fs[j].Binary? && fs[j].Tag() == tag)
    ensures LastData(fs, tag, default) == fs[i].data
  {
    var rest := fs[1..];
    assert forall j :: 0 <= j < |rest| ==> rest[j] == fs[j + 1];
    if i > 0 {
      LastDataWins(rest, tag, i - 1, if fs[0].Binary? && fs[0].Tag() == tag then fs[0].data else default);
    } else {
      NoneKeepsData(rest, tag, fs[0].data);
    }
  }

  lemma {:induction false} NoneKeepsData(fs: seq<Field>, tag: nat, default: seq<byte>)
    requires forall j :: 0 <= j < |fs| ==> !(fs[j].Binary? && fs[j].Tag() == tag)
    ensures LastData(fs, tag, default) == default
  {
    if fs != [] {
      var rest := fs[1..];
      assert forall j :: 0 <= j < |rest| ==> rest[j] == fs[j + 1];
      NoneKeepsData(rest, tag, default);
    }
  }

  // ----- The reading loop

  /** What one turn of a reading loop takes in: a number, or the place and length of some bytes. */
  datatype Item = Plain(tag: nat, number: nat) | Span(tag: nat, at: nat, length: nat)

  datatype Turn = Broke | Took(item: Item, pos: nat)

  /** One turn. The 32-bit position is not wrapped here, as a loop that wraps it is not followed further. */
  function Next(s: seq<byte>, pos: nat): (t: Turn)
    ensures t.Took? ==> t.pos > pos
  {
    var key := Decode(s, pos);
    if !key.ok then Broke
    else
      var tag, wire := key.val / 8 % TWO_32, key.val % 8;
      if wire != 0 && wire != 2 then Broke
      else
        var n := Decode(s, key.pos);
        if !n.ok then Broke
        else if wire == 0 then Took(Plain(tag, n.val), n.pos)
        else Took(Span(tag, n.pos, n.val), n.pos + n.val % TWO_32)
  }

  /** AtEnd: the position is the end of the reply. Beyond: a length points past the end.
      Wrapped: a length carries the 32-bit position past its range. */
  datatype Ending = AtEnd | Beyond | Broken | Wrapped

  datatype Reading = Reading(items: seq<Item>, ending: Ending)

  function Read(s: seq<byte>, pos: nat): Reading
    decreases |s| - pos
  {
    if pos >= |s| then Reading([], if pos == |s| then AtEnd else Beyond)
    else
      match Next(s, pos)
      case Broke => Reading([], Broken)
      case Took(item, next) =>
        if next >= TWO_32 then Reading([item], Wrapped)
        else
          var r := Read(s, next);
          Reading([item] + r.items, r.ending)
  }

  function ItemOf(f: Field, at: nat): Item {
    match f
    case Numeric(key, value) => Plain(f.Tag(), Number(value))
    case Binary(key, length, data) => Span(f.Tag(), at + |key| + |length|, |data|)
  }

  function ItemsOf(fs: seq<Field>, at: nat): seq<Item> {
    if fs == [] then [] else [ItemOf(fs[0], at)] + ItemsOf(fs[1..], at + |fs[0].Bytes()|)
  }

  lemma NextOfField(before: seq<byte>, f: Field, after: seq<byte>)
    requires f.WellFormed()
    requires |before + f.Bytes() + after| < TWO_32
    ensures Next(before + f.Bytes() + after, |before|) == Took(ItemOf(f, |before|), |before| + |f.Bytes()|)
  {
    hide Decode, Number, Complete;
    var all := before + f.Bytes() + after;
    match f
    case Numeric(key, value) =>
      assert all == before + key + (value + after);
      assert all == (before + key) + value + after;
      DecodeVarintAnywhere(before, key, value + after);
      DecodeVarintAnywhere(before + key, value, after);
    case Binary(key, length, data) =>
      assert all == before + key + (length + data + after);
      assert all == (before + key) + length + (data + after);
      DecodeVarintAnywhere(before, key, length + data + after);
      DecodeVarintAnywhere(before + key, length, data + after);
  }

  /** Round trip: a reading loop takes in every field of a well-formed message, in order, and stops at its end. */
  lemma {:induction false} ReadMessage(before: seq<byte>, fs: seq<Field>)
    requires AllWellFormed(fs)
    requires |before + Message(fs)| < TWO_32
    ensures Read(before + Message(fs), |before|) == Reading(ItemsOf(fs, |before|), AtEnd)
    decreases fs
  {
    hide Field.WellFormed, Field.Bytes, Next, ItemOf;
    var s := before + Message(fs);
    if fs != [] {
      var f, rest := fs[0], fs[1..];
      assert s == before + f.Bytes() + Message(rest);
      assert s == (before + f.Bytes()) + Message(rest);
      NextOfField(before, f, Message(rest));
      FieldIsNotEmpty(f);
      ReadMessage(before + f.Bytes(), rest);
    }
  }

  /** Whatever stands behind some well-formed fields, the fields are taken in first. */
  lemma {:induction false} ReadFieldsFirst(before: seq<byte>, fs: seq<Field>, after: seq<byte>)
    requires AllWellFormed(fs)
    requires |before + Message(fs) + after| < TWO_32
    ensures var s := before + Message(fs) + after; var rest := Read(s, |before + Message(fs)|);
            Read(s, |before|) == Reading(ItemsOf(fs, |before|) + rest.items, rest.ending)
    decreases fs
  {
    hide Field.WellFormed, Field.Bytes, Next, ItemOf;
    var s := before + Message(fs) + after;
    if fs != [] {
      var f, rest := fs[0], fs[1..];
      assert s == before + f.Bytes() + (Message(rest) + after);
      assert s == (before + f.Bytes()) + Message(rest) + after;
      assert |(before + f.Bytes()) + Message(rest)| == |before + Message(fs)|;
      NextOfField(before, f, Message(rest) + after);
      FieldIsNotEmpty(f);
      ReadFieldsFirst(before + f.Bytes(), rest, after);
    } else {
      assert |before + Message(fs)| == |before|;
    }
  }

  /** A reading loop cannot go on where no byte ends a varint, at a wire type other than 0 and 2, and where the
      number or length behind a key is missing. */
  predicate Unreadable(tail: seq<byte>) {
    || (tail != [] && Unended(tail))
    || (exists n :: 0 < n <= |tail| && IsVarint(tail[..n])
          && (Number(tail[..n]) % 8 !in [0, 2] || Unended(tail[n..])))
  }

  /** None of the next ten bytes that are there ends a varint. */
  predicate Unended(s: seq<byte>) {
    forall k :: 0 <= k < 10 && k < |s| ==> s[k] >= 128
  }

  lemma UnreadableBreaks(before: seq<byte>, tail: seq<byte>)
    requires Unreadable(tail)
    ensures tail != [] && Next(before + tail, |before|).Broke?
  {
    hide Decode, IsVarint, Number;
    var s := before + tail;
    if tail != [] && Unended(tail) {
      DecodeFailsIff(s, |before|);
    } else {
      var n :| 0 < n <= |tail| && IsVarint(tail[..n]) && (Number(tail[..n]) % 8 !in [0, 2] || Unended(tail[n..]));
      var key, rest := tail[..n], tail[n..];
      assert s == before + key + rest;
      DecodeVarintAnywhere(before, key, rest);
      DecodeFailsIff(s, |before| + n);
      assert forall k :: 0 <= k < |rest| ==> s[|before| + n + k] == rest[k];
    }
  }

  /** The loop stops there, with what the fields before it said. */
  lemma ReadUpToUnreadable(fs: seq<Field>, tail: seq<byte>)
    requires AllWellFormed(fs) && Unreadable(tail) && |Message(fs) + tail| < TWO_32
    ensures Read(Message(fs) + tail, 0) == Reading(ItemsOf(fs, 0), Broken)
  {
    hide Unreadable, Next, ItemsOf, Message, AllWellFormed;
    assert [] + Message(fs) + tail == Message(fs) + tail && [] + Message(fs) == Message(fs);
    ReadFieldsFirst([], fs, tail);
    UnreadableBreaks(Message(fs), tail);
  }

  lemma FieldIsNotEmpty(f: Field)
    requires f.WellFormed()
    ensures |f.Bytes()| > 0
  {}

  // ----- What the fields found mean

  function NumberFrom(items: seq<Item>, tag: nat, default: nat): nat {
    if items == [] then default
    else NumberFrom(items[1..], tag, if items[0].Plain? && items[0].tag == tag then items[0].number % TWO_32
        else default)
  }

  /** The bytes a loop copies for a tag. A length that runs past the reply is skipped. */
  function DataFrom(s: seq<byte>, items: seq<Item>, tag: nat, default: seq<byte>): seq<byte> {
    if items == [] then default
    else DataFrom(s, items[1..], tag, Copied(s, items[0], tag, default))
  }

  function Copied(s: seq<byte>, item: Item, tag: nat, default: seq<byte>): seq<byte> {
    if item.Span? && item.tag == tag && item.at + item.length <= |s| then s[item.at..item.at + item.length] else default
  }

  lemma {:induction false} NumbersOfMessage(fs: seq<Field>, at: nat, tag: nat, default: nat)
    ensures NumberFrom(ItemsOf(fs, at), tag, default) == LastNumber(fs, tag, default)
  {
    hide Number, Field.Bytes;
    if fs != [] {
      var f := fs[0];
      assert ItemsOf(fs, at)[1..] == ItemsOf(fs[1..], at + |f.Bytes()|);
      NumbersOfMessage(fs[1..], at + |f.Bytes()|, tag,
                       if f.Numeric? && f.Tag() == tag then Number(f.value) % TWO_32 else default);
    }
  }

  lemma CopiedOfField(before: seq<byte>, f: Field, after: seq<byte>, tag: nat, default: seq<byte>)
    ensures Copied(before + f.Bytes() + after, ItemOf(f, |before|), tag, default) ==
            if f.Binary? && f.Tag() == tag then f.data else default
  {
    hide Number;
    if f.Binary? {
      var front := before + f.key + f.length;
      assert before + f.Bytes() + after == front + f.data + after;
      assert |front| == |before| + |f.key| + |f.length|;
      assert (front + f.data + after)[|front|..|front| + |f.data|] == f.data;
    }
  }

  lemma DataOfMessage(before: seq<byte>, fs: seq<Field>, tag: nat, default: seq<byte>)
    ensures DataFrom(before + Message(fs), ItemsOf(fs, |before|), tag, default) == LastData(fs, tag, default)
  {
    assert before + Message(fs) + [] == before + Message(fs);
    DataOfFields(before, fs, [], tag, default);
  }

  /** The same with anything behind the message. */
  lemma {:induction false} DataOfFields(before: seq<byte>, fs: seq<Field>, after: seq<byte>, tag: nat,
      default: seq<byte>)
    ensures DataFrom(before + Message(fs) + after, ItemsOf(fs, |before|), tag, default) == LastData(fs, tag, default)
    decreases fs
  {
    hide Copied, ItemOf, Field.Bytes, Field.Tag;
    if fs != [] {
      var f, rest := fs[0], fs[1..];
      var s := before + Message(fs) + after;
      assert s == before + f.Bytes() + (Message(rest) + after);
      assert s == (before + f.Bytes()) + Message(rest) + after;
      CopiedOfField(before, f, Message(rest) + after, tag, default);
      assert ItemsOf(fs, |before|)[1..] == ItemsOf(rest, |before| + |f.Bytes()|);
      DataOfFields(before + f.Bytes(), rest, after, tag, if f.Binary? && f.Tag() == tag then f.data else default);
    }
  }

  // ----- Writing

  function NumericField(tag: nat, v: nat): Field {
    Numeric(Varint(tag * 8), Varint(v))
  }

  function BinaryField(tag: nat, data: seq<byte>): Field {
    Binary(Varint(tag * 8 + 2), Varint(|data|), data)
  }

  /** A written field is well-formed and states what was written, up to the largest tag the format allows. */
  lemma WrittenFields(tag: nat, v: nat, data: seq<byte>)
    requires tag < 0x2000_0000 && v < TWO_64 && |data| < TWO_64
    ensures var f := NumericField(tag, v); f.WellFormed() && f.Tag() == tag && Number(f.value) == v
    ensures var f := BinaryField(tag, data); f.WellFormed() && f.Tag() == tag && f.data == data
  {
    hide Number, Complete, Varint, Decode;
    DecodeEncode([], tag * 8, []);
    DecodeEncode([], tag * 8 + 2, []);
    DecodeEncode([], v, []);
    DecodeEncode([], |data|, []);
  }

  method EncodeUint32(buf: array<byte>, pos: nat, tag: nat, v: nat) returns (next: nat)
    requires tag < 0x2000_0000
    requires pos + |NumericField(tag, v).Bytes()| <= buf.Length
    modifies buf
    ensures next == pos + |NumericField(tag, v).Bytes()|
    ensures buf[..] == Splice(old(buf[..]), pos, NumericField(tag, v).Bytes())
  {
    hide Splice, Varint;
    ghost var was := buf[..];
    next := EncodeVarint(buf, pos, tag * 8);
    SpliceNext(was, pos, Varint(tag * 8), Varint(v));
    next := EncodeVarint(buf, next, v);
  }

  method EncodeBytes(buf: array<byte>, pos: nat, tag: nat, data: seq<byte>) returns (next: nat)
    requires tag < 0x2000_0000
    requires pos + |BinaryField(tag, data).Bytes()| <= buf.Length
    modifies buf
    ensures next == pos + |BinaryField(tag, data).Bytes()|
    ensures buf[..] == Splice(old(buf[..]), pos, BinaryField(tag, data).Bytes())
  {
    hide Splice, Varint;
    ghost var was := buf[..];
    ghost var key, length := Varint(tag * 8 + 2), Varint(|data|);
    next := EncodeVarint(buf, pos, tag * 8 + 2);
    SpliceNext(was, pos, key, length);
    next := EncodeVarint(buf, next, |data|);
    SpliceNext(was, pos, key + length, data);
    StoreBytes(buf, next, data);
    next := next + |data|;
  }
}
