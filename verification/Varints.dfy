/** Base 128 varints as the recovery weaver encodes and decodes them
    (selfcode/recovery_weaver/recovery_weaver.cpp, lines 49-69; Protocol Buffers Encoding, "Base 128 Varints"). */
module Varints {
  import opened Bytes

  const TWO_64: nat := 0x1_0000_0000_0000_0000
  const LONGEST: nat := 10

  // ----- The format

  /** The shortest encoding of v: seven bits a byte, lowest first, and the top bit set on all but the last. */
  function Varint(v: nat): (s: seq<byte>)
    ensures |s| >= 1
  {
    if v <= 0x7F then [v] else [v % 128 + 128] + Varint(v / 128)
  }

  function Low(b: byte): nat {
    if b < 128 then b else b - 128
  }

  /** The number whose seven-bit groups are the low bits of s. */
  function Groups(s: seq<byte>): nat {
    if s == [] then 0 else Low(s[0]) + 128 * Groups(s[1..])
  }

  function Pow128(n: nat): (p: nat)
    ensures p > 0
  {
    if n == 0 then 1 else 128 * Pow128(n - 1)
  }

  /** A varint of any length: exactly the last byte has its top bit clear. Padding with zero groups is allowed. */
  predicate Complete(s: seq<byte>) {
    if |s| <= 1 then |s| == 1 && s[0] < 128 else s[0] >= 128 && Complete(s[1..])
  }

  /** A varint a decoder of 64-bit numbers accepts. */
  predicate IsVarint(s: seq<byte>) {
    Complete(s) && |s| <= LONGEST
  }

  /** What is left of a varint after its groups beyond 64 bits are cut off. */
  function Number(s: seq<byte>): nat {
    Groups(s) % TWO_64
  }

  // ----- Laws of the format

  lemma {:induction false} VarintIsComplete(v: nat)
    ensures Complete(Varint(v)) && Groups(Varint(v)) == v
  {
    if v > 0x7F {
      var s := Varint(v);
      assert s[1..] == Varint(v / 128);
      VarintIsComplete(v / 128);
    }
  }

  lemma {:induction false} VarintLength(v: nat, n: nat)
    requires n > 0
    ensures |Varint(v)| <= n <==> v < Pow128(n)
  {
    if n == 1 {
      assert Pow128(1) == 128 * Pow128(0);
    } else if v > 0x7F {
      VarintLength(v / 128, n - 1);
    } else {
      var p := Pow128(n - 1);
      assert Pow128(n) == 128 * p;
    }
  }

  /** Byte i of a varint holds its bits 7 * i to 7 * i + 6. */
  lemma {:induction false} GroupsAt(s: seq<byte>, i: nat)
    requires i < |s|
    ensures Groups(s) / Pow128(i) % 128 == s[i] % 128
  {
    if i > 0 {
      GroupsAt(s[1..], i - 1);
      DivThrough(Low(s[0]), Groups(s[1..]), Pow128(i - 1));
    }
  }

  lemma DivThrough(x: nat, g: nat, p: nat)
    requires x < 128 && p > 0
    ensures (x + 128 * g) / (128 * p) == g / p
  {
    var q, r := g / p, g % p;
    assert g == p * q + r;
    assert x + 128 * g == (128 * p) * q + (x + 128 * r) by {
      assert 128 * (p * q) == (128 * p) * q;
    }
    ModUnique(x + 128 * g, 128 * p, q, x + 128 * r);
  }

  /** All bytes but the last have their top bit set. */
  lemma {:induction false} CompleteIff(s: seq<byte>)
    ensures Complete(s) <==>
              |s| > 0 && s[|s| - 1] < 128 && forall i :: 0 <= i < |s| - 1 ==> s[i] >= 128
  {
    if |s| > 1 {
      var t := s[1..];
      CompleteIff(t);
      assert forall i :: 0 < i < |s| ==> s[i] == t[i - 1];
      assert forall i :: 0 <= i < |t| ==> t[i] == s[i + 1];
    }
  }

  lemma Pow128Values()
    ensures Pow128(4) == 0x1000_0000 && Pow128(5) == 0x8_0000_0000
    ensures Pow128(9) == 0x8000_0000_0000_0000 && Pow128(10) == 0x40_0000_0000_0000_0000
  {
    assert Pow128(1) == 128 * Pow128(0);
    assert Pow128(2) == 128 * Pow128(1);
    assert Pow128(3) == 128 * Pow128(2);
    assert Pow128(4) == 128 * Pow128(3);
    assert Pow128(5) == 128 * Pow128(4);
    assert Pow128(6) == 128 * Pow128(5);
    assert Pow128(7) == 128 * Pow128(6);
    assert Pow128(8) == 128 * Pow128(7);
    assert Pow128(9) == 128 * Pow128(8);
    assert Pow128(10) == 128 * Pow128(9);
  }

  lemma {:induction false} ZeroEndsInZero(s: seq<byte>)
    requires Complete(s)
    ensures Groups(s) == 0 ==> s[|s| - 1] == 0
  {
    if |s| > 1 {
      ZeroEndsInZero(s[1..]);
    }
  }

  /** Encoding what a varint denotes gives that varint back exactly when its last byte is not a padding zero. */
  lemma {:induction false} EncodeDecodeIff(s: seq<byte>)
    requires Complete(s)
    ensures Varint(Groups(s)) == s <==> |s| == 1 || s[|s| - 1] != 0
  {
    if |s| > 1 {
      var tail := s[1..];
      EncodeDecodeIff(tail);
      ZeroEndsInZero(tail);
      var v, t := Groups(s), Groups(tail);
      assert v == Low(s[0]) + 128 * t;
      assert v / 128 == t && v % 128 == Low(s[0]);
      if t > 0 {
        assert Varint(v) == [s[0]] + Varint(t);
        assert s == [s[0]] + tail;
        assert Varint(v)[1..] == Varint(t);
      } else {
        assert |Varint(v)| == 1;
      }
    }
  }

  // ----- Decoding

  /** How many bytes the decoder takes from s when it may take `room`. */
  function Taken(s: seq<byte>, room: nat): (n: nat)
    ensures n <= |s| && n <= room
  {
    if s == [] || room == 0 then 0 else if s[0] < 128 then 1 else 1 + Taken(s[1..], room - 1)
  }

  datatype Decoded = Decoded(ok: bool, val: nat, pos: nat)

  function From(s: seq<byte>, pos: nat): seq<byte> {
    if pos <= |s| then s[pos..] else []
  }

  /** Decoding at a position: a number only if a byte with its top bit clear comes within ten bytes and before
      the end. */
  function Decode(s: seq<byte>, pos: nat): (d: Decoded)
    ensures d.ok ==> pos < d.pos <= |s|
    ensures d.val < TWO_64
  {
    var rest := From(s, pos);
    var n := Taken(rest, LONGEST);
    Decoded(n > 0 && rest[n - 1] < 128, Number(rest[..n]), pos + n)
  }

  lemma {:induction false} TakenIs(s: seq<byte>, room: nat)
    ensures var n := Taken(s, room);
            && (forall k :: 0 <= k < n - 1 ==> s[k] >= 128)
            && (n == 0 || s[n - 1] >= 128 ==> n == |s| || n == room)
  {
    if s != [] && room > 0 && s[0] >= 128 {
      var t := s[1..];
      TakenIs(t, room - 1);
      assert forall k :: 0 < k < |s| ==> s[k] == t[k - 1];
    }
  }

  /** Decoding fails exactly when none of the ten bytes from the position on that are there ends a varint. */
  lemma DecodeFailsIff(s: seq<byte>, pos: nat)
    ensures !Decode(s, pos).ok <==> forall k :: pos <= k < pos + 10 && k < |s| ==> s[k] >= 128
  {
    var rest := From(s, pos);
    TakenIs(rest, 10);
    var n := Taken(rest, 10);
    assert forall k :: 0 <= k < |rest| ==> rest[k] == s[pos + k];
    assert forall k :: pos <= k < |s| ==> s[k] == rest[k - pos];
    if n > 0 && rest[n - 1] < 128 {
      assert s[pos + n - 1] < 128;
    }
  }

  lemma {:induction false} TakenComplete(s: seq<byte>, tail: seq<byte>, room: nat)
    requires Complete(s) && |s| <= room
    ensures Taken(s + tail, room) == |s| && s[|s| - 1] < 128
  {
    if |s| > 1 {
      assert (s + tail)[1..] == s[1..] + tail;
      TakenComplete(s[1..], tail, room - 1);
    }
  }

  /** Any varint is decoded to its number, and exactly its bytes are consumed, whatever stands before and after it. */
  lemma DecodeVarintAnywhere(before: seq<byte>, s: seq<byte>, after: seq<byte>)
    requires IsVarint(s)
    ensures Decode(before + s + after, |before|) == Decoded(true, Number(s), |before| + |s|)
  {
    var all := before + s + after;
    assert From(all, |before|) == s + after;
    TakenComplete(s, after, LONGEST);
    assert (s + after)[..|s|] == s;
  }

  /** Round trip: decoding an encoded uint64 gives it back. */
  lemma DecodeEncode(before: seq<byte>, v: nat, after: seq<byte>)
    requires v < TWO_64
    ensures IsVarint(Varint(v)) && Number(Varint(v)) == v
    ensures Decode(before + Varint(v) + after, |before|) == Decoded(true, v, |before| + |Varint(v)|)
  {
    hide Groups, Pow128, Complete, Varint, Decode;
    VarintIsComplete(v);
    VarintLength(v, LONGEST);
    Pow128Values();
    ModUnique(v, TWO_64, 0, v);
    DecodeVarintAnywhere(before, Varint(v), after);
  }

  // ----- The loops

  lemma {:induction false} GroupsOfAppend(s: seq<byte>, b: byte)
    ensures Groups(s + [b]) == Groups(s) + Low(b) * Pow128(|s|)
  {
    if s == [] {
      assert (s + [b])[1..] == [];
    } else {
      assert (s + [b])[1..] == s[1..] + [b];
      GroupsOfAppend(s[1..], b);
      Distribute(Groups(s[1..]), Low(b), Pow128(|s| - 1));
    }
  }

  lemma Distribute(g: nat, x: nat, p: nat)
    ensures 128 * (g + x * p) == 128 * g + x * (128 * p)
  {}

  lemma {:induction false} GroupsBound(s: seq<byte>)
    ensures Groups(s) < Pow128(|s|)
  {
    if s != [] {
      GroupsBound(s[1..]);
    }
  }

  lemma {:induction false} PowMonotone(m: nat, n: nat)
    requires m <= n
    ensures Pow128(m) <= Pow128(n)
  {
    if m < n {
      PowMonotone(m, n - 1);
    }
  }

  lemma {:induction false} TakenEnds(s: seq<byte>, i: nat, room: nat)
    requires i < |s| && i < room
    requires forall k :: 0 <= k < i ==> s[k] >= 128
    ensures s[i] < 128 ==> Taken(s, room) == i + 1
  {
    if i > 0 {
      var t := s[1..];
      assert forall k :: 0 <= k < i - 1 ==> t[k] == s[k + 1];
      TakenEnds(t, i - 1, room - 1);
    }
  }

  lemma {:induction false} TakenStops(s: seq<byte>, i: nat, room: nat)
    requires i == |s| <= room || i == room <= |s|
    requires forall k :: 0 <= k < i ==> s[k] >= 128
    ensures Taken(s, room) == i
  {
    if i > 0 {
      var t := s[1..];
      assert forall k :: 0 <= k < i - 1 ==> t[k] == s[k + 1];
      TakenStops(t, i - 1, room - 1);
    }
  }

  /** x << shift, as a 64-bit number. */
  function Shifted(x: nat, shift: nat): nat {
    x * Pow2(shift) % TWO_64
  }

  lemma {:induction false} SevenBits(i: nat)
    ensures Pow2(7 * i) == Pow128(i)
  {
    if i > 0 {
      SevenBits(i - 1);
      SevenDoublings(7 * (i - 1));
    }
  }

  lemma SevenDoublings(n: nat)
    ensures Pow2(n + 7) == 128 * Pow2(n)
  {
    assert Pow2(n + 2) == 2 * Pow2(n + 1);
    assert Pow2(n + 4) == 2 * Pow2(n + 3) && Pow2(n + 3) == 2 * Pow2(n + 2);
    assert Pow2(n + 6) == 2 * Pow2(n + 5) && Pow2(n + 5) == 2 * Pow2(n + 4);
  }

  /** The tenth group: only its lowest bit fits in 64 bits. */
  lemma TopGroup(g: nat, x: nat)
    requires g < 0x8000_0000_0000_0000
    ensures g + x * 0x8000_0000_0000_0000 % TWO_64 == (g + x * 0x8000_0000_0000_0000) % TWO_64
  {
    var half := 0x8000_0000_0000_0000;
    ModUnique(x * half, TWO_64, x / 2, x % 2 * half);
    ModUnique(g + x * half, TWO_64, x / 2, g + x % 2 * half);
  }

  /** One more group. The bits shifted in lie above all bits so far, so `|` adds them, and those beyond 64 are lost. */
  lemma AddGroup(s: seq<byte>, b: byte)
    requires |s| < LONGEST
    ensures Groups(s) < Pow2(7 * |s|)
    ensures Groups(s) + Shifted(Low(b), 7 * |s|) == Number(s + [b])
    ensures |s| + 1 < LONGEST ==> Number(s + [b]) == Groups(s + [b])
  {
    hide Groups, Pow128, Low;
    SevenBits(|s|);
    GroupsBound(s);
    Pow128Values();
    GroupsOfAppend(s, b);
    if |s| + 1 < LONGEST {
      Fits(s + [b]);
      ModUnique(Low(b) * Pow128(|s|), TWO_64, 0, Low(b) * Pow128(|s|));
    } else {
      TopGroup(Groups(s), Low(b));
    }
  }

  lemma Fits(s: seq<byte>)
    requires |s| < LONGEST
    ensures Groups(s) < TWO_64 && Number(s) == Groups(s)
  {
    GroupsBound(s);
    PowMonotone(|s|, 9);
    Pow128Values();
    ModUnique(Groups(s), TWO_64, 0, Groups(s));
  }

  method DecodeVarint(buf: array<byte>, len: nat, pos: nat) returns (ok: bool, val: nat, next: nat)
    requires len <= buf.Length
    ensures Decoded(ok, val, next) == Decode(buf[..len], pos)
  {
    hide Groups, Pow2, Taken, Shifted, Number;
    ghost var rest := From(buf[..len], pos);
    val, next := 0, pos;
    var shift := 0;
    GroupsOfNone();
    while next < len
      invariant pos <= next && next - pos <= |rest| && next - pos < LONGEST
      invariant shift == 7 * (next - pos)
      invariant val == Groups(rest[..next - pos])
      invariant forall k :: 0 <= k < next - pos ==> rest[k] >= 128
      decreases len - next
    {
      ghost var i := next - pos;
      var b := buf[next];
      next := next + 1;
      assert rest[i] == b && rest[..i + 1] == rest[..i] + [b];
      AddGroup(rest[..i], b);
      TakenEnds(rest, i, LONGEST);
      val := val + Shifted(Low(b), shift);
      if b < 128 {
        return true, val, next;
      }
      shift := shift + 7;
      if shift >= 64 {
        TakenStops(rest, LONGEST, LONGEST);
        return false, val, next;
      }
    }
    ok := false;
    assert rest[..next - pos] == rest;
    TakenStops(rest, next - pos, LONGEST);
    Fits(rest);
  }

  lemma GroupsOfNone()
    ensures Groups([]) == 0
  {}

  method EncodeVarint(buf: array<byte>, pos: nat, val: nat) returns (next: nat)
    requires pos + |Varint(val)| <= buf.Length
    modifies buf
    ensures next == pos + |Varint(val)|
    ensures buf[..] == Splice(old(buf[..]), pos, Varint(val))
  {
    hide *;
    var v := val;
    next := pos;
    ghost var was := buf[..];
    ghost var done: seq<byte> := [];
    PutNone(was, pos);
    while v > 0x7F
      invariant next == pos + |done| && Varint(val) == done + Varint(v)
      invariant pos + |done| <= buf.Length && buf[..] == Splice(was, pos, done)
      decreases v
    {
      MoreGroups(done, v);
      var b: byte := v % 128 + 128;
      PutNext(was, pos, done, b);
      buf[next] := b;
      next := next + 1;
      done := done + [b];
      v := v / 128;
    }
    LastGroup(v);
    PutNext(was, pos, done, v);
    buf[next] := v;
    next := next + 1;
  }

  lemma MoreGroups(done: seq<byte>, v: nat)
    requires v > 0x7F
    ensures done + Varint(v) == (done + [v % 128 + 128]) + Varint(v / 128)
  {
    assert Varint(v) == [v % 128 + 128] + Varint(v / 128);
  }

  lemma LastGroup(v: nat)
    requires v <= 0x7F
    ensures Varint(v) == [v]
  {}

  lemma PutNext(was: seq<byte>, pos: nat, done: seq<byte>, b: byte)
    requires pos + |done| < |was|
    ensures |Splice(was, pos, done)| == |was|
    ensures Splice(was, pos, done)[pos + |done| := b] == Splice(was, pos, done + [b])
  {}

  lemma PutNone(was: seq<byte>, pos: nat)
    requires pos <= |was|
    ensures Splice(was, pos, []) == was
  {}
}
