/** Byte strings: little-endian fields of any width, and replacing a stretch of a byte string in place. */
module Bytes {
  type byte = x: int | 0 <= x < 256

  /** 256 to the power n: the number of values an n-byte field can hold. */
  function Pow256(n: nat): (p: nat)
    ensures p > 0
  {
    if n == 0 then 1 else 256 * Pow256(n - 1)
  }

  function Pow2(n: nat): (p: nat)
    ensures p > 0
  {
    if n == 0 then 1 else 2 * Pow2(n - 1)
  }

  /** The unsigned value of a little-endian field. */
  function Value(s: seq<byte>): nat {
    if s == [] then 0 else s[0] + 256 * Value(s[1..])
  }

  /** The low `width` bytes of v, least significant first; higher bytes are cut off as a C cast does. */
  function Le(v: nat, width: nat): (s: seq<byte>)
    ensures |s| == width
  {
    if width == 0 then [] else [v % 256] + Le(v / 256, width - 1)
  }

  /** The value of the field of that width at a position. */
  function LeField(s: seq<byte>, at: nat, width: nat): nat
    requires at + width <= |s|
  {
    Value(s[at..at + width])
  }

  lemma Pow256Values()
    ensures Pow256(1) == 0x100 && Pow256(2) == 0x1_0000
    ensures Pow256(4) == 0x1_0000_0000 && Pow256(8) == 0x1_0000_0000_0000_0000
  {
    assert Pow256(2) == 256 * Pow256(1);
    assert Pow256(3) == 256 * Pow256(2);
    assert Pow256(4) == 256 * Pow256(3);
    assert Pow256(5) == 256 * Pow256(4);
    assert Pow256(6) == 256 * Pow256(5);
    assert Pow256(7) == 256 * Pow256(6);
    assert Pow256(8) == 256 * Pow256(7);
  }

  lemma {:induction false} ValueBound(s: seq<byte>)
    ensures Value(s) < Pow256(|s|)
  {
    if s != [] {
      ValueBound(s[1..]);
    }
  }

  /** Reading back a field gives the written value, cut to the width of the field. */
  lemma {:induction false} ValueOfLe(v: nat, width: nat)
    ensures Value(Le(v, width)) == v % Pow256(width)
  {
    if width > 0 {
      var rest := Le(v / 256, width - 1);
      assert Le(v, width)[1..] == rest;
      ValueOfLe(v / 256, width - 1);
      ModSplit(v, Pow256(width - 1));
    }
  }

  lemma ModSplit(v: nat, p: nat)
    requires p > 0
    ensures v % (256 * p) == v % 256 + 256 * (v / 256 % p)
  {
    var q, r := v / 256 / p, v / 256 % p;
    assert v / 256 == q * p + r;
    assert v == (256 * p) * q + (256 * r + v % 256) by {
      assert 256 * (q * p) == (256 * p) * q;
    }
    assert 256 * r + 256 <= 256 * p;
    ModUnique(v, 256 * p, q, 256 * r + v % 256);
  }

  lemma ModUnique(v: nat, d: nat, q: nat, r: nat)
    requires r < d
    requires v == d * q + r
    ensures v % d == r && v / d == q
  {
    var k := v / d - q;
    assert d * k == r - v % d by {
      assert d * (v / d) + v % d == v;
      assert d * k == d * (v / d) - d * q;
    }
    assert k < 1 by {
      if k >= 1 { MulMonotone(d, 1, k); }
    }
    assert k > -1 by {
      if k <= -1 { MulMonotone(d, k, -1); }
    }
  }

  lemma MulMonotone(d: nat, a: int, b: int)
    requires a <= b
    ensures d * a <= d * b
  {}

  /** A field that fits is read back exactly. */
  lemma ValueOfFittingLe(v: nat, width: nat)
    requires v < Pow256(width)
    ensures Value(Le(v, width)) == v
  {
    ValueOfLe(v, width);
    ModUnique(v, Pow256(width), 0, v);
  }

  /** Writing back the value of a field gives its bytes: Le and Value are inverse bijections. */
  lemma {:induction false} LeOfValue(s: seq<byte>)
    ensures Le(Value(s), |s|) == s
  {
    if s != [] {
      LeOfValue(s[1..]);
      ModUnique(Value(s), 256, Value(s[1..]), s[0]);
      assert [Value(s) % 256] == s[..1];
      assert s == s[..1] + s[1..];
    }
  }

  /** A field split after n bytes. */
  lemma {:induction false} ValueSplit(s: seq<byte>, n: nat)
    requires n <= |s|
    ensures Value(s) == Value(s[..n]) + Pow256(n) * Value(s[n..])
  {
    if n == 0 {
      assert s[0..] == s;
    } else {
      ValueSplit(s[1..], n - 1);
      assert s[1..][..n - 1] == s[..n][1..] && s[1..][n - 1..] == s[n..];
      MulThrough(256, Pow256(n - 1), Value(s[n..]));
    }
  }

  lemma MulThrough(a: nat, b: nat, c: nat)
    ensures a * (b * c) == a * b * c
  {}

  /** Byte number i of a field counts 256 to the power i. */
  lemma ValueAt(s: seq<byte>, i: nat)
    requires i < |s|
    ensures Value(s) / Pow256(i) % 256 == s[i]
  {
    ValueSplit(s, i);
    ValueBound(s[..i]);
    ModUnique(Value(s), Pow256(i), Value(s[i..]), Value(s[..i]));
    ModUnique(Value(s[i..]), 256, Value(s[i..][1..]), s[i]);
  }

  // ----- 32-bit words

  /** Four bytes of a buffer, in the order they stand there. */
  datatype Word = Word(b0: byte, b1: byte, b2: byte, b3: byte) {
    function Bytes(): (b: seq<byte>)
      ensures |b| == 4
    {
      [b0, b1, b2, b3]
    }

    function Number(): nat {
      Value(Bytes())
    }

    function At(k: nat): byte
      requires k < 4
    {
      Bytes()[k]
    }
  }

  function WordOf(n: nat): Word {
    var b := Le(n, 4);
    Word(b[0], b[1], b[2], b[3])
  }

  function WordAt(s: seq<byte>, i: nat): Word
    requires i + 4 <= |s|
  {
    Word(s[i], s[i + 1], s[i + 2], s[i + 3])
  }

  lemma WordLaws(w: Word, n: nat)
    requires n < 0x1_0000_0000
    ensures w.Number() < 0x1_0000_0000
    ensures WordOf(w.Number()) == w
    ensures WordOf(n).Number() == n
  {
    Pow256Values();
    ValueBound(w.Bytes());
    LeOfValue(w.Bytes());
    assert WordOf(w.Number()).Bytes() == w.Bytes();
    ValueOfFittingLe(n, 4);
    assert WordOf(n).Bytes() == Le(n, 4);
  }

  /** s with the |t| elements at off replaced by t. */
  function Splice<T>(s: seq<T>, off: nat, t: seq<T>): (r: seq<T>)
    requires off + |t| <= |s|
    ensures |r| == |s|
  {
    s[..off] + t + s[off + |t|..]
  }

  lemma SpliceRead<T>(s: seq<T>, off: nat, t: seq<T>)
    requires off + |t| <= |s|
    ensures Splice(s, off, t)[off..off + |t|] == t
  {}

  lemma SpliceElsewhere<T>(s: seq<T>, off: nat, t: seq<T>, lo: nat, hi: nat)
    requires off + |t| <= |s|
    requires lo <= hi <= |s|
    requires hi <= off || off + |t| <= lo
    ensures Splice(s, off, t)[lo..hi] == s[lo..hi]
  {}

  lemma SpliceSame<T>(s: seq<T>, off: nat, t: seq<T>)
    requires off + |t| <= |s|
    requires s[off..off + |t|] == t
    ensures Splice(s, off, t) == s
  {}

  lemma SpliceTwice<T>(s: seq<T>, off: nat, t: seq<T>, u: seq<T>)
    requires off + |t| <= |s| && |u| == |t|
    ensures Splice(Splice(s, off, t), off, u) == Splice(s, off, u)
  {}

  lemma SpliceWhole<T>(s: seq<T>, t: seq<T>)
    requires |s| == |t|
    ensures s[0..|s|] == s && Splice(s, 0, t) == t
  {}

  lemma SpliceNext<T>(was: seq<T>, off: nat, t: seq<T>, u: seq<T>)
    requires off + |t| + |u| <= |was|
    ensures Splice(Splice(was, off, t), off + |t|, u) == Splice(was, off, t + u)
  {}

  lemma SliceOfSlice<T>(was: seq<T>, off: nat, size: nat, lo: nat, hi: nat)
    requires off + size <= |was| && lo <= hi <= size
    ensures was[off..off + size][lo..hi] == was[off + lo..off + hi]
  {
    var s := was[off..off + size];
    forall k | 0 <= k < hi - lo
      ensures s[lo..hi][k] == was[off + lo..off + hi][k]
    {
      assert s[lo + k] == was[off + (lo + k)];
    }
  }

  /** memcpy into an array. */
  method StoreBytes(data: array<byte>, off: nat, t: seq<byte>)
    requires off + |t| <= data.Length
    modifies data
    ensures data[..] == Splice(old(data[..]), off, t)
  {
    forall k | 0 <= k < |t| {
      data[off + k] := t[k];
    }
  }
}
