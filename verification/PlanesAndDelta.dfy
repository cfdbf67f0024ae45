/** Byte planes, byte deltas, and a delta on each plane (selfcode/lgz/lgzv3.c, lines 153-183, 214-221 and 349-355). */
module PlanesAndDelta {
  import opened Bytes
  import Arm64Branches
  import Scans

  // ----- Delta: each byte minus the one before it, modulo 256

  /** Byte subtraction and addition as a uint8_t does them. */
  function Minus(a: byte, b: byte): byte {
    (a - b) % 256
  }

  function Plus(a: byte, b: byte): byte {
    (a + b) % 256
  }

  lemma PlusMinus(a: byte, b: byte)
    ensures Plus(Minus(a, b), b) == a && Minus(Plus(a, b), b) == a
  {
    if a >= b {
      ModUnique(a - b, 256, 0, a - b);
    } else {
      Arm64Branches.AddModulus(a - b + 256, 256);
    }
    if a + b < 256 {
      ModUnique(a + b, 256, 0, a + b);
    } else {
      ModUnique(a + b, 256, 1, a + b - 256);
    }
  }

  function DeltaAfter(prev: byte, s: seq<byte>): (r: seq<byte>)
    ensures |r| == |s|
    decreases s
  {
    if s == [] then [] else [Minus(s[0], prev)] + DeltaAfter(s[0], s[1..])
  }

  function SumsAfter(prev: byte, s: seq<byte>): (r: seq<byte>)
    ensures |r| == |s|
    decreases s
  {
    if s == [] then [] else [Plus(s[0], prev)] + SumsAfter(Plus(s[0], prev), s[1..])
  }

  function Delta(s: seq<byte>): (r: seq<byte>)
    ensures |r| == |s|
  {
    DeltaAfter(0, s)
  }

  function Undelta(s: seq<byte>): (r: seq<byte>)
    ensures |r| == |s|
  {
    SumsAfter(0, s)
  }

  lemma {:induction false} SumsOfDelta(prev: byte, s: seq<byte>)
    ensures SumsAfter(prev, DeltaAfter(prev, s)) == s
    decreases s
  {
    if s != [] {
      PlusMinus(s[0], prev);
      SumsOfDelta(s[0], s[1..]);
      assert DeltaAfter(prev, s)[1..] == DeltaAfter(s[0], s[1..]);
    }
  }

  lemma {:induction false} DeltaOfSums(prev: byte, s: seq<byte>)
    ensures DeltaAfter(prev, SumsAfter(prev, s)) == s
    decreases s
  {
    if s != [] {
      var b := Plus(s[0], prev);
      PlusMinus(s[0], prev);
      DeltaOfSums(b, s[1..]);
      assert SumsAfter(prev, s)[1..] == SumsAfter(b, s[1..]);
    }
  }

  /** Delta and prefix sums modulo 256 are inverse bijections on buffers of every length. */
  lemma UndeltaDelta(s: seq<byte>)
    ensures Undelta(Delta(s)) == s && Delta(Undelta(s)) == s
  {
    SumsOfDelta(0, s);
    DeltaOfSums(0, s);
  }

  /** The first byte is kept, and every later one is what has to be added to the byte before it. */
  lemma DeltaAt(s: seq<byte>, i: nat)
    requires i < |s|
    ensures ((if i == 0 then 0 else s[i - 1] as int) + Delta(s)[i]) % 256 == s[i]
  {
    DeltaAfterAt(0, s, i);
  }

  lemma {:induction false} DeltaAfterAt(prev: byte, s: seq<byte>, i: nat)
    requires i < |s|
    ensures Plus(DeltaAfter(prev, s)[i], if i == 0 then prev else s[i - 1]) == s[i]
    decreases s
  {
    PlusMinus(s[0], prev);
    if i > 0 {
      DeltaAfterAt(s[0], s[1..], i - 1);
    }
  }

  /** The loop of delta_encode runs backwards, so that it still sees the byte before. */
  method DeltaInPlace(data: array<byte>, off: nat, size: nat)
    requires off + size <= data.Length
    modifies data
    ensures data[..] == Splice(old(data[..]), off, Delta(old(data[off..off + size])))
  {
    ghost var was := data[..];
    if size < 2 {
      ShortDelta(was, off, size);
      return;
    }
    var i := size - 1;
    assert DeltaAfter(was[off + i], []) == [];
    while i >= 1
      invariant i < size
      invariant data[..off + i + 1] == was[..off + i + 1] && data[off + size..] == was[off + size..]
      invariant data[off + i + 1..off + size] == DeltaAfter(was[off + i], was[off + i + 1..off + size])
      decreases i
    {
      ghost var now := data[..];
      assert data[off + i] == was[off + i] && data[off + i - 1] == was[off + i - 1] by {
        assert now[off + i] == now[..off + i + 1][off + i];
        assert now[off + i - 1] == now[..off + i + 1][off + i - 1];
      }
      data[off + i] := Minus(data[off + i], data[off + i - 1]);
      DeltaStep(was, now, data[..], off, size, i);
      i := i - 1;
    }
    DeltaDone(was, data[..], off, size);
  }

  lemma ShortDelta(was: seq<byte>, off: nat, size: nat)
    requires off + size <= |was| && size < 2
    ensures Splice(was, off, Delta(was[off..off + size])) == was
  {
    assert Delta(was[off..off + size]) == was[off..off + size];
  }

  lemma DeltaStep(was: seq<byte>, now: seq<byte>, next: seq<byte>, off: nat, size: nat, i: nat)
    requires off + size <= |was| == |now| && 1 <= i < size
    requires now[..off + i + 1] == was[..off + i + 1] && now[off + size..] == was[off + size..]
    requires now[off + i + 1..off + size] == DeltaAfter(was[off + i], was[off + i + 1..off + size])
    requires next == now[off + i := Minus(was[off + i], was[off + i - 1])]
    ensures next[..off + i] == was[..off + i] && next[off + size..] == was[off + size..]
    ensures next[off + i..off + size] == DeltaAfter(was[off + i - 1], was[off + i..off + size])
  {
    var tail := was[off + i..off + size];
    assert tail[1..] == was[off + i + 1..off + size];
    assert next[off + i..off + size] == [next[off + i]] + now[off + i + 1..off + size];
    assert next[..off + i] == now[..off + i + 1][..off + i];
    assert was[..off + i] == was[..off + i + 1][..off + i];
  }

  lemma DeltaDone(was: seq<byte>, now: seq<byte>, off: nat, size: nat)
    requires off + size <= |was| == |now| && size >= 1
    requires now[..off + 1] == was[..off + 1] && now[off + size..] == was[off + size..]
    requires now[off + 1..off + size] == DeltaAfter(was[off], was[off + 1..off + size])
    ensures now == Splice(was, off, Delta(was[off..off + size]))
  {
    var s := was[off..off + size];
    assert s[1..] == was[off + 1..off + size];
    assert Delta(s) == [s[0]] + DeltaAfter(s[0], s[1..]);
    assert now == now[..off + 1] + now[off + 1..off + size] + now[off + size..];
    assert was[..off + 1] == was[..off] + [s[0]];
  }

  /** The loop of delta_decode. */
  method UndeltaInPlace(data: array<byte>, off: nat, size: nat)
    requires off + size <= data.Length
    modifies data
    ensures data[..] == Splice(old(data[..]), off, Undelta(old(data[off..off + size])))
  {
    ghost var was, goal := data[..], Undelta(data[off..off + size]);
    if size == 0 {
      SpliceSame(was, off, []);
      return;
    }
    ghost var rest := was[off + 1..off + size];
    assert was[off..off + size][1..] == rest;
    assert goal == [data[off]] + SumsAfter(data[off], rest);
    Scans.Start(was, off, size, goal);
    Scans.Step(was, was, off, size, 0, goal, [data[off]], SumsAfter(data[off], rest));
    SpliceSame(was, off, [data[off]]);
    var i := 1;
    while i < size
      invariant 1 <= i <= size && rest == was[off + i..off + size]
      invariant Scans.At(was, data[..], off, size, i, goal, SumsAfter(data[off + i - 1], rest))
    {
      UndeltaStep(was, data[..], off, size, i, goal, rest);
      data[off + i] := Plus(data[off + i], data[off + i - 1]);
      rest := rest[1..];
      i := i + 1;
    }
    Scans.Finish(was, data[..], off, size, i, goal, rest);
  }

  lemma UndeltaStep(was: seq<byte>, now: seq<byte>, off: nat, size: nat, i: nat, goal: seq<byte>, rest: seq<byte>)
    requires 1 <= i < size && off + size <= |was| == |now| && rest == was[off + i..off + size]
    requires Scans.At(was, now, off, size, i, goal, SumsAfter(now[off + i - 1], rest))
    ensures var b := Plus(now[off + i], now[off + i - 1]);
            Scans.At(was, now[off + i := b], off, size, i + 1, goal, SumsAfter(b, rest[1..]))
  {
    assert now[off + i] == now[off + i..][0] == rest[0];
    var b := Plus(now[off + i], now[off + i - 1]);
    Scans.Step(was, now, off, size, i, goal, [b], SumsAfter(b, rest[1..]));
    assert Splice(now, off + i, [b]) == now[off + i := b];
  }

  // ----- Planes: byte p of every 4-byte instruction

  /** Byte p of each whole instruction. */
  function Plane(s: seq<byte>, p: nat): (r: seq<byte>)
    requires p < 4
    ensures 4 * |r| <= |s| < 4 * |r| + 4
  {
    if |s| < 4 then [] else [s[p]] + Plane(s[4..], p)
  }

  /** Instructions put together from four planes, the most significant byte's plane first. */
  function Interleave(p3: seq<byte>, p2: seq<byte>, p1: seq<byte>, p0: seq<byte>): (r: seq<byte>)
    requires |p3| == |p2| == |p1| == |p0|
    ensures |r| == 4 * |p3|
  {
    if p3 == [] then [] else [p0[0], p1[0], p2[0], p3[0]] + Interleave(p3[1..], p2[1..], p1[1..], p0[1..])
  }

  /** The bytes after the last whole instruction. */
  function Remainder(s: seq<byte>): (r: seq<byte>)
    ensures |r| < 4 && |r| <= |s|
  {
    if |s| < 4 then s else Remainder(s[4..])
  }

  /** arm64_planes_encode: the planes of bytes 3, 2, 1 and 0, then the remainder. */
  function Planes(s: seq<byte>): (r: seq<byte>)
    ensures |r| == |s|
  {
    SplitLength(s);
    Plane(s, 3) + Plane(s, 2) + Plane(s, 1) + Plane(s, 0) + Remainder(s)
  }

  /** arm64_planes_decode. */
  function Unplanes(t: seq<byte>): (r: seq<byte>)
    ensures |r| == |t|
  {
    var n := |t| / 4;
    Interleave(t[..n], t[n..2 * n], t[2 * n..3 * n], t[3 * n..4 * n]) + t[4 * n..]
  }

  lemma {:induction false} SplitLength(s: seq<byte>)
    ensures |s| == 4 * |Plane(s, 0)| + |Remainder(s)|
    ensures |Plane(s, 0)| == |Plane(s, 1)| == |Plane(s, 2)| == |Plane(s, 3)|
  {
    if |s| >= 4 {
      SplitLength(s[4..]);
    }
  }

  lemma {:induction false} InterleavePlanes(s: seq<byte>)
    requires |Plane(s, 0)| == |Plane(s, 1)| == |Plane(s, 2)| == |Plane(s, 3)|
    ensures Interleave(Plane(s, 3), Plane(s, 2), Plane(s, 1), Plane(s, 0)) + Remainder(s) == s
  {
    if |s| >= 4 {
      SplitLength(s[4..]);
      InterleavePlanes(s[4..]);
      assert s == [s[0], s[1], s[2], s[3]] + s[4..];
    }
  }

  /** The five pieces of a buffer of planes. */
  lemma Pieces(a: seq<byte>, b: seq<byte>, c: seq<byte>, d: seq<byte>, e: seq<byte>)
    requires |a| == |b| == |c| == |d| && |e| < 4
    ensures var t, n := a + b + c + d + e, |a|;
            && |t| / 4 == n
            && t[..n] == a && t[n..2 * n] == b && t[2 * n..3 * n] == c && t[3 * n..4 * n] == d && t[4 * n..] == e
  {}

  /** For every length, decoding the planes restores the buffer. */
  lemma UnplanesPlanes(s: seq<byte>)
    ensures Unplanes(Planes(s)) == s
  {
    SplitLength(s);
    Pieces(Plane(s, 3), Plane(s, 2), Plane(s, 1), Plane(s, 0), Remainder(s));
    InterleavePlanes(s);
  }

  lemma PlaneGrows(s: seq<byte>, p: nat)
    requires |s| >= 4 && p < 4
    ensures multiset(Plane(s, p)) == multiset{s[p]} + multiset(Plane(s[4..], p))
  {}

  lemma FourMore(s: seq<byte>)
    requires |s| >= 4
    ensures multiset(s) == multiset{s[3]} + multiset{s[2]} + multiset{s[1]} + multiset{s[0]} + multiset(s[4..])
  {
    assert s == [s[0]] + ([s[1]] + ([s[2]] + ([s[3]] + s[4..])));
  }

  lemma {:induction false} PlanesHoldAll(s: seq<byte>)
    ensures multiset(Plane(s, 3)) + multiset(Plane(s, 2)) + multiset(Plane(s, 1)) + multiset(Plane(s, 0))
        + multiset(Remainder(s))
         == multiset(s)
  {
    if |s| >= 4 {
      PlanesHoldAll(s[4..]);
      PlaneGrows(s, 3);
      PlaneGrows(s, 2);
      PlaneGrows(s, 1);
      PlaneGrows(s, 0);
      FourMore(s);
    }
  }

  /** Planes only moves bytes about. */
  lemma PlanesPermute(s: seq<byte>)
    ensures multiset(Planes(s)) == multiset(s)
  {
    PlanesHoldAll(s);
  }

  lemma {:induction false} PlaneAt(s: seq<byte>, p: nat, i: nat)
    requires p < 4 && 4 * i + 4 <= |s|
    ensures i < |Plane(s, p)| && Plane(s, p)[i] == s[4 * i + p]
  {
    if i > 0 {
      PlaneAt(s[4..], p, i - 1);
    }
  }

  lemma {:induction false} RemainderIs(s: seq<byte>)
    ensures Remainder(s) == s[4 * |Plane(s, 0)|..]
  {
    if |s| >= 4 {
      RemainderIs(s[4..]);
    }
  }

  lemma {:induction false} InterleaveAt(p3: seq<byte>, p2: seq<byte>, p1: seq<byte>, p0: seq<byte>, i: nat)
    requires |p3| == |p2| == |p1| == |p0| && i < |p3|
    ensures var r := Interleave(p3, p2, p1, p0);
            r[4 * i] == p0[i] && r[4 * i + 1] == p1[i] && r[4 * i + 2] == p2[i] && r[4 * i + 3] == p3[i]
  {
    if i > 0 {
      InterleaveAt(p3[1..], p2[1..], p1[1..], p0[1..], i - 1);
    }
  }

  /** Plane number p holds byte 3 - p of every instruction, and the remainder follows the planes. */
  lemma PlanesAt(s: seq<byte>, k: nat, p: nat)
    requires 4 * k + 4 <= |s| && p < 4
    ensures var n := |s| / 4; p * n + k < 4 * n && Planes(s)[p * n + k] == s[4 * k + (3 - p)]
  {
    hide *;
    PlaneIsPiece(s, p);
    PlaneAt(s, 3 - p, k);
    PieceAt(Planes(s), |s| / 4, p, k);
  }

  lemma PlaneIsPiece(s: seq<byte>, p: nat)
    requires p < 4
    ensures |Planes(s)| >= 4 * (|s| / 4) && Piece(Planes(s), |s| / 4, p) == Plane(s, 3 - p)
  {
    SplitLength(s);
    hide Plane, Remainder;
    Pieces(Plane(s, 3), Plane(s, 2), Plane(s, 1), Plane(s, 0), Remainder(s));
  }

  /** Piece number p of four pieces of n bytes. */
  function Piece(t: seq<byte>, n: nat, p: nat): (r: seq<byte>)
    requires p < 4 && 4 * n <= |t|
    ensures |r| == n
  {
    if p == 0 then t[..n] else if p == 1 then t[n..2 * n] else if p == 2 then t[2 * n..3 * n] else t[3 * n..4 * n]
  }

  lemma PieceAt(t: seq<byte>, n: nat, p: nat, k: nat)
    requires p < 4 && k < n && 4 * n <= |t|
    ensures p * n + k < 4 * n && t[p * n + k] == Piece(t, n, p)[k]
  {}

  lemma PlanesTail(s: seq<byte>)
    ensures var n := |s| / 4; Planes(s)[4 * n..] == s[4 * n..]
  {
    SplitLength(s);
    RemainderIs(s);
    hide Plane, Remainder;
    Pieces(Plane(s, 3), Plane(s, 2), Plane(s, 1), Plane(s, 0), Remainder(s));
  }

  /** The first i bytes of the plane that starts at base are in place. */
  ghost predicate Filled(out: seq<byte>, base: nat, i: nat, plane: seq<byte>) {
    i <= |plane| && base + |plane| <= |out| && out[base..base + i] == plane[..i]
  }

  lemma FillMore(was: seq<byte>, now: seq<byte>, base: nat, i: nat, plane: seq<byte>)
    requires Filled(was, base, i, plane) && i < |plane| && |now| == |was|
    requires now[base + i] == plane[i]
    requires now[base..base + i] == was[base..base + i]
    ensures Filled(now, base, i + 1, plane)
  {
    assert now[base..base + i + 1] == now[base..base + i] + [now[base + i]];
    assert plane[..i + 1] == plane[..i] + [plane[i]];
  }

  ghost predicate FourFilled(out: seq<byte>, n: nat, i: nat, p3: seq<byte>, p2: seq<byte>, p1: seq<byte>,
      p0: seq<byte>)
  {
    && |p3| == |p2| == |p1| == |p0| == n
    && Filled(out, 0, i, p3) && Filled(out, n, i, p2) && Filled(out, 2 * n, i, p1) && Filled(out, 3 * n, i, p0)
  }

  lemma FillFour(was: seq<byte>, n: nat, i: nat, p3: seq<byte>, p2: seq<byte>, p1: seq<byte>, p0: seq<byte>)
    requires i < n && FourFilled(was, n, i, p3, p2, p1, p0)
    ensures FourFilled(was[i := p3[i]][n + i := p2[i]][2 * n + i := p1[i]][3 * n + i := p0[i]], n, i + 1,
                       p3, p2, p1, p0)
  {
    var now := was[i := p3[i]][n + i := p2[i]][2 * n + i := p1[i]][3 * n + i := p0[i]];
    FillMore(was, now, 0, i, p3);
    FillMore(was, now, n, i, p2);
    FillMore(was, now, 2 * n, i, p1);
    FillMore(was, now, 3 * n, i, p0);
  }

  lemma AllFilled(out: seq<byte>, n: nat, p3: seq<byte>, p2: seq<byte>, p1: seq<byte>, p0: seq<byte>)
    requires FourFilled(out, n, n, p3, p2, p1, p0)
    ensures out[..4 * n] == p3 + p2 + p1 + p0
  {
    assert out[..4 * n] == out[0..n] + out[n..n + n] + out[2 * n..2 * n + n] + out[3 * n..3 * n + n];
  }

  /** p3, p2, p1 and p0 hold bytes 3, 2, 1 and 0 of the first n instructions of s. */
  ghost predicate ArePlanes(s: seq<byte>, n: nat, p3: seq<byte>, p2: seq<byte>, p1: seq<byte>, p0: seq<byte>) {
    && |p3| == |p2| == |p1| == |p0| == n && 4 * n <= |s|
    && (forall i :: 0 <= i < n ==> IsColumn(s, p3, p2, p1, p0, i))
  }

  ghost predicate IsColumn(s: seq<byte>, p3: seq<byte>, p2: seq<byte>, p1: seq<byte>, p0: seq<byte>, i: nat)
    requires |p3| == |p2| == |p1| == |p0| && i < |p3| && 4 * |p3| <= |s|
  {
    p3[i] == s[4 * i + 3] && p2[i] == s[4 * i + 2] && p1[i] == s[4 * i + 1] && p0[i] == s[4 * i]
  }

  lemma ColumnIs(data: seq<byte>, off: nat, size: nat, p3: seq<byte>, p2: seq<byte>, p1: seq<byte>, p0: seq<byte>,
      i: nat)
    requires off + size <= |data| && |p3| == |p2| == |p1| == |p0| && i < |p3| && 4 * |p3| <= size
    requires IsColumn(data[off..off + size], p3, p2, p1, p0, i)
    ensures p3[i] == data[off + 4 * i + 3] && p2[i] == data[off + 4 * i + 2]
    ensures p1[i] == data[off + 4 * i + 1] && p0[i] == data[off + 4 * i]
  {}

  lemma PlanesArePlanes(s: seq<byte>)
    ensures ArePlanes(s, |s| / 4, Plane(s, 3), Plane(s, 2), Plane(s, 1), Plane(s, 0))
  {
    SplitLength(s);
    hide Plane;
    forall i | 0 <= i < |s| / 4
      ensures IsColumn(s, Plane(s, 3), Plane(s, 2), Plane(s, 1), Plane(s, 0), i)
    {
      PlaneAt(s, 3, i);
      PlaneAt(s, 2, i);
      PlaneAt(s, 1, i);
      PlaneAt(s, 0, i);
    }
  }

  /** The first loop of arm64_planes_encode. */
  method FillPlanes(data: array<byte>, off: nat, size: nat, out: array<byte>,
                    ghost p3: seq<byte>, ghost p2: seq<byte>, ghost p1: seq<byte>, ghost p0: seq<byte>)
    requires off + size <= data.Length && out.Length == size && out != data
    requires ArePlanes(data[off..off + size], size / 4, p3, p2, p1, p0)
    modifies out
    ensures out[..4 * (size / 4)] == p3 + p2 + p1 + p0
  {
    var n := size / 4;
    var i := 0;
    while i < n
      invariant i <= n && FourFilled(out[..], n, i, p3, p2, p1, p0)
    {
      assert IsColumn(data[off..off + size], p3, p2, p1, p0, i);
      FillColumn(data, off, size, out, n, i, p3, p2, p1, p0);
      i := i + 1;
    }
    AllFilled(out[..], n, p3, p2, p1, p0);
  }

  method FillColumn(data: array<byte>, off: nat, size: nat, out: array<byte>, n: nat, i: nat,
                    ghost p3: seq<byte>, ghost p2: seq<byte>, ghost p1: seq<byte>, ghost p0: seq<byte>)
    requires off + size <= data.Length && out.Length == size && out != data && 4 * n <= size
    requires |p3| == |p2| == |p1| == |p0| == n && i < n
    requires IsColumn(data[off..off + size], p3, p2, p1, p0, i)
    requires FourFilled(out[..], n, i, p3, p2, p1, p0)
    modifies out
    ensures FourFilled(out[..], n, i + 1, p3, p2, p1, p0)
  {
    hide *;
    ghost var d := data[..];
    assert d[off..off + size] == data[off..off + size];
    FillFour(out[..], n, i, p3, p2, p1, p0);
    ColumnIs(d, off, size, p3, p2, p1, p0, i);
    StoreFour(out, i, data[off + 4 * i + 3], n + i, data[off + 4 * i + 2],
              2 * n + i, data[off + 4 * i + 1], 3 * n + i, data[off + 4 * i]);
  }

  method PlanesEncode(data: array<byte>, off: nat, size: nat) returns (out: array<byte>)
    requires off + size <= data.Length
    ensures fresh(out) && out[..] == Planes(data[off..off + size])
  {
    hide *;
    ghost var s := data[off..off + size];
    PlanesArePlanes(s);
    PlanesAre(s);
    out := new byte[size];
    FillPlanes(data, off, size, out, Plane(s, 3), Plane(s, 2), Plane(s, 1), Plane(s, 0));
    CopyTail(data, off, out, 4 * (size / 4));
    assert data[off + 4 * (size / 4)..off + size] == s[4 * (size / 4)..];
  }

  lemma PlanesAre(s: seq<byte>)
    ensures Planes(s) == Plane(s, 3) + Plane(s, 2) + Plane(s, 1) + Plane(s, 0) + s[4 * (|s| / 4)..]
  {
    SplitLength(s);
    RemainderIs(s);
    assert |Plane(s, 0)| == |s| / 4;
  }

  method StoreFour(out: array<byte>, a: nat, x: byte, b: nat, y: byte, c: nat, z: byte, d: nat, w: byte)
    requires a < out.Length && b < out.Length && c < out.Length && d < out.Length
    modifies out
    ensures out[..] == old(out[..])[a := x][b := y][c := z][d := w]
  {
    out[a] := x;
    out[b] := y;
    out[c] := z;
    out[d] := w;
  }

  /** The loop that copies what is left after the last whole instruction. */
  method CopyTail(data: array<byte>, off: nat, out: array<byte>, start: nat)
    requires off + out.Length <= data.Length && start <= out.Length && out != data
    modifies out
    ensures out[..] == old(out[..start]) + data[off + start..off + out.Length]
  {
    ghost var head := out[..start];
    var j := start;
    while j < out.Length
      invariant start <= j <= out.Length
      invariant out[..start] == head && out[start..j] == data[off + start..off + j]
    {
      out[j] := data[off + j];
      j := j + 1;
    }
    assert out[..] == out[..start] + out[start..];
  }

  /** goal is the instructions whose planes stand one after the other at the start of t. */
  ghost predicate AreInstructions(t: seq<byte>, n: nat, goal: seq<byte>) {
    && |goal| == 4 * n <= |t|
    && (forall i :: 0 <= i < n ==> IsInstruction(t, n, goal, i))
  }

  ghost predicate IsInstruction(t: seq<byte>, n: nat, goal: seq<byte>, i: nat)
    requires i < n && |goal| == 4 * n <= |t|
  {
    goal[4 * i..4 * i + 4] == [t[3 * n + i], t[2 * n + i], t[n + i], t[i]]
  }

  lemma OneInstruction(t: seq<byte>, n: nat, goal: seq<byte>, i: nat)
    requires i < n && |goal| == 4 * n <= |t|
    requires goal[4 * i] == t[3 * n..4 * n][i] && goal[4 * i + 1] == t[2 * n..3 * n][i]
    requires goal[4 * i + 2] == t[n..2 * n][i] && goal[4 * i + 3] == t[..n][i]
    ensures IsInstruction(t, n, goal, i)
  {}

  lemma InterleaveIs(t: seq<byte>, n: nat)
    requires 4 * n <= |t|
    ensures AreInstructions(t, n, Interleave(t[..n], t[n..2 * n], t[2 * n..3 * n], t[3 * n..4 * n]))
  {
    var p3, p2, p1, p0 := t[..n], t[n..2 * n], t[2 * n..3 * n], t[3 * n..4 * n];
    var goal := Interleave(p3, p2, p1, p0);
    forall i | 0 <= i < n
      ensures IsInstruction(t, n, goal, i)
    {
      InterleaveAt(p3, p2, p1, p0, i);
      OneInstruction(t, n, goal, i);
    }
  }

  lemma FillInstruction(was: seq<byte>, t: seq<byte>, n: nat, i: nat, goal: seq<byte>)
    requires i < n && |goal| == 4 * n <= |t| == |was|
    requires IsInstruction(t, n, goal, i)
    requires was[..4 * i] == goal[..4 * i]
    ensures var now := was[4 * i + 3 := t[i]][4 * i + 2 := t[n + i]][4 * i + 1 := t[2 * n + i]][4 * i := t[3 * n + i]];
            now[..4 * i + 4] == goal[..4 * i + 4]
  {
    var now := was[4 * i + 3 := t[i]][4 * i + 2 := t[n + i]][4 * i + 1 := t[2 * n + i]][4 * i := t[3 * n + i]];
    assert now[..4 * i] == was[..4 * i];
    assert now[..4 * i + 4] == now[..4 * i] + [t[3 * n + i], t[2 * n + i], t[n + i], t[i]];
    assert goal[..4 * i + 4] == goal[..4 * i] + goal[4 * i..4 * i + 4];
  }

  /** The first loop of arm64_planes_decode. */
  method FillInstructions(data: array<byte>, off: nat, size: nat, out: array<byte>, ghost goal: seq<byte>)
    requires off + size <= data.Length && out.Length == size && out != data
    requires AreInstructions(data[off..off + size], size / 4, goal)
    modifies out
    ensures out[..4 * (size / 4)] == goal
  {
    ghost var t := data[off..off + size];
    var n := size / 4;
    var i := 0;
    while i < n
      invariant i <= n && out[..4 * i] == goal[..4 * i]
    {
      FillInstruction(out[..], t, n, i, goal);
      StoreFour(out, 4 * i + 3, data[off + i], 4 * i + 2, data[off + n + i],
                4 * i + 1, data[off + 2 * n + i], 4 * i, data[off + 3 * n + i]);
      i := i + 1;
    }
  }

  method PlanesDecode(data: array<byte>, off: nat, size: nat) returns (out: array<byte>)
    requires off + size <= data.Length
    ensures fresh(out) && out[..] == Unplanes(data[off..off + size])
  {
    hide Interleave, AreInstructions;
    ghost var t, n := data[off..off + size], size / 4;
    InterleaveIs(t, n);
    out := new byte[size];
    FillInstructions(data, off, size, out, Interleave(t[..n], t[n..2 * n], t[2 * n..3 * n], t[3 * n..4 * n]));
    CopyTail(data, off, out, 4 * (size / 4));
    assert data[off + 4 * n..off + size] == t[4 * n..];
  }

  // ----- Delta on each plane

  function DeltaPlanes(t: seq<byte>): (r: seq<byte>)
    ensures |r| == |t|
  {
    var n := |t| / 4;
    Delta(t[..n]) + Delta(t[n..2 * n]) + Delta(t[2 * n..3 * n]) + Delta(t[3 * n..4 * n]) + t[4 * n..]
  }

  function UndeltaPlanes(t: seq<byte>): (r: seq<byte>)
    ensures |r| == |t|
  {
    var n := |t| / 4;
    Undelta(t[..n]) + Undelta(t[n..2 * n]) + Undelta(t[2 * n..3 * n]) + Undelta(t[3 * n..4 * n]) + t[4 * n..]
  }

  lemma FivePieces(t: seq<byte>)
    ensures var n := |t| / 4;
            t == t[..n] + t[n..2 * n] + t[2 * n..3 * n] + t[3 * n..4 * n] + t[4 * n..]
  {}

  lemma UndeltaDeltaPlanes(t: seq<byte>)
    ensures UndeltaPlanes(DeltaPlanes(t)) == t
  {
    var n := |t| / 4;
    var a, b, c, d, e := t[..n], t[n..2 * n], t[2 * n..3 * n], t[3 * n..4 * n], t[4 * n..];
    Pieces(Delta(a), Delta(b), Delta(c), Delta(d), e);
    UndeltaDelta(a);
    UndeltaDelta(b);
    UndeltaDelta(c);
    UndeltaDelta(d);
    FivePieces(t);
  }

  /** Every plane has a delta of its own, and the bytes after the planes are kept. */
  lemma DeltaPlanesAt(t: seq<byte>, p: nat, k: nat)
    requires p < 4 && k < |t| / 4
    ensures var n := |t| / 4;
            && p * n + k < 4 * n
            && ((if k == 0 then 0 else t[p * n + k - 1] as int) + DeltaPlanes(t)[p * n + k]) % 256 == t[p * n + k]
            && DeltaPlanes(t)[4 * n..] == t[4 * n..]
  {
    hide *;
    var n := |t| / 4;
    DeltaAt(Piece(t, n, p), k);
    DeltaOfPiece(t, p);
    PieceAt(DeltaPlanes(t), n, p, k);
    PieceAt(t, n, p, k);
    if k > 0 {
      PieceAt(t, n, p, k - 1);
    }
  }

  lemma DeltaOfPiece(t: seq<byte>, p: nat)
    requires p < 4
    ensures var n := |t| / 4;
            Piece(DeltaPlanes(t), n, p) == Delta(Piece(t, n, p)) && DeltaPlanes(t)[4 * n..] == t[4 * n..]
  {
    hide Delta;
    var n := |t| / 4;
    Pieces(Delta(t[..n]), Delta(t[n..2 * n]), Delta(t[2 * n..3 * n]), Delta(t[3 * n..4 * n]), t[4 * n..]);
  }
}
