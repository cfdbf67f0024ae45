/** The transforms applied to one piece of a file: their definitions, their inverses and their in-place forms
    (selfcode/lgz/lgzv3.c, lines 341-363, 586-600, 915-930 and 952-967). */
module CodePipeline {
  import opened Bytes
  import opened PlanesAndDelta
  import Arm64Branches

  /** ARM64 code: absolute branches, then byte planes, then a delta on each plane. */
  function EncodeCode(s: seq<byte>): (r: seq<byte>)
    ensures |r| == |s|
  {
    DeltaPlanes(Planes(Arm64Branches.Normalize(s)))
  }

  function DecodeCode(t: seq<byte>): (r: seq<byte>)
    ensures |r| == |t|
  {
    Arm64Branches.Denormalize(Unplanes(UndeltaPlanes(t)))
  }

  /** For every section, whatever its length modulo 4, the pipeline is undone. */
  lemma DecodeEncodeCode(s: seq<byte>)
    ensures DecodeCode(EncodeCode(s)) == s
  {
    var n := Arm64Branches.Normalize(s);
    UndeltaDeltaPlanes(Planes(n));
    UnplanesPlanes(n);
    Arm64Branches.DenormalizeNormalize(s);
  }

  /** What encoded code holds: plane number p is the delta of the bytes 3 - p of the instructions with absolute
      branches; the bytes after the last instruction are kept. */
  lemma EncodeCodeAt(s: seq<byte>, p: nat, k: nat, at: nat)
    requires p < 4 && 4 * k + 4 <= |s| && at == p * (|s| / 4) + k
    ensures at < |s|
    ensures var w, e := Arm64Branches.Normalize(s), EncodeCode(s);
            ((if k == 0 then 0 else w[4 * (k - 1) + (3 - p)] as int) + e[at]) % 256 == w[4 * k + (3 - p)]
    ensures var n := |s| / 4; EncodeCode(s)[4 * n..] == s[4 * n..]
  {
    var w := Arm64Branches.Normalize(s);
    hide Planes, DeltaPlanes;
    PlanesAt(w, k, p);
    DeltaPlanesAt(Planes(w), p, k);
    PlanesTail(w);
    Arm64Branches.NormalizeAtWord(s, |s| / 4);
    if k > 0 {
      PlanesAt(w, k - 1, p);
    }
  }

  // ----- In place

  lemma SpliceTail(was: seq<byte>, off: nat, t: seq<byte>, size: nat)
    requires |t| <= size && off + size <= |was|
    ensures Splice(was, off, t) == Splice(was, off, t + was[off..off + size][|t|..])
  {}

  /** What lies after the rewritten part of a stretch is still untouched. */
  lemma Untouched(was: seq<byte>, off: nat, t: seq<byte>, hi: nat)
    requires |t| <= hi && off + hi <= |was|
    ensures Splice(was, off, t)[off + |t|..off + hi] == was[off + |t|..off + hi]
  {}

  lemma FewInstructions(s: seq<byte>)
    requires |s| / 4 <= 1
    ensures DeltaPlanes(s) == s && UndeltaPlanes(s) == s
  {
    var n := |s| / 4;
    ShortPlane(s[..n]);
    ShortPlane(s[n..2 * n]);
    ShortPlane(s[2 * n..3 * n]);
    ShortPlane(s[3 * n..4 * n]);
    FivePieces(s);
  }

  lemma ShortPlane(p: seq<byte>)
    requires |p| <= 1
    ensures Delta(p) == p && Undelta(p) == p
  {}

  function Direction(p: seq<byte>, forward: bool): (r: seq<byte>)
    ensures |r| == |p|
  {
    if forward then Delta(p) else Undelta(p)
  }

  /** The four rewritten planes of s. */
  function FourPlanes(s: seq<byte>, forward: bool): (r: seq<byte>)
    ensures |r| == 4 * (|s| / 4)
  {
    var n := |s| / 4;
    Direction(s[..n], forward) + Direction(s[n..2 * n], forward) + Direction(s[2 * n..3 * n], forward)
        + Direction(s[3 * n..4 * n], forward)
  }

  lemma FourPlanesAre(s: seq<byte>)
    ensures FourPlanes(s, true) + s[4 * (|s| / 4)..] == DeltaPlanes(s)
    ensures FourPlanes(s, false) + s[4 * (|s| / 4)..] == UndeltaPlanes(s)
  {
    hide Delta, Undelta;
  }

  method DeltaPlanesInPlace(data: array<byte>, off: nat, size: nat)
    requires off + size <= data.Length
    modifies data
    ensures data[..] == Splice(old(data[..]), off, DeltaPlanes(old(data[off..off + size])))
  {
    PlanesInPlace(data, off, size, true);
  }

  method UndeltaPlanesInPlace(data: array<byte>, off: nat, size: nat)
    requires off + size <= data.Length
    modifies data
    ensures data[..] == Splice(old(data[..]), off, UndeltaPlanes(old(data[off..off + size])))
  {
    PlanesInPlace(data, off, size, false);
  }

  /** The guard and the calls that both directions share. */
  method PlanesInPlace(data: array<byte>, off: nat, size: nat, forward: bool)
    requires off + size <= data.Length
    modifies data
    ensures var s := old(data[off..off + size]);
            data[..] == Splice(old(data[..]), off, if forward then DeltaPlanes(s) else UndeltaPlanes(s))
  {
    hide FourPlanes, DeltaPlanes, UndeltaPlanes;
    ghost var was, s := data[..], data[off..off + size];
    var n := size / 4;
    if n > 1 {
      EachPlaneInPlace(data, off, size, n, forward);
      SpliceTail(was, off, FourPlanes(s, forward), size);
      FourPlanesAre(s);
    } else {
      FewInstructions(s);
      SpliceSame(was, off, s);
    }
  }

  method PlaneInPlace(data: array<byte>, off: nat, n: nat, forward: bool)
    requires off + n <= data.Length
    modifies data
    ensures data[..] == Splice(old(data[..]), off, Direction(old(data[off..off + n]), forward))
  {
    if forward {
      DeltaInPlace(data, off, n);
    } else {
      UndeltaInPlace(data, off, n);
    }
  }

  /** The four calls on consecutive planes. */
  method EachPlaneInPlace(data: array<byte>, off: nat, size: nat, n: nat, forward: bool)
    requires off + size <= data.Length && n == size / 4
    modifies data
    ensures data[..] == Splice(old(data[..]), off, FourPlanes(old(data[off..off + size]), forward))
  {
    hide Direction, Splice;
    ghost var was, s := data[..], data[off..off + size];
    SliceOfSlice(was, off, size, 0, n);
    PlaneInPlace(data, off, n, forward);
    ghost var t := Direction(s[..n], forward);
    t := NextPlane(data, off, size, n, 2 * n, forward, was, t);
    t := NextPlane(data, off, size, 2 * n, 3 * n, forward, was, t);
    t := NextPlane(data, off, size, 3 * n, 4 * n, forward, was, t);
  }

  method NextPlane(data: array<byte>, off: nat, size: nat, lo: nat, hi: nat, forward: bool, ghost was: seq<byte>,
      ghost t: seq<byte>)
    returns (ghost u: seq<byte>)
    requires |was| == data.Length && off + size <= |was| && |t| == lo <= hi <= size
    requires data[..] == Splice(was, off, t)
    modifies data
    ensures u == t + Direction(was[off..off + size][lo..hi], forward)
    ensures data[..] == Splice(was, off, u)
  {
    hide Direction;
    ghost var now := data[..];
    Untouched(was, off, t, hi);
    SliceOfSlice(was, off, size, lo, hi);
    assert now[off + lo..off + hi] == was[off..off + size][lo..hi];
    ghost var p := Direction(was[off..off + size][lo..hi], forward);
    u := t + p;
    SpliceNext(was, off, t, p);
    PlaneInPlace(data, off + lo, hi - lo, forward);
  }

  method EncodeCodeInPlace(data: array<byte>, off: nat, size: nat)
    requires off + size <= data.Length
    modifies data
    ensures data[..] == Splice(old(data[..]), off, EncodeCode(old(data[off..off + size])))
  {
    ghost var was, s := data[..], data[off..off + size];
    Arm64Branches.NormalizeInPlace(data, off, size);
    SpliceRead(was, off, Arm64Branches.Normalize(s));
    var planes := PlanesEncode(data, off, size);
    DeltaPlanesInPlace(planes, 0, size);
    SpliceWhole(Planes(Arm64Branches.Normalize(s)), DeltaPlanes(Planes(Arm64Branches.Normalize(s))));
    StoreBytes(data, off, planes[..]);
    SpliceTwice(was, off, Arm64Branches.Normalize(s), EncodeCode(s));
  }

  method DecodeCodeInPlace(data: array<byte>, off: nat, size: nat)
    requires off + size <= data.Length
    modifies data
    ensures data[..] == Splice(old(data[..]), off, DecodeCode(old(data[off..off + size])))
  {
    ghost var was, t := data[..], data[off..off + size];
    UndeltaPlanesInPlace(data, off, size);
    SpliceRead(was, off, UndeltaPlanes(t));
    var unplaned := PlanesDecode(data, off, size);
    StoreBytes(data, off, unplaned[..]);
    SpliceTwice(was, off, UndeltaPlanes(t), Unplanes(UndeltaPlanes(t)));
    SpliceRead(was, off, Unplanes(UndeltaPlanes(t)));
    Arm64Branches.DenormalizeInPlace(data, off, size);
    SpliceTwice(was, off, Unplanes(UndeltaPlanes(t)), DecodeCode(t));
  }
}
