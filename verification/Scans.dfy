/** Loops that rewrite a stretch of a buffer from left to right. */
module Scans {
  import opened Bytes

  /** A loop that turns was[off .. off + size] into goal stands at position i: what lies before i is final,
      rest is what the part from i on must still become, and nothing outside the stretch has changed. */
  ghost predicate At(was: seq<byte>, now: seq<byte>, off: nat, size: nat, i: nat, goal: seq<byte>, rest: seq<byte>) {
    && |now| == |was| && off + size <= |was| && i <= size
    && now[..off] == was[..off]
    && now[off + i..] == was[off + i..]
    && |rest| == size - i
    && goal == now[off..off + i] + rest
  }

  lemma Start(was: seq<byte>, off: nat, size: nat, goal: seq<byte>)
    requires off + size <= |was| && |goal| == size
    ensures At(was, was, off, size, 0, goal, goal)
  {}

  lemma Step(was: seq<byte>, now: seq<byte>, off: nat, size: nat, i: nat, goal: seq<byte>, t: seq<byte>,
      rest: seq<byte>)
    requires At(was, now, off, size, i, goal, t + rest)
    ensures At(was, Splice(now, off + i, t), off, size, i + |t|, goal, rest)
  {
    var next := Splice(now, off + i, t);
    assert next[..off] == now[..off];
    assert next[off..off + i + |t|] == now[off..off + i] + t;
    assert next[off + i + |t|..] == now[off + i..][|t|..];
    assert was[off + i + |t|..] == was[off + i..][|t|..];
    assert now[off..off + i] + (t + rest) == (now[off..off + i] + t) + rest;
  }

  lemma Finish(was: seq<byte>, now: seq<byte>, off: nat, size: nat, i: nat, goal: seq<byte>, rest: seq<byte>)
    requires At(was, now, off, size, i, goal, rest)
    requires rest == was[off + i..off + size]
    ensures now == Splice(was, off, goal)
  {
    assert now == now[..off] + now[off..off + i] + now[off + i..];
    assert was[off + i..] == was[off + i..off + size] + was[off + size..];
  }

  method StoreWord(data: array<byte>, p: nat, w: Word)
    requires p + 4 <= data.Length
    modifies data
    ensures data[..] == Splice(old(data[..]), p, w.Bytes())
  {
    data[p] := w.b0;
    data[p + 1] := w.b1;
    data[p + 2] := w.b2;
    data[p + 3] := w.b3;
  }
}
