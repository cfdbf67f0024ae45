/** The x86 branch filter: the operand after a CALL (0xE8) or JMP (0xE9) becomes absolute and back
    (selfcode/lgz/lgzv3.c, x86_branch_normalize and x86_branch_denormalize). */
module X86Branches {
  import opened Bytes
  import Scans

  predicate IsCallOrJump(b: byte) {
    b == 0xE8 || b == 0xE9
  }

  /** What a filter does to the operand of the instruction at position i. */
  type OperandFilter = (Word, nat) -> Word

  const WRAP: nat := 0x1_0000_0000

  /** The operand counts from the next instruction, five bytes on; addresses wrap at 32 bits. */
  function ToAbsolute(w: Word, i: nat): Word {
    WordOf((w.Number() + (i + 5)) % WRAP)
  }

  function ToRelative(w: Word, i: nat): Word {
    WordOf((w.Number() - (i + 5)) % WRAP)
  }

  lemma AddThenSubtract(n: nat, d: nat)
    requires n < WRAP
    ensures ((n + d) % WRAP - d) % WRAP == n
  {
    var q := (n + d) / WRAP;
    assert (n + d) % WRAP - d == n - q * WRAP;
  }

  /** The absolute operand is the position of the next instruction plus the distance, in 32 bits. */
  lemma AbsoluteIs(w: Word, i: nat)
    ensures ToAbsolute(w, i).Number() == (i + 5 + w.Number()) % 0x1_0000_0000
  {
    WordLaws(w, (i + 5 + w.Number()) % WRAP);
  }

  lemma RelativeAbsolute(w: Word, i: nat)
    ensures ToRelative(ToAbsolute(w, i), i) == w
  {
    var absolute := (w.Number() + (i + 5)) % WRAP;
    WordLaws(w, absolute);
    AddThenSubtract(w.Number(), i + 5);
  }

  /** What normalizing is for: two operands become equal exactly when both instructions go to the same place. */
  lemma SameTarget(w: Word, i: nat, v: Word, j: nat)
    ensures ToAbsolute(w, i) == ToAbsolute(v, j)
       <==> (w.Number() + (i + 5)) % WRAP == (v.Number() + (j + 5)) % WRAP
  {
    WordsDiffer((w.Number() + (i + 5)) % WRAP, (v.Number() + (j + 5)) % WRAP);
  }

  lemma WordsDiffer(m: nat, n: nat)
    requires m < WRAP && n < WRAP
    ensures WordOf(m) == WordOf(n) <==> m == n
  {
    WordLaws(WordOf(m), m);
    WordLaws(WordOf(n), n);
  }

  /** A buffer whose first byte is at position i. After an opcode the scan skips the operand it rewrote. */
  function Scan(s: seq<byte>, i: nat, f: OperandFilter): (r: seq<byte>)
    ensures |r| == |s|
  {
    if |s| < 5 then s
    else if IsCallOrJump(s[0]) then [s[0]] + f(WordAt(s, 1), i).Bytes() + Scan(s[5..], i + 5, f)
    else [s[0]] + Scan(s[1..], i + 1, f)
  }

  /** The positions at which the scan finds an opcode. */
  function Sites(s: seq<byte>, i: nat): seq<nat> {
    if |s| < 5 then []
    else if IsCallOrJump(s[0]) then [i] + Sites(s[5..], i + 5)
    else Sites(s[1..], i + 1)
  }

  function Normalize(s: seq<byte>): (r: seq<byte>) {
    Scan(s, 0, ToAbsolute)
  }

  function Denormalize(s: seq<byte>): (r: seq<byte>) {
    Scan(s, 0, ToRelative)
  }

  lemma ScanTails(s: seq<byte>, i: nat, f: OperandFilter)
    requires |s| >= 5
    ensures Scan(s, i, f)[0] == s[0]
    ensures IsCallOrJump(s[0]) ==>
              WordAt(Scan(s, i, f), 1) == f(WordAt(s, 1), i) && Scan(s, i, f)[5..] == Scan(s[5..], i + 5, f)
    ensures !IsCallOrJump(s[0]) ==> Scan(s, i, f)[1..] == Scan(s[1..], i + 1, f)
  {}

  /** Scanning the result visits the same opcodes, whatever the operands became. */
  lemma {:induction false} SameSites(s: seq<byte>, i: nat, f: OperandFilter)
    ensures Sites(Scan(s, i, f), i) == Sites(s, i)
  {
    if |s| >= 5 {
      ScanTails(s, i, f);
      if IsCallOrJump(s[0]) {
        SameSites(s[5..], i + 5, f);
      } else {
        SameSites(s[1..], i + 1, f);
      }
    }
  }

  /** The sites of a buffer whose first byte is at position i: each has a CALL or JMP opcode and a whole operand, they
      stand at least five bytes apart, and every other opcode with a whole operand is in the operand of a site. */
  lemma {:induction false} SitesAre(s: seq<byte>, i: nat, k: nat)
    ensures k in Sites(s, i) ==> i <= k && k + 5 <= i + |s| && (s[k - i] == 0xE8 || s[k - i] == 0xE9)
    ensures i <= k && k + 5 <= i + |s| && (s[k - i] == 0xE8 || s[k - i] == 0xE9) ==>
              exists j :: j in Sites(s, i) && j <= k < j + 5
    ensures forall j :: j in Sites(s, i) && k in Sites(s, i) && j < k ==> j + 5 <= k
  {
    if |s| >= 5 {
      var step := if IsCallOrJump(s[0]) then 5 else 1;
      var rest := Sites(s[step..], i + step);
      SitesAre(s[step..], i + step, k);
      SitesStart(s[step..], i + step);
      assert forall j :: j in Sites(s, i) <==> (step == 5 && j == i) || j in rest;
      if i <= k && k + 5 <= i + |s| && (s[k - i] == 0xE8 || s[k - i] == 0xE9) {
        if step == 5 && k < i + 5 {
          assert i in Sites(s, i);
        } else {
          assert s[step..][k - (i + step)] == s[k - i];
          var j :| j in rest && j <= k < j + 5;
          assert j in Sites(s, i);
        }
      }
    }
  }

  lemma {:induction false} SitesStart(s: seq<byte>, i: nat)
    ensures forall j :: j in Sites(s, i) ==> i <= j
  {
    if |s| >= 5 {
      var step := if IsCallOrJump(s[0]) then 5 else 1;
      SitesStart(s[step..], i + step);
    }
  }

  /** The operand of each site is filtered by its position. */
  lemma {:induction false} OperandAt(s: seq<byte>, i: nat, f: OperandFilter, k: nat)
    requires k in Sites(s, i)
    ensures i <= k && k + 5 <= i + |s| && WordAt(Scan(s, i, f), k - i + 1) == f(WordAt(s, k - i + 1), k)
  {
    var step := if IsCallOrJump(s[0]) then 5 else 1;
    ScanTails(s, i, f);
    if step == 1 || k != i {
      OperandAt(s[step..], i + step, f, k);
      SitesStart(s[step..], i + step);
      assert Scan(s, i, f)[step..] == Scan(s[step..], i + step, f);
    }
  }

  ghost predicate InOperand(sites: seq<nat>, k: nat) {
    exists j :: j in sites && j < k < j + 5
  }

  /** Every byte that is in no operand of a site is kept. */
  lemma {:induction false} ElsewhereKept(s: seq<byte>, i: nat, f: OperandFilter, k: nat)
    requires i <= k < i + |s| && !InOperand(Sites(s, i), k)
    ensures Scan(s, i, f)[k - i] == s[k - i]
  {
    if |s| >= 5 {
      var step := if IsCallOrJump(s[0]) then 5 else 1;
      ScanTails(s, i, f);
      assert step == 5 ==> i in Sites(s, i);
      if k >= i + step {
        var rest := Sites(s[step..], i + step);
        assert forall j :: j in rest ==> j in Sites(s, i);
        ElsewhereKept(s[step..], i + step, f, k);
        assert Scan(s, i, f)[step..] == Scan(s[step..], i + step, f);
      }
    }
  }

  lemma {:induction false} ScanInverse(s: seq<byte>, i: nat, f: OperandFilter, g: OperandFilter)
    requires forall w, k :: g(f(w, k), k) == w
    ensures Scan(Scan(s, i, f), i, g) == s
  {
    if |s| >= 5 {
      ScanTails(s, i, f);
      if IsCallOrJump(s[0]) {
        ScanInverse(s[5..], i + 5, f, g);
        assert s == [s[0]] + WordAt(s, 1).Bytes() + s[5..];
      } else {
        ScanInverse(s[1..], i + 1, f, g);
        assert s == [s[0]] + s[1..];
      }
    }
  }

  /** For every buffer, denormalizing undoes normalizing. */
  lemma DenormalizeNormalize(s: seq<byte>)
    ensures Denormalize(Normalize(s)) == s
  {
    forall w, k
      ensures ToRelative(ToAbsolute(w, k), k) == w
    {
      RelativeAbsolute(w, k);
    }
    ScanInverse(s, 0, ToAbsolute, ToRelative);
  }

  /** The loop both directions share. */
  method ScanInPlace(data: array<byte>, off: nat, size: nat, f: OperandFilter)
    requires off + size <= data.Length
    modifies data
    ensures data[..] == Splice(old(data[..]), off, Scan(old(data[off..off + size]), 0, f))
  {
    ghost var was, rest := data[..], data[off..off + size];
    ghost var goal := Scan(rest, 0, f);
    Scans.Start(was, off, size, goal);
    var i := 0;
    while i + 5 <= size
      invariant i <= size && rest == was[off + i..off + size]
      invariant Scans.At(was, data[..], off, size, i, goal, Scan(rest, i, f))
    {
      ghost var now := data[..];
      assert now[off + i..] == was[off + i..];
      assert rest[0] == now[off + i];
      if IsCallOrJump(data[off + i]) {
        var operand := Word(data[off + i + 1], data[off + i + 2], data[off + i + 3], data[off + i + 4]);
        assert operand == WordAt(rest, 1);
        var w := f(operand, i);
        ScanOneSite(was, now, off, size, i, goal, rest, f);
        rest := rest[5..];
        Scans.StoreWord(data, off + i + 1, w);
        i := i + 4;
      } else {
        ScanOneByte(was, now, off, size, i, goal, rest, f);
        rest := rest[1..];
      }
      i := i + 1;
    }
    Scans.Finish(was, data[..], off, size, i, goal, rest);
  }

  lemma ScanOneSite(was: seq<byte>, now: seq<byte>, off: nat, size: nat, i: nat, goal: seq<byte>, rest: seq<byte>,
      f: OperandFilter)
    requires |rest| >= 5 && IsCallOrJump(rest[0])
    requires Scans.At(was, now, off, size, i, goal, Scan(rest, i, f))
    requires now[off + i] == rest[0]
    ensures var w := f(WordAt(rest, 1), i);
            Scans.At(was, Splice(now, off + i + 1, w.Bytes()), off, size, i + 5, goal, Scan(rest[5..], i + 5, f))
  {
    var w := f(WordAt(rest, 1), i);
    var t := [rest[0]] + w.Bytes();
    Scans.Step(was, now, off, size, i, goal, t, Scan(rest[5..], i + 5, f));
    assert Splice(now, off + i, t) == Splice(now, off + i + 1, w.Bytes());
  }

  lemma ScanOneByte(was: seq<byte>, now: seq<byte>, off: nat, size: nat, i: nat, goal: seq<byte>, rest: seq<byte>,
      f: OperandFilter)
    requires |rest| >= 5 && !IsCallOrJump(rest[0])
    requires Scans.At(was, now, off, size, i, goal, Scan(rest, i, f))
    requires now[off + i] == rest[0]
    ensures Scans.At(was, now, off, size, i + 1, goal, Scan(rest[1..], i + 1, f))
  {
    Scans.Step(was, now, off, size, i, goal, [rest[0]], Scan(rest[1..], i + 1, f));
    assert Splice(now, off + i, [rest[0]]) == now;
  }

  method NormalizeInPlace(data: array<byte>, off: nat, size: nat)
    requires off + size <= data.Length
    modifies data
    ensures data[..] == Splice(old(data[..]), off, Normalize(old(data[off..off + size])))
  {
    ScanInPlace(data, off, size, ToAbsolute);
  }

  method DenormalizeInPlace(data: array<byte>, off: nat, size: nat)
    requires off + size <= data.Length
    modifies data
    ensures data[..] == Splice(old(data[..]), off, Denormalize(old(data[off..off + size])))
  {
    ScanInPlace(data, off, size, ToRelative);
  }
}
