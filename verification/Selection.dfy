/** Keeping the smallest result of many compression attempts, in sequence and under every schedule of the
    parallel loop (selfcode/lgz/lgzv3.c, lines 319-378 and 756-806). */
module Selection {
  import opened Bytes
  import opened Codec

  /** A compressed candidate and the number of the transform that was applied first. */
  datatype Packed = Packed(kind: byte, bytes: seq<byte>)

  /** The guarded replacement: a strictly smaller success takes the place of the best so far. */
  function Keep(best: Option<Packed>, next: Option<Packed>): (r: Option<Packed>) {
    if next.Some? && (best.None? || |next.value.bytes| < |best.value.bytes|) then next else best
  }

  /** The best of the attempts in the order in which they arrive. */
  function BestOf(arrived: seq<Option<Packed>>): Option<Packed> {
    if arrived == [] then None else Keep(BestOf(arrived[..|arrived| - 1]), arrived[|arrived| - 1])
  }

  /** best is one of the outcomes and no success is smaller; None means that none succeeded. */
  ghost predicate IsBest(best: Option<Packed>, outcomes: seq<Option<Packed>>) {
    && (best.Some? ==> best in outcomes)
    && (forall o :: o in outcomes && o.Some? ==> best.Some? && |best.value.bytes| <= |o.value.bytes|)
  }

  lemma {:induction false} BestOfIsBest(arrived: seq<Option<Packed>>)
    ensures IsBest(BestOf(arrived), arrived)
  {
    if arrived != [] {
      var front, next := arrived[..|arrived| - 1], arrived[|arrived| - 1];
      BestOfIsBest(front);
      assert arrived == front + [next];
      assert forall o :: o in arrived <==> o in front || o == next;
    }
  }

  /** Among successes of one size the one that arrived first is kept. */
  lemma {:induction false} FirstIsKept(arrived: seq<Option<Packed>>, i: nat)
    requires i < |arrived| && arrived[i].Some? && BestOf(arrived).Some?
    requires |arrived[i].value.bytes| == |BestOf(arrived).value.bytes|
    ensures exists j :: 0 <= j <= i && arrived[j] == BestOf(arrived)
  {
    var last := |arrived| - 1;
    var front := arrived[..last];
    BestOfIsBest(front);
    BestOfIsBest(arrived);
    if i < last {
      assert front[i] == arrived[i] && front[i] in front;
      if BestOf(arrived) == BestOf(front) {
        FirstIsKept(front, i);
        var j :| 0 <= j <= i && front[j] == BestOf(front);
        assert arrived[j] == BestOf(arrived);
      }
    } else if BestOf(arrived) == BestOf(front) {
      var j: nat :| j < |front| && front[j] == BestOf(front);
      assert arrived[j] == BestOf(arrived);
    }
  }

  /** Each of the passes 0 .. n enters the critical section exactly once, in some order. */
  ghost predicate IsSchedule(order: seq<nat>, n: nat) {
    && (forall p: nat :: p in order <==> p < n)
    && (forall i, j :: 0 <= i < j < |order| ==> order[i] != order[j])
  }

  /** The outcomes of the passes in the order in which they enter. */
  function Arrange(outcomes: seq<Option<Packed>>, order: seq<nat>): (r: seq<Option<Packed>>)
    ensures |r| == |order|
  {
    seq(|order|, i requires 0 <= i < |order| => if order[i] < |outcomes| then outcomes[order[i]] else None)
  }

  lemma ArrangeKeepsMembers(outcomes: seq<Option<Packed>>, order: seq<nat>)
    requires IsSchedule(order, |outcomes|)
    ensures forall o :: o in Arrange(outcomes, order) <==> o in outcomes
  {
    var arrived := Arrange(outcomes, order);
    forall o | o in outcomes
      ensures o in arrived
    {
      var p: nat :| p < |outcomes| && outcomes[p] == o;
      assert p in order;
      var i :| 0 <= i < |order| && order[i] == p;
      assert arrived[i] == o;
    }
    forall o | o in arrived
      ensures o in outcomes
    {
      var i :| 0 <= i < |arrived| && arrived[i] == o;
      assert order[i] in order;
    }
  }

  /** Under every schedule the result comes from one pass and is the smallest of all successful passes. */
  lemma EveryScheduleFindsSmallest(outcomes: seq<Option<Packed>>, order: seq<nat>)
    requires IsSchedule(order, |outcomes|)
    ensures IsBest(BestOf(Arrange(outcomes, order)), outcomes)
  {
    BestOfIsBest(Arrange(outcomes, order));
    ArrangeKeepsMembers(outcomes, order);
  }

  /** Two schedules can pick different candidates, but never different sizes. */
  lemma SchedulesAgreeOnSize(outcomes: seq<Option<Packed>>, a: seq<nat>, b: seq<nat>)
    requires IsSchedule(a, |outcomes|) && IsSchedule(b, |outcomes|)
    ensures var x, y := BestOf(Arrange(outcomes, a)), BestOf(Arrange(outcomes, b));
            x.Some? == y.Some? && (x.Some? ==> |x.value.bytes| == |y.value.bytes|)
  {
    EveryScheduleFindsSmallest(outcomes, a);
    EveryScheduleFindsSmallest(outcomes, b);
  }

  // ----- The passes

  const SMART_COMBOS: seq<(nat, nat, nat)> := [
    (3, 0, 2), (4, 0, 2), (2, 0, 2), (3, 1, 2), (2, 2, 2), (1, 3, 2), (0, 4, 2),
    (4, 0, 1), (3, 1, 1), (2, 2, 1), (1, 3, 1), (0, 4, 1),
    (4, 0, 0), (3, 1, 0), (2, 2, 0), (1, 3, 0), (0, 4, 0),
    (0, 0, 2), (0, 1, 2)]
  const LCS: seq<nat> := [3, 0, 1, 2, 4]
  const LPS: seq<nat> := [0, 1, 2]
  const PBS: seq<nat> := [2, 0, 1]

  function ComboCount(level: nat): (n: nat)
    ensures n > 0
  {
    if level >= 3 then 45 else if level == 2 then 19 else 1
  }

  /** The lc, lp, pb of combination number i. */
  function Combo(level: nat, i: nat): (nat, nat, nat)
    requires i < ComboCount(level)
  {
    if level >= 3 then (LCS[i / 9], LPS[i / 3 % 3], PBS[i % 3])
    else if level == 2 then SMART_COMBOS[i]
    else (3, 0, 2)
  }

  function PassCount(level: nat, modes: nat): nat {
    ComboCount(level) * modes
  }

  lemma PassSplit(level: nat, modes: nat, p: nat)
    requires p < PassCount(level, modes)
    ensures modes > 0 && p / modes < ComboCount(level) && p % modes < modes
  {
    if modes > 0 {
      var q := p / modes;
      assert p == modes * q + p % modes;
      if q >= ComboCount(level) {
        MulMonotone(modes, ComboCount(level), q);
      }
    }
  }

  lemma PassInRange(count: nat, modes: nat, combo: nat, mode: nat)
    requires combo < count && mode < modes
    ensures combo * modes + mode < count * modes
  {
    MulMonotone(modes, combo + 1, count);
  }

  lemma PassDigits(modes: nat, combo: nat, mode: nat, q: nat)
    requires mode < modes
    ensures q / modes == combo && q % modes == mode <==> q == combo * modes + mode
  {
    ModUnique(combo * modes + mode, modes, combo, mode);
    assert q == modes * (q / modes) + q % modes;
  }

  /** Every pair of a combination and a mode is tried by exactly one pass. */
  lemma EachPairOnce(level: nat, modes: nat, combo: nat, mode: nat, q: nat)
    requires combo < ComboCount(level) && mode < modes
    ensures combo * modes + mode < PassCount(level, modes)
    ensures q / modes == combo && q % modes == mode <==> q == combo * modes + mode
  {
    PassInRange(ComboCount(level), modes, combo, mode);
    PassDigits(modes, combo, mode, q);
  }

  lemma Digits(i: nat)
    requires i < 45
    ensures i == 9 * (i / 9) + 3 * (i / 3 % 3) + i % 3
  {}

  lemma DigitsOf(a: nat, b: nat, d: nat)
    requires a < 5 && b < 3 && d < 3
    ensures var i := 9 * a + 3 * b + d; i < 45 && i / 9 == a && i / 3 % 3 == b && i % 3 == d
  {}

  lemma SettingsDistinct(i: nat, j: nat)
    ensures i < j < 5 ==> LCS[i] != LCS[j]
    ensures i < j < 3 ==> LPS[i] != LPS[j] && PBS[i] != PBS[j]
  {}

  /** At level 3 each choice of lc, lp and pb is some combination. */
  lemma EachTripleTried(lc: nat, lp: nat, pb: nat) returns (i: nat)
    requires lc in LCS && lp in LPS && pb in PBS
    ensures i < ComboCount(3) && Combo(3, i) == (lc, lp, pb)
  {
    var a: nat :| a < |LCS| && LCS[a] == lc;
    var b: nat :| b < |LPS| && LPS[b] == lp;
    var d: nat :| d < |PBS| && PBS[d] == pb;
    i := 9 * a + 3 * b + d;
    DigitsOf(a, b, d);
  }

  /** At level 3 no choice of lc, lp and pb is two combinations. */
  lemma NoTripleTwice(i: nat, j: nat)
    requires i < ComboCount(3) && j < ComboCount(3)
    requires Combo(3, i) == Combo(3, j)
    ensures i == j
  {
    SettingsDistinct(i / 9, j / 9);
    SettingsDistinct(j / 9, i / 9);
    SettingsDistinct(i / 3 % 3, j / 3 % 3);
    SettingsDistinct(j / 3 % 3, i / 3 % 3);
    SettingsDistinct(i % 3, j % 3);
    SettingsDistinct(j % 3, i % 3);
    hide LCS, LPS, PBS;
    Digits(i);
    Digits(j);
  }

  /** The list of level 2 holds no combination twice. */
  lemma SmartCombosDistinct(i: nat, j: nat)
    requires i < j < 19
    ensures Combo(2, i) != Combo(2, j)
  {}

  /** The choices of lc, lp and pb that a level tries: all up to 4, 2 and 2 at level 3; at level 2 those with
      lc + lp == 4 and four more; otherwise one. */
  predicate IsTried(level: nat, lc: nat, lp: nat, pb: nat) {
    if level >= 3 then lc <= 4 && lp <= 2 && pb <= 2
    else if level == 2 then
      || (lc + lp == 4 && pb <= 2)
      || (pb == 2 && lp == 0 && (lc == 0 || lc == 2 || lc == 3))
      || (pb == 2 && lp == 1 && lc == 0)
    else lc == 3 && lp == 0 && pb == 2
  }

  /** The combinations are exactly those. */
  lemma CombosAreTried(level: nat, i: nat)
    requires i < ComboCount(level)
    ensures var (lc, lp, pb) := Combo(level, i); IsTried(level, lc, lp, pb)
  {}

  lemma TriedIsCombo(level: nat, lc: nat, lp: nat, pb: nat) returns (i: nat)
    requires IsTried(level, lc, lp, pb)
    ensures i < ComboCount(level) && Combo(level, i) == (lc, lp, pb)
  {
    if level >= 3 {
      assert LCS == [3, 0, 1, 2, 4] && LPS == [0, 1, 2] && PBS == [2, 0, 1];
      i := EachTripleTried(lc, lp, pb);
    } else if level == 2 {
      i := SmartIndex(lc, lp, pb);
    } else {
      i := 0;
    }
  }

  lemma SmartIndex(lc: nat, lp: nat, pb: nat) returns (i: nat)
    requires IsTried(2, lc, lp, pb)
    ensures i < 19 && SMART_COMBOS[i] == (lc, lp, pb)
  {
    if lc + lp == 4 && pb == 2 {
      i := if lc == 4 then 1 else 6 - lc;
    } else if lc + lp == 4 {
      i := (if pb == 1 then 7 else 12) + lp;
    } else {
      i := if lp == 1 then 18 else if lc == 3 then 0 else if lc == 2 then 2 else 17;
    }
  }
}
