/** The A/B slot machine and its two encodings: devinfo bit fields and GPT attribute bits
    (pixel-source/bootctrl/1.2/BootControl.cpp, lines 55-66 and 172-178, and DevInfo.h). */
module Slots {
  import opened Bytes

  const MAX_RETRY: nat := 3

  datatype Slot = Slot(active: bool, successful: bool, unbootable: bool, retry: nat)

  datatype Machine = Machine(a: Slot, b: Slot) {
    function At(slot: nat): Slot
      requires slot < 2
    {
      if slot == 0 then a else b
    }

    function With(slot: nat, s: Slot): Machine
      requires slot < 2
    {
      if slot == 0 then Machine(s, b) else Machine(a, s)
    }
  }

  /** What the rest of the system says: how many boot partitions there are, and which slot is running. */
  datatype Env = Env(slots: nat, current: nat) {
    predicate Valid() {
      slots <= 2 && current < 2
    }
  }

  /** The calls; lunSet tells whether selecting the boot LUN works. */
  datatype Call =
    | MarkBootSuccessful
    | SetActiveBootSlot(slot: nat, lunSet: bool)
    | SetSlotAsUnbootable(slot: nat)
    | IsSlotBootable(slot: nat)
    | IsSlotMarkedSuccessful(slot: nat)
    | GetActiveBootSlot

  datatype Answer = Done(success: bool) | Yes | No | InvalidSlot | SlotNumber(slot: nat)

  function Effect(env: Env, m: Machine, c: Call): Machine
    requires env.Valid()
  {
    match c
    case MarkBootSuccessful =>
      if env.slots == 0 then m else m.With(env.current, m.At(env.current).(successful := true))
    case SetActiveBootSlot(slot, _) =>
      if slot >= 2 then m
      else m.With(1 - slot, m.At(1 - slot).(active := false)).With(slot, Slot(true, false, false, MAX_RETRY))
    case SetSlotAsUnbootable(slot) =>
      if slot >= 2 then m else m.With(slot, m.At(slot).(unbootable := true))
    case _ => m
  }

  function Reply(env: Env, m: Machine, c: Call): Answer
    requires env.Valid()
  {
    match c
    case MarkBootSuccessful => Done(true)
    case SetActiveBootSlot(slot, lunSet) => Done(slot < 2 && lunSet)
    case SetSlotAsUnbootable(slot) => Done(slot < 2)
    case IsSlotBootable(slot) =>
      if env.slots == 0 then No else if slot >= env.slots then InvalidSlot
      else if m.At(slot).unbootable then No else Yes
    case IsSlotMarkedSuccessful(slot) =>
      if env.slots == 0 then Yes else if slot >= env.slots then InvalidSlot
      else if m.At(slot).successful then Yes else No
    case GetActiveBootSlot => SlotNumber(if env.slots != 0 && m.b.active then 1 else 0)
  }

  // ----- One bit of a number; d is the weight of the bit

  predicate Bit(v: nat, d: nat)
    requires d > 0
  {
    v / d % 2 == 1
  }

  function SetBit(v: nat, d: nat): nat
    requires d > 0
  {
    if Bit(v, d) then v else v + d
  }

  function ClearBit(v: nat, d: nat): nat
    requires d > 0
  {
    if Bit(v, d) && v >= d then v - d else v
  }

  lemma FieldIs(v: nat, d: nat, width: nat, f: nat, above: nat, below: nat)
    requires d > 0 && f < width && below < d
    requires v == d * (f + width * above) + below
    ensures v / d % width == f
  {
    ModUnique(v, d, f + width * above, below);
    ModUnique(f + width * above, width, above, f);
  }

  lemma BitIs(v: nat, d: nat, b: nat, above: nat, below: nat)
    requires d > 0 && b < 2 && below < d
    requires v == d * (b + 2 * above) + below
    ensures Bit(v, d) <==> b == 1
    ensures d <= v || b == 0
  {
    FieldIs(v, d, 2, b, above, below);
    if b == 1 {
      MulMonotone(d, 1, b + 2 * above);
    }
  }

  lemma Halve(v: nat) returns (b: nat, half: nat)
    ensures b < 2 && v == b + 2 * half
  {
    b, half := v % 2, v / 2;
  }

  lemma {:induction false} Pow2OfSum(j: nat, k: nat)
    ensures Pow2(j + k) == Pow2(j) * Pow2(k)
  {
    if j > 0 {
      Pow2OfSum(j - 1, k);
      assert Pow2(j + k) == 2 * Pow2(j + k - 1);
    }
  }

  /** Bit k + 1 of a number is bit k of its half. */
  lemma BitOfHalf(v: nat, p: nat)
    requires p > 0
    ensures v / (2 * p) == v / 2 / p && Bit(v, 2 * p) == Bit(v / 2, p)
  {
    var q, r := v / 2 / p, v / 2 % p;
    assert v / 2 == p * q + r && v == 2 * (v / 2) + v % 2;
    assert 2 * (p * q) == 2 * p * q;
    ModUnique(v, 2 * p, q, 2 * r + v % 2);
  }

  lemma HalfOfStore(v: nat, p: nat)
    requires p > 0
    ensures SetBit(v, 2 * p) / 2 == SetBit(v / 2, p) && SetBit(v, 2 * p) % 2 == v % 2
    ensures ClearBit(v, 2 * p) / 2 == ClearBit(v / 2, p) && ClearBit(v, 2 * p) % 2 == v % 2
  {
    BitOfHalf(v, p);
    hide Bit;
  }

  /** Setting or clearing bit j changes no other bit. */
  lemma {:induction false} BitsAfterStore(v: nat, j: nat, k: nat)
    ensures Bit(SetBit(v, Pow2(j)), Pow2(k)) <==> j == k || Bit(v, Pow2(k))
    ensures Bit(ClearBit(v, Pow2(j)), Pow2(k)) <==> j != k && Bit(v, Pow2(k))
  {
    if j == 0 {
      LowestBitStored(v, k);
    } else {
      var d := Pow2(j - 1);
      HalfOfStore(v, d);
      if k == 0 {
        LowestBitKept(v, SetBit(v, 2 * d));
        LowestBitKept(v, ClearBit(v, 2 * d));
      } else {
        var p := Pow2(k - 1);
        hide SetBit, ClearBit, Bit;
        BitOfHalf(v, p);
        BitOfHalf(SetBit(v, 2 * d), p);
        BitOfHalf(ClearBit(v, 2 * d), p);
        BitsAfterStore(v / 2, j - 1, k - 1);
      }
    }
  }

  lemma LowestBitKept(v: nat, w: nat)
    requires v % 2 == w % 2
    ensures Bit(v, 1) == Bit(w, 1)
  {}

  lemma LowestBitStored(v: nat, k: nat)
    ensures Bit(SetBit(v, 1), Pow2(k)) <==> k == 0 || Bit(v, Pow2(k))
    ensures Bit(ClearBit(v, 1), Pow2(k)) <==> k != 0 && Bit(v, Pow2(k))
  {
    assert SetBit(v, 1) / 2 == ClearBit(v, 1) / 2 == v / 2;
    if k > 0 {
      var p, one, zero := Pow2(k - 1), SetBit(v, 1), ClearBit(v, 1);
      hide SetBit, ClearBit, Bit;
      BitOfHalf(v, p);
      BitOfHalf(one, p);
      BitOfHalf(zero, p);
    }
  }

  // ----- GPT attributes

  const ACTIVE: nat := 0x0040_0000_0000_0000
  const RETRY_UNIT: nat := 0x0080_0000_0000_0000
  const SUCCESSFUL: nat := 0x0400_0000_0000_0000
  const UNBOOTABLE: nat := 0x0800_0000_0000_0000
  const PRIORITY_UNIT: nat := 0x0010_0000_0000_0000

  /** What the attributes of a boot entry say: bit 54 active, bits 55-57 retries, bit 58 successful, bit
      59 unbootable. */
  function SlotOfAttributes(v: nat): Slot {
    Slot(Bit(v, ACTIVE), Bit(v, SUCCESSFUL), Bit(v, UNBOOTABLE), v / RETRY_UNIT % 8)
  }

  /** The attributes stored for a slot that becomes active. */
  const FRESH: nat := ACTIVE + 3 * PRIORITY_UNIT + 3 * RETRY_UNIT

  /** Where the flags stand. */
  lemma FlagWeights()
    ensures ACTIVE == Pow2(54) && SUCCESSFUL == Pow2(58) && UNBOOTABLE == Pow2(59)
    ensures RETRY_UNIT == Pow2(55) && PRIORITY_UNIT == Pow2(52)
  {
    assert Pow2(8) == 256;
    Pow2OfSum(8, 8);
    Pow2OfSum(16, 16);
    Pow2OfSum(32, 16);
    Pow2OfSum(48, 4);
    Pow2OfSum(52, 2);
    Pow2OfSum(52, 3);
    Pow2OfSum(52, 6);
    Pow2OfSum(52, 7);
    assert Pow2(2) == 4 && Pow2(3) == 8 && Pow2(4) == 16 && Pow2(6) == 64 && Pow2(7) == 128;
  }

  /** Priority 3 in bits 52 and 53, active in bit 54, three retries in bits 55 to 57, and no other bit. */
  lemma FreshFields()
    ensures FRESH / Pow2(52) % 4 == 3 && Bit(FRESH, Pow2(54)) && FRESH / Pow2(55) % 8 == 3
    ensures FRESH % Pow2(52) == 0 && FRESH / Pow2(58) == 0 && FRESH == 0x01F0_0000_0000_0000
  {
    FlagWeights();
  }

  lemma FreshAttributes()
    ensures SlotOfAttributes(FRESH) == Slot(true, false, false, MAX_RETRY)
  {
    FieldsOfCompose(3 * PRIORITY_UNIT, 1, 3, 0, 0, 0);
  }

  /** Attributes put together from their fields: the bits below 54, active, retries, successful, unbootable,
      the rest. */
  function Compose(low: nat, a: nat, r: nat, s: nat, u: nat, h: nat): nat {
    low + ACTIVE * (a + 2 * (r + 8 * (s + 2 * (u + 2 * h))))
  }

  predicate AreFields(low: nat, a: nat, r: nat, s: nat, u: nat) {
    low < ACTIVE && a < 2 && r < 8 && s < 2 && u < 2
  }

  lemma FieldsOfCompose(low: nat, a: nat, r: nat, s: nat, u: nat, h: nat)
    requires AreFields(low, a, r, s, u)
    ensures SlotOfAttributes(Compose(low, a, r, s, u, h)) == Slot(a == 1, s == 1, u == 1, r)
  {
    var v := Compose(low, a, r, s, u, h);
    hide Bit;
    BitIs(v, ACTIVE, a, r + 8 * (s + 2 * (u + 2 * h)), low);
    FieldIs(v, RETRY_UNIT, 8, r, s + 2 * (u + 2 * h), low + ACTIVE * a);
    BitIs(v, SUCCESSFUL, s, u + 2 * h, low + ACTIVE * (a + 2 * r));
    BitIs(v, UNBOOTABLE, u, h, low + ACTIVE * (a + 2 * (r + 8 * s)));
  }

  lemma Decompose(v: nat) returns (low: nat, a: nat, r: nat, s: nat, u: nat, h: nat)
    ensures AreFields(low, a, r, s, u) && v == Compose(low, a, r, s, u, h)
  {
    low := v % ACTIVE;
    var q, q1, q2, q3;
    q := v / ACTIVE;
    a, q1 := Halve(q);
    r, q2 := q1 % 8, q1 / 8;
    s, q3 := Halve(q2);
    u, h := Halve(q3);
  }

  lemma SetSuccessful(v: nat)
    ensures SlotOfAttributes(SetBit(v, SUCCESSFUL)) == SlotOfAttributes(v).(successful := true)
  {
    hide Bit;
    var low, a, r, s, u, h := Decompose(v);
    FieldsOfCompose(low, a, r, s, u, h);
    FieldsOfCompose(low, a, r, 1, u, h);
    assert SetBit(v, SUCCESSFUL) == Compose(low, a, r, 1, u, h);
  }

  lemma SetUnbootable(v: nat)
    ensures SlotOfAttributes(SetBit(v, UNBOOTABLE)) == SlotOfAttributes(v).(unbootable := true)
  {
    hide Bit;
    var low, a, r, s, u, h := Decompose(v);
    FieldsOfCompose(low, a, r, s, u, h);
    FieldsOfCompose(low, a, r, s, 1, h);
    assert SetBit(v, UNBOOTABLE) == Compose(low, a, r, s, 1, h);
  }

  lemma ClearActive(v: nat)
    ensures SlotOfAttributes(ClearBit(v, ACTIVE)) == SlotOfAttributes(v).(active := false)
  {
    hide Bit;
    var low, a, r, s, u, h := Decompose(v);
    FieldsOfCompose(low, a, r, s, u, h);
    FieldsOfCompose(low, 0, r, s, u, h);
    assert ClearBit(v, ACTIVE) == Compose(low, 0, r, s, u, h);
  }

  /** A 64-bit value stays one. */
  lemma StoresFit(v: nat)
    requires v < 0x1_0000_0000_0000_0000
    ensures SetBit(v, SUCCESSFUL) < 0x1_0000_0000_0000_0000 && SetBit(v, UNBOOTABLE) < 0x1_0000_0000_0000_0000
    ensures ClearBit(v, ACTIVE) < 0x1_0000_0000_0000_0000 && FRESH < 0x1_0000_0000_0000_0000
  {}

  // ----- devinfo

  const DEVINFO_SIZE: nat := 128
  const AB_DATA: nat := 48
  const DEV_UNBOOTABLE: nat := 1
  const DEV_SUCCESSFUL: nat := 2
  const DEV_ACTIVE: nat := 4
  const DEV_FASTBOOT_OK: nat := 8

  /** A slot is four bytes: the retry count, the flags, and two unused. */
  function SlotOfDevInfo(retry: byte, flags: byte): Slot {
    Slot(Bit(flags, DEV_ACTIVE), Bit(flags, DEV_SUCCESSFUL), Bit(flags, DEV_UNBOOTABLE), retry)
  }

  /** A store to a one-bit field. */
  function Put(flags: byte, d: nat, on: bool): (r: byte)
    requires d == 1 || d == 2 || d == 4 || d == 8
  {
    if on then SetBit(flags, d) else ClearBit(flags, d)
  }

  /** DevInfoInitSlot on the flags. */
  function InitFlags(flags: byte): byte {
    Put(Put(Put(Put(flags, DEV_UNBOOTABLE, false), DEV_SUCCESSFUL, false), DEV_ACTIVE, true), DEV_FASTBOOT_OK, false)
  }

  function ComposeFlags(u: nat, s: nat, a: nat, f: nat, h: nat): nat {
    u + 2 * (s + 2 * (a + 2 * (f + 2 * h)))
  }

  lemma FlagBits(u: nat, s: nat, a: nat, f: nat, h: nat)
    requires u < 2 && s < 2 && a < 2 && f < 2
    ensures var v := ComposeFlags(u, s, a, f, h);
            && (Bit(v, 1) <==> u == 1) && (Bit(v, 2) <==> s == 1) && (Bit(v, 4) <==> a == 1) && (Bit(v, 8) <==> f == 1)
            && v / 16 == h
  {
    hide Bit;
    var v := ComposeFlags(u, s, a, f, h);
    BitIs(v, 1, u, s + 2 * (a + 2 * (f + 2 * h)), 0);
    BitIs(v, 2, s, a + 2 * (f + 2 * h), u);
    BitIs(v, 4, a, f + 2 * h, u + 2 * s);
    BitIs(v, 8, f, h, u + 2 * (s + 2 * a));
    ModUnique(v, 16, h, u + 2 * (s + 2 * (a + 2 * f)));
  }

  lemma SplitFlags(v: nat) returns (u: nat, s: nat, a: nat, f: nat, h: nat)
    ensures u < 2 && s < 2 && a < 2 && f < 2 && v == ComposeFlags(u, s, a, f, h)
  {
    var q1, q2, q3;
    u, q1 := Halve(v);
    s, q2 := Halve(q1);
    a, q3 := Halve(q2);
    f, h := Halve(q3);
  }

  /** A store to one bit field leaves the other fields and the unused bits alone. */
  lemma PutKeepsOthers(flags: byte, d: nat, on: bool, e: nat)
    requires d == 1 || d == 2 || d == 4 || d == 8
    requires e == 1 || e == 2 || e == 4 || e == 8
    ensures Bit(Put(flags, d, on), e) == if d == e then on else Bit(flags, e)
    ensures Put(flags, d, on) / 16 == flags / 16
  {
    hide Bit;
    var u, s, a, f, h := SplitFlags(flags);
    var b := if on then 1 else 0;
    FlagBits(u, s, a, f, h);
    if d == 1 {
      FlagBits(b, s, a, f, h);
      assert Put(flags, d, on) == ComposeFlags(b, s, a, f, h);
    } else if d == 2 {
      FlagBits(u, b, a, f, h);
      assert Put(flags, d, on) == ComposeFlags(u, b, a, f, h);
    } else if d == 4 {
      FlagBits(u, s, b, f, h);
      assert Put(flags, d, on) == ComposeFlags(u, s, b, f, h);
    } else {
      FlagBits(u, s, a, b, h);
      assert Put(flags, d, on) == ComposeFlags(u, s, a, b, h);
    }
  }

  lemma InitFlagsIs(flags: byte)
    ensures SlotOfDevInfo(MAX_RETRY, InitFlags(flags)) == Slot(true, false, false, MAX_RETRY)
    ensures InitFlags(flags) / 16 == flags / 16
  {
    var one := Put(flags, DEV_UNBOOTABLE, false);
    var two := Put(one, DEV_SUCCESSFUL, false);
    var three := Put(two, DEV_ACTIVE, true);
    PutKeepsOthers(flags, DEV_UNBOOTABLE, false, DEV_UNBOOTABLE);
    PutKeepsOthers(one, DEV_SUCCESSFUL, false, DEV_UNBOOTABLE);
    PutKeepsOthers(one, DEV_SUCCESSFUL, false, DEV_SUCCESSFUL);
    PutKeepsOthers(two, DEV_ACTIVE, true, DEV_UNBOOTABLE);
    PutKeepsOthers(two, DEV_ACTIVE, true, DEV_SUCCESSFUL);
    PutKeepsOthers(two, DEV_ACTIVE, true, DEV_ACTIVE);
    PutKeepsOthers(three, DEV_FASTBOOT_OK, false, DEV_UNBOOTABLE);
    PutKeepsOthers(three, DEV_FASTBOOT_OK, false, DEV_SUCCESSFUL);
    PutKeepsOthers(three, DEV_FASTBOOT_OK, false, DEV_ACTIVE);
    hide Put, Bit;
  }

  /** Of the four fields only active is left set. */
  lemma InitClearsOthers(flags: byte)
    ensures InitFlags(flags) % 16 == 4
  {
    var u, s, a, f, h := SplitFlags(flags);
    assert Put(flags, DEV_UNBOOTABLE, false) == ComposeFlags(0, s, a, f, h) by {
      FlagBits(u, s, a, f, h);
    }
    assert Put(ComposeFlags(0, s, a, f, h), DEV_SUCCESSFUL, false) == ComposeFlags(0, 0, a, f, h) by {
      FlagBits(0, s, a, f, h);
    }
    assert Put(ComposeFlags(0, 0, a, f, h), DEV_ACTIVE, true) == ComposeFlags(0, 0, 1, f, h) by {
      FlagBits(0, 0, a, f, h);
    }
    assert Put(ComposeFlags(0, 0, 1, f, h), DEV_FASTBOOT_OK, false) == ComposeFlags(0, 0, 1, 0, h) by {
      FlagBits(0, 0, 1, f, h);
    }
    ModUnique(ComposeFlags(0, 0, 1, 0, h), 16, h, 4);
  }

  // ----- What callers see

  /** The questions answer what was set last, and a slot that was not named answers as before. */
  lemma AnswersFollow(env: Env, m: Machine, slot: nat, other: nat, lunSet: bool)
    requires env.slots == 2 && env.Valid() && slot < 2 && other < 2 && other != slot
    ensures var now := Effect(env, m, SetActiveBootSlot(slot, lunSet));
            && Reply(env, now, GetActiveBootSlot) == SlotNumber(slot)
            && Reply(env, now, IsSlotBootable(slot)) == Yes && Reply(env, now, IsSlotMarkedSuccessful(slot)) == No
            && Reply(env, now, IsSlotBootable(other)) == Reply(env, m, IsSlotBootable(other))
            && Reply(env, now, IsSlotMarkedSuccessful(other)) == Reply(env, m, IsSlotMarkedSuccessful(other))
            && now.At(slot).retry == 3 && now.At(other).retry == m.At(other).retry
    ensures var now := Effect(env, m, SetSlotAsUnbootable(slot));
            && Reply(env, now, IsSlotBootable(slot)) == No
            && now.At(slot) == m.At(slot).(unbootable := true) && now.At(other) == m.At(other)
    ensures var now := Effect(env, m, MarkBootSuccessful);
            && Reply(env, now, IsSlotMarkedSuccessful(env.current)) == Yes
            && now.At(env.current) == m.At(env.current).(successful := true)
            && now.At(1 - env.current) == m.At(1 - env.current)
  {}

  /** Slots that are not there, and the outcome of the calls that change something. */
  lemma AnswersElsewhere(env: Env, m: Machine, slot: nat, lunSet: bool)
    requires env.Valid()
    ensures env.slots == 0 ==>
              && Reply(env, m, IsSlotBootable(slot)) == No && Reply(env, m, IsSlotMarkedSuccessful(slot)) == Yes
              && Reply(env, m, GetActiveBootSlot) == SlotNumber(0) && Effect(env, m, MarkBootSuccessful) == m
    ensures 0 < env.slots <= slot ==>
              && Reply(env, m, IsSlotBootable(slot)) == InvalidSlot
              && Reply(env, m, IsSlotMarkedSuccessful(slot)) == InvalidSlot
    ensures Reply(env, m, MarkBootSuccessful) == Done(true)
    ensures Reply(env, m, SetActiveBootSlot(slot, lunSet)) == Done(slot < 2 && lunSet)
    ensures Reply(env, m, SetSlotAsUnbootable(slot)) == Done(slot < 2)
    ensures slot >= 2 ==>
              Effect(env, m, SetActiveBootSlot(slot, lunSet)) == m == Effect(env, m, SetSlotAsUnbootable(slot))
  {}
}
