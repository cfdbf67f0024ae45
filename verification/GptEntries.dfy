/** Entries of a packed GPT entry array: names, attributes, and the map from names to entries
    (pixel-source/bootctrl/1.2/GptUtils.h, lines 31-38, and GptUtils.cpp, lines 106-125).
    Layout: section 5.3.3 of the UEFI Specification. */
module GptEntries {
  import opened Bytes
  import opened GptDisk
  import opened Codec

  const ATTRIBUTES: nat := 48
  const NAME: nat := 56
  const NAME_UNITS: nat := 36
  const WRAP64: nat := 0x1_0000_0000_0000_0000

  /** The array holds n whole entries. */
  predicate Holds(table: seq<byte>, n: nat) {
    |table| == ENTRY_SIZE * n
  }

  function Attributes(table: seq<byte>, i: nat): nat
    requires ENTRY_SIZE * i + ENTRY_SIZE <= |table|
  {
    LeField(table, ENTRY_SIZE * i + ATTRIBUTES, 8)
  }

  /** The array after a store to the attributes of entry i. */
  function WithAttributes(table: seq<byte>, i: nat, v: nat): (r: seq<byte>)
    requires ENTRY_SIZE * i + ENTRY_SIZE <= |table|
    ensures |r| == |table|
  {
    Splice(table, ENTRY_SIZE * i + ATTRIBUTES, Le(v, 8))
  }

  /** The part of entry i that names and bounds the partition. */
  function NameField(table: seq<byte>, i: nat): (r: seq<byte>)
    requires ENTRY_SIZE * i + ENTRY_SIZE <= |table|
    ensures |r| == 2 * NAME_UNITS
  {
    table[ENTRY_SIZE * i + NAME..ENTRY_SIZE * i + ENTRY_SIZE]
  }

  lemma AttributesLaws(table: seq<byte>, i: nat, v: nat, j: nat)
    requires ENTRY_SIZE * i + ENTRY_SIZE <= |table| && ENTRY_SIZE * j + ENTRY_SIZE <= |table|
    requires v < WRAP64
    ensures Attributes(WithAttributes(table, i, v), j) == if i == j then v else Attributes(table, j)
    ensures NameField(WithAttributes(table, i, v), j) == NameField(table, j)
  {
    hide Value, Le;
    Pow256Values();
    ValueOfFittingLe(v, 8);
    var at := ENTRY_SIZE * i + ATTRIBUTES;
    if i == j {
      SpliceRead(table, at, Le(v, 8));
    } else {
      SpliceElsewhere(table, at, Le(v, 8), ENTRY_SIZE * j + ATTRIBUTES, ENTRY_SIZE * j + ATTRIBUTES + 8);
    }
    SpliceElsewhere(table, at, Le(v, 8), ENTRY_SIZE * j + NAME, ENTRY_SIZE * j + ENTRY_SIZE);
  }

  // ----- Names

  /** The low bytes of the 16-bit units, up to the first zero byte: later ones do not reach the string. */
  function NameFrom(field: seq<byte>): seq<byte> {
    if |field| < 2 || field[0] == 0 then [] else [field[0]] + NameFrom(field[2..])
  }

  function EntryName(table: seq<byte>, i: nat): seq<byte>
    requires ENTRY_SIZE * i + ENTRY_SIZE <= |table|
  {
    NameFrom(NameField(table, i))
  }

  /** The first 16-bit unit of the name is not zero. */
  predicate IsNamed(table: seq<byte>, i: nat)
    requires ENTRY_SIZE * i + ENTRY_SIZE <= |table|
  {
    NameField(table, i)[0] != 0 || NameField(table, i)[1] != 0
  }

  /** The name of an entry: the low bytes of its 16-bit units from 56 on, up to the first that is zero, at most 36. */
  lemma NameIs(table: seq<byte>, i: nat)
    requires 128 * i + 128 <= |table|
    ensures var name, at := EntryName(table, i), 128 * i + 56;
            && |name| <= 36
            && (forall k :: 0 <= k < |name| ==> name[k] == table[at + 2 * k] != 0)
            && (|name| < 36 ==> table[at + 2 * |name|] == 0)
    ensures IsNamed(table, i) <==> table[128 * i + 56] != 0 || table[128 * i + 57] != 0
  {
    NameFromIs(NameField(table, i));
  }

  lemma {:induction false} NameFromIs(field: seq<byte>)
    requires |field| % 2 == 0
    ensures var name := NameFrom(field);
            && 2 * |name| <= |field|
            && (forall k :: 0 <= k < |name| ==> name[k] == field[2 * k] != 0)
            && (2 * |name| < |field| ==> field[2 * |name|] == 0)
  {
    if |field| >= 2 && field[0] != 0 {
      var rest, name := field[2..], NameFrom(field);
      NameFromIs(rest);
      forall k | 0 < k < |name|
        ensures name[k] == field[2 * k] != 0
      {
        assert name[k] == NameFrom(rest)[k - 1] == rest[2 * (k - 1)];
      }
    }
  }

  /** The map built by Load, from entry i on: it stops at the first entry without a name, and a later entry
      takes the place of an earlier one of the same name. */
  function NameMap(table: seq<byte>, n: nat, i: nat, m: map<seq<byte>, nat>): map<seq<byte>, nat>
    requires Holds(table, n) && i <= n
    decreases n - i
  {
    if i == n || !IsNamed(table, i) then m else NameMap(table, n, i + 1, m[EntryName(table, i) := i])
  }

  function Find(table: seq<byte>, n: nat, name: seq<byte>): (r: Option<nat>)
    requires Holds(table, n)
  {
    var m := NameMap(table, n, 0, map[]);
    if name in m then Some(m[name]) else None
  }

  /** Entry i comes before the first entry without a name. */
  ghost predicate IsListed(table: seq<byte>, n: nat, i: nat)
    requires Holds(table, n)
  {
    i < n && forall j :: 0 <= j <= i ==> IsNamed(table, j)
  }

  ghost predicate IsLastNamed(table: seq<byte>, n: nat, name: seq<byte>, i: nat)
    requires Holds(table, n)
  {
    && IsListed(table, n, i) && EntryName(table, i) == name
    && forall j :: i < j && IsListed(table, n, j) ==> EntryName(table, j) != name
  }

  /** What the map being built says about name when entries before i have been entered. */
  ghost predicate MapSoFar(table: seq<byte>, n: nat, i: nat, m: map<seq<byte>, nat>, name: seq<byte>)
    requires Holds(table, n)
  {
    && (name in m ==> m[name] < i && IsListed(table, n, m[name]) && EntryName(table, m[name]) == name)
    && (forall j :: 0 <= j < i && j < n && EntryName(table, j) == name ==> name in m && j <= m[name])
  }

  lemma {:induction false} NameMapFinds(table: seq<byte>, n: nat, i: nat, m: map<seq<byte>, nat>, name: seq<byte>)
    requires Holds(table, n) && i <= n
    requires forall j :: 0 <= j < i ==> IsNamed(table, j)
    requires MapSoFar(table, n, i, m, name)
    ensures var r := NameMap(table, n, i, m);
            && (name in r ==> IsLastNamed(table, n, name, r[name]))
            && (name !in r ==> forall j :: 0 <= j && IsListed(table, n, j) ==> EntryName(table, j) != name)
    decreases n - i
  {
    hide EntryName;
    if i == n {
    } else if !IsNamed(table, i) {
      forall j | 0 <= j && IsListed(table, n, j)
        ensures j < i
      {}
    } else {
      assert IsListed(table, n, i);
      NameMapFinds(table, n, i + 1, m[EntryName(table, i) := i], name);
    }
  }

  /** A name is found exactly when some listed entry has it, and then the last such entry is found. */
  lemma FindFindsLast(table: seq<byte>, n: nat, name: seq<byte>)
    requires Holds(table, n)
    ensures Find(table, n, name).Some? ==> IsLastNamed(table, n, name, Find(table, n, name).value)
    ensures Find(table, n, name).None? ==> forall j :: 0 <= j && IsListed(table, n, j) ==> EntryName(table, j) != name
  {
    NameMapFinds(table, n, 0, map[], name);
  }

  lemma {:induction false} SameNamesSameMap(a: seq<byte>, b: seq<byte>, n: nat, i: nat, m: map<seq<byte>, nat>)
    requires Holds(a, n) && Holds(b, n) && i <= n
    requires forall j :: 0 <= j < n ==> NameField(a, j) == NameField(b, j)
    ensures NameMap(a, n, i, m) == NameMap(b, n, i, m)
    decreases n - i
  {
    if i < n {
      assert NameField(a, i) == NameField(b, i);
      SameNamesSameMap(a, b, n, i + 1, m[EntryName(a, i) := i]);
    }
  }

  /** Storing attributes changes no name. */
  lemma MapAfterStore(table: seq<byte>, n: nat, i: nat, v: nat)
    requires Holds(table, n) && i < n && v < WRAP64
    ensures NameMap(WithAttributes(table, i, v), n, 0, map[]) == NameMap(table, n, 0, map[])
  {
    forall j | 0 <= j < n
      ensures NameField(WithAttributes(table, i, v), j) == NameField(table, j)
    {
      AttributesLaws(table, i, v, j);
    }
    SameNamesSameMap(WithAttributes(table, i, v), table, n, 0, map[]);
  }

  /** It moves no entry to another name. */
  lemma FindAfterStore(table: seq<byte>, n: nat, i: nat, v: nat, name: seq<byte>)
    requires Holds(table, n) && i < n && v < WRAP64
    ensures Find(WithAttributes(table, i, v), n, name) == Find(table, n, name)
  {
    MapAfterStore(table, n, i, v);
  }

  lemma FoundInRange(table: seq<byte>, n: nat, name: seq<byte>)
    requires Holds(table, n) && Find(table, n, name).Some?
    ensures Find(table, n, name).value < n && EntryName(table, Find(table, n, name).value) == name
  {
    FindFindsLast(table, n, name);
  }
}
