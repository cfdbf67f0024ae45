/** The whitespace-insensitive patcher (patch.py, lines 98-172).
    The character classes of the regular expression engine are a parameter: every character is a word character,
    white space, or neither. */
module Patch {
  import opened Codec

  datatype Kind = WordChar | Space | Other
  type Kinds = char -> Kind

  // ----- Tokens

  predicate IsSpace(k: Kinds, c: char) {
    k(c).Space?
  }

  /** The length of the longest run of characters of one kind at the front of s. */
  function RunOf(k: Kinds, kind: Kind, s: string): (n: nat)
    ensures n <= |s|
  {
    if s == [] || k(s[0]) != kind then 0 else 1 + RunOf(k, kind, s[1..])
  }

  function StripLeft(k: Kinds, s: string): string {
    s[RunOf(k, Space, s)..]
  }

  function StripRight(k: Kinds, s: string): string {
    if s == [] || !IsSpace(k, s[|s| - 1]) then s else StripRight(k, s[..|s| - 1])
  }

  function Strip(k: Kinds, s: string): string {
    StripRight(k, StripLeft(k, s))
  }

  /** Maximal runs of word characters, and every other character that is not white space on its own. */
  function Tokens(k: Kinds, s: string): (r: seq<string>)
    decreases |s|
  {
    if s == [] then []
    else
      match k(s[0])
      case Space => Tokens(k, s[1..])
      case Other => [s[..1]] + Tokens(k, s[1..])
      case WordChar =>
        var n := RunOf(k, WordChar, s);
        assert n > 0;
        [s[..n]] + Tokens(k, s[n..])
  }

  /** The tokens that _prepare_regex joins; none means an empty pattern. */
  function Pattern(k: Kinds, s: string): seq<string> {
    Tokens(k, Strip(k, s))
  }

  /** What a single word, mark or stretch of white space is as tokens. */
  lemma {:induction false} TokensOfOneKind(k: Kinds, s: string)
    requires s != []
    ensures (forall i :: 0 <= i < |s| ==> k(s[i]).WordChar?) ==> Tokens(k, s) == [s]
    ensures (forall i :: 0 <= i < |s| ==> k(s[i]).Space?) ==> Tokens(k, s) == []
    ensures |s| == 1 && k(s[0]).Other? ==> Tokens(k, s) == [s]
  {
    if forall i :: 0 <= i < |s| ==> k(s[i]).WordChar? {
      RunIsAll(k, WordChar, s);
      assert RunOf(k, WordChar, s) == |s|;
      assert s[..|s|] == s && s[|s|..] == [];
    }
    if (forall i :: 0 <= i < |s| ==> k(s[i]).Space?) && |s| > 1 {
      assert forall i :: 0 <= i < |s[1..]| ==> k(s[1..][i]).Space?;
      TokensOfOneKind(k, s[1..]);
    }
    if |s| == 1 {
      assert s[..1] == s && s[1..] == [];
    }
  }

  /** The first token, if the text starts with one, and the tokens of the rest. */
  lemma TokensFirst(k: Kinds, s: string) returns (n: nat)
    requires s != []
    ensures 0 < n <= |s| && n == if k(s[0]).WordChar? then RunOf(k, WordChar, s) else 1
    ensures Tokens(k, s) == (if k(s[0]).Space? then [] else [s[..n]]) + Tokens(k, s[n..])
  {
    n := if k(s[0]).WordChar? then RunOf(k, WordChar, s) else 1;
  }

  lemma SumAfter(a: string, b: string, n: nat)
    requires n <= |a|
    ensures (a + b)[n..] == a[n..] + b && (a + b)[..n] == a[..n]
  {}

  lemma MoreTokens(head: seq<string>, x: seq<string>, y: seq<string>)
    ensures head + (x + y) == (head + x) + y
  {}

  /** Cutting a text anywhere but inside a word cuts its list of tokens. */
  lemma {:induction false} TokensOfSum(k: Kinds, a: string, b: string)
    requires a == [] || b == [] || !(k(a[|a| - 1]).WordChar? && k(b[0]).WordChar?)
    ensures Tokens(k, a + b) == Tokens(k, a) + Tokens(k, b)
    decreases |a|
  {
    if a == [] || b == [] {
      assert a + b == if a == [] then b else a;
    } else {
      RunOfSum(k, a, b);
      hide Tokens, RunOf;
      var n := TokensFirst(k, a);
      var m := TokensFirst(k, a + b);
      assert m == n;
      SumAfter(a, b, n);
      assert a[n..] != [] ==> a[n..][|a| - n - 1] == a[|a| - 1];
      TokensOfSum(k, a[n..], b);
      MoreTokens(if k(a[0]).Space? then [] else [a[..n]], Tokens(k, a[n..]), Tokens(k, b));
    }
  }

  lemma {:induction false} RunOfSum(k: Kinds, a: string, b: string)
    requires a != [] && b != [] && !(k(a[|a| - 1]).WordChar? && k(b[0]).WordChar?)
    ensures RunOf(k, WordChar, a + b) == RunOf(k, WordChar, a)
  {
    assert (a + b)[1..] == a[1..] + b;
    if |a| > 1 {
      RunOfSum(k, a[1..], b);
    } else {
      assert a[1..] + b == b;
    }
  }

  // ----- What a pattern matches

  ghost predicate AllSpace(k: Kinds, s: string) {
    forall i :: 0 <= i < |s| ==> IsSpace(k, s[i])
  }

  /** m is the tokens in order with any white space between two of them. */
  ghost predicate Spells(k: Kinds, tokens: seq<string>, m: string)
    decreases |tokens|, 1
  {
    if tokens == [] then m == []
    else if |tokens| == 1 then m == tokens[0]
    else tokens[0] <= m && exists n: nat :: Continues(k, tokens[1..], m[|tokens[0]|..], n)
  }

  /** rest is n characters of white space and then a spelling of the tokens. */
  ghost predicate Continues(k: Kinds, tokens: seq<string>, rest: string, n: nat)
    decreases |tokens|, 2
  {
    n <= |rest| && AllSpace(k, rest[..n]) && Spells(k, tokens, rest[n..])
  }

  /** Matching at the front of t as the engine does: each token literally, then all the white space there is. */
  function MatchAt(k: Kinds, tokens: seq<string>, t: string): (r: Option<nat>)
    ensures r.Some? ==> r.value <= |t|
  {
    if tokens == [] then Some(0)
    else if !(tokens[0] <= t) then None
    else
      var rest := t[|tokens[0]|..];
      if |tokens| == 1 then Some(|tokens[0]|)
      else
        var n := RunOf(k, Space, rest);
        match MatchAt(k, tokens[1..], rest[n..])
        case None => None
        case Some(m) => Some(|tokens[0]| + n + m)
  }

  /** Tokens are not empty and do not start with white space. */
  ghost predicate AreTokens(k: Kinds, tokens: seq<string>) {
    forall i :: 0 <= i < |tokens| ==> |tokens[i]| > 0 && !IsSpace(k, tokens[i][0])
  }

  lemma {:induction false} TokensAreTokens(k: Kinds, s: string)
    ensures AreTokens(k, Tokens(k, s))
    decreases |s|
  {
    if s != [] {
      match k(s[0])
      case Space => TokensAreTokens(k, s[1..]);
      case Other => TokensAreTokens(k, s[1..]);
      case WordChar => TokensAreTokens(k, s[RunOf(k, WordChar, s)..]);
    }
  }

  lemma {:induction false} RunIsAll(k: Kinds, kind: Kind, s: string)
    ensures forall i :: 0 <= i < RunOf(k, kind, s) ==> k(s[i]) == kind
    ensures RunOf(k, kind, s) < |s| ==> k(s[RunOf(k, kind, s)]) != kind
  {
    if s != [] && k(s[0]) == kind {
      RunIsAll(k, kind, s[1..]);
    }
  }

  /** White space followed by something else: the run stops there. */
  lemma {:induction false} RunOfSpaces(k: Kinds, s: string, n: nat)
    requires n <= |s| && AllSpace(k, s[..n]) && (n < |s| ==> !IsSpace(k, s[n]))
    ensures RunOf(k, Space, s) == n
  {
    if n > 0 {
      assert IsSpace(k, s[..n][0]);
      assert s[1..][..n - 1] == s[..n][1..];
      RunOfSpaces(k, s[1..], n - 1);
    }
  }

  lemma {:induction false} MatchIsSound(k: Kinds, tokens: seq<string>, t: string)
    requires MatchAt(k, tokens, t).Some?
    ensures Spells(k, tokens, t[..MatchAt(k, tokens, t).value])
    decreases |tokens|
  {
    if |tokens| > 1 {
      var first, rest := |tokens[0]|, t[|tokens[0]|..];
      var n := RunOf(k, Space, rest);
      var len := MatchAt(k, tokens[1..], rest[n..]).value;
      RunIsAll(k, Space, rest);
      MatchIsSound(k, tokens[1..], rest[n..]);
      hide MatchAt, RunOf, Spells;
      PieceAfter(t, first, n, len);
      assert Continues(k, tokens[1..], t[..first + n + len][first..], n);
      SpellsMore(k, tokens, t[..first + n + len], n);
    }
  }

  lemma PieceAfter(t: string, first: nat, n: nat, len: nat)
    requires first + n + len <= |t|
    ensures t[..first + n + len][first..][..n] == t[first..][..n]
    ensures t[..first + n + len][first..][n..] == t[first..][n..][..len]
    ensures t[..first + n + len][..first] == t[..first]
  {}

  lemma SpellsMore(k: Kinds, tokens: seq<string>, m: string, n: nat)
    requires |tokens| > 1 && tokens[0] <= m && Continues(k, tokens[1..], m[|tokens[0]|..], n)
    ensures Spells(k, tokens, m)
  {
    hide Continues;
  }

  lemma SpellsStarts(k: Kinds, tokens: seq<string>, m: string)
    requires tokens != [] && AreTokens(k, tokens) && Spells(k, tokens, m)
    ensures |m| > 0 && !IsSpace(k, m[0])
  {
    assert |tokens[0]| > 0 && m[0] == tokens[0][0];
  }

  lemma {:induction false} MatchIsComplete(k: Kinds, tokens: seq<string>, t: string, len: nat)
    requires AreTokens(k, tokens) && len <= |t| && Spells(k, tokens, t[..len])
    ensures MatchAt(k, tokens, t) == Some(len)
    decreases |tokens|
  {
    if |tokens| > 1 {
      var n, last := FirstToken(k, tokens, t, len);
      assert AreTokens(k, tokens[1..]);
      hide Spells, MatchAt, AreTokens, RunOf;
      MatchIsComplete(k, tokens[1..], t[|tokens[0]|..][n..], last);
      MatchMore(k, tokens, t, n, last);
    } else if |tokens| == 1 {
      assert tokens[0] == t[..len];
    }
  }

  /** A spelling starts with the first token, the white space after it, and a spelling of the others. */
  lemma FirstToken(k: Kinds, tokens: seq<string>, t: string, len: nat) returns (n: nat, last: nat)
    requires |tokens| > 1 && AreTokens(k, tokens) && len <= |t| && Spells(k, tokens, t[..len])
    ensures tokens[0] <= t && |tokens[0]| + n + last == len
    ensures RunOf(k, Space, t[|tokens[0]|..]) == n
    ensures Spells(k, tokens[1..], t[|tokens[0]|..][n..][..last])
  {
    var first := |tokens[0]|;
    n :| Continues(k, tokens[1..], t[..len][first..], n);
    last := len - first - n;
    PieceAfter(t, first, n, last);
    assert tokens[0] <= t by {
      assert t[..first] == t[..len][..first];
    }
    var rest := t[first..];
    assert AreTokens(k, tokens[1..]);
    assert Spells(k, tokens[1..], rest[n..][..last]) && AllSpace(k, rest[..n]);
    hide Spells;
    SpellsStarts(k, tokens[1..], rest[n..][..last]);
    assert rest[n] == rest[n..][..last][0];
    RunOfSpaces(k, rest, n);
  }

  lemma MatchMore(k: Kinds, tokens: seq<string>, t: string, n: nat, last: nat)
    requires |tokens| > 1 && tokens[0] <= t
    requires RunOf(k, Space, t[|tokens[0]|..]) == n
    requires MatchAt(k, tokens[1..], t[|tokens[0]|..][n..]) == Some(last)
    ensures MatchAt(k, tokens, t) == Some(|tokens[0]| + n + last)
  {}

  /** The engine's match is exactly the spelling of the tokens, and no other length matches. */
  lemma MatchIff(k: Kinds, s: string, t: string, len: nat)
    requires len <= |t|
    ensures MatchAt(k, Pattern(k, s), t) == Some(len) <==> Spells(k, Pattern(k, s), t[..len])
  {
    TokensAreTokens(k, Strip(k, s));
    if MatchAt(k, Pattern(k, s), t) == Some(len) {
      MatchIsSound(k, Pattern(k, s), t);
    }
    if Spells(k, Pattern(k, s), t[..len]) {
      MatchIsComplete(k, Pattern(k, s), t, len);
    }
  }

  // ----- White space aside, a match is the pattern's own text

  function Ink(k: Kinds, s: string): string {
    if s == [] then [] else (if IsSpace(k, s[0]) then [] else s[..1]) + Ink(k, s[1..])
  }

  function Joined(tokens: seq<string>): string {
    if tokens == [] then [] else tokens[0] + Joined(tokens[1..])
  }

  lemma {:induction false} InkOfSum(k: Kinds, a: string, b: string)
    ensures Ink(k, a + b) == Ink(k, a) + Ink(k, b)
  {
    if a == [] {
      assert a + b == b;
    } else {
      var head := if IsSpace(k, a[0]) then [] else a[..1];
      assert (a + b)[1..] == a[1..] + b && (a + b)[..1] == a[..1];
      InkOfSum(k, a[1..], b);
      assert head + (Ink(k, a[1..]) + Ink(k, b)) == (head + Ink(k, a[1..])) + Ink(k, b);
    }
  }

  lemma {:induction false} InkOfSpaces(k: Kinds, s: string)
    requires AllSpace(k, s)
    ensures Ink(k, s) == []
  {
    if s != [] {
      InkOfSpaces(k, s[1..]);
    }
  }

  ghost predicate NoSpace(k: Kinds, s: string) {
    forall i :: 0 <= i < |s| ==> !IsSpace(k, s[i])
  }

  lemma {:induction false} InkOfInk(k: Kinds, s: string)
    requires NoSpace(k, s)
    ensures Ink(k, s) == s
  {
    if s != [] {
      InkOfInk(k, s[1..]);
      assert s == s[..1] + s[1..];
    }
  }

  lemma {:induction false} TokensHoldInk(k: Kinds, s: string)
    ensures Joined(Tokens(k, s)) == Ink(k, s)
    ensures forall i :: 0 <= i < |Tokens(k, s)| ==> NoSpace(k, Tokens(k, s)[i])
    decreases |s|
  {
    if s != [] {
      match k(s[0])
      case Space => TokensHoldInk(k, s[1..]);
      case Other => TokensHoldInk(k, s[1..]);
      case WordChar =>
        var n := RunOf(k, WordChar, s);
        TokensHoldInk(k, s[n..]);
        RunIsAll(k, WordChar, s);
        assert s == s[..n] + s[n..];
        InkOfSum(k, s[..n], s[n..]);
        InkOfInk(k, s[..n]);
    }
  }

  lemma {:induction false} SpellingHoldsInk(k: Kinds, tokens: seq<string>, m: string)
    requires Spells(k, tokens, m) && forall i :: 0 <= i < |tokens| ==> NoSpace(k, tokens[i])
    ensures Ink(k, m) == Joined(tokens)
    decreases |tokens|
  {
    if tokens == [] {
    } else if |tokens| == 1 {
      InkOfInk(k, m);
      assert Joined(tokens[1..]) == [];
    } else {
      var rest := m[|tokens[0]|..];
      var n: nat :| Continues(k, tokens[1..], rest, n);
      SpellingHoldsInk(k, tokens[1..], rest[n..]);
      InkOfPieces(k, tokens[0], rest, n);
      assert m == tokens[0] + rest;
    }
  }

  lemma InkOfPieces(k: Kinds, token: string, rest: string, n: nat)
    requires NoSpace(k, token) && n <= |rest| && AllSpace(k, rest[..n])
    ensures Ink(k, token + rest) == token + Ink(k, rest[n..])
  {
    hide Ink;
    InkOfSum(k, token, rest);
    InkOfInk(k, token);
    InkOfSum(k, rest[..n], rest[n..]);
    InkOfSpaces(k, rest[..n]);
    assert rest == rest[..n] + rest[n..];
    assert [] + Ink(k, rest[n..]) == Ink(k, rest[n..]);
  }

  /** A match differs from the pattern's text in white space only. */
  lemma MatchHasSameInk(k: Kinds, s: string, t: string)
    requires MatchAt(k, Pattern(k, s), t).Some?
    ensures Ink(k, t[..MatchAt(k, Pattern(k, s), t).value]) == Ink(k, Strip(k, s))
  {
    MatchIsSound(k, Pattern(k, s), t);
    TokensHoldInk(k, Strip(k, s));
    SpellingHoldsInk(k, Pattern(k, s), t[..MatchAt(k, Pattern(k, s), t).value]);
  }

  /** Stripping takes white space off both ends, all of it, and nothing else. */
  lemma StripIs(k: Kinds, s: string) returns (left: string, right: string)
    ensures s == left + Strip(k, s) + right && AllSpace(k, left) && AllSpace(k, right)
    ensures Trimmed(k, Strip(k, s))
  {
    var rest := StripLeft(k, s);
    StripTrims(k, s);
    RunIsAll(k, Space, s);
    left := s[..RunOf(k, Space, s)];
    right := StripRightIs(k, rest);
    assert s == left + rest;
  }

  lemma {:induction false} StripRightIs(k: Kinds, s: string) returns (right: string)
    ensures s == StripRight(k, s) + right && AllSpace(k, right)
    decreases |s|
  {
    if s == [] || !IsSpace(k, s[|s| - 1]) {
      right := [];
    } else {
      var last := |s| - 1;
      right := StripRightIs(k, s[..last]);
      right := right + [s[last]];
      assert s == s[..last] + [s[last]];
    }
  }

  // ----- A text matches its own pattern

  /** No white space at either end. */
  ghost predicate Trimmed(k: Kinds, s: string) {
    s != [] ==> !IsSpace(k, s[0]) && !IsSpace(k, s[|s| - 1])
  }

  lemma {:induction false} StripRightTrims(k: Kinds, s: string)
    ensures StripRight(k, s) <= s
    ensures StripRight(k, s) != [] ==> !IsSpace(k, StripRight(k, s)[|StripRight(k, s)| - 1])
    decreases |s|
  {
    if s != [] && IsSpace(k, s[|s| - 1]) {
      StripRightTrims(k, s[..|s| - 1]);
    }
  }

  lemma StripTrims(k: Kinds, s: string)
    ensures Trimmed(k, Strip(k, s))
  {
    RunIsAll(k, Space, s);
    StripRightTrims(k, StripLeft(k, s));
  }

  /** Leading white space adds no token. */
  lemma {:induction false} TokensAfterSpaces(k: Kinds, s: string)
    ensures Tokens(k, s) == Tokens(k, StripLeft(k, s))
    decreases |s|
  {
    if s != [] && IsSpace(k, s[0]) {
      TokensAfterSpaces(k, s[1..]);
      assert StripLeft(k, s) == StripLeft(k, s[1..]);
    }
  }

  /** The length of the first token of a text that starts with one. */
  function FirstLength(k: Kinds, s: string): (n: nat)
    requires s != [] && !IsSpace(k, s[0])
    ensures 0 < n <= |s|
  {
    if k(s[0]).Other? then 1 else RunOf(k, WordChar, s)
  }

  lemma {:induction false} OwnSpelling(k: Kinds, s: string)
    requires Trimmed(k, s)
    ensures Spells(k, Tokens(k, s), s)
    decreases |s|
  {
    if s != [] {
      var first := FirstLength(k, s);
      var rest := s[first..];
      assert Tokens(k, s) == [s[..first]] + Tokens(k, rest);
      assert s[..first] <= s;
      if rest == [] {
        assert s[..first] == s;
      } else {
        var n := RunOf(k, Space, rest);
        RunIsAll(k, Space, rest);
        assert rest[|rest| - 1] == s[|s| - 1];
        assert n < |rest|;
        TokensAfterSpaces(k, rest);
        OwnSpelling(k, rest[n..]);
        SomeToken(k, rest[n..]);
        assert Tokens(k, s)[1..] == Tokens(k, rest[n..]);
        assert Continues(k, Tokens(k, s)[1..], rest, n);
      }
    }
  }

  lemma SomeToken(k: Kinds, s: string)
    requires s != [] && !IsSpace(k, s[0])
    ensures Tokens(k, s) != []
  {}

  lemma BlankIff(k: Kinds, s: string)
    ensures Pattern(k, s) == [] <==> Strip(k, s) == []
  {
    StripTrims(k, s);
    if Strip(k, s) != [] {
      SomeToken(k, Strip(k, s));
    }
  }

  /** Wherever the stripped text stands, its own pattern matches there, and matches all of it. */
  lemma OwnMatch(k: Kinds, s: string, t: string)
    requires Strip(k, s) <= t
    ensures MatchAt(k, Pattern(k, s), t) == Some(|Strip(k, s)|)
  {
    StripTrims(k, s);
    OwnSpelling(k, Strip(k, s));
    assert t[..|Strip(k, s)|] == Strip(k, s);
    MatchIff(k, s, t, |Strip(k, s)|);
  }

  // ----- Searching

  datatype Match = Match(start: nat, end: nat)

  /** re.search: the leftmost match at or after position from. */
  function SearchFrom(k: Kinds, tokens: seq<string>, t: string, from: nat): (r: Option<Match>)
    requires from <= |t|
    ensures r.Some? ==> from <= r.value.start <= r.value.end <= |t|
    decreases |t| - from
  {
    match MatchAt(k, tokens, t[from..])
    case Some(n) => Some(Match(from, from + n))
    case None => if from == |t| then None else SearchFrom(k, tokens, t, from + 1)
  }

  function Search(k: Kinds, tokens: seq<string>, t: string): (r: Option<Match>)
    ensures r.Some? ==> r.value.start <= r.value.end <= |t|
  {
    SearchFrom(k, tokens, t, 0)
  }

  lemma {:induction false} SearchFinds(k: Kinds, tokens: seq<string>, t: string, from: nat, i: nat)
    requires from <= i <= |t| && MatchAt(k, tokens, t[i..]).Some?
    ensures SearchFrom(k, tokens, t, from).Some? && SearchFrom(k, tokens, t, from).value.start <= i
    decreases |t| - from
  {
    if MatchAt(k, tokens, t[from..]).None? {
      SearchFinds(k, tokens, t, from + 1, i);
    }
  }

  lemma {:induction false} SearchIsMatch(k: Kinds, tokens: seq<string>, t: string, from: nat)
    requires from <= |t| && SearchFrom(k, tokens, t, from).Some?
    ensures var m := SearchFrom(k, tokens, t, from).value;
            MatchAt(k, tokens, t[m.start..]) == Some(m.end - m.start)
    decreases |t| - from
  {
    if MatchAt(k, tokens, t[from..]).None? {
      SearchIsMatch(k, tokens, t, from + 1);
    }
  }

  lemma SpellingIsFound(k: Kinds, s: string, t: string, i: nat, j: nat)
    requires i <= j <= |t| && Spells(k, Pattern(k, s), t[i..j])
    ensures var r := Search(k, Pattern(k, s), t); r.Some? && r.value.start <= i
  {
    hide Pattern, Spells, MatchAt, SearchFrom;
    SliceThenTake(t, i, j);
    MatchIff(k, s, t[i..], j - i);
    SearchFinds(k, Pattern(k, s), t, 0, i);
  }

  lemma FoundIsSpelling(k: Kinds, s: string, t: string)
    requires Search(k, Pattern(k, s), t).Some?
    ensures var r := Search(k, Pattern(k, s), t).value; Spells(k, Pattern(k, s), t[r.start..r.end])
  {
    hide Pattern, Spells, MatchAt, SearchFrom;
    var r := Search(k, Pattern(k, s), t).value;
    SearchIsMatch(k, Pattern(k, s), t, 0);
    MatchIff(k, s, t[r.start..], r.end - r.start);
    SliceThenTake(t, r.start, r.end);
  }

  /** A match is reported exactly when one exists, and the one reported starts first. */
  lemma SearchIsLeftmost(k: Kinds, s: string, t: string)
    ensures var r := Search(k, Pattern(k, s), t);
            && (r.Some? ==> Spells(k, Pattern(k, s), t[r.value.start..r.value.end]))
            && (forall i, j :: 0 <= i <= j <= |t| && Spells(k, Pattern(k, s), t[i..j]) ==>
                  r.Some? && r.value.start <= i)
  {
    hide Pattern, Spells, SearchFrom;
    if Search(k, Pattern(k, s), t).Some? {
      FoundIsSpelling(k, s, t);
    }
    forall i, j | 0 <= i <= j <= |t| && Spells(k, Pattern(k, s), t[i..j])
      ensures Search(k, Pattern(k, s), t).Some? && Search(k, Pattern(k, s), t).value.start <= i
    {
      SpellingIsFound(k, s, t, i, j);
    }
  }

  lemma SliceThenTake(t: string, i: nat, j: nat)
    requires i <= j <= |t|
    ensures t[i..][..j - i] == t[i..j]
  {}

  // ----- One change

  datatype Status = AlreadyApplied | Ready(found: Match) | NotFound

  datatype Change = Change(original: string, modified: string)

  /** find_and_check_in_text. */
  function StatusOf(k: Kinds, text: string, c: Change): (r: Status)
    ensures r.Ready? ==> r.found.start <= r.found.end <= |text|
  {
    var after, before := Pattern(k, c.modified), Pattern(k, c.original);
    if after != [] && Search(k, after, text).Some? then AlreadyApplied
    else if before == [] then NotFound
    else
      match Search(k, before, text)
      case Some(m) => Ready(m)
      case None => NotFound
  }

  /** One round of the loop in mod. */
  function ApplyOne(k: Kinds, text: string, c: Change): string {
    match StatusOf(k, text, c)
    case Ready(m) => text[..m.start] + Strip(k, c.modified) + text[m.end..]
    case _ => text
  }

  /** A piece of the text spells the block. */
  ghost predicate Occurs(k: Kinds, s: string, text: string) {
    exists i, j :: 0 <= i <= j <= |text| && Spells(k, Pattern(k, s), text[i..j])
  }

  /** A change is applied if its replacement occurs and is not blank; otherwise it is ready where its original occurs
      first, if that is not blank and occurs at all. */
  lemma StatusIs(k: Kinds, text: string, c: Change)
    ensures StatusOf(k, text, c) == AlreadyApplied <==> Strip(k, c.modified) != [] && Occurs(k, c.modified, text)
    ensures StatusOf(k, text, c).Ready? <==>
              && !(Strip(k, c.modified) != [] && Occurs(k, c.modified, text))
              && Strip(k, c.original) != [] && Occurs(k, c.original, text)
    ensures StatusOf(k, text, c).Ready? ==>
              var m := StatusOf(k, text, c).found;
              && Spells(k, Pattern(k, c.original), text[m.start..m.end])
              && forall i, j :: 0 <= i <= j <= |text| && Spells(k, Pattern(k, c.original), text[i..j]) ==> m.start <= i
  {
    BlankIff(k, c.modified);
    BlankIff(k, c.original);
    SearchIsLeftmost(k, c.modified, text);
    SearchIsLeftmost(k, c.original, text);
    hide Pattern, Spells, Search, Strip;
  }

  /** The replacement, stripped, stands where the match stood, and the text before and after it is the same. */
  lemma AppliedInPlace(k: Kinds, text: string, c: Change)
    requires StatusOf(k, text, c).Ready?
    ensures var m, put, r := StatusOf(k, text, c).found, Strip(k, c.modified), ApplyOne(k, text, c);
            && m.start <= m.end <= |text| && |r| + (m.end - m.start) == |text| + |put|
            && r[..m.start] == text[..m.start] && r[m.start..m.start + |put|] == put
            && r[m.start + |put|..] == text[m.end..]
  {
    hide StatusOf, Strip;
  }

  /** After a change with a replacement that is not blank, the change counts as applied. */
  lemma AppliedIsSeen(k: Kinds, text: string, c: Change)
    requires Pattern(k, c.modified) != [] && StatusOf(k, text, c).Ready?
    ensures StatusOf(k, ApplyOne(k, text, c), c) == AlreadyApplied
  {
    var m := StatusOf(k, text, c).found;
    var next := ApplyOne(k, text, c);
    assert next[m.start..] == Strip(k, c.modified) + text[m.end..];
    OwnMatch(k, c.modified, next[m.start..]);
    SearchFinds(k, Pattern(k, c.modified), next, 0, m.start);
  }

  /** Applying the change twice is applying it once. */
  ghost predicate IsIdempotent(k: Kinds, c: Change) {
    forall text: string :: ApplyOne(k, ApplyOne(k, text, c), c) == ApplyOne(k, text, c)
  }

  /** A change is idempotent on every text exactly when its replacement is not blank, or its original is. */
  lemma IdempotentIff(k: Kinds, c: Change)
    ensures IsIdempotent(k, c) <==> Pattern(k, c.modified) != [] || Pattern(k, c.original) == []
  {
    if Pattern(k, c.modified) != [] || Pattern(k, c.original) == [] {
      forall text: string
        ensures ApplyOne(k, ApplyOne(k, text, c), c) == ApplyOne(k, text, c)
      {
        if StatusOf(k, text, c).Ready? {
          AppliedIsSeen(k, text, c);
        }
      }
    } else {
      BlankDeletesTwice(k, c);
    }
  }

  /** A blank replacement deletes the first of two copies, and the second the next time. */
  lemma BlankDeletesTwice(k: Kinds, c: Change)
    requires Pattern(k, c.modified) == [] && Pattern(k, c.original) != []
    ensures var once := Strip(k, c.original);
            ApplyOne(k, once + once, c) == once && ApplyOne(k, once, c) == [] && once != []
  {
    var once := Strip(k, c.original);
    BlankIff(k, c.original);
    BlankIff(k, c.modified);
    assert (once + once)[0..] == once + once && once[0..] == once;
    OwnMatch(k, c.original, once + once);
    OwnMatch(k, c.original, once);
    assert StatusOf(k, once + once, c) == Ready(Match(0, |once|));
    assert StatusOf(k, once, c) == Ready(Match(0, |once|));
    assert (once + once)[..0] + [] + (once + once)[|once|..] == once;
    assert once[..0] + [] + once[|once|..] == [];
  }

  // ----- All changes

  function ApplyAll(k: Kinds, text: string, changes: seq<Change>): string
    decreases changes
  {
    if changes == [] then text else ApplyAll(k, ApplyOne(k, text, changes[0]), changes[1..])
  }

  /** Changes are applied in the order of the list, each to what the earlier ones left. */
  lemma {:induction false} AppliedInOrder(k: Kinds, text: string, changes: seq<Change>, c: Change)
    ensures ApplyAll(k, text, []) == text
    ensures ApplyAll(k, text, changes + [c]) == ApplyOne(k, ApplyAll(k, text, changes), c)
    decreases changes
  {
    hide ApplyOne;
    if changes == [] {
      assert ([] + [c])[0] == c && ([] + [c])[1..] == [];
    } else {
      assert (changes + [c])[0] == changes[0] && (changes + [c])[1..] == changes[1..] + [c];
      AppliedInOrder(k, ApplyOne(k, text, changes[0]), changes[1..], c);
    }
  }

  /** Some change was applied on the way. */
  predicate Touches(k: Kinds, text: string, changes: seq<Change>)
    decreases changes
  {
    changes != [] && (StatusOf(k, text, changes[0]).Ready? || Touches(k, ApplyOne(k, text, changes[0]), changes[1..]))
  }

  /** mod leaves the file alone exactly when no change is ready in it; so it does when all are applied. */
  lemma {:induction false} UntouchedIff(k: Kinds, text: string, changes: seq<Change>)
    ensures !Touches(k, text, changes) <==> forall i :: 0 <= i < |changes| ==> !StatusOf(k, text, changes[i]).Ready?
    ensures !Touches(k, text, changes) ==> ApplyAll(k, text, changes) == text
    decreases changes
  {
    hide StatusOf;
    if changes != [] && !StatusOf(k, text, changes[0]).Ready? {
      NotReadyNoChange(k, text, changes[0]);
      UntouchedIff(k, text, changes[1..]);
      assert forall i :: 1 <= i < |changes| ==> changes[i] == changes[1..][i - 1];
      assert forall i :: 0 <= i < |changes[1..]| ==> changes[1..][i] == changes[i + 1];
    }
  }

  lemma NotReadyNoChange(k: Kinds, text: string, c: Change)
    requires !StatusOf(k, text, c).Ready?
    ensures ApplyOne(k, text, c) == text
  {}

  /** The loop of mod; a file is written only if it was touched. */
  method Mod(k: Kinds, source: string, changes: seq<Change>) returns (newSource: string, modified: bool)
    ensures newSource == ApplyAll(k, source, changes)
    ensures modified == Touches(k, source, changes)
    ensures !modified ==> newSource == source
  {
    hide StatusOf;
    newSource, modified := source, false;
    var i := 0;
    assert changes[0..] == changes;
    while i < |changes|
      invariant i <= |changes|
      invariant ApplyAll(k, source, changes) == ApplyAll(k, newSource, changes[i..])
      invariant Touches(k, source, changes) == (modified || Touches(k, newSource, changes[i..]))
    {
      assert changes[i..][0] == changes[i] && changes[i..][1..] == changes[i + 1..];
      var status := StatusOf(k, newSource, changes[i]);
      if status.Ready? {
        newSource := newSource[..status.found.start] + Strip(k, changes[i].modified) + newSource[status.found.end..];
        modified := true;
      }
      i := i + 1;
    }
    UntouchedIff(k, source, changes);
  }

  datatype Report = Applied | Waiting | Conflict

  /** check: the first change that is not applied decides. */
  method Check(k: Kinds, source: string, changes: seq<Change>) returns (report: Report)
    ensures report == Applied <==> forall i :: 0 <= i < |changes| ==> StatusOf(k, source, changes[i]) == AlreadyApplied
    ensures report != Applied ==>
              exists i :: 0 <= i < |changes| && StatusOf(k, source, changes[i]) != AlreadyApplied
                && (forall j :: 0 <= j < i ==> StatusOf(k, source, changes[j]) == AlreadyApplied)
                && (report == Waiting <==> StatusOf(k, source, changes[i]).Ready?)
  {
    hide StatusOf;
    var i := 0;
    while i < |changes|
      invariant i <= |changes|
      invariant forall j :: 0 <= j < i ==> StatusOf(k, source, changes[j]) == AlreadyApplied
    {
      var status := StatusOf(k, source, changes[i]);
      if status != AlreadyApplied {
        return if status.Ready? then Waiting else Conflict;
      }
      i := i + 1;
    }
    report := Applied;
  }
}
