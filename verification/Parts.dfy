/** Cutting a file into chunks at its sections, and applying a transform to its code parts
    (selfcode/lgz/lgzv3.c, lines 478-499, 571-576 and 931-943). */
module Parts {
  import opened Bytes
  import opened ElfSections

  // ----- The chunk list

  function Gap(pos: nat, end: nat): (r: seq<Extent>) {
    if end > pos then [Extent(pos, end - pos, false)] else []
  }

  /** The chunks of the sections from pos on, and of the bytes between and after them, in an n-byte file. */
  function ChunksFrom(secs: seq<Extent>, pos: nat, n: nat): seq<Extent> {
    if secs == [] then Gap(pos, n)
    else Gap(pos, secs[0].offset) + [secs[0]] + ChunksFrom(secs[1..], secs[0].End(), n)
  }

  function Chunks(info: ElfInfo, n: nat): seq<Extent> {
    if info.Elf? && info.sections != [] then ChunksFrom(info.sections, 0, n) else [Extent(0, n, false)]
  }

  /** Consecutive chunks that cover [pos, n) in order, with no gap and no overlap. */
  ghost predicate Tile(chunks: seq<Extent>, pos: nat, n: nat) {
    if chunks == [] then pos == n
    else chunks[0].offset == pos && Tile(chunks[1..], chunks[0].End(), n)
  }

  /** Each section starts where the one before it ended, or later, and the last ends inside the file. */
  ghost predicate Disjoint(secs: seq<Extent>, pos: nat, n: nat) {
    if secs == [] then pos <= n
    else pos <= secs[0].offset && Disjoint(secs[1..], secs[0].End(), n)
  }

  /** The chunk list covers the file exactly when the sections do not overlap and stay inside it. */
  lemma {:induction false} TileIffDisjoint(secs: seq<Extent>, pos: nat, n: nat)
    ensures Tile(ChunksFrom(secs, pos, n), pos, n) <==> Disjoint(secs, pos, n)
  {
    if secs == [] {
      assert pos < n ==> Gap(pos, n)[1..] == [];
    } else {
      var gap, rest := Gap(pos, secs[0].offset), ChunksFrom(secs[1..], secs[0].End(), n);
      var list := ChunksFrom(secs, pos, n);
      TileIffDisjoint(secs[1..], secs[0].End(), n);
      if gap == [] {
        assert list == [secs[0]] + rest;
        assert list[1..] == rest;
      } else {
        assert list == gap + ([secs[0]] + rest);
        assert list[1..] == [secs[0]] + rest;
        assert list[1..][1..] == rest;
      }
    }
  }

  lemma ChunksTile(info: ElfInfo, n: nat)
    requires info.Elf? ==> Disjoint(info.sections, 0, n)
    ensures Tile(Chunks(info, n), 0, n)
  {
    if info.Elf? && info.sections != [] {
      TileIffDisjoint(info.sections, 0, n);
    } else {
      assert Chunks(info, n)[1..] == [];
    }
  }

  function CodeOnly(parts: seq<Extent>): seq<Extent> {
    if parts == [] then []
    else (if parts[0].isCode then [parts[0]] else []) + CodeOnly(parts[1..])
  }

  lemma {:induction false} CodeOnlyOfSum(a: seq<Extent>, b: seq<Extent>)
    ensures CodeOnly(a + b) == CodeOnly(a) + CodeOnly(b)
  {
    if a == [] {
      assert a + b == b;
    } else {
      var head := if a[0].isCode then [a[0]] else [];
      assert (a + b)[1..] == a[1..] + b;
      CodeOnlyOfSum(a[1..], b);
      assert CodeOnly(a + b) == head + CodeOnly(a[1..] + b);
      assert head + (CodeOnly(a[1..]) + CodeOnly(b)) == (head + CodeOnly(a[1..])) + CodeOnly(b);
    }
  }

  /** The code chunks are the code sections, in order. */
  lemma {:induction false} CodeChunksAreCodeSections(secs: seq<Extent>, pos: nat, n: nat)
    ensures CodeOnly(ChunksFrom(secs, pos, n)) == CodeOnly(secs)
  {
    if secs == [] {
      NoCodeInGap(pos, n);
    } else {
      var gap, rest := Gap(pos, secs[0].offset), ChunksFrom(secs[1..], secs[0].End(), n);
      NoCodeInGap(pos, secs[0].offset);
      CodeChunksAreCodeSections(secs[1..], secs[0].End(), n);
      CodeOnlyOfSum(gap + [secs[0]], rest);
      CodeOnlyOfSum(gap, [secs[0]]);
      CodeOnlyOfSum([secs[0]], secs[1..]);
      assert [secs[0]] + secs[1..] == secs;
    }
  }

  lemma NoCodeInGap(pos: nat, end: nat)
    ensures CodeOnly(Gap(pos, end)) == []
  {
    if end > pos {
      assert Gap(pos, end)[1..] == [];
    }
  }

  /** Whatever the sections are, the list fits the 2 * count + 2 entries allocated for it. */
  lemma {:induction false} ChunkCount(secs: seq<Extent>, pos: nat, n: nat)
    ensures |secs| <= |ChunksFrom(secs, pos, n)| <= 2 * |secs| + 1
  {
    if secs != [] {
      ChunkCount(secs[1..], secs[0].End(), n);
    }
  }

  /** The loop that fills the chunk array. */
  method BuildChunks(info: ElfInfo, fileSize: nat) returns (chunks: seq<Extent>)
    ensures chunks == Chunks(info, fileSize)
  {
    if info.NotElf? || |info.sections| == 0 {
      return [Extent(0, fileSize, false)];
    }
    var secs := info.sections;
    var list := new Extent[2 * |secs| + 2];
    var count, pos: nat, i := 0, 0, 0;
    ghost var goal := ChunksFrom(secs, 0, fileSize);
    assert secs[0..] == secs;
    while i < |secs|
      invariant i <= |secs| && count <= 2 * i
      invariant goal == list[..count] + ChunksFrom(secs[i..], pos, fileSize)
    {
      ChunkStep(secs, i, pos, fileSize, list[..count]);
      count := AppendGap(list, count, pos, secs[i].offset);
      count := Append(list, count, secs[i]);
      pos := secs[i].End();
      i := i + 1;
    }
    assert secs[i..] == [];
    count := AppendGap(list, count, pos, fileSize);
    chunks := list[..count];
  }

  method Append(list: array<Extent>, count: nat, c: Extent) returns (next: nat)
    requires count < list.Length
    modifies list
    ensures next == count + 1 && list[..next] == old(list[..count]) + [c]
  {
    list[count] := c;
    next := count + 1;
  }

  method AppendGap(list: array<Extent>, count: nat, pos: nat, end: nat) returns (next: nat)
    requires count < list.Length
    modifies list
    ensures count <= next <= count + 1 && list[..next] == old(list[..count]) + Gap(pos, end)
  {
    next := count;
    if end > pos {
      next := Append(list, count, Extent(pos, end - pos, false));
    }
  }

  lemma ChunkStep(secs: seq<Extent>, i: nat, pos: nat, n: nat, before: seq<Extent>)
    requires i < |secs|
    ensures before + ChunksFrom(secs[i..], pos, n)
         == before + Gap(pos, secs[i].offset) + [secs[i]] + ChunksFrom(secs[i + 1..], secs[i].End(), n)
  {
    assert secs[i..][1..] == secs[i + 1..];
  }

  // ----- Cutting and joining

  ghost predicate InBounds(parts: seq<Extent>, n: nat) {
    forall p :: p in parts ==> p.End() <= n
  }

  /** The code parts lie in n bytes. */
  predicate CodeInBounds(parts: seq<Extent>, n: nat) {
    forall p :: p in parts && p.isCode ==> p.End() <= n
  }

  lemma {:induction false} TileInBounds(chunks: seq<Extent>, pos: nat, n: nat)
    requires Tile(chunks, pos, n)
    ensures pos <= n && InBounds(chunks, n)
  {
    if chunks != [] {
      TileInBounds(chunks[1..], chunks[0].End(), n);
    }
  }

  lemma {:induction false} DisjointInBounds(secs: seq<Extent>, pos: nat, n: nat)
    requires Disjoint(secs, pos, n)
    ensures pos <= n && InBounds(secs, n)
  {
    if secs != [] {
      DisjointInBounds(secs[1..], secs[0].End(), n);
    }
  }

  /** The bytes of the parts, one after the other. */
  function Join(s: seq<byte>, parts: seq<Extent>): (r: seq<byte>)
    requires InBounds(parts, |s|)
  {
    if parts == [] then []
    else
      assert parts[0] in parts;
      s[parts[0].offset..parts[0].End()] + Join(s, parts[1..])
  }

  /** Chunks that tile a file join to the file. */
  lemma {:induction false} JoinOfTile(s: seq<byte>, chunks: seq<Extent>, pos: nat)
    requires Tile(chunks, pos, |s|) && InBounds(chunks, |s|)
    ensures pos <= |s| && Join(s, chunks) == s[pos..]
  {
    if chunks != [] {
      assert chunks[0] in chunks;
      JoinOfTile(s, chunks[1..], chunks[0].End());
      assert s[pos..] == s[pos..chunks[0].End()] + s[chunks[0].End()..];
    }
  }

  function TotalSize(parts: seq<Extent>): nat {
    if parts == [] then 0 else parts[0].size + TotalSize(parts[1..])
  }

  lemma {:induction false} TotalOfSum(a: seq<Extent>, b: seq<Extent>)
    ensures TotalSize(a + b) == TotalSize(a) + TotalSize(b)
  {
    if a == [] {
      assert a + b == b;
    } else {
      assert (a + b)[1..] == a[1..] + b;
      TotalOfSum(a[1..], b);
    }
  }

  lemma GapSize(pos: nat, end: nat)
    ensures TotalSize(Gap(pos, end)) == if end > pos then end - pos else 0
  {
    if end > pos {
      assert Gap(pos, end)[1..] == [];
    }
  }

  /** Overlapping sections are counted twice: the chunks are never too few bytes, and are the right number
      exactly when the sections are disjoint. */
  lemma {:induction false} TotalOfChunks(secs: seq<Extent>, pos: nat, n: nat)
    ensures TotalSize(ChunksFrom(secs, pos, n)) >= n - pos
    ensures TotalSize(ChunksFrom(secs, pos, n)) == n - pos <==> Disjoint(secs, pos, n)
  {
    if secs == [] {
      GapSize(pos, n);
    } else {
      var gap, one, rest := Gap(pos, secs[0].offset), [secs[0]], ChunksFrom(secs[1..], secs[0].End(), n);
      GapSize(pos, secs[0].offset);
      TotalOfChunks(secs[1..], secs[0].End(), n);
      TotalOfSum(gap + one, rest);
      TotalOfSum(gap, one);
      assert one[1..] == [];
    }
  }

  // ----- A transform of the code parts, one after the other

  ghost predicate KeepsLength(f: seq<byte> -> seq<byte>) {
    forall s :: |f(s)| == |s|
  }

  ghost predicate Undoes(g: seq<byte> -> seq<byte>, f: seq<byte> -> seq<byte>) {
    forall s :: g(f(s)) == s
  }

  function ApplyOne(s: seq<byte>, p: Extent, f: seq<byte> -> seq<byte>): (r: seq<byte>)
    requires (p.isCode ==> p.End() <= |s|) && KeepsLength(f)
    ensures |r| == |s|
  {
    if p.isCode then Splice(s, p.offset, f(s[p.offset..p.End()])) else s
  }

  function Apply(s: seq<byte>, parts: seq<Extent>, f: seq<byte> -> seq<byte>): (r: seq<byte>)
    requires CodeInBounds(parts, |s|) && KeepsLength(f)
    ensures |r| == |s|
    decreases parts
  {
    if parts == [] then s
    else
      assert parts[0] in parts;
      Apply(ApplyOne(s, parts[0], f), parts[1..], f)
  }

  /** A stretch that no code part touches keeps its bytes. */
  ghost predicate Avoids(parts: seq<Extent>, lo: nat, hi: nat) {
    forall p :: p in parts && p.isCode ==> p.End() <= lo || hi <= p.offset
  }

  lemma {:induction false} ApplyElsewhere(s: seq<byte>, parts: seq<Extent>, f: seq<byte> -> seq<byte>, lo: nat, hi: nat)
    requires CodeInBounds(parts, |s|) && KeepsLength(f)
    requires lo <= hi <= |s| && Avoids(parts, lo, hi)
    ensures Apply(s, parts, f)[lo..hi] == s[lo..hi]
    decreases parts
  {
    if parts != [] {
      var p := parts[0];
      assert p in parts;
      if p.isCode {
        SpliceElsewhere(s, p.offset, f(s[p.offset..p.End()]), lo, hi);
      }
      ApplyElsewhere(ApplyOne(s, p, f), parts[1..], f, lo, hi);
    }
  }

  lemma {:induction false} DisjointAvoids(secs: seq<Extent>, pos: nat, n: nat, lo: nat)
    requires Disjoint(secs, pos, n)
    ensures Avoids(secs, lo, pos)
  {
    if secs != [] {
      DisjointAvoids(secs[1..], secs[0].End(), n, lo);
    }
  }

  /** Rewriting bytes before the parts first or last makes no difference. */
  lemma {:induction false} ApplyAfterSplice(s: seq<byte>, parts: seq<Extent>, pos: nat, f: seq<byte> -> seq<byte>,
      off: nat, t: seq<byte>)
    requires Disjoint(parts, pos, |s|) && InBounds(parts, |s|) && KeepsLength(f)
    requires off + |t| <= pos <= |s|
    ensures Apply(Splice(s, off, t), parts, f) == Splice(Apply(s, parts, f), off, t)
    decreases parts
  {
    if parts != [] {
      var p := parts[0];
      assert p in parts;
      DisjointInBounds(parts[1..], p.End(), |s|);
      if p.isCode {
        SplicesCommute(s, off, t, p.offset, p.End(), f);
      }
      ApplyAfterSplice(ApplyOne(s, p, f), parts[1..], p.End(), f, off, t);
    }
  }

  lemma SplicesCommute(s: seq<byte>, off: nat, t: seq<byte>, lo: nat, hi: nat, f: seq<byte> -> seq<byte>)
    requires off + |t| <= lo <= hi <= |s| && KeepsLength(f)
    ensures Splice(s, off, t)[lo..hi] == s[lo..hi]
    ensures Splice(Splice(s, off, t), lo, f(s[lo..hi])) == Splice(Splice(s, lo, f(s[lo..hi])), off, t)
  {}

  /** Undoing the parts in the same forward order restores the file when they do not overlap. */
  lemma {:induction false} UndoApply(s: seq<byte>, parts: seq<Extent>, pos: nat, f: seq<byte> -> seq<byte>,
      g: seq<byte> -> seq<byte>)
    requires Disjoint(parts, pos, |s|) && InBounds(parts, |s|)
    requires KeepsLength(f) && KeepsLength(g) && Undoes(g, f)
    ensures Apply(Apply(s, parts, f), parts, g) == s
  {
    if parts != [] {
      var p, rest := parts[0], parts[1..];
      assert p in parts;
      DisjointInBounds(rest, p.End(), |s|);
      UndoApply(s, rest, p.End(), f, g);
      if p.isCode {
        UndoFirst(s, p, rest, f, g);
      }
    }
  }

  lemma UndoFirst(s: seq<byte>, p: Extent, rest: seq<Extent>, f: seq<byte> -> seq<byte>, g: seq<byte> -> seq<byte>)
    requires p.isCode && p.End() <= |s| && Disjoint(rest, p.End(), |s|) && InBounds(rest, |s|)
    requires KeepsLength(f) && KeepsLength(g) && Undoes(g, f)
    ensures ApplyOne(Apply(ApplyOne(s, p, f), rest, f), p, g) == Apply(s, rest, f)
  {
    var x := s[p.offset..p.End()];
    var done := Apply(s, rest, f);
    ApplyAfterSplice(s, rest, p.End(), f, p.offset, f(x));
    DisjointAvoids(rest, p.End(), |s|, p.offset);
    ApplyElsewhere(s, rest, f, p.offset, p.End());
    RestoreOne(done, p, f(x), x, g);
  }

  lemma RestoreOne(done: seq<byte>, p: Extent, t: seq<byte>, x: seq<byte>, g: seq<byte> -> seq<byte>)
    requires p.isCode && p.End() <= |done| && |t| == |x| == p.size && KeepsLength(g)
    requires g(t) == x && done[p.offset..p.End()] == x
    ensures ApplyOne(Splice(done, p.offset, t), p, g) == done
  {
    SpliceRead(done, p.offset, t);
    SpliceTwice(done, p.offset, t, x);
    SpliceSame(done, p.offset, x);
  }

  lemma {:induction false} InCodeOnly(parts: seq<Extent>, p: Extent)
    ensures p in CodeOnly(parts) <==> p in parts && p.isCode
  {
    if parts != [] {
      InCodeOnly(parts[1..], p);
      assert parts == [parts[0]] + parts[1..];
    }
  }

  lemma CodeOnlyInBounds(parts: seq<Extent>, n: nat)
    ensures CodeInBounds(parts, n) <==> InBounds(CodeOnly(parts), n)
    ensures CodeInBounds(parts, n) <==> CodeInBounds(CodeOnly(parts), n)
  {
    forall p
      ensures p in CodeOnly(parts) <==> p in parts && p.isCode
    {
      InCodeOnly(parts, p);
    }
  }

  /** Only the code parts matter. */
  lemma {:induction false} ApplyCodeOnly(s: seq<byte>, parts: seq<Extent>, f: seq<byte> -> seq<byte>)
    requires CodeInBounds(parts, |s|) && KeepsLength(f)
    ensures CodeInBounds(CodeOnly(parts), |s|)
    ensures Apply(s, CodeOnly(parts), f) == Apply(s, parts, f)
    decreases parts
  {
    CodeOnlyInBounds(parts, |s|);
    if parts != [] {
      var p, rest := parts[0], parts[1..];
      assert p in parts;
      ApplyCodeOnly(ApplyOne(s, p, f), rest, f);
      if p.isCode {
        assert CodeOnly(parts) == [p] + CodeOnly(rest);
        assert CodeOnly(parts)[1..] == CodeOnly(rest);
      } else {
        assert CodeOnly(parts) == CodeOnly(rest);
      }
    }
  }

  /** For the code parts not to overlap is enough: what lies between them may. */
  lemma UndoCode(s: seq<byte>, parts: seq<Extent>, f: seq<byte> -> seq<byte>, g: seq<byte> -> seq<byte>)
    requires Disjoint(CodeOnly(parts), 0, |s|)
    requires KeepsLength(f) && KeepsLength(g) && Undoes(g, f)
    ensures CodeInBounds(parts, |s|)
    ensures Apply(Apply(s, parts, f), parts, g) == s
  {
    DisjointInBounds(CodeOnly(parts), 0, |s|);
    CodeOnlyInBounds(parts, |s|);
    ApplyCodeOnly(s, parts, f);
    ApplyCodeOnly(Apply(s, parts, f), parts, g);
    UndoApply(s, CodeOnly(parts), 0, f, g);
  }

  /** Each part is transformed on its own: it holds what the transform makes of its old bytes. */
  lemma {:induction false} ApplyAt(s: seq<byte>, parts: seq<Extent>, pos: nat, f: seq<byte> -> seq<byte>, q: Extent)
    requires Disjoint(parts, pos, |s|) && CodeInBounds(parts, |s|) && KeepsLength(f)
    requires q in parts && q.isCode
    ensures pos <= q.offset && q.End() <= |s|
    ensures Apply(s, parts, f)[q.offset..q.End()] == f(s[q.offset..q.End()])
    decreases parts
  {
    var p, rest := parts[0], parts[1..];
    assert p in parts;
    var one := ApplyOne(s, p, f);
    DisjointInBounds(rest, p.End(), |s|);
    if q in rest {
      ApplyAt(one, rest, p.End(), f, q);
      if p.isCode {
        SpliceElsewhere(s, p.offset, f(s[p.offset..p.End()]), q.offset, q.End());
      }
    } else {
      assert q == p;
      DisjointAvoids(rest, p.End(), |s|, p.offset);
      ApplyElsewhere(one, rest, f, p.offset, p.End());
      SpliceRead(s, p.offset, f(s[p.offset..p.End()]));
    }
  }

  lemma CodeAt(s: seq<byte>, parts: seq<Extent>, f: seq<byte> -> seq<byte>, q: Extent)
    requires Disjoint(CodeOnly(parts), 0, |s|) && CodeInBounds(parts, |s|) && KeepsLength(f)
    requires q in parts && q.isCode
    ensures Apply(s, parts, f)[q.offset..q.End()] == f(s[q.offset..q.End()])
  {
    InCodeOnly(parts, q);
    ApplyCodeOnly(s, parts, f);
    ApplyAt(s, CodeOnly(parts), 0, f, q);
  }

  lemma DisjointFromEarlier(secs: seq<Extent>, pos: nat, early: nat, n: nat)
    requires Disjoint(secs, pos, n) && early <= pos
    ensures Disjoint(secs, early, n)
  {}

  lemma {:induction false} CodeOfDisjoint(secs: seq<Extent>, pos: nat, n: nat)
    requires Disjoint(secs, pos, n)
    ensures Disjoint(CodeOnly(secs), pos, n)
  {
    if secs != [] {
      var p, code := secs[0], CodeOnly(secs[1..]);
      CodeOfDisjoint(secs[1..], p.End(), n);
      if p.isCode {
        assert CodeOnly(secs) == [p] + code;
        assert CodeOnly(secs)[1..] == code;
      } else {
        assert CodeOnly(secs) == code;
        DisjointFromEarlier(code, p.End(), pos, n);
      }
    }
  }

  /** The compressor walks the chunks and the decompressor the sections: the effect is the same, for any sections. */
  lemma ChunksApplyAsSections(s: seq<byte>, secs: seq<Extent>, f: seq<byte> -> seq<byte>)
    requires CodeInBounds(secs, |s|) && KeepsLength(f)
    ensures CodeInBounds(ChunksFrom(secs, 0, |s|), |s|)
    ensures Apply(s, ChunksFrom(secs, 0, |s|), f) == Apply(s, secs, f)
  {
    CodeChunksAreCodeSections(secs, 0, |s|);
    CodeOnlyInBounds(secs, |s|);
    CodeOnlyInBounds(ChunksFrom(secs, 0, |s|), |s|);
    ApplyCodeOnly(s, ChunksFrom(secs, 0, |s|), f);
    ApplyCodeOnly(s, secs, f);
  }
}
