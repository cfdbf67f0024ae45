/** A file as an array of bytes: writes that leave holes, reads cut at the end of the file, and changes of size.
    What pwrite, pread and ftruncate do, and what whole requests should do
    (selfcode/recovery_storageproxyd/recovery_storageproxyd.c, lines 360-380). */
module ByteFiles {
  import opened Bytes
  import opened Codec

  function Zeros(n: nat): (z: seq<byte>)
    ensures |z| == n && forall i :: 0 <= i < n ==> z[i] == 0
  {
    if n == 0 then [] else [0] + Zeros(n - 1)
  }

  function Resize(f: seq<byte>, n: nat): (r: seq<byte>)
    ensures |r| == n
  {
    if n <= |f| then f[..n] else f + Zeros(n - |f|)
  }

  function Write(f: seq<byte>, off: nat, data: seq<byte>): seq<byte> {
    if data == [] then f
    else if off + |data| <= |f| then Splice(f, off, data)
    else Resize(f, off) + data
  }

  function Read(f: seq<byte>, off: nat, n: nat): (r: seq<byte>)
    ensures |r| <= n
  {
    if off >= |f| then [] else if off + n <= |f| then f[off..off + n] else f[off..]
  }

  // ----- Byte by byte

  /** The byte at a position; none at or past the end. */
  function ByteAt(f: seq<byte>, i: nat): Option<byte> {
    if i < |f| then Some(f[i]) else None
  }

  lemma WriteAt(f: seq<byte>, off: nat, data: seq<byte>, i: nat)
    ensures ByteAt(Write(f, off, data), i) ==
            if off <= i < off + |data| then Some(data[i - off])
            else if i < |f| then Some(f[i])
            else if i < off && data != [] then Some(0)
            else None
  {}

  lemma ReadAt(f: seq<byte>, off: nat, n: nat, k: nat)
    ensures ByteAt(Read(f, off, n), k) == if k < n then ByteAt(f, off + k) else None
  {}

  /** A change of size seen byte by byte: what lies below both sizes is kept, and what is new is zero. */
  lemma ResizeAt(f: seq<byte>, n: nat, i: nat)
    ensures ByteAt(Resize(f, n), i) == if i >= n then None else if i < |f| then Some(f[i]) else Some(0)
  {}

  /** A file is determined by its bytes at all positions. */
  lemma SameBytes(f: seq<byte>, g: seq<byte>)
    requires forall i: nat :: ByteAt(f, i) == ByteAt(g, i)
    ensures f == g
  {
    assert ByteAt(f, |g|) == ByteAt(g, |g|) == None;
    assert ByteAt(g, |f|) == ByteAt(f, |f|) == None;
    forall i: nat | i < |f|
      ensures f[i] == g[i]
    {
      assert ByteAt(f, i) == ByteAt(g, i);
    }
  }

  // ----- Transfers in pieces

  /** Writing a buffer in two pieces, one after the other, is writing it at once. */
  lemma WriteInPieces(f: seq<byte>, off: nat, a: seq<byte>, b: seq<byte>)
    ensures Write(Write(f, off, a), off + |a|, b) == Write(f, off, a + b)
  {
    hide ByteAt, Write;
    var once, twice := Write(f, off, a + b), Write(Write(f, off, a), off + |a|, b);
    forall i: nat
      ensures ByteAt(once, i) == ByteAt(twice, i)
    {
      WriteInPiecesAt(f, off, a, b, i);
    }
    SameBytes(once, twice);
  }

  lemma WriteInPiecesAt(f: seq<byte>, off: nat, a: seq<byte>, b: seq<byte>, i: nat)
    ensures ByteAt(Write(f, off, a + b), i) == ByteAt(Write(Write(f, off, a), off + |a|, b), i)
  {
    hide Write;
    WriteAt(f, off, a + b, i);
    WriteAt(f, off, a, i);
    WriteAt(Write(f, off, a), off + |a|, b, i);
  }

  /** Reading in two pieces is reading at once, if the first piece came in full. */
  lemma ReadInPieces(f: seq<byte>, off: nat, m: nat, n: nat)
    requires off + m <= |f|
    ensures Read(f, off, m + n) == Read(f, off, m) + Read(f, off + m, n)
  {
    if off < |f| {
      assert f[off..] == f[off..off + m] + f[off + m..];
    }
  }

  /** What was written is read back. */
  lemma ReadBack(f: seq<byte>, off: nat, data: seq<byte>)
    ensures Read(Write(f, off, data), off, |data|) == data
  {
    var r := Read(Write(f, off, data), off, |data|);
    forall i: nat
      ensures ByteAt(r, i) == ByteAt(data, i)
    {
      hide Write, Read;
      ReadAt(Write(f, off, data), off, |data|, i);
      WriteAt(f, off, data, off + i);
    }
    SameBytes(r, data);
  }

  /** A read that lies in the old file and does not touch the written stretch is not affected. */
  lemma ReadElsewhere(f: seq<byte>, off: nat, data: seq<byte>, at: nat, n: nat)
    requires at + n <= |f| && (at + n <= off || off + |data| <= at)
    ensures Read(Write(f, off, data), at, n) == Read(f, at, n)
  {
    var r := Read(Write(f, off, data), at, n);
    forall i: nat
      ensures ByteAt(r, i) == ByteAt(Read(f, at, n), i)
    {
      hide Write, Read;
      ReadAt(Write(f, off, data), at, n, i);
      ReadAt(f, at, n, i);
      WriteAt(f, off, data, at + i);
    }
    SameBytes(r, Read(f, at, n));
  }

  /** Writing past the end leaves a hole that reads as zeros. */
  lemma HoleReadsZero(f: seq<byte>, off: nat, data: seq<byte>)
    requires data != [] && |f| <= off
    ensures Read(Write(f, off, data), |f|, off - |f|) == Zeros(off - |f|)
  {
    var r := Read(Write(f, off, data), |f|, off - |f|);
    forall i: nat
      ensures ByteAt(r, i) == ByteAt(Zeros(off - |f|), i)
    {
      hide Write, Read;
      ReadAt(Write(f, off, data), |f|, off - |f|, i);
      WriteAt(f, off, data, |f| + i);
    }
    SameBytes(r, Zeros(off - |f|));
  }
}
