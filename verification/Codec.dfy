/** The LZMA2 library as an abstract codec, and the two wrappers around it
    (selfcode/lgz/lgzv3.c, lines 224-310). */
module Codec {
  import opened Bytes

  datatype Option<+T> = None | Some(value: T)

  const MAX_OUTPUT: nat := 256 * 1024 * 1024

  /** What lzma_compress_buf asks of the encoder. */
  datatype Settings = Settings(dictSize: nat, lc: nat, lp: nat, pb: nat, matchCycles: nat)

  /** The library: the property byte of some settings, an encoder that may fail, and a decoder that is given
      the property byte, the payload and the size to expect. */
  datatype Lzma2 = Lzma2(
    property: Settings -> byte,
    encode: (seq<byte>, Settings) -> Option<seq<byte>>,
    decode: (byte, seq<byte>, nat) -> Option<seq<byte>>)

  /** What the source relies on: a payload the encoder returns fits the buffer it was given, and decodes to
      the input. */
  ghost predicate Lawful(c: Lzma2) {
    forall x, p :: c.encode(x, p).Some? ==>
      && |c.encode(x, p).value| <= |x| + |x| / 10 + 4096
      && c.decode(c.property(p), c.encode(x, p).value, |x|) == Some(x)
  }

  /** The assumption can be met: storing the bytes as they are is a lawful codec. */
  function Store(): Lzma2 {
    Lzma2(p => 0, (x, p) => Some(x), (b, z, n) => Some(z))
  }

  lemma StoreIsLawful()
    ensures Lawful(Store())
  {}

  // ----- Dictionary size

  const MIN_DICT: nat := 4096

  function MaxDict(level: nat): nat {
    if level >= 3 then 32 * 1024 * 1024 else 16 * 1024 * 1024
  }

  function DictFrom(dict: nat, size: nat, level: nat): nat
    requires dict > 0
    decreases MaxDict(level) - dict
  {
    if dict < size && dict < MaxDict(level) then DictFrom(2 * dict, size, level) else dict
  }

  function DictSize(size: nat, level: nat): nat {
    DictFrom(MIN_DICT, size, level)
  }

  method GetOptimalDictSize(size: nat, level: nat) returns (dict: nat)
    ensures dict == DictSize(size, level)
  {
    dict := MIN_DICT;
    while dict < size && dict < MaxDict(level)
      invariant dict > 0 && DictFrom(dict, size, level) == DictSize(size, level)
      decreases MaxDict(level) - dict
    {
      dict := 2 * dict;
    }
  }

  function Doubled(k: nat): nat {
    if k == 0 then MIN_DICT else 2 * Doubled(k - 1)
  }

  lemma DictFromIs(k: nat, size: nat, level: nat) returns (j: nat)
    requires Doubled(k) > 0 && Doubled(k) <= MaxDict(level)
    requires k > 0 ==> Doubled(k - 1) < size
    ensures DictFrom(Doubled(k), size, level) == Doubled(j) <= MaxDict(level)
    ensures Doubled(j) >= size || Doubled(j) == MaxDict(level)
    ensures j > 0 ==> Doubled(j - 1) < size
    decreases MaxDict(level) - Doubled(k)
  {
    if Doubled(k) < size && Doubled(k) < MaxDict(level) {
      DoublesReachMax(k, level);
      j := DictFromIs(k + 1, size, level);
    } else {
      j := k;
    }
  }

  lemma DoublesReachMax(k: nat, level: nat)
    requires Doubled(k) < MaxDict(level)
    ensures Doubled(k + 1) <= MaxDict(level)
  {
    Doublings();
    if k >= 13 {
      DoubledGrows(13, k);
    }
  }

  lemma {:induction false} DoubledGrows(i: nat, k: nat)
    requires i <= k
    ensures Doubled(i) <= Doubled(k)
  {
    if i < k {
      DoubledGrows(i, k - 1);
    }
  }

  lemma Doublings()
    ensures Doubled(1) == 0x2000 && Doubled(2) == 0x4000 && Doubled(3) == 0x8000 && Doubled(4) == 0x1_0000
    ensures Doubled(5) == 0x2_0000 && Doubled(6) == 0x4_0000 && Doubled(7) == 0x8_0000 && Doubled(8) == 0x10_0000
    ensures Doubled(9) == 0x20_0000 && Doubled(10) == 0x40_0000 && Doubled(11) == 0x80_0000
    ensures Doubled(12) == 16 * 1024 * 1024 && Doubled(13) == 32 * 1024 * 1024
  {
    assert Doubled(2) == 2 * Doubled(1);
    assert Doubled(4) == 2 * Doubled(3) && Doubled(3) == 2 * Doubled(2);
    assert Doubled(6) == 2 * Doubled(5) && Doubled(5) == 2 * Doubled(4);
    assert Doubled(8) == 2 * Doubled(7) && Doubled(7) == 2 * Doubled(6);
    assert Doubled(10) == 2 * Doubled(9) && Doubled(9) == 2 * Doubled(8);
    assert Doubled(12) == 2 * Doubled(11) && Doubled(11) == 2 * Doubled(10);
    assert Doubled(13) == 2 * Doubled(12);
  }

  /** The dictionary is the smallest 4096 * 2^j that holds the input, or 32 MiB at level 3 and 16 MiB below. */
  lemma DictSizeIsLeast(size: nat, level: nat)
    ensures var most := if level >= 3 then 0x200_0000 else 0x100_0000;
            exists j: nat ::
              && DictSize(size, level) == 4096 * Pow2(j) <= most
              && (4096 * Pow2(j) >= size || 4096 * Pow2(j) == most)
              && (j > 0 ==> 4096 * Pow2(j - 1) < size)
  {
    var j := DictFromIs(0, size, level);
    DoubledIs(j);
    if j > 0 {
      DoubledIs(j - 1);
    }
  }

  lemma {:induction false} DoubledIs(k: nat)
    ensures Doubled(k) == 4096 * Pow2(k)
  {
    if k > 0 {
      DoubledIs(k - 1);
    }
  }

  // ----- The wrappers

  function MatchCycles(level: nat): nat {
    if level == 0 then 48 else if level == 1 then 256 else if level == 2 then 4096 else 500000
  }

  function SettingsFor(size: nat, lc: nat, lp: nat, pb: nat, level: nat): Settings {
    Settings(DictSize(size, level), lc, lp, pb, MatchCycles(level))
  }

  /** lzma_compress_buf: the property byte, then the payload; None when the library fails. */
  function Compress(c: Lzma2, x: seq<byte>, p: Settings): Option<seq<byte>> {
    match c.encode(x, p)
    case None => None
    case Some(z) => Some([c.property(p)] + z)
  }

  /** lzma_decompress_buf. */
  function Decompress(c: Lzma2, z: seq<byte>, n: nat): (r: Option<seq<byte>>)
    ensures r.Some? ==> |r.value| == n <= MAX_OUTPUT
  {
    if |z| < 1 || n > MAX_OUTPUT then None
    else
      var r := c.decode(z[0], z[1..], n);
      if r.Some? && |r.value| == n then r else None
  }

  /** Decompressing fails for an empty buffer, for more than 256 MiB, and when the library fails or returns another
      size than the one expected; otherwise it gives what the library returned. */
  lemma DecompressIs(c: Lzma2, z: seq<byte>, n: nat)
    ensures Decompress(c, z, n).Some? <==>
              |z| > 0 && n <= 0x1000_0000 && c.decode(z[0], z[1..], n).Some? && |c.decode(z[0], z[1..], n).value| == n
    ensures Decompress(c, z, n).Some? ==> Decompress(c, z, n) == c.decode(z[0], z[1..], n)
  {}

  /** A compressed buffer is restored exactly when the decoder accepts its size. */
  lemma DecompressCompress(c: Lzma2, x: seq<byte>, p: Settings)
    requires Lawful(c) && Compress(c, x, p).Some?
    ensures Decompress(c, Compress(c, x, p).value, |x|) == Some(x) <==> |x| <= 0x1000_0000
    ensures 1 <= |Compress(c, x, p).value| <= 1 + |x| + |x| / 10 + 4096
  {
    var z := c.encode(x, p).value;
    assert Compress(c, x, p).value[1..] == z;
  }
}
