/** Whole files transformed before compression, and the decoder that reads back from the transformed bytes
    which parts it has to undo (selfcode/lgz/lgzv3.c, lines 559-614 and 915-993). */
module Blobs {
  import opened Bytes
  import opened ElfSections
  import opened Parts
  import opened PlanesAndDelta
  import CodePipeline
  import Arm64Branches
  import X86Branches

  // ----- What is done to one code part

  datatype Filter = NormalizeBranches(arch: Arch) | DenormalizeBranches(arch: Arch) | EncodeCode | DecodeCode {
    function Fn(): seq<byte> -> seq<byte> {
      match this
      case NormalizeBranches(Arm64) => Arm64Branches.Normalize
      case NormalizeBranches(X86) => X86Branches.Normalize
      case DenormalizeBranches(Arm64) => Arm64Branches.Denormalize
      case DenormalizeBranches(X86) => X86Branches.Denormalize
      case EncodeCode => CodePipeline.EncodeCode
      case DecodeCode => CodePipeline.DecodeCode
    }

    function Inverse(): Filter {
      match this
      case NormalizeBranches(arch) => DenormalizeBranches(arch)
      case DenormalizeBranches(arch) => NormalizeBranches(arch)
      case EncodeCode => DecodeCode
      case DecodeCode => EncodeCode
    }
  }

  lemma FilterKeepsLength(k: Filter)
    ensures KeepsLength(k.Fn())
  {
    forall s
      ensures |k.Fn()(s)| == |s|
    {
      match k
      case NormalizeBranches(Arm64) => assert |Arm64Branches.Normalize(s)| == |s|;
      case NormalizeBranches(X86) => assert |X86Branches.Normalize(s)| == |s|;
      case DenormalizeBranches(Arm64) => assert |Arm64Branches.Denormalize(s)| == |s|;
      case DenormalizeBranches(X86) => assert |X86Branches.Denormalize(s)| == |s|;
      case EncodeCode => assert |CodePipeline.EncodeCode(s)| == |s|;
      case DecodeCode => assert |CodePipeline.DecodeCode(s)| == |s|;
    }
  }

  lemma InverseUndoes(k: Filter)
    requires k.NormalizeBranches? || k.EncodeCode?
    ensures Undoes(k.Inverse().Fn(), k.Fn())
  {
    forall s
      ensures k.Inverse().Fn()(k.Fn()(s)) == s
    {
      match k
      case NormalizeBranches(Arm64) => Arm64Branches.DenormalizeNormalize(s);
      case NormalizeBranches(X86) => X86Branches.DenormalizeNormalize(s);
      case EncodeCode => CodePipeline.DecodeEncodeCode(s);
    }
  }

  function Filtered(s: seq<byte>, parts: seq<Extent>, k: Filter): (r: seq<byte>)
    requires CodeInBounds(parts, |s|)
    ensures |r| == |s|
  {
    FilterKeepsLength(k);
    Apply(s, parts, k.Fn())
  }

  function FilteredPart(s: seq<byte>, p: Extent, k: Filter): (r: seq<byte>)
    requires p.End() <= |s|
    ensures |r| == |s|
  {
    FilterKeepsLength(k);
    Splice(s, p.offset, k.Fn()(s[p.offset..p.End()]))
  }

  method FilterPart(data: array<byte>, p: Extent, k: Filter)
    requires p.End() <= data.Length
    modifies data
    ensures data[..] == FilteredPart(old(data[..]), p, k)
  {
    hide Splice, Arm64Branches.Normalize, Arm64Branches.Denormalize, X86Branches.Normalize, X86Branches.Denormalize,
         CodePipeline.EncodeCode, CodePipeline.DecodeCode;
    assert data[p.offset..p.End()] == data[..][p.offset..p.End()];
    match k
    case NormalizeBranches(Arm64) => Arm64Branches.NormalizeInPlace(data, p.offset, p.size);
    case NormalizeBranches(X86) => X86Branches.NormalizeInPlace(data, p.offset, p.size);
    case DenormalizeBranches(Arm64) => Arm64Branches.DenormalizeInPlace(data, p.offset, p.size);
    case DenormalizeBranches(X86) => X86Branches.DenormalizeInPlace(data, p.offset, p.size);
    case EncodeCode => CodePipeline.EncodeCodeInPlace(data, p.offset, p.size);
    case DecodeCode => CodePipeline.DecodeCodeInPlace(data, p.offset, p.size);
  }

  /** The loops over the chunks and over the sections. */
  method FilterParts(data: array<byte>, parts: seq<Extent>, k: Filter)
    requires CodeInBounds(parts, data.Length)
    modifies data
    ensures data[..] == Filtered(old(data[..]), parts, k)
  {
    FilterKeepsLength(k);
    ghost var goal := Filtered(data[..], parts, k);
    var i := 0;
    assert parts[0..] == parts;
    while i < |parts|
      invariant i <= |parts|
      invariant goal == Apply(data[..], parts[i..], k.Fn())
    {
      assert parts[i..][0] == parts[i] && parts[i..][1..] == parts[i + 1..];
      if parts[i].isCode {
        FilterPart(data, parts[i], k);
      }
      i := i + 1;
    }
  }

  // ----- Which files the round trip is for

  /** The section table lies in the file, and so does the code, clear of the file header and the section table.
      Files that are not ELF always qualify. */
  ghost predicate TableIsSafe(s: seq<byte>) {
    && Readable(s)
    && (IsElf(s) ==>
          var secs := Parse(s).sections;
          var h := HeaderOf(s);
          && CodeInBounds(secs, |s|)
          && Avoids(secs, 0, HEADER_SIZE)
          && Avoids(secs, h.table, h.TableEnd()))
  }

  /** Moreover, no two code sections overlap. */
  ghost predicate CodeApart(s: seq<byte>) {
    TableIsSafe(s) && (IsElf(s) ==> Disjoint(CodeOnly(Parse(s).sections), 0, |s|))
  }

  /** Moreover, no two of the kept sections overlap, and all of them lie in the file. */
  ghost predicate WellLaidOut(s: seq<byte>) {
    CodeApart(s) && (IsElf(s) ==> Disjoint(Parse(s).sections, 0, |s|))
  }

  lemma DisjointIsEnough(s: seq<byte>)
    requires IsElf(s) && Readable(s) && Disjoint(Parse(s).sections, 0, |s|)
    requires Avoids(Parse(s).sections, 0, HEADER_SIZE)
        && Avoids(Parse(s).sections, HeaderOf(s).table, HeaderOf(s).TableEnd())
    ensures WellLaidOut(s)
  {
    DisjointInBounds(Parse(s).sections, 0, |s|);
    CodeOfDisjoint(Parse(s).sections, 0, |s|);
  }

  /** Filtering code leaves the header and the table alone, so the filtered file still describes its own parts. */
  lemma FilteringKeepsSections(s: seq<byte>, k: Filter)
    requires TableIsSafe(s) && IsElf(s)
    ensures var b := Filtered(s, Parse(s).sections, k);
            IsElf(b) && Readable(b) && Parse(b) == Parse(s)
  {
    var secs, h := Parse(s).sections, HeaderOf(s);
    TableHasPlace(h);
    hide Parse, IsElf, HeaderOf, Apply, FileHeader.TableEnd, FileHeader.HasTable, Avoids, CodeInBounds;
    FilterKeepsLength(k);
    ApplyElsewhere(s, secs, k.Fn(), 0, HEADER_SIZE);
    ApplyElsewhere(s, secs, k.Fn(), h.table, h.TableEnd());
    ParseFrame(s, Filtered(s, secs, k));
  }

  // ----- The transformed files

  const RAW: nat := 0
  const CODE_CHUNK: nat := 1
  const DELTA_CHUNK: nat := 2
  const BRANCHES: nat := 3
  const CODE_BLOB: nat := 4
  const DELTA_BLOB: nat := 5
  const BRANCHES_DELTA: nat := 6

  /** The kinds of whole-file transform that compress_file can build for this file. */
  predicate Applicable(t: nat, info: ElfInfo) {
    || t == RAW || t == DELTA_BLOB
    || (info.Elf? && (t == BRANCHES || t == BRANCHES_DELTA))
    || (info.Elf? && info.arch.Arm64? && t == CODE_BLOB)
  }

  function EncodeBlob(t: nat, s: seq<byte>): (b: seq<byte>)
    requires Readable(s) && Applicable(t, Parse(s))
    requires InBounds(Chunks(Parse(s), |s|), |s|)
    ensures |b| == |s|
  {
    var info := Parse(s);
    var chunks := Chunks(info, |s|);
    if t == BRANCHES then Filtered(s, chunks, NormalizeBranches(info.arch))
    else if t == CODE_BLOB then Filtered(s, chunks, EncodeCode)
    else if t == DELTA_BLOB then Delta(s)
    else if t == BRANCHES_DELTA then Delta(Filtered(s, chunks, NormalizeBranches(info.arch)))
    else s
  }

  datatype Decoded = Restored(bytes: seq<byte>) | Undefined

  /** The decoder finds the sections in the bytes it has. Reading a table, or filtering code, outside the buffer
      has no defined result in the source. */
  function UndoSections(b: seq<byte>, t: nat): Decoded {
    if !Readable(b) then Undefined
    else
      match Parse(b)
      case NotElf => Restored(b)
      case Elf(secs, arch) =>
        if CodeInBounds(secs, |b|) then Restored(Filtered(b, secs, UndoFilter(t, arch))) else Undefined
  }

  function UndoFilter(t: nat, arch: Arch): Filter {
    if t == CODE_BLOB && arch.Arm64? then DecodeCode else DenormalizeBranches(arch)
  }

  function DecodeBlob(t: nat, b: seq<byte>): Decoded {
    if t == CODE_CHUNK then Restored(CodePipeline.DecodeCode(b))
    else if t == DELTA_CHUNK || t == DELTA_BLOB then Restored(Undelta(b))
    else if t == BRANCHES || t == CODE_BLOB then UndoSections(b, t)
    else if t == BRANCHES_DELTA then UndoSections(Undelta(b), t)
    else Restored(b)
  }

  lemma ChunksInBounds(s: seq<byte>)
    requires WellLaidOut(s)
    ensures InBounds(Chunks(Parse(s), |s|), |s|)
  {
    ChunksTile(Parse(s), |s|);
    TileInBounds(Chunks(Parse(s), |s|), 0, |s|);
  }

  lemma NoSectionsNoChange(s: seq<byte>, k: Filter)
    ensures CodeInBounds([Extent(0, |s|, false)], |s|)
    ensures Filtered(s, [Extent(0, |s|, false)], k) == s && Filtered(s, [], k) == s
  {
    FilterKeepsLength(k);
    var p := Extent(0, |s|, false);
    assert [p][1..] == [];
    assert Apply(s, [p], k.Fn()) == Apply(ApplyOne(s, p, k.Fn()), [], k.Fn());
  }

  lemma FilteredChunks(s: seq<byte>, k: Filter)
    requires TableIsSafe(s) && IsElf(s)
    ensures CodeInBounds(Chunks(Parse(s), |s|), |s|)
    ensures Filtered(s, Chunks(Parse(s), |s|), k) == Filtered(s, Parse(s).sections, k)
  {
    var secs := Parse(s).sections;
    FilterKeepsLength(k);
    if secs == [] {
      NoSectionsNoChange(s, k);
    } else {
      ChunksApplyAsSections(s, secs, k.Fn());
    }
  }

  /** Undoing the sections found in the filtered file restores the file. */
  lemma UndoFiltered(s: seq<byte>, t: nat, k: Filter)
    requires CodeApart(s) && IsElf(s)
    requires k.NormalizeBranches? || k.EncodeCode?
    requires UndoFilter(t, Parse(s).arch) == k.Inverse()
    ensures CodeInBounds(Chunks(Parse(s), |s|), |s|)
    ensures UndoSections(Filtered(s, Chunks(Parse(s), |s|), k), t) == Restored(s)
  {
    FilteredChunks(s, k);
    FilteringKeepsSections(s, k);
    FilterKeepsLength(k);
    FilterKeepsLength(k.Inverse());
    InverseUndoes(k);
    UndoCode(s, Parse(s).sections, k.Fn(), k.Inverse().Fn());
  }

  lemma BranchesRoundTrip(s: seq<byte>)
    requires CodeApart(s) && IsElf(s) && InBounds(Chunks(Parse(s), |s|), |s|)
    ensures DecodeBlob(BRANCHES, EncodeBlob(BRANCHES, s)) == Restored(s)
    ensures DecodeBlob(BRANCHES_DELTA, EncodeBlob(BRANCHES_DELTA, s)) == Restored(s)
  {
    var info := Parse(s);
    UndoFiltered(s, BRANCHES, NormalizeBranches(info.arch));
    UndoFiltered(s, BRANCHES_DELTA, NormalizeBranches(info.arch));
    var b := Filtered(s, Chunks(info, |s|), NormalizeBranches(info.arch));
    hide Filtered, UndoSections, Delta, Undelta, Chunks, CodeApart, Readable, IsElf;
    UndeltaDelta(b);
  }

  lemma CodeBlobRoundTrip(s: seq<byte>)
    requires CodeApart(s) && IsElf(s) && Parse(s).arch.Arm64? && InBounds(Chunks(Parse(s), |s|), |s|)
    ensures DecodeBlob(CODE_BLOB, EncodeBlob(CODE_BLOB, s)) == Restored(s)
  {
    UndoFiltered(s, CODE_BLOB, EncodeCode);
  }

  /** The transforms that read no section table are undone whatever the file is. */
  predicate ReadsNoTable(t: nat) {
    t == RAW || t == DELTA_BLOB
  }

  /** Every transform compress_file can pick is undone by the decoder, from the transformed bytes alone; those that
      filter code if the code sections do not overlap. */
  lemma BlobRoundTrip(t: nat, s: seq<byte>)
    requires Readable(s) && Applicable(t, Parse(s)) && InBounds(Chunks(Parse(s), |s|), |s|)
    requires ReadsNoTable(t) || CodeApart(s)
    ensures DecodeBlob(t, EncodeBlob(t, s)) == Restored(s)
  {
    if t == BRANCHES || t == BRANCHES_DELTA {
      BranchesRoundTrip(s);
    } else if t == CODE_BLOB {
      CodeBlobRoundTrip(s);
    } else if t == DELTA_BLOB {
      UndeltaDelta(s);
    }
  }

  /** What the decoder does with each number, whatever the bytes are: 0 and numbers it does not know keep them, 2
      and 5 sum them up, 3 and 4 keep what has no sections, and 6 is 3 after the sums. Only for ARM64 do 3 and 4
      differ. */
  lemma DecodedKinds(t: nat, b: seq<byte>)
    ensures t == 0 || t > 6 ==> DecodeBlob(t, b) == Restored(b)
    ensures DecodeBlob(1, b) == Restored(CodePipeline.DecodeCode(b))
    ensures DecodeBlob(2, b) == DecodeBlob(5, b) == Restored(Undelta(b))
    ensures DecodeBlob(6, b) == DecodeBlob(3, Undelta(b))
    ensures !IsElf(b) ==> DecodeBlob(3, b) == DecodeBlob(4, b) == Restored(b)
    ensures IsElf(b) && Readable(b) && Parse(b).arch.X86? ==> DecodeBlob(4, b) == DecodeBlob(3, b)
    ensures DecodeBlob(3, b).Undefined? <==> IsElf(b) && !(Readable(b) && CodeInBounds(Parse(b).sections, |b|))
  {
    hide CodePipeline.DecodeCode, Undelta, Filtered, CodeInBounds;
  }

  // ----- What the transformed files hold

  /** Types 3 and 4 filter each code section as a buffer of its own, by the architecture of the file. */
  lemma EncodedSection(s: seq<byte>, q: Extent)
    requires CodeApart(s) && IsElf(s) && InBounds(Chunks(Parse(s), |s|), |s|)
    requires q in Parse(s).sections && q.isCode
    ensures q.End() <= |s|
    ensures EncodeBlob(3, s)[q.offset..q.End()] ==
              if Parse(s).arch.Arm64? then Arm64Branches.Normalize(s[q.offset..q.End()])
              else X86Branches.Normalize(s[q.offset..q.End()])
    ensures Parse(s).arch.Arm64? ==>
              EncodeBlob(4, s)[q.offset..q.End()] == CodePipeline.EncodeCode(s[q.offset..q.End()])
  {
    var there, secs := NormalizeBranches(Parse(s).arch), Parse(s).sections;
    FilterKeepsLength(there);
    FilterKeepsLength(EncodeCode);
    CodeLies(s, q);
    hide *;
    CodeAt(s, secs, there.Fn(), q);
    CodeAt(s, secs, EncodeCode.Fn(), q);
    BlobsAre(s);
    FilterIs(Parse(s).arch);
  }

  lemma CodeLies(s: seq<byte>, q: Extent)
    requires CodeApart(s) && IsElf(s) && q in Parse(s).sections && q.isCode
    ensures q.End() <= |s| && CodeInBounds(Parse(s).sections, |s|) && Disjoint(CodeOnly(Parse(s).sections), 0, |s|)
  {
    hide Parse, Disjoint, Readable;
  }

  lemma BlobsAre(s: seq<byte>)
    requires TableIsSafe(s) && IsElf(s) && InBounds(Chunks(Parse(s), |s|), |s|)
    ensures CodeInBounds(Parse(s).sections, |s|)
    ensures KeepsLength(NormalizeBranches(Parse(s).arch).Fn()) && KeepsLength(EncodeCode.Fn())
    ensures EncodeBlob(3, s) == Apply(s, Parse(s).sections, NormalizeBranches(Parse(s).arch).Fn())
    ensures Parse(s).arch.Arm64? ==> EncodeBlob(4, s) == Apply(s, Parse(s).sections, EncodeCode.Fn())
  {
    assert Parse(s).Elf?;
    hide Parse, IsElf, Chunks, InBounds, Apply, Filter.Fn, Delta, Readable, CodeInBounds, Avoids, KeepsLength;
    FilteredChunks(s, NormalizeBranches(Parse(s).arch));
    FilteredChunks(s, EncodeCode);
    FilterKeepsLength(NormalizeBranches(Parse(s).arch));
    FilterKeepsLength(EncodeCode);
  }

  lemma FilterIs(arch: Arch)
    ensures NormalizeBranches(arch).Fn() == if arch.Arm64? then Arm64Branches.Normalize else X86Branches.Normalize
    ensures EncodeCode.Fn() == CodePipeline.EncodeCode
  {}

  /** They keep every byte that is in no code section. */
  lemma EncodedElsewhere(s: seq<byte>, i: nat)
    requires TableIsSafe(s) && IsElf(s) && InBounds(Chunks(Parse(s), |s|), |s|)
    requires i < |s| && forall q :: q in Parse(s).sections && q.isCode ==> !(q.offset <= i < q.End())
    ensures EncodeBlob(3, s)[i] == s[i] && (Parse(s).arch.Arm64? ==> EncodeBlob(4, s)[i] == s[i])
  {
    var there, secs := NormalizeBranches(Parse(s).arch), Parse(s).sections;
    FilteredChunks(s, there);
    FilteredChunks(s, EncodeCode);
    FilterKeepsLength(there);
    FilterKeepsLength(EncodeCode);
    assert Avoids(secs, i, i + 1);
    hide Parse, IsElf, Chunks, InBounds, Apply, Avoids;
    ApplyElsewhere(s, secs, there.Fn(), i, i + 1);
    ApplyElsewhere(s, secs, EncodeCode.Fn(), i, i + 1);
    OneByte(s, EncodeBlob(3, s), i);
    if Parse(s).arch.Arm64? {
      OneByte(s, EncodeBlob(4, s), i);
    }
  }

  lemma OneByte(s: seq<byte>, t: seq<byte>, i: nat)
    requires i < |s| == |t|
    ensures t[i..i + 1] == s[i..i + 1] ==> t[i] == s[i]
  {
    assert s[i] == s[i..i + 1][0] && t[i] == t[i..i + 1][0];
  }

  /** The other types are the file itself and deltas over the whole of it. */
  lemma EncodedDeltas(s: seq<byte>)
    requires Readable(s) && InBounds(Chunks(Parse(s), |s|), |s|)
    ensures EncodeBlob(0, s) == s && EncodeBlob(5, s) == Delta(s)
    ensures Parse(s).Elf? ==> EncodeBlob(6, s) == Delta(EncodeBlob(3, s))
    ensures Parse(s).NotElf? ==> forall t: nat :: Applicable(t, Parse(s)) <==> t == 0 || t == 5
    ensures Parse(s).Elf? ==>
              forall t: nat :: Applicable(t, Parse(s)) <==>
                t != 1 && t != 2 && t < 7 && (t == 4 ==> Parse(s).arch.Arm64?)
  {
    hide Parse, Chunks, Readable, InBounds, Filtered, Delta;
  }
}
