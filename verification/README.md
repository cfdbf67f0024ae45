# Verification of the recovery tools

This project models six components of the recovery tree and proves what they are for.

- **LGZ** (`selfcode/lgz/lgzv3.c`) packs a file by trying reversible transforms (ARM64 and x86 branch
  normalisation, byte planes, deltas), running LZMA2 over every candidate, keeping the smallest and writing a
  chunked container. The decompressor re-reads the ELF section table from the transformed bytes to learn what to
  undo. The loops are methods over arrays; each is proved equal to a function, and the functions are proved inverse
  to each other, up to one round trip for every level, every winner and every order in which the parallel passes
  finish.
- **GptUtils** (`pixel-source/bootctrl/1.2/GptUtils.cpp`) loads, edits and stores the two copies of a GUID partition
  table. Headers, entries and the disk are raw bytes; an update is a list of writes that can stop after any byte.
- **BootControl** (`pixel-source/bootctrl/1.2/BootControl.cpp`) keeps the A/B slot state either in devinfo bit
  fields or in GPT attributes. Both are proved to be one slot machine.
- **The patcher** (`patch.py`) finds a block of code whatever its white space and replaces it.
- **The weaver service** (`selfcode/recovery_weaver/recovery_weaver.cpp`) speaks Protocol Buffers to the security
  chip.
- **The storage proxy** (`selfcode/recovery_storageproxyd/recovery_storageproxyd.c`) serves file and RPMB requests
  over system calls that may be interrupted, cut short or fail.

| component | modules |
|---|---|
| shared | `Bytes`, `Scans` |
| witnesses | `Preconditions`, `DetectedRuns`, `Counterexamples`, `GptCounterexamples` |
| LGZ | `Arm64Branches`, `X86Branches`, `PlanesAndDelta`, `CodePipeline`, `ElfSections`, `Parts`, `Blobs`, `Codec`, `Selection`, `Container`, `Compressor`, `LgzFiles` |
| GptUtils | `GptDisk`, `GptSync`, `GptEntries`, `GptLoad`, `GptRepairs`, `GptUtils`, `GptRuns` |
| BootControl | `Slots`, `SlotBackends`, `BootControl` |
| patcher | `Patch` |
| weaver | `Varints`, `Protobuf`, `Weaver` |
| storage proxy | `ByteFiles`, `Rpmb`, `StorageSpec`, `StorageLaws`, `StorageProxy` |

`dafny verify dfyconfig.toml` checks everything.

What comes from outside is a parameter: the LZMA2 library (a lawful codec: if it encodes, it decodes to the input),
the CRC (any function), the order of the parallel passes (any permutation), how many device writes succeed, the
regular expression engine's character classes, the chip's answers, the schedule of short transfers, interruptions and
failures of the system calls, and the SCSI results. Where the C code reads or writes outside a buffer, the model
answers `Undefined` or the method requires the opposite.

Results that turned out narrower than the design, each with its exact condition and inputs at which it fails:

- The chunked LGZ layout restores a file if and only if the kept sections do not overlap and every chunk has at most
  256 MiB, as long as the sizes fit their 32-bit fields (`Compressor.MultiRoundTripIff`;
  `Counterexamples.OverlapIsNotRestored`).
- A block in which no code was filtered (types 0 and 5, and so everything at level 0) is restored if and only if it has
  at most 256 MiB, whatever the sections are, although the compressor writes larger ones
  (`Compressor.OneBlockRoundTripIff`, `Compressor.LevelZeroRoundTripIff`; `Counterexamples.LongFileIsNotRestored`). The
  same holds for types 3, 4 and 6 if the code sections lie in the file, do not overlap one another and stay clear of the
  file header and the section table; where code overlaps, it depends on the code whether the filter is undone
  (`Compressor.BlockRestoredIff`; `Counterexamples.OverlapInBlockIsNotRestored`). `Compressor.RoundTripIff` joins the two
  layouts.
- Stopping a table update is harmless to a reader that checks both copies if and only if the stop is outside the second
  write or the checksum tells the mixture it leaves from the new array (`GptSync.CrashSafeIff`;
  `GptCounterexamples.MixtureIsNeither`).
- Load checks no checksum. Loading an interrupted disk and destroying the object brings back two good copies of the old
  or the new array if and only if the stop left the old array or a complete new backup header. A mixture is made the
  table of both copies unless the header checksum misses it, and a backup that was not finished stays unfinished
  (`GptLoad.ReloadRepairsIff`; `GptCounterexamples.BackupStaysBehind`).
- When the stop left the old array and that reload is itself interrupted, any number of times, a reader that checks both
  copies still finds the old array. An uninterrupted reload then brings back both copies if and only if the header left on the disk does not show
  the old header checksum beside another entries checksum; otherwise nothing is written and the primary copy stays bad
  (`GptRepairs.RepairsKeepTable`, `GptRepairs.RepairedIff`; `GptRepairs.SecondStopIsFinal`).
- A Sync that failed part of the way is not made up for by the next one or by the destructor
  (`GptSync.SecondSyncWritesNothing`).
- A slot change reaches a GPT disk if and only if the header checksum notices it
  (`SlotBackends.EditStoredIffDetected`; `GptCounterexamples.EditIsLost`).
- A patch is idempotent on every text if and only if its replacement is not blank or its original is
  (`Patch.IdempotentIff`; `Patch.BlankDeletesTwice`).
- A varint is encoded back to the same bytes if and only if it carries no padding (`Varints.EncodeDecodeIff`).

## Model

| member | source | states |
|---|---|---|
| Bytes.ValueOfLe | selfcode/lgz/lgzv3.c:384-397 | a little-endian field reads back as the written value modulo the size of the field |
| Bytes.LeOfValue | selfcode/lgz/lgzv3.c:384-397 | writing back the value that was read gives the same bytes: both directions of the field access are inverse |
| Bytes.ValueAt | selfcode/lgz/lgzv3.c:384-397 | byte number i of a field counts 256^i |
| Arm64Branches.BranchesAre | selfcode/lgz/lgzv3.c:86-92 | the words taken for branches are exactly B and BL, two ranges of the 32-bit words, and their operand is the signed distance in instructions that they encode |
| Arm64Branches.NormalizedBranch | selfcode/lgz/lgzv3.c:90-96 | a branch by x instructions at position i becomes, with the same opcode, a branch to instruction i / 4 + x of the buffer, for every x |
| Arm64Branches.AdrpsAre | selfcode/lgz/lgzv3.c:97-101 | the words taken for ADRP are exactly four ranges, and their operand is the signed number of pages they encode in two pieces |
| Arm64Branches.NormalizedAdrp | selfcode/lgz/lgzv3.c:97-107 | an ADRP by x pages at position i becomes, for the same register, an ADRP to page i / 4096 + x of the buffer |
| Arm64Branches.NormalizeAtWord | selfcode/lgz/lgzv3.c:84-115 | the filtered buffer holds at every multiple of four the filtered word by its own position, and keeps a tail shorter than a word |
| Arm64Branches.WordInverse | selfcode/lgz/lgzv3.c:83-151 | denormalizing an instruction at its position undoes normalizing it, for every 32-bit word and position |
| Arm64Branches.ClassIsKept | selfcode/lgz/lgzv3.c:83-116 | B, BL and ADRP stay what they are with the same opcode and register; every other word is unchanged |
| Arm64Branches.SameBranchTarget | selfcode/lgz/lgzv3.c:90-96 | two branches become the same word exactly when they have the same target modulo 2^26 |
| Arm64Branches.SamePageTarget | selfcode/lgz/lgzv3.c:97-107 | two ADRPs into one register become the same word exactly when they address the same page modulo 2^21 |
| Arm64Branches.NoSignedOverflow | selfcode/lgz/lgzv3.c:90-142 | no int32 intermediate of either direction overflows in a buffer of up to 256 MiB |
| Arm64Branches.DenormalizeNormalize | selfcode/lgz/lgzv3.c:83-151 | for every buffer, the second filter undoes the first |
| Arm64Branches.NormalizeInPlace | selfcode/lgz/lgzv3.c:83-116 | the loop rewrites exactly the given stretch, to the filtered words; a tail shorter than a word is kept |
| Arm64Branches.DenormalizeInPlace | selfcode/lgz/lgzv3.c:118-151 | the same for the inverse loop |
| X86Branches.SitesAre | selfcode/lgz/lgzv3.c:186-198 | the sites are the CALL and JMP opcodes (0xE8, 0xE9) with a whole operand, except those in the operand of an earlier site; they are at least five bytes apart |
| X86Branches.OperandAt | selfcode/lgz/lgzv3.c:186-198 | the operand of every site is rewritten by its position |
| X86Branches.AbsoluteIs | selfcode/lgz/lgzv3.c:188-194 | an operand becomes the position of the next instruction plus the distance, in 32 bits |
| X86Branches.ElsewhereKept | selfcode/lgz/lgzv3.c:186-198 | every byte that is in no operand of a site is kept |
| X86Branches.SameTarget | selfcode/lgz/lgzv3.c:186-198 | two operands become equal exactly when both instructions go to the same address modulo 2^32 |
| X86Branches.SameSites | selfcode/lgz/lgzv3.c:186-212 | scanning the rewritten buffer visits the same opcode positions, whatever the operands became |
| X86Branches.DenormalizeNormalize | selfcode/lgz/lgzv3.c:186-212 | for every buffer, the variable-stride scan back undoes the scan forth |
| X86Branches.NormalizeInPlace | selfcode/lgz/lgzv3.c:186-198 | the loop with its skip rewrites exactly the given stretch to the scan's result |
| X86Branches.DenormalizeInPlace | selfcode/lgz/lgzv3.c:200-212 | the same for the inverse loop |
| PlanesAndDelta.DeltaAt | selfcode/lgz/lgzv3.c:214-217 | every byte of a delta added to the old byte before it gives the old byte; the first is kept |
| PlanesAndDelta.PlanesAt | selfcode/lgz/lgzv3.c:153-167 | plane p holds byte 3 - p of every instruction, in order |
| PlanesAndDelta.DeltaPlanesAt | selfcode/lgz/lgzv3.c:349-355 | each of the four planes has a delta of its own, and the bytes after them are kept |
| PlanesAndDelta.UndeltaDelta | selfcode/lgz/lgzv3.c:214-221 | byte differences and running sums modulo 256 are inverse, in both orders and for every length |
| PlanesAndDelta.DeltaInPlace | selfcode/lgz/lgzv3.c:214-217 | the backward loop leaves every byte minus the old byte before it, and nothing outside the stretch changes |
| PlanesAndDelta.UndeltaInPlace | selfcode/lgz/lgzv3.c:219-221 | the forward loop leaves the running sums |
| PlanesAndDelta.UnplanesPlanes | selfcode/lgz/lgzv3.c:153-183 | splitting into byte planes and joining them again restores every buffer, also when its size is not a multiple of 4 |
| PlanesAndDelta.PlanesPermute | selfcode/lgz/lgzv3.c:153-167 | the split only moves bytes: the multiset is the same |
| PlanesAndDelta.PlanesEncode | selfcode/lgz/lgzv3.c:153-167 | the loops fill a fresh buffer with the four planes, most significant byte first, and the remainder |
| PlanesAndDelta.PlanesDecode | selfcode/lgz/lgzv3.c:169-183 | the loops fill a fresh buffer with the instructions put together again |
| PlanesAndDelta.UndeltaDeltaPlanes | selfcode/lgz/lgzv3.c:349-355 | the four deltas, one per plane, are undone by the four sums |
| CodePipeline.EncodeCodeAt | selfcode/lgz/lgzv3.c:586-600 | what encoded code holds, byte by byte: the deltas of the planes of the code with absolute branches |
| CodePipeline.DecodeEncodeCode | selfcode/lgz/lgzv3.c:341-363 | branch filter, planes and plane deltas together are undone for every section, including those of one instruction or less |
| CodePipeline.EncodeCodeInPlace | selfcode/lgz/lgzv3.c:586-600 | the pipeline over a section of a larger buffer rewrites that section only |
| CodePipeline.DecodeCodeInPlace | selfcode/lgz/lgzv3.c:952-967 | the same for the decoder's order of steps |
| ElfSections.ParseReturnsKeptHeaders | selfcode/lgz/lgzv3.c:405-455 | the parsed sections are exactly the non-empty program-bits headers that end in the file, each as often as it stands in the table, ordered by offset, with the code flag of the header |
| ElfSections.ParseFromBytes | selfcode/lgz/lgzv3.c:423-451 | the same read off the raw bytes of the table: each extent is returned exactly as often as a header of type 1 that is not empty and ends in the file stands there, and as code exactly if bit 2 of its flags is set |
| ElfSections.CodeFlag | selfcode/lgz/lgzv3.c:441 | a section is code exactly when its flags have bit 2 set, whatever the other bits are |
| ElfSections.IsElfIff | selfcode/lgz/lgzv3.c:405-428 | which 64 bytes make a file one with sections, and of which architecture |
| ElfSections.SortPermutes | selfcode/lgz/lgzv3.c:445-451 | the exchange sort permutes |
| ElfSections.SortSorts | selfcode/lgz/lgzv3.c:445-451 | the exchange sort sorts by offset |
| ElfSections.SortedStays | selfcode/lgz/lgzv3.c:445-451 | it moves nothing in a list that is sorted already, so sections of one offset stay in the order of the table |
| ElfSections.ExchangeSort | selfcode/lgz/lgzv3.c:445-451 | the two nested loops over the array compute that sort |
| ElfSections.ParseElfSections | selfcode/lgz/lgzv3.c:405-455 | the table loop and the sort compute the parse result, with every rejecting branch |
| ElfSections.ParseFrame | selfcode/lgz/lgzv3.c:405-455 | two files that agree on the header and the section table parse alike |
| ElfSections.SectionCount | selfcode/lgz/lgzv3.c:424-443 | fewer than 2^16 sections are returned |
| Parts.TileIffDisjoint | selfcode/lgz/lgzv3.c:482-494 | the chunk list covers the file in order without gap or overlap exactly when the sections are disjoint and inside it |
| Parts.CodeChunksAreCodeSections | selfcode/lgz/lgzv3.c:482-494 | the code-flagged chunks are the code sections, in order, one for one |
| Parts.ChunkCount | selfcode/lgz/lgzv3.c:482-494 | any section list gives at most 2 * count + 1 chunks, within the allocation of 2 * count + 2 |
| Parts.TotalOfChunks | selfcode/lgz/lgzv3.c:482-494 | the chunk sizes never add up to less than the file, and to exactly the file only for disjoint sections |
| Parts.BuildChunks | selfcode/lgz/lgzv3.c:478-499 | the loop fills the array with that list and stays inside it |
| Parts.ApplyElsewhere | selfcode/lgz/lgzv3.c:571-576 | a stretch that no code part touches keeps its bytes |
| Parts.UndoApply | selfcode/lgz/lgzv3.c:571-576 | undoing disjoint parts in the same forward order restores the file |
| Parts.UndoCode | selfcode/lgz/lgzv3.c:571-576 | for that only the code parts must not overlap one another |
| Parts.CodeAt | selfcode/lgz/lgzv3.c:571-576 | every code section holds what the transform makes of its old bytes, by itself |
| Parts.ChunksApplyAsSections | selfcode/lgz/lgzv3.c:571-576 | the compressor's walk over chunks and the decompressor's walk over sections have the same effect, for any sections whose code lies in the file |
| Blobs.FilterParts | selfcode/lgz/lgzv3.c:571-576 | the loop filters every code part in place and nothing else |
| Blobs.FilteringKeepsSections | selfcode/lgz/lgzv3.c:931-944 | the transformed file still parses to the sections and the architecture of the original, if code stays clear of the header and the table |
| Blobs.ChunksInBounds | selfcode/lgz/lgzv3.c:478-499 | the chunks of a file whose kept sections lie in it without overlapping lie in it too |
| Blobs.EncodedSection | selfcode/lgz/lgzv3.c:567-604 | in types 3 and 4 every code section is filtered as a buffer of its own, by the architecture of the file |
| Blobs.EncodedElsewhere | selfcode/lgz/lgzv3.c:567-604 | and every byte outside the code is kept |
| Blobs.EncodedDeltas | selfcode/lgz/lgzv3.c:555-613 | type 0 is the file, type 5 its delta, type 6 the delta of type 3; which types a file admits |
| Blobs.UndoFiltered | selfcode/lgz/lgzv3.c:931-975 | undoing the sections found in the transformed bytes restores the original |
| Blobs.BlobRoundTrip | selfcode/lgz/lgzv3.c:559-630 | types 0 and 5 are undone for every file, types 3, 4 and 6 if the code sections do not overlap, by the decoder from the transformed bytes alone |
| Blobs.DecodedKinds | selfcode/lgz/lgzv3.c:915-993 | what the decoder does with every transform number on every buffer, those it does not know and files without sections included |
| Codec.StoreIsLawful | selfcode/lgz/lgzv3.c:233-310 | the assumption on the LZMA2 library can be met |
| Codec.DecompressCompress | selfcode/lgz/lgzv3.c:233-310 | a compressed buffer is restored exactly when it has at most 256 MiB, and fits the output allocation |
| Codec.DecompressIs | selfcode/lgz/lgzv3.c:284-310 | when decompressing fails: an empty buffer, more than 256 MiB, a failing library or another size than the one expected |
| Codec.GetOptimalDictSize | selfcode/lgz/lgzv3.c:224-231 | the doubling loop computes the dictionary size |
| Codec.DictSizeIsLeast | selfcode/lgz/lgzv3.c:224-231 | it is the least 4096 * 2^j that holds the input, or the maximum of the level |
| Selection.EveryScheduleFindsSmallest | selfcode/lgz/lgzv3.c:756-806 | under every order of the critical sections the result comes from one pass and no successful pass is smaller |
| Selection.FirstIsKept | selfcode/lgz/lgzv3.c:790-799 | among passes of one size the first to arrive wins |
| Selection.SchedulesAgreeOnSize | selfcode/lgz/lgzv3.c:756-806 | two orders can pick different candidates but never different sizes |
| Selection.EachPairOnce | selfcode/lgz/lgzv3.c:763-766 | each pair of a combination and a mode is tried by exactly one pass |
| Selection.CombosAreTried | selfcode/lgz/lgzv3.c:537-548 | what a level tries is in the set of choices: all of lc up to 4, lp and pb up to 2 at level 3; at level 2 those with lc + lp = 4 and four more; otherwise 3, 0, 2 |
| Selection.TriedIsCombo | selfcode/lgz/lgzv3.c:632-635 | and every choice of that set is tried |
| Selection.EachTripleTried | selfcode/lgz/lgzv3.c:768-775 | at level 3 every choice of lc, lp and pb is some combination |
| Selection.NoTripleTwice | selfcode/lgz/lgzv3.c:768-775 | and no choice is two combinations |
| Selection.SmartCombosDistinct | selfcode/lgz/lgzv3.c:537-543 | the list of level 2 holds no combination twice |
| Container.FrontOfRecord | selfcode/lgz/lgzv3.c:900-907 | type, original size and payload of a chunk are read back, and what follows is left |
| Container.ArchiveSize | selfcode/lgz/lgzv3.c:814-850 | an archive of n chunks has 20 + 9n bytes and the payloads |
| Container.UnpackArchive | selfcode/lgz/lgzv3.c:897-998 | chunks that each hold a piece unpack to the pieces joined, with the stored size as their sum |
| Container.ReadBack | selfcode/lgz/lgzv3.c:900-907 | as many turns of the reader as there are chunks recover every type, original size and payload, and stop right after the last payload |
| Container.ReadArchive | selfcode/lgz/lgzv3.c:883-907 | a whole archive reads back as its size and its chunks, with nothing left |
| Container.UnpackStopsAtEnd | selfcode/lgz/lgzv3.c:897-998 | what unpacking gives depends on nothing behind the last chunk |
| Container.UnpackOverfull | selfcode/lgz/lgzv3.c:995-996 | chunks that add up to more than the stored size overrun the output buffer |
| Container.UnpackTooLittle | selfcode/lgz/lgzv3.c:999-1002 | chunks that add up to less leave bytes that were never set |
| Container.FirstFailureDecides | selfcode/lgz/lgzv3.c:906-913 | the first chunk that cannot be unpacked decides what becomes of the whole, whatever follows it |
| Container.BadMagicIff | selfcode/lgz/lgzv3.c:883-887 | an archive is turned down exactly when it has less than 20 bytes or does not start with the magic number |
| Container.OneChunkLimit | selfcode/lgz/lgzv3.c:284-310 | an archive of one chunk never gives back more than 256 MiB |
| Container.BlockReadBack | selfcode/lgz/lgzv3.c:897-998 | an archive of one chunk that unpacks to a file holds that file in its one chunk |
| Compressor.ChunkTriesAre | selfcode/lgz/lgzv3.c:324-375 | which attempts are made on a chunk: plain bytes twice, ARM64 code of at least 16 bytes as type 1, at least 4 bytes as type 2; at level 0 the first only |
| Compressor.ChunkBestIsSmallest | selfcode/lgz/lgzv3.c:319-378 | a chunk is stored as the outcome of one of them, and none of them gives fewer bytes |
| Compressor.ChunkBestHolds | selfcode/lgz/lgzv3.c:319-378 | whichever of the transforms 0, 1 and 2 wins on a chunk, the decoder gets the chunk back |
| Compressor.ModesApply | selfcode/lgz/lgzv3.c:555-630 | the mode table has 1 to 5 entries, all of them transforms that the file admits |
| Compressor.ModesAre | selfcode/lgz/lgzv3.c:555-630 | the mode table holds, each once, type 0, type 3 for ELF from level 1 on, at level 2 type 4 for ARM64, 6 for x86 and 5 for other files, and at level 3 every type that applies |
| Compressor.NothingTriedIsSmaller | selfcode/lgz/lgzv3.c:756-815 | no type of that set under any choice of lc, lp and pb of the level gives a block smaller than the one kept, at any level and under every order |
| Compressor.WinnerIsTried | selfcode/lgz/lgzv3.c:756-806 | and the one kept is one of those, with the property byte of its settings in front |
| Compressor.ArchiveIsNotLonger | selfcode/lgz/lgzv3.c:814-850 | the archive written is at most 29 bytes of headers longer than the smallest of those blocks |
| Compressor.BlockBytes | selfcode/lgz/lgzv3.c:821-833 | the bytes of an archive of one block, from the magic number to the payload |
| Compressor.MultiRoundTrip | selfcode/lgz/lgzv3.c:834-850 | the chunked layout restores every file with disjoint sections whose chunks have at most 256 MiB, whatever the size of the file |
| Compressor.MultiRoundTripIff | selfcode/lgz/lgzv3.c:834-850 | and no other: it restores the file exactly when the kept sections are disjoint and every chunk has at most 256 MiB, provided the sizes fit their 32-bit fields |
| Compressor.SmallFilesFit | selfcode/lgz/lgzv3.c:842-848 | they fit for every file of up to 3.5 GiB |
| Compressor.RoundTrip | selfcode/lgz/lgzv3.c:457-871 | decompressing what was written restores the file, at every level, for every order of the passes, whichever transform and layout won |
| Compressor.OneBlockRoundTripIff | selfcode/lgz/lgzv3.c:820-833 | an archive of one block restores the file exactly when it has at most 256 MiB: whatever the sections are if no code was filtered, and otherwise if the code sections do not overlap one another, the header or the table |
| Compressor.LevelZeroRoundTripIff | selfcode/lgz/lgzv3.c:457-871 | at level 0, with any sections and under every order: restored exactly when it has at most 256 MiB |
| Compressor.BlockRestoredIff | selfcode/lgz/lgzv3.c:820-833 | for any sections and any winner: restored exactly when it has at most 256 MiB and its own transform is undone |
| Compressor.RoundTripIff | selfcode/lgz/lgzv3.c:457-871 | whatever the size, level and order of the passes: what was written is restored exactly when the decoder accepts the block (its transform being one that is undone for this file), or accepts every chunk and the sections do not overlap |
| Compressor.WrittenIsSmallest | selfcode/lgz/lgzv3.c:814-850 | the number of bytes written equals the smaller of the two totals, of those that are there |
| Compressor.NoPassIsSmaller | selfcode/lgz/lgzv3.c:756-815 | no pass would have given a smaller single block |
| Compressor.PayloadOfRecords | selfcode/lgz/lgzv3.c:530-533 | the payload total that is compared is the sum over the chunks that are written |
| Compressor.ChunkResultAt | selfcode/lgz/lgzv3.c:525-528 | every chunk is tried by itself, with its own flag |
| Compressor.OneBlockIff | selfcode/lgz/lgzv3.c:814-820 | when all chunks succeeded, the block is written exactly if its archive is shorter than theirs |
| Compressor.TotalWithOneFailure | selfcode/lgz/lgzv3.c:530-533 | one failed chunk makes the noted total wrap to one byte less than what the others take |
| LgzFiles.CompressChunkBest | selfcode/lgz/lgzv3.c:319-378 | the sequence of guarded replacements keeps the best of the chunk's candidates |
| LgzFiles.CompressChunks | selfcode/lgz/lgzv3.c:525-528 | the loop gives every chunk its own best result |
| LgzFiles.BuildModes | selfcode/lgz/lgzv3.c:550-630 | the mode table pairs each transform number with the file transformed that way |
| LgzFiles.RunPasses | selfcode/lgz/lgzv3.c:762-806 | the passes, entering the critical section in the given order, leave the outcome of that order |
| LgzFiles.WriteArchive | selfcode/lgz/lgzv3.c:820-850 | the writes append to exactly the archive of those records |
| LgzFiles.WriteSmaller | selfcode/lgz/lgzv3.c:814-850 | compares the totals, with the wrap that the size noted for a failed chunk causes, and writes the selected layout |
| LgzFiles.CompressFile | selfcode/lgz/lgzv3.c:457-871 | the whole compressor writes the archive of the selected layout, also when chunks failed but the block is selected, and it unpacks to the input whenever the file qualifies for the round trip, at level 0 with any sections |
| LgzFiles.UndoInPlace | selfcode/lgz/lgzv3.c:915-993 | the decoder's branches restore the buffer that the transform number stands for |
| LgzFiles.DecompressChunks | selfcode/lgz/lgzv3.c:897-1001 | the loop over chunk headers produces what unpacking defines |
| LgzFiles.DecompressFile | selfcode/lgz/lgzv3.c:873-1008 | the whole decompressor, including a wrong magic number and failing chunks |
| Preconditions.ElfFileQualifies | selfcode/lgz/lgzv3.c:405-455 | an ELF file built around any bytes, for each of the three machines, parses to that one section, which is code exactly if bit 2 of its flags is set whatever the others are, and qualifies for the round trip |
| Counterexamples.OverlapIsNotRestored | selfcode/lgz/lgzv3.c:482-494 | with a codec that fails on whole files, every ELF file with overlapping sections is written chunk by chunk at every level above 0, under every order, and what is written does not unpack to it |
| Counterexamples.OverlapExists | selfcode/lgz/lgzv3.c:405-455 | there are such files around any code: two headers for one stretch |
| Counterexamples.OverlapInBlockIsNotRestored | selfcode/lgz/lgzv3.c:571-576 | an x86 file with two overlapping code sections that is written as one block with its branches filtered and does not unpack to itself |
| Counterexamples.LongFileIsNotRestored | selfcode/lgz/lgzv3.c:287-290 | every file above 256 MiB is compressed at level 0 and not restored |
| Counterexamples.LongFileExists | selfcode/lgz/lgzv3.c:287-290 | there are such files |
| GptDisk.IsGptHeaderIff | pixel-source/bootctrl/1.2/GptUtils.cpp:35-52 | a header is valid exactly when it starts with "EFI PART" and says 92 bytes for itself and 128 for an entry |
| GptDisk.SealSeals | pixel-source/bootctrl/1.2/GptUtils.cpp:135-139 | resealing stores the checksum of the header with its checksum field zero, and changes no other field |
| GptDisk.SealedUnique | pixel-source/bootctrl/1.2/GptUtils.cpp:135-141 | sealed headers that agree on everything but the header checksum are equal |
| GptSync.NewPrimaryBytes | pixel-source/bootctrl/1.2/GptUtils.cpp:135-156 | the bytes of the updated headers: the checksum of the array at 88, the checksum of the header with zeros in its place at 16, everything else as it was |
| GptSync.WritesAre | pixel-source/bootctrl/1.2/GptUtils.cpp:131-171 | which bytes Sync writes to which blocks, in which order, and when it writes nothing, by the bytes of the headers |
| GptSync.ChecksumsDiffer | pixel-source/bootctrl/1.2/GptUtils.cpp:135-141 | when Sync has something to write, the old and the new array have different checksums, whatever the checksum function |
| GptSync.CrashSafe | pixel-source/bootctrl/1.2/GptUtils.cpp:127-180 | stopping after any of the four writes and any number of bytes of the next leaves a table that reads as the old array until the primary array is touched and as the new one once it is complete, for every checksum; in between as one of the two if the checksum tells that one mixture from the new array |
| GptSync.CrashSafeIff | pixel-source/bootctrl/1.2/GptUtils.cpp:127-180 | and only then: the exact condition for every stop |
| GptSync.SyncKeepsDiskGood | pixel-source/bootctrl/1.2/GptUtils.cpp:127-180 | a completed Sync leaves both copies good and equal; it stores the array in memory exactly when the header checksum changed or the array was there already |
| GptSync.SecondSyncWritesNothing | pixel-source/bootctrl/1.2/GptUtils.cpp:127-141 | a Sync after another one, such as the destructor's, writes nothing, also when the first one failed part of the way |
| GptEntries.AttributesLaws | pixel-source/bootctrl/1.2/GptUtils.h:31-38 | a store to the attributes of one entry is read back there and nowhere else, and renames nothing |
| GptEntries.NameIs | pixel-source/bootctrl/1.2/GptUtils.cpp:106-118 | the name of an entry: low bytes of its units from 56 on, up to the first zero, at most 36; and when it has none |
| GptEntries.FindFindsLast | pixel-source/bootctrl/1.2/GptUtils.cpp:106-125 | a name is found exactly when an entry before the first nameless one has it, and the last such entry is found |
| GptEntries.FindAfterStore | pixel-source/bootctrl/1.2/GptUtils.cpp:106-125 | storing attributes moves no entry to another name |
| GptUtils.IssueInBounds | pixel-source/bootctrl/1.2/GptUtils.cpp:145-175 | writes inside the device stop only when none are left, after as many whole writes |
| GptUtils.GptUtils.constructor | pixel-source/bootctrl/1.2/GptUtils.cpp:56 | a new object is closed, knows no entries, and its header fields hold what stood in their place |
| GptUtils.GptUtils.Load | pixel-source/bootctrl/1.2/GptUtils.cpp:58-121 | fails exactly on an invalid primary header, and then keeps the other fields; otherwise memory holds both headers and the entry array, and the map its names |
| GptUtils.GptUtils.GetPartitionEntry | pixel-source/bootctrl/1.2/GptUtils.cpp:123-125 | of the entries loaded from the disk before the first nameless one, the last with that name, and none exactly if there is none; also after attributes were stored |
| GptUtils.GptUtils.StoreAttributes | pixel-source/bootctrl/1.2/BootControl.cpp:127 | a store through the entry pointer changes the attributes of that entry, and the map stays right |
| GptUtils.GptUtils.Sync | pixel-source/bootctrl/1.2/GptUtils.cpp:127-180 | the device holds what the writes left, issued in order until one fails; 0 is returned exactly when all were done; the memory holds the new primary header in every case |
| GptUtils.GptUtils.Destroy | pixel-source/bootctrl/1.2/GptUtils.cpp:182-187 | an open object syncs once more before it closes |
| GptLoad.LinkedDiskIsGood | pixel-source/bootctrl/1.2/GptUtils.cpp:58-121 | loading a disk in good order gives back its geometry and its array |
| GptLoad.LoadedIs | pixel-source/bootctrl/1.2/GptUtils.cpp:71-104 | where Load finds the headers and the array, and how much it reads |
| GptLoad.ReloadRepairsIff | pixel-source/bootctrl/1.2/GptUtils.cpp:58-187 | after any stop, loading and destroying a new object restores two good copies of the old or the new array exactly when the stop left the old array or a complete new backup header; what it makes of every other stop |
| GptLoad.ReloadedIsGood | pixel-source/bootctrl/1.2/GptUtils.cpp:58-187 | in those cases the disk is in good order for the next object |
| GptRepairs.RepairsKeepTable | pixel-source/bootctrl/1.2/GptUtils.cpp:58-187 | after a stop that left the old array, and any number of reloads each cut off anywhere, a reader that checks both copies finds the old array |
| GptRepairs.RepairedIff | pixel-source/bootctrl/1.2/GptUtils.cpp:58-187 | the next reload that is not cut off restores both copies exactly when the header on the disk does not show the old header checksum beside another entries checksum; otherwise it writes nothing |
| GptRepairs.SecondStopIsFinal | pixel-source/bootctrl/1.2/GptUtils.cpp:58-187 | the failing family: for every update and checksum, a whole new primary header whose repair stops between the two checksums |
| GptRuns.RunKeepsDiskGood | pixel-source/bootctrl/1.2/GptUtils.cpp:58-187 | after any run of load, edit, sync and destroy, with any crashes, and crashes of the reloads after them, from which the last reload recovers, both copies are good, equal, and what a checking reader recovers |
| GptRuns.UneditedSyncWritesNothing | pixel-source/bootctrl/1.2/GptUtils.cpp:127-187 | loading and destroying without an edit writes nothing |
| Preconditions.FormattedIsGood | pixel-source/bootctrl/1.2/GptUtils.cpp:58-104 | a freshly formatted disk is in good order and loads to the array it was formatted with, for every checksum function |
| Preconditions.BootDiskExists | pixel-source/bootctrl/1.2/GptUtils.cpp:106-125 | there is a disk with both boot partitions, whatever the checksum function is |
| DetectedRuns.EveryRunIsDetected | pixel-source/bootctrl/1.2/BootControl.cpp:290-510 | a checksum and a disk with which every sequence of slot calls is noticed, so that the agreement of the backends is about runs that change slots |
| GptCounterexamples.MixtureIsNeither | pixel-source/bootctrl/1.2/GptUtils.cpp:127-180 | a checksum under which every disk with an entry has an update that, stopped after one byte of the array, leaves neither the old nor the new array |
| GptCounterexamples.BackupStaysBehind | pixel-source/bootctrl/1.2/GptUtils.cpp:127-187 | every update under every checksum, stopped between the two arrays, is not repaired by a reload |
| GptCounterexamples.EditIsLost | pixel-source/bootctrl/1.2/GptUtils.cpp:135-141 | under a constant checksum every disk has a slot change that is lost: the disk stays as it was |
| GptCounterexamples.LossyDiskExists | pixel-source/bootctrl/1.2/GptUtils.cpp:106-125 | there is such a disk |
| Slots.SetSuccessful | pixel-source/bootctrl/1.2/BootControl.cpp:108-131 | or-ing bit 58 changes the successful flag of the slot and nothing else |
| Slots.SetUnbootable | pixel-source/bootctrl/1.2/BootControl.cpp:431-432 | or-ing bit 59 changes the unbootable flag and nothing else |
| Slots.ClearActive | pixel-source/bootctrl/1.2/BootControl.cpp:361 | masking bit 54 changes the active flag and nothing else |
| Slots.FreshAttributes | pixel-source/bootctrl/1.2/BootControl.cpp:362-363 | the stored constant means active, not successful, bootable, three retries |
| Slots.FreshFields | pixel-source/bootctrl/1.2/BootControl.cpp:362-363 | the stored constant is 0x01F0000000000000: priority 3 in bits 52 and 53, active in bit 54, three retries in bits 55 to 57, no other bit |
| Slots.BitsAfterStore | pixel-source/bootctrl/1.2/BootControl.cpp:361 | setting or clearing one bit of the attributes changes no other bit, priority and unused ones included |
| Slots.FlagWeights | pixel-source/bootctrl/1.2/BootControl.cpp:56-66 | the bits of the flags |
| Slots.PutKeepsOthers | pixel-source/bootctrl/1.2/DevInfo.h:32-40 | a store to one devinfo bit field leaves the other fields and the unused bits alone |
| Slots.InitFlagsIs | pixel-source/bootctrl/1.2/BootControl.cpp:172-178 | initialising a devinfo slot gives the same slot as the fresh GPT attributes |
| Slots.AnswersFollow | pixel-source/bootctrl/1.2/BootControl.cpp:290-510 | what the slot machine answers after each call that changes slots: what was set last, and for the slot not named the same as before |
| Slots.AnswersElsewhere | pixel-source/bootctrl/1.2/BootControl.cpp:290-510 | the answers without slots, for a slot that is not there, and of the calls that change something |
| SlotBackends.SupportsSlotsIff | pixel-source/bootctrl/1.2/BootControl.cpp:147-158 | devinfo is used exactly when it starts with "DEVI" and its version is 3.3 or later |
| SlotBackends.DevSlotBytes | pixel-source/bootctrl/1.2/DevInfo.h:32-52 | where the fields of a slot stand in devinfo, and the bytes that initialising it leaves |
| SlotBackends.AttributesAre | pixel-source/bootctrl/1.2/GptUtils.h:31-38 | the attributes are the eight bytes from 48 on of an entry of 128 |
| SlotBackends.EntryForIs | pixel-source/bootctrl/1.2/BootControl.cpp:108-125 | on any disk that loads, the entry of a slot is the last one named boot_a or boot_b before the first nameless one |
| SlotBackends.ActivatedBits | pixel-source/bootctrl/1.2/BootControl.cpp:361-363 | setActiveBootSlot in the array, bit by bit: the whole value of the active entry, priority 3 included; of the inactive one every bit but the active bit is kept |
| SlotBackends.ActivatedElsewhere | pixel-source/bootctrl/1.2/BootControl.cpp:361-363 | and no other byte of the array changes |
| SlotBackends.EditBits | pixel-source/bootctrl/1.2/BootControl.cpp:108-131 | every other edit sets one bit, 58 or 59, of the entry of its slot and keeps all others |
| SlotBackends.DevEffectRefines | pixel-source/bootctrl/1.2/BootControl.cpp:298-336 | each call on devinfo is one step of the slot machine |
| SlotBackends.DevEffectFrame | pixel-source/bootctrl/1.2/BootControl.cpp:138-161 | calls change the eight slot bytes only, so devinfo stays as valid as it was |
| SlotBackends.GptEditRefines | pixel-source/bootctrl/1.2/BootControl.cpp:344-363 | each edit of the entry array is one step of the slot machine |
| SlotBackends.EditStoredIffDetected | pixel-source/bootctrl/1.2/BootControl.cpp:108-131 | the edit is on the disk after the call exactly when the header checksum noticed it; otherwise the disk is unchanged |
| SlotBackends.GptEffectRefines | pixel-source/bootctrl/1.2/BootControl.cpp:108-131 | load, edit, sync and destroy together are one step of the slot machine, and the disk is fit for the next call |
| SlotBackends.DevRunRefines | pixel-source/bootctrl/1.2/BootControl.cpp:290-364 | every sequence of calls on devinfo gives the answers and the slots of the machine |
| SlotBackends.GptRunRefines | pixel-source/bootctrl/1.2/BootControl.cpp:290-364 | the same on a GPT disk |
| SlotBackends.BackendsAgree | pixel-source/bootctrl/1.2/BootControl.cpp:290-510 | from slots that agree, both backends give the same answers to every sequence of calls and end with slots that agree |
| SlotBackends.RunKeepsOneActive | pixel-source/bootctrl/1.2/BootControl.cpp:320-364 | exactly one slot is active from the first setActiveBootSlot on, whatever follows |
| BootControl.BootControl.IsSlotFlagSet | pixel-source/bootctrl/1.2/BootControl.cpp:86-106 | the flag as loaded from the disk, unset when the disk does not load or the table does not name the slot; what the destructor writes then |
| BootControl.BootControl.SetSlotFlag | pixel-source/bootctrl/1.2/BootControl.cpp:108-131 | fails exactly when the disk does not load or the table does not name the slot; the writes that sync and destructor issue, in every case and however many of them succeed |
| BootControl.BootControl.DevInfoInitSlot | pixel-source/bootctrl/1.2/BootControl.cpp:172-178 | the two bytes of the slot record, and no other byte |
| BootControl.BootControl.MarkBootSuccessful | pixel-source/bootctrl/1.2/BootControl.cpp:290-318 | the answer and the step of the machine on the backend that devinfo selects, with the other one untouched; a failure when devinfo cannot be written back, the disk does not load or the slot has no entry |
| BootControl.BootControl.SetActiveBootSlot | pixel-source/bootctrl/1.2/BootControl.cpp:320-406 | the same, with the slots changed even when the boot LUN cannot be set or devinfo cannot be written back |
| BootControl.BootControl.ActivateInGpt | pixel-source/bootctrl/1.2/BootControl.cpp:337-364 | fails exactly when the disk does not load or an entry is missing; the writes that the destructor issues, with the two edits or without |
| BootControl.BootControl.SetSlotAsUnbootable | pixel-source/bootctrl/1.2/BootControl.cpp:408-439 | the machine's answer and step, and the writes issued on any disk that names the slot |
| BootControl.BootControl.IsSlotBootable | pixel-source/bootctrl/1.2/BootControl.cpp:441-456 | the machine's answer without any change on a disk in good order; on any disk the answer by the loaded entry, bootable without one; the answers when there are no slots or not that many |
| BootControl.BootControl.IsSlotMarkedSuccessful | pixel-source/bootctrl/1.2/BootControl.cpp:458-477 | the machine's answer without any change on a disk in good order; on any disk the answer by the loaded entry, not successful without one; the answers when there are no slots or not that many |
| BootControl.BootControl.GetActiveBootSlot | pixel-source/bootctrl/1.2/BootControl.cpp:503-510 | the machine's answer without any change on a disk in good order; on any disk 1 exactly when the loaded entry of slot 1 is active; 0 when there are no slots |
| BootControl.BootControl.ExecuteAll | pixel-source/bootctrl/1.2/BootControl.cpp:290-510 | any sequence of calls on the class gives the answers of the slot machine and leaves its slots stored, on either backend |
| BootControl.ExecuteOnBoth | pixel-source/bootctrl/1.2/BootControl.cpp:290-510 | one system on devinfo and one on GPT attributes, with equal slots: the same answers to the same calls, and equal slots at the end |
| Patch.TokensHoldInk | patch.py:98-113 | the tokens joined are the text without its white space, and no token holds white space |
| Patch.TokensOfSum | patch.py:98-113 | cutting a text anywhere but inside a word cuts its list of tokens |
| Patch.TokensOfOneKind | patch.py:107-108 | a word is one token, any other mark one, white space none |
| Patch.StripIs | patch.py:103 | stripping takes off white space at both ends, all of it, and nothing else |
| Patch.MatchIff | patch.py:98-131 | the pattern matches a piece of text exactly when the piece is the tokens in order with any white space between them, and then in that length only |
| Patch.MatchHasSameInk | patch.py:98-131 | white space aside, a match is the text that the pattern was made from |
| Patch.OwnMatch | patch.py:98-113 | wherever the stripped text stands, its own pattern matches all of it |
| Patch.SearchIsLeftmost | patch.py:119-131 | a match is reported exactly when there is one, and it starts first |
| Patch.StatusIs | patch.py:115-131 | a change is applied exactly when its replacement is not blank and occurs; otherwise ready exactly when its original is not blank and occurs, and then where it occurs first |
| Patch.AppliedInPlace | patch.py:163 | where a change is ready, the stripped replacement stands in the place of the match, and the text before and after it is kept |
| Patch.AppliedIsSeen | patch.py:115-120 | after a replacement that is not blank, the change reports itself as applied |
| Patch.IdempotentIff | patch.py:115-164 | applying a change twice is applying it once, on every text, exactly when the replacement is not blank or the original is |
| Patch.BlankDeletesTwice | patch.py:115-164 | the failing family: a blank replacement deletes another copy each time |
| Patch.UntouchedIff | patch.py:150-172 | mod leaves a file alone exactly when no change is ready in it, so also when all are applied |
| Patch.AppliedInOrder | patch.py:160-163 | the changes are applied in the order of the list, each to what the earlier ones left |
| Patch.Mod | patch.py:150-172 | the loop applies the changes one after the other and writes the file only if one was applied |
| Patch.Check | patch.py:133-148 | the report is decided by the first change that is not applied |
| Varints.VarintIsComplete | selfcode/recovery_weaver/recovery_weaver.cpp:63-69 | an encoded number is a varint and denotes that number |
| Varints.CompleteIff | selfcode/recovery_weaver/recovery_weaver.cpp:53-57 | a varint is a string of bytes of which exactly the last has its top bit clear |
| Varints.GroupsAt | selfcode/recovery_weaver/recovery_weaver.cpp:54 | byte i holds the bits from 7 * i on |
| Varints.VarintLength | selfcode/recovery_weaver/recovery_weaver.cpp:63-69 | it has at most n bytes exactly when the number is below 128^n |
| Varints.EncodeDecodeIff | selfcode/recovery_weaver/recovery_weaver.cpp:49-69 | encoding what a varint denotes gives the same bytes exactly when the varint carries no padding |
| Varints.DecodeVarintAnywhere | selfcode/recovery_weaver/recovery_weaver.cpp:49-61 | any varint of up to ten bytes is decoded to its number modulo 2^64 and exactly its bytes are consumed, whatever stands before and after |
| Varints.DecodeEncode | selfcode/recovery_weaver/recovery_weaver.cpp:49-69 | decoding an encoded uint64 gives it back, whatever follows |
| Varints.DecodeFailsIff | selfcode/recovery_weaver/recovery_weaver.cpp:53-61 | decoding fails exactly when none of the next ten bytes that are there has its top bit clear |
| Varints.AddGroup | selfcode/recovery_weaver/recovery_weaver.cpp:54-57 | the bits or-ed in lie above all earlier ones, and those beyond 64 are lost |
| Varints.DecodeVarint | selfcode/recovery_weaver/recovery_weaver.cpp:49-61 | the loop decodes or fails as defined, in every buffer and at every position |
| Varints.EncodeVarint | selfcode/recovery_weaver/recovery_weaver.cpp:63-69 | the loop stores the encoding at the position and nothing else |
| Protobuf.LastOneWins | selfcode/recovery_weaver/recovery_weaver.cpp:173-180 | a number field's value is the last one stated, cut to 32 bits |
| Protobuf.LastDataWins | selfcode/recovery_weaver/recovery_weaver.cpp:245-251 | the same for bytes |
| Protobuf.ReadMessage | selfcode/recovery_weaver/recovery_weaver.cpp:168-188 | over any well-formed message of wire types 0 and 2, however its varints are padded, the loop takes in every field in order and stops at the end |
| Protobuf.ReadUpToUnreadable | selfcode/recovery_weaver/recovery_weaver.cpp:168-188 | behind well-formed fields the loop stops at a varint that does not end, a missing number or length, or another wire type, with what the fields before said |
| Protobuf.NumbersOfMessage | selfcode/recovery_weaver/recovery_weaver.cpp:173-180 | the numbers the loop keeps are the last ones the message states |
| Protobuf.DataOfMessage | selfcode/recovery_weaver/recovery_weaver.cpp:245-251 | the bytes the loop keeps are the last ones the message states |
| Protobuf.WrittenFields | selfcode/recovery_weaver/recovery_weaver.cpp:71-83 | written fields are well-formed and state the tag and the value that were written |
| Protobuf.EncodeUint32 | selfcode/recovery_weaver/recovery_weaver.cpp:71-75 | stores one number field and nothing else |
| Protobuf.EncodeBytes | selfcode/recovery_weaver/recovery_weaver.cpp:77-83 | stores one bytes field and nothing else |
| Weaver.ConfigOfMessage | selfcode/recovery_weaver/recovery_weaver.cpp:151-198 | getConfig reports the last value the chip states for each of the three fields, 0 for a missing one, as int32 |
| Weaver.ResponseOfMessage | selfcode/recovery_weaver/recovery_weaver.cpp:214-273 | read reports the last status, timeout and value the chip states |
| Weaver.RepliesUpToUnreadable | selfcode/recovery_weaver/recovery_weaver.cpp:168-188 | a reply that becomes unreadable reports what the fields before that state |
| Weaver.StatusIs | selfcode/recovery_weaver/recovery_weaver.cpp:257-263 | error numbers 0, 1 and 2 are the three statuses, every other one is a failure |
| Weaver.FailuresAre | selfcode/recovery_weaver/recovery_weaver.cpp:150-164 | when getConfig is an error and read a failure, and the only replies the model does not follow |
| Weaver.RequestsAre | selfcode/recovery_weaver/recovery_weaver.cpp:209-212 | the bytes of both requests |
| Weaver.ReadRequestReadBack | selfcode/recovery_weaver/recovery_weaver.cpp:209-212 | read by the same rules, a read request states exactly the slot and the key |
| Weaver.WriteRequestFits | selfcode/recovery_weaver/recovery_weaver.cpp:284-288 | a write request has 37 bytes and the slot's varint, at most 42 of 64, and 42 exactly for negative ids and ids from 2^28 on |
| Weaver.WriteRequestReadBack | selfcode/recovery_weaver/recovery_weaver.cpp:284-288 | read by the same rules, the request states exactly the slot, the key and the value |
| Weaver.GuardIsExact | selfcode/recovery_weaver/recovery_weaver.cpp:248-251 | the 64-bit sum that guards the copy cannot wrap unless the 32-bit position does |
| Weaver.ParseConfig | selfcode/recovery_weaver/recovery_weaver.cpp:166-188 | the loop of getConfig, over any reply |
| Weaver.ParseResponse | selfcode/recovery_weaver/recovery_weaver.cpp:230-255 | the loop of read, over any reply |
| Weaver.BuildRead | selfcode/recovery_weaver/recovery_weaver.cpp:209-212 | the request holds the message with slot and key |
| Weaver.BuildWrite | selfcode/recovery_weaver/recovery_weaver.cpp:284-288 | the request holds the message with slot, key and value |
| Weaver.GetConfig | selfcode/recovery_weaver/recovery_weaver.cpp:151-198 | the outcome for every answer of the chip |
| Weaver.ReadSlot | selfcode/recovery_weaver/recovery_weaver.cpp:200-274 | a key that has not 16 bytes fails without a call; otherwise the outcome for every answer to that request |
| Weaver.WriteSlot | selfcode/recovery_weaver/recovery_weaver.cpp:276-304 | a key or value that has not 16 bytes is an error without a call; otherwise the chip's success decides |
| ByteFiles.WriteAt | selfcode/recovery_storageproxyd/recovery_storageproxyd.c:360-368 | a write seen byte by byte: the data, the old bytes around it, and zeros in a hole |
| ByteFiles.ResizeAt | selfcode/recovery_storageproxyd/recovery_storageproxyd.c:589 | a change of size seen byte by byte: the old bytes below both sizes, zeros in the grown part, nothing from the new size on |
| ByteFiles.WriteInPieces | selfcode/recovery_storageproxyd/recovery_storageproxyd.c:360-368 | writing a buffer in two consecutive pieces is writing it at once |
| ByteFiles.ReadInPieces | selfcode/recovery_storageproxyd/recovery_storageproxyd.c:370-380 | reading in two pieces is reading at once |
| ByteFiles.ReadBack | selfcode/recovery_storageproxyd/recovery_storageproxyd.c:360-380 | what was written is read back |
| ByteFiles.ReadElsewhere | selfcode/recovery_storageproxyd/recovery_storageproxyd.c:360-380 | a read that does not touch the written stretch is not affected |
| ByteFiles.HoleReadsZero | selfcode/recovery_storageproxyd/recovery_storageproxyd.c:360-380 | a hole left by a write past the end reads as zeros |
| Rpmb.CdbAnnouncesLength | selfcode/recovery_storageproxyd/recovery_storageproxyd.c:312-326 | the 12-byte command block announces the transfer length, most significant byte first |
| Rpmb.CommandBlocks | selfcode/recovery_storageproxyd/recovery_storageproxyd.c:312-347 | all bytes of the two commands, their direction and their data |
| Rpmb.AgainIff | selfcode/recovery_storageproxyd/recovery_storageproxyd.c:285-308 | which status codes and sense bytes, in either format, ask for a command again |
| Rpmb.GoodIff | selfcode/recovery_storageproxyd/recovery_storageproxyd.c:285-308 | and which count as success |
| Rpmb.RetriesAre | selfcode/recovery_storageproxyd/recovery_storageproxyd.c:320-350 | a device that always asks gets a reliable write twice, a write behind it once, a write without it four times, and a read once |
| Rpmb.BufferAfter | selfcode/recovery_storageproxyd/recovery_storageproxyd.c:343-352 | sending leaves the reply buffer alone; a request that succeeds ends with its read, and the buffer holds what that returned |
| Rpmb.TraceShape | selfcode/recovery_storageproxyd/recovery_storageproxyd.c:311-357 | for every request and every sequence of results: at most 2 reliable writes, then at most 1 write, or 4 when there was no reliable one, then at most 1 read, all repetitions with the same bytes, and each non-empty part issued unless an earlier call was refused |
| Rpmb.StopsAtRefusal | selfcode/recovery_storageproxyd/recovery_storageproxyd.c:327-352 | a request succeeds exactly when no call is refused, and a refused call is the last |
| Rpmb.RetriedWhileAsked | selfcode/recovery_storageproxyd/recovery_storageproxyd.c:321-342 | a command is repeated only while the device asks for it, and as long as it does and a retry is left |
| Rpmb.Driver.SendWithRetries | selfcode/recovery_storageproxyd/recovery_storageproxyd.c:320-331 | the retry loop adds exactly those calls to the trace, and fails when one is refused |
| Rpmb.Driver.SendUfsRpmb | selfcode/recovery_storageproxyd/recovery_storageproxyd.c:311-357 | the three stages, the trace they leave and the reply buffer |
| StorageSpec.HeaderRoundTrip | selfcode/recovery_storageproxyd/recovery_storageproxyd.c:106-114 | a message header is read back from its bytes |
| StorageSpec.ReplyAnswers | selfcode/recovery_storageproxyd/recovery_storageproxyd.c:262-268 | a reply carries the response bit, the operation of its request, its own length, the result and the payload |
| StorageSpec.OneReplyPerRequest | selfcode/recovery_storageproxyd/recovery_storageproxyd.c:624-657 | over any run, exactly one reply per request up to the first malformed packet, in order, each the outcome of its request on the state its predecessors left |
| StorageSpec.RpmbTrace | selfcode/recovery_storageproxyd/recovery_storageproxyd.c:411-437 | a request with wrong sizes issues no call; for an accepted one the calls have the known shape and the two slices make up exactly the payload |
| StorageSpec.WriteThenRead | selfcode/recovery_storageproxyd/recovery_storageproxyd.c:523-564 | what a write request stores, a read request returns through any handle of the same file |
| StorageSpec.RetryRepairs | selfcode/recovery_storageproxyd/recovery_storageproxyd.c:544-564 | a write that failed part way, done again, is as if it had never failed |
| StorageSpec.OthersUntouched | selfcode/recovery_storageproxyd/recovery_storageproxyd.c:624-645 | a request changes no file but the one its handle names, and no handle but the one it closes |
| StorageSpec.ErrorChangesNothing | selfcode/recovery_storageproxyd/recovery_storageproxyd.c:523-621 | a request that the proxy turns down leaves everything as it was |
| StorageSpec.SizeIsReported | selfcode/recovery_storageproxyd/recovery_storageproxyd.c:566-595 | get_size reports what writes and set_size left |
| StorageLaws.PacketIsTaken | selfcode/recovery_storageproxyd/recovery_storageproxyd.c:253-260 | which packets are taken as which request: the size field must say what came, of which at most 4120 bytes are read |
| StorageLaws.ReadReturns | selfcode/recovery_storageproxyd/recovery_storageproxyd.c:523-542 | a read returns the bytes of the file up to its end and changes nothing |
| StorageLaws.ReadAfterResize | selfcode/recovery_storageproxyd/recovery_storageproxyd.c:583-595 | a read after a change of size, through any handle of the file: old bytes below both sizes, zeros in the grown part, nothing from the new size on |
| StorageLaws.ReadAfterWrite | selfcode/recovery_storageproxyd/recovery_storageproxyd.c:544-564 | a read after a write, whole or failed part of the way: the bytes that took effect, the old ones around them, zeros in a hole, nothing beyond the end |
| StorageLaws.SizesAreTold | selfcode/recovery_storageproxyd/recovery_storageproxyd.c:566-621 | the answers to both questions about sizes |
| StorageLaws.CloseRemoves | selfcode/recovery_storageproxyd/recovery_storageproxyd.c:510-521 | closing takes the handle away, also when it reports a failure, and leaves all files and all other handles |
| StorageLaws.ClosedStaysClosed | selfcode/recovery_storageproxyd/recovery_storageproxyd.c:510-542 | a read through a closed handle is refused |
| StorageLaws.NotOpen | selfcode/recovery_storageproxyd/recovery_storageproxyd.c:510-621 | nothing is done through a handle that is not open |
| StorageLaws.NegativeIsRefused | selfcode/recovery_storageproxyd/recovery_storageproxyd.c:535-589 | offsets and sizes with the top bit set are refused |
| StorageLaws.MalformedIsRefused | selfcode/recovery_storageproxyd/recovery_storageproxyd.c:411-645 | wrong lengths and too long reads are answered with 2, unknown commands with 3, and nothing changes |
| StorageLaws.FailureIsTold | selfcode/recovery_storageproxyd/recovery_storageproxyd.c:382-395 | a failure of the system is reported with its error and changes nothing, except for writes and closing |
| StorageLaws.ErrorTable | selfcode/recovery_storageproxyd/recovery_storageproxyd.c:382-395 | what the client is told for every error number |
| StorageLaws.RpmbRefusedIff | selfcode/recovery_storageproxyd/recovery_storageproxyd.c:411-430 | an RPMB request is refused, without a call, exactly when its sizes do not add up, are not whole blocks or ask for more than 4096 bytes |
| StorageLaws.RpmbAnswer | selfcode/recovery_storageproxyd/recovery_storageproxyd.c:432-439 | an accepted one succeeds exactly when the device refuses no call, and answers with what its read returned |
| StorageProxy.WriteFull | selfcode/recovery_storageproxyd/recovery_storageproxyd.c:360-368 | for every schedule of short writes, interruptions and failures: one atomic write, or a failure after a part of it; interruptions never make it fail |
| StorageProxy.ReadFull | selfcode/recovery_storageproxyd/recovery_storageproxyd.c:370-380 | for every schedule: one read cut at the end of the file, or a failure; interruptions never make it fail |
| StorageProxy.Proxy.HandleFileRead | selfcode/recovery_storageproxyd/recovery_storageproxyd.c:523-542 | serves the step of the specification and sends its one reply |
| StorageProxy.Proxy.HandleFileWrite | selfcode/recovery_storageproxyd/recovery_storageproxyd.c:544-564 | the same for writes |
| StorageProxy.Proxy.HandleFileGetSize | selfcode/recovery_storageproxyd/recovery_storageproxyd.c:566-581 | the same for sizes |
| StorageProxy.Proxy.HandleFileSetSize | selfcode/recovery_storageproxyd/recovery_storageproxyd.c:583-595 | the same for changes of size |
| StorageProxy.Proxy.HandleFileGetMaxSize | selfcode/recovery_storageproxyd/recovery_storageproxyd.c:597-621 | the same for the maximum size of a regular file |
| StorageProxy.Proxy.HandleFileClose | selfcode/recovery_storageproxyd/recovery_storageproxyd.c:510-521 | the same for closing; the handle is gone even when a failure is reported |
| StorageProxy.Proxy.HandleRpmbSend | selfcode/recovery_storageproxyd/recovery_storageproxyd.c:411-437 | refuses requests whose sizes do not add up or are not whole blocks; otherwise the two slices given to the device are the whole payload |
| StorageProxy.Proxy.HandleReq | selfcode/recovery_storageproxyd/recovery_storageproxyd.c:624-645 | every command, including unknown ones, is one step of the specification with one reply |
| StorageProxy.Proxy.ProxyLoop | selfcode/recovery_storageproxyd/recovery_storageproxyd.c:648-657 | the replies, files and RPMB trace of the loop are those of the run of the specification, with faults only where a call of that kind failed; if transfers are only cut short or interrupted and nothing else fails, those of the run without faults, for every mix of requests |
| StorageProxy.QuietRun | selfcode/recovery_storageproxyd/recovery_storageproxyd.c:360-380 | under such a schedule every fault is absent, so replies and files do not depend on the schedule at all |

## Left out

- LZMA2 itself, its thread counts and its remaining parameters: library code that is not in the repository.
- The shortlist of level 2 (`selfcode/lgz/lgzv3.c:641-742`), which a constant switches off; progress output, allocation failure, and the manifest loop of `decompress_all`.
- Compressor.RoundTrip: needs what the source needs to write anything (a block or all chunks), and of an ELF file that its section headers lie in the file, its kept sections are disjoint and its code stays clear of the header and the table; RoundTripIff says which files are restored without that.
- Compressor.RoundTripIff: for types 3, 4 and 6 it needs code sections that do not overlap one another, the header or the table; where they do, only BlockRestoredIff applies, which asks about the transform itself. The same holds for OneBlockRoundTripIff.
- Arm64Branches.NormalizeInPlace: both directions share one loop method that takes the word filter as a parameter; the source writes the loop twice. The same holds for X86Branches.NormalizeInPlace and for the two code pipelines.
- LgzFiles.RunPasses: the parallel loop is its critical sections in an arbitrary order; the memory model of OpenMP is not modelled.
- GptSync.CrashSafe: writes reach the disk in order; reordering by caches is not modelled.
- GptUtils.GptUtils.Load: failing or short reads, a failing block size query, and products of block numbers and sizes beyond 64 bits (32 bits for the array size) are not modelled; what is read must lie on the device. Pointers kept from before a second Load are not modelled.
- GptUtils.GptUtils.Sync: a write is done whole or fails; one that is cut short without an error is not modelled.
- SlotBackends.BackendsAgree: assumes that both boot entries are in one table and that the header checksum notices each edit; EditStoredIffDetected says what happens when it does not.
- BootControl.BootControl.SetSlotAsUnbootable: requires an entry for the slot, as the source uses it without looking.
- BootControl.BootControl.MarkBootSuccessful: the device path is taken to be found, and what Load reads to lie on the device; what reaches the devinfo partition, and how the boot LUN is selected, are parameters that say success or failure.
- The numbers of slots and the running slot are parameters; anti-rollback fuses, system properties, sysfs paths, merge status and the HIDL interface.
- The patcher's reading of files, its lists and its messages; the modules under `subpatch/`, which are data.
- Weaver.GetConfig: a reply whose length field carries the 32-bit position past its range, or that does not fit the buffer, is `Undefined`; the same holds for ReadSlot.
- Opening the chip's device and registering the service.
- StorageProxy.Proxy.HandleFileGetMaxSize: block devices and their size query are not modelled.
- StorageProxy.ReadFull: offsets are signed but unbounded, so a file near 2^63 bytes is not modelled; the same holds for WriteFull.
- StorageSpec.OneReplyPerRequest: opening and deleting by name are an arbitrary function of the open files and the request that answers with at most a handle; paths, directories and the sync calls are not modelled.
- Rpmb.Driver.SendUfsRpmb: a bad sense result is not reported, as in the source, and what the device stores is not modelled.
- Connecting and reconnecting to the secure side, and replies written only in part.
- `ramdisk_snapshot.c`, the kernel modules, scripts and configuration: input and output plumbing or very small state.
