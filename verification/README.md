# rom-weaver: checksums, ROM variants, identify packs

A Dafny model of the part of rom-weaver that hashes ROM images and tells what they are, with proofs of what its
documentation and tests promise. It has six parts.

**Combinable checksums.** CRC-16/ARC and Adler-32 are defined from their bits and sums. A range is cut into chunks in
any way, short reads included; the chunks are digested apart and the partial digests joined with GF(2) matrix
exponentiation and modular arithmetic. The joined value is the digest of the whole range. (`Crc16`, `Adler32`,
`Hashers`, `Execution`, `Planning`, `Progress`)

**Chunk-hash workers.** One producer broadcasts chunks to N workers over bounded queues. The protocol is a state machine
over all interleavings: order, freedom from deadlock, termination, and the handle count behind every chunk. On it rests
the streaming checksum, which deals its algorithms out to the workers. (`ChunkWorkers`, `StreamingChecksum`)

**The variant engine.** Pushed a ROM in slices of any size, it hashes several transformed streams in one pass: the header
stripped, the N64 words reordered, the header repaired. The classes keep the source's fields and their `Valid()` ties
each field to the bytes seen so far, so that `seen == old(seen) + chunk` with `Valid()` says what every field has become.
Finalizing gives the whole-file definition `WholeFile`, which does not mention slices. (`N64`, `Patches`, `RomHeaders`,
`Accumulators`, `HeaderRepair`, `FixHeader`, `Variants`, `VariantEngine`) What the pieces come to is said of the file
itself in `N64Sums` (the boot-code CRC in sums over the words), `HeaderForms` (what is stripped, which rows there are) and
`CheckValues`.

**The RWFP1 pack.** Games are interned into sorted tables and written as canonical variable-length integers with delta
coding; parsing checks the tables against each other. Bytes and tables are related by printers and readers
(`Varint`, `PackFormat`, `PackContainer`, `PackTables`, `PackSizes`), tables and games by `PackBuild` and `PackParse`,
and the round trip is `PackCodec.RoundTrip`; `PackLimits` says when it fails. `PackReaders` and `PackWriters` are the
cursor loops.
The index the parser accepts is compared with a scan of all games in `PackSound`, `PackIndex` and `PackScan`, and the
set-aware matcher built on it is `ArtifactMatch` and `PackMatch`. `PackFields` says the round trip on the fields and
`PackLayout` the pack on its bytes.

**Cheat patches.** Cheat writes printed as an IPS or IPS32 patch, against an interpreter of such patches. (`CheatIps`)

**Discs.** Raw sectors de-framed, the ISO 9660 root directory walked, the platform told from the bytes of the image.
(`DiscDirectory`, `DiscPlatform`)

Four promises do not hold on all inputs. Each has an input that shows it, and a condition under which it holds:

- `ArtifactPack::route` returns a component's place as a 16-bit index. All queries on a pack are answered exactly if and
  only if every component of a routed row is among the first 65536 of its game (`PackIndex.Narrow`,
  `PackIndex.RouteExactIff`); `PackWideGame.WideGameMisrouted` encodes and parses a pack where one is not.
- `ArtifactPack::route` should return what a scan of all games finds: the components of that size and crc32 whose hash
  some discriminating component carries. It does if and only if, besides, no such hash is split over two rows of which
  one lists no discriminating component (`PackScan.Unsplit`, `PackScan.RouteIsScanIff`). Encoded packs never write a row
  twice (`PackFields.EncodedScans`), but the parser accepts one that does: `PackSplitRows.SplitRowsMissed`.
- An IPS record moved off the reserved offset repeats the ROM's original byte before it. The patch equals the direct
  writes exactly when no such record comes after the last write on that byte, or that write left the original value
  there (`CheatIps.Clobbers`, `CheatIps.IpsAgreesIff`); `CheatIps.ShiftUndoesAWrite` is a case where it does not.
- `verify_candidate` assigns greedily. Exact always means that a complete assignment exists, but not the other way
  round: `ArtifactMatch.GreedyMissesAssignment` has one that is missed. None is missed where game and artifact are
  orderly (`ArtifactMatch.Orderly`, `ArtifactMatch.GreedySuffices`), a condition on which files match which components.
  It is sufficient for one game and artifact, and it is exact for them together with all selections from them
  (`ArtifactMatch.GreedyRightIff`): where they are not orderly, some two components at most of either are missed.

Lists of chunks, slices and reads are arbitrary throughout; a read returns any non-empty prefix of what remains. A digest
of a foreign library is a function of its algorithm and the bytes fed to it. Failure is one case: which error is raised
first, and its text, are not modelled.

## Model

| member | source | states |
|---|---|---|
| `Crc16.DigestAppend` | crates/rom-weaver-checksum/src/execution.rs:556-595 | the CRC-16/ARC of two blocks is the first digest clocked past the second block, xor the second digest: what combining has to compute |
| `Crc16.InitialMatrix` | crates/rom-weaver-checksum/src/execution.rs:565-569 | the matrix the code starts from is the operator for one zero bit |
| `Crc16.TimesComputes` | crates/rom-weaver-checksum/src/execution.rs:537-548 | multiplying by a matrix that represents a linear operator computes the operator, from any column on |
| `Crc16.Gf2MatrixTimes` | crates/rom-weaver-checksum/src/execution.rs:537-548 | the shift-and-xor loop computes the matrix product and reads no column past the sixteenth |
| `Crc16.TimesShifts` | crates/rom-weaver-checksum/src/execution.rs:537-548 | a matrix for n zero bits shifts any CRC by n zero bits |
| `Crc16.Gf2MatrixSquare` | crates/rom-weaver-checksum/src/execution.rs:550-554 | squaring a matrix for n zero bits gives one for 2n |
| `Crc16.BinaryStep` | crates/rom-weaver-checksum/src/execution.rs:574-592 | one turn of binary exponentiation keeps the number of zero bits still to apply |
| `Crc16.Crc16ArcCombine` | crates/rom-weaver-checksum/src/execution.rs:556-595 | the even/odd ping-pong loop ends and shifts the first CRC by 8 times the second length, for every 64-bit length |
| `Crc16.CombineDigests` | crates/rom-weaver-checksum/src/execution.rs:556-595 | combining the CRCs of A and B gives the CRC of A followed by B |
| `CheckValues.ArcOfHighBit` | crates/rom-weaver-checksum/src/core.rs:189-190 | the CRC-16/ARC of the byte 0x80 is the reflected polynomial 0xA001 |
| `Adler32.ClosedForm` | crates/rom-weaver-checksum/src/execution.rs:610-614 | the running sums of section 2.2 of RFC 1950 are the byte total and the weighted total mod 65521 |
| `Adler32.CombineStates` | crates/rom-weaver-checksum/src/execution.rs:616-632 | combining two pairs of sums gives the sums of the concatenation; every intermediate value is a u64 by its type |
| `Adler32.CombineHalves` | crates/rom-weaver-checksum/src/execution.rs:616-632 | both halves of a combined value stay below 65521 |
| `Adler32.CombineDigests` | crates/rom-weaver-checksum/src/execution.rs:616-632 | combining the Adler-32 of A and B gives the Adler-32 of A followed by B, for every 64-bit length |
| `CheckValues.AdlerOfLetter` | crates/rom-weaver-checksum/src/execution.rs:616-632 | the Adler-32 of the letter a is 0x00620062 |
| `Hashers.FeedAppends` | crates/rom-weaver-checksum/src/core.rs:833-846 | feeding a hash state in pieces is feeding the concatenation, for every algorithm |
| `Hashers.HasherBatch.Update` | crates/rom-weaver-checksum/src/core.rs:876-880 | every hasher of a batch has been fed exactly the chunks given to the batch |
| `Hashers.HasherBatch.IntoResults` | crates/rom-weaver-checksum/src/core.rs:882-887 | a batch reports the digest of everything it was fed, once per algorithm |
| `Execution.ComputeSequentialStream` | crates/rom-weaver-checksum/src/execution.rs:37-77 | reads of any size give the digests of exactly the range; a source that ends early is an error |
| `Execution.ComputeSequentialMapped` | crates/rom-weaver-checksum/src/execution.rs:18-35 | the chunked pass over a mapped range gives the digests of the whole range |
| `Execution.RoundRobinGroups` | crates/rom-weaver-checksum/src/core.rs:480-488 | round-robin groups keep the order, are never empty, and are at most as many as asked for |
| `Execution.DealtReaches` | crates/rom-weaver-checksum/src/core.rs:480-488 | every item lands in some group |
| `Execution.DealtFrom` | crates/rom-weaver-checksum/src/core.rs:480-488 | no group holds an item that was not given |
| `Execution.DealtShares` | crates/rom-weaver-checksum/src/core.rs:480-488 | the groups share out the algorithms: each is in some group, and nothing else is in any |
| `Execution.MergeResults` | crates/rom-weaver-checksum/src/execution.rs:161-189 | the merged results of the workers are the digests of all requested algorithms and no others |
| `Execution.ComputeFanoutStream` | crates/rom-weaver-checksum/src/execution.rs:141-189 | fanning the chunks of a stream out to groups of hashers gives the sequential digests |
| `Execution.ComputeFanoutMapped` | crates/rom-weaver-checksum/src/execution.rs:109-139 | fanning out a mapped range gives the sequential digests |
| `Execution.FillBatch` | crates/rom-weaver-checksum/src/execution.rs:446-504 | a batch of reads, short ones included, takes a non-empty prefix of the range, in order and without a gap |
| `Execution.CollectPartialsStream` | crates/rom-weaver-checksum/src/execution.rs:446-504 | the chunks behind the partials of a stream concatenate to exactly the range |
| `Execution.CollectPartialsMapped` | crates/rom-weaver-checksum/src/execution.rs:416-444 | the chunks behind the partials of a mapped range concatenate to exactly the range |
| `Execution.CombineCrc16Partials` | crates/rom-weaver-checksum/src/execution.rs:597-608 | folding CRC-16 partials over any division into chunks gives the digest of the whole, the empty range included |
| `Execution.CombineAdler32Partials` | crates/rom-weaver-checksum/src/execution.rs:634-645 | folding Adler-32 partials over any division into chunks gives the digest of the whole, the empty range included |
| `Execution.ComputeSingleStream` | crates/rom-weaver-checksum/src/execution.rs:373-414 | the chunk-parallel plan for one algorithm equals the sequential digest |
| `Execution.PlanChecksum` | crates/rom-weaver-checksum/src/planning.rs:81-100 | a single algorithm is split exactly when it can be and the range is long enough, over at least two threads with a full share of bytes each; several are fanned out from their threshold on, one thread each; only a plan of one thread is sequential |
| `Execution.ExecutePlan` | crates/rom-weaver-checksum/src/planning.rs:102-226 | whatever plan is dispatched, the result is the digests of exactly the requested range |
| `Planning.ResolveAlgorithms` | crates/rom-weaver-checksum/src/planning.rs:2-13 | known names in order of first mention, each once; the first unknown name is an error |
| `Planning.FirstOccurrencesExact` | crates/rom-weaver-checksum/src/planning.rs:2-13 | no requested algorithm is lost, none repeats, and they stand in the order of first mention |
| `Progress.Tracker.Advance` | crates/rom-weaver-checksum/src/core.rs:523-559 | processed bytes saturate at the total, and a report is made exactly when the whole percent has grown since the last one |
| `Progress.Tracker.Finish` | crates/rom-weaver-checksum/src/core.rs:534-559 | a run over a non-empty total ends on one report of a hundred percent; an empty one never reports |
| `Progress.FewReports` | crates/rom-weaver-checksum/src/core.rs:542-559 | reported percents rise strictly, so a tracker reports at most a hundred times |
| `Progress.PercentMeans` | crates/rom-weaver-checksum/src/core.rs:542-552 | the percent p of a part satisfies p * total <= 100 * processed < (p + 1) * total where the product does not saturate, and is 100 from the total on |
| `ChunkWorkers.StepKeepsInv` | crates/rom-weaver-checksum/src/core.rs:402-476 | every step of the producer or of a worker keeps the protocol invariant: order, queue bounds, and handle counts |
| `ChunkWorkers.RunKeepsInv` | crates/rom-weaver-checksum/src/core.rs:402-476 | the invariant holds after every interleaving |
| `ChunkWorkers.GivenInOrder` | crates/rom-weaver-checksum/src/core.rs:402-462 | in every interleaving what a worker hashed, then holds, then queues is a prefix of the sent chunks, in order, at most one chunk behind, with the queue bound kept |
| `ChunkWorkers.NeverStuck` | crates/rom-weaver-checksum/src/core.rs:445-476 | when the producer is blocked and finish has not returned, some worker can step |
| `ChunkWorkers.NoDeadlock` | crates/rom-weaver-checksum/src/core.rs:402-476 | no interleaving deadlocks, for any number of workers and any capacity of at least one |
| `ChunkWorkers.EveryRunEnds` | crates/rom-weaver-checksum/src/core.rs:402-476 | every interleaving of m sends and a finish is over after a bounded number of steps |
| `ChunkWorkers.FinishReturnsEverything` | crates/rom-weaver-checksum/src/core.rs:464-476 | finish returns the hashers in spawn order, each having folded exactly the full sent sequence |
| `ChunkWorkers.HandlesConserved` | crates/rom-weaver-checksum/src/core.rs:445-460 | in every interleaving the handle count of a chunk is what the producer still holds plus one for each worker yet to finish it |
| `ChunkWorkers.EachBufferReclaimedOnce` | crates/rom-weaver-checksum/src/core.rs:402-460 | exactly one done call per chunk is the last holder |
| `ChunkWorkers.ReclaimedOnlyAfterAllHashed` | crates/rom-weaver-checksum/src/core.rs:402-460 | a buffer is handed back only after every worker has hashed the chunk |
| `StreamingChecksum.StreamingChecksum.constructor` | crates/rom-weaver-checksum/src/core.rs:270-319 | a budget above one starts that many workers, or one for each algorithm if there are fewer; otherwise hashing is inline |
| `StreamingChecksum.StreamingChecksum.Update` | crates/rom-weaver-checksum/src/core.rs:321-344 | a pushed chunk is hashed inline or sent to all workers, whatever they do meanwhile |
| `StreamingChecksum.StreamingChecksum.Finalize` | crates/rom-weaver-checksum/src/core.rs:346-377 | inline or threaded, in any interleaving, the digests are those of all bytes pushed |
| `StreamingChecksum.MergeWorkers` | crates/rom-weaver-checksum/src/core.rs:352-370 | the digests of the groups, put together, are those of all algorithms and no others |
| `N64.TransformInvolution` | crates/rom-weaver-core/src/n64.rs:52-64 | every byte-order transform is its own inverse on a word |
| `N64.ReorderBack` | crates/rom-weaver-core/src/n64.rs:52-64 | reordering an image to another byte order and back restores it |
| `N64.ReorderDetects` | crates/rom-weaver-core/src/n64.rs:46-50 | an image reordered to an order is detected in that order |
| `N64.ReorderAppend` | crates/rom-weaver-checksum/src/variants.rs:138-157 | reordering works a word at a time, so it splits at every multiple of four |
| `N64.NormalizedOriginal` | crates/rom-weaver-core/src/n64.rs:66-79 | a value stored in the original order reads back normalised |
| `N64Sums.RotationClosed` | crates/rom-weaver-checksum/src/variants.rs:256-272 | rotating a word by s places moves it up within 32 bits and brings what falls out back below |
| `N64Sums.StateHolds` | crates/rom-weaver-checksum/src/variants.rs:256-272 | after any words the six registers hold their total, how often it wrapped, the totals of the rotated and of the mixed words, their exclusive or, and the steered one |
| `N64Sums.PairClosed` | crates/rom-weaver-checksum/src/variants.rs:256-276 | so the CRC pair of a range is given by those sums alone |
| `N64Sums.XorBit` | crates/rom-weaver-checksum/src/variants.rs:256-272 | a bit of an exclusive or is set when it is set in one of the two |
| `N64Sums.WordAt` | crates/rom-weaver-checksum/src/variants.rs:241-254 | a word of a big-endian image is its four bytes, the first the highest |
| `N64Sums.WordsOfReordered` | crates/rom-weaver-checksum/src/variants.rs:241-254 | the words of an image in any order are those of the image reordered to big-endian |
| `Patches.InsertIsMap` | crates/rom-weaver-checksum/src/variants.rs:386-413 | inserting a patch keeps the offsets ascending and changes no other entry |
| `Patches.InsertBetween` | crates/rom-weaver-checksum/src/variants.rs:386-413 | a patch whose offset falls between two parts of the map is inserted between them |
| `Patches.OverlayLastWins` | crates/rom-weaver-checksum/src/variants.rs:1122-1160 | where patches overlap the one with the larger offset wins |
| `Patches.OverlayConcat` | crates/rom-weaver-checksum/src/variants.rs:1122-1160 | applying patches in two runs is applying them in one |
| `Patches.OverlayPrefix` | crates/rom-weaver-checksum/src/variants.rs:433-484 | patches that end inside a prefix leave what follows it alone |
| `Patches.BlitSlice` | crates/rom-weaver-checksum/src/variants.rs:1140-1156 | patching one chunk is cutting that chunk out of the patched file |
| `VariantEngine.PatchOne` | crates/rom-weaver-checksum/src/variants.rs:1141-1153 | one patch that straddles the chunk, overlaps it, is empty or lies past it is copied over where it meets the chunk |
| `VariantEngine.PatchChunk` | crates/rom-weaver-checksum/src/variants.rs:1136-1156 | the per-chunk patch loop gives the chunk of the patched file, for any patches |
| `VariantEngine.OverlayChecksums` | crates/rom-weaver-checksum/src/variants.rs:1122-1160 | for any read sizes and any patches the overlay read hashes the source with the patches applied in ascending order and clipped to its length |
| `RomHeaders.SignatureLocal` | crates/rom-weaver-checksum/src/rom_headers.rs:201-284 | no header signature looks past the scan window |
| `RomHeaders.DetectStrippableLocal` | crates/rom-weaver-checksum/src/rom_headers.rs:352-414 | the strippable header of a file depends only on its first 0x10800 bytes, its length and its extension |
| `RomHeaders.FirstMatchIsMatch` | crates/rom-weaver-checksum/src/rom_headers.rs:332-350 | a detected header matches its signature, and none is detected only when none matches |
| `RomHeaders.StrippedSizes` | crates/rom-weaver-checksum/src/rom_headers.rs:352-414 | a stripped header has one of four sizes; one found by size alone is 512 bytes and smaller than the file |
| `HeaderForms.HeaderedIsStripped` | crates/rom-weaver-checksum/src/rom_headers.rs:352-414 | an A78, Lynx, iNES or FDS file under its own extension loses 128, 64, 16 or 16 bytes, whatever else it looks like |
| `HeaderForms.StrippedShows` | crates/rom-weaver-checksum/src/rom_headers.rs:352-414 | nothing is stripped from an Xbox disc, and only the header of a format the file shows, or 512 bytes of a copier |
| `HeaderForms.UnmarkedBySize` | crates/rom-weaver-checksum/src/rom_headers.rs:366-414 | a file that shows no format loses 512 bytes exactly when its extension and its size say so and it is no Super Magic Drive dump |
| `HeaderForms.RetainedWhen` | crates/rom-weaver-checksum/src/variants.rs:762-803 | a stripped header returns on output unless it is a 512-byte one without dump metadata |
| `Accumulators.SegaAccumulator.Feed` | crates/rom-weaver-checksum/src/variants.rs:193-209 | for every slicing the 16-bit sum is the big-endian word sum of the bytes seen from 0x200 on, mod 65536, odd byte carried |
| `Accumulators.N64Accumulator.Feed` | crates/rom-weaver-checksum/src/variants.rs:241-271 | for every slicing the CRC state is the fold over the normalised words seen of [0x1000, 0x101000) |
| `HeaderRepair.PlanRepairsLocal` | crates/rom-weaver-checksum/src/variants.rs:937-1006 | no repair plan looks past the scan window |
| `HeaderRepair.ResolveStable` | crates/rom-weaver-checksum/src/variants.rs:386-413 | once the flush offset is reached more input does not change the patches |
| `HeaderRepair.ResolveShape` | crates/rom-weaver-checksum/src/variants.rs:386-413 | the resolved patches are ascending and lie in the header bytes the plan has read |
| `HeaderRepair.GbaRepairIsFixedPoint` | crates/rom-weaver-checksum/src/variants.rs:937-957 | a repaired GBA header has nothing left to repair |
| `HeaderRepair.SegaRepairIsFixedPoint` | crates/rom-weaver-checksum/src/variants.rs:959-978 | a repaired Genesis checksum is the sum of the repaired file |
| `HeaderRepair.N64RepairIsFixedPoint` | crates/rom-weaver-checksum/src/variants.rs:980-1006 | a repaired N64 CRC pair is the CRC pair of the repaired file, in every byte order |
| `HeaderRepair.RepairIsFixedPoint` | crates/rom-weaver-checksum/src/variants.rs:386-413 | with all planned profiles applied together, re-planning any of them on the repaired file yields no patch |
| `HeaderRepair.GbaPlannedIff` | crates/rom-weaver-checksum/src/variants.rs:937-957 | a GBA header is repaired exactly when it has the boot signature and bytes 0xA0 to 0xBD plus 0x19 are no multiple of 256 |
| `HeaderRepair.GbaRepairedAddsUp` | crates/rom-weaver-checksum/src/variants.rs:937-957 | in the repaired file those bytes plus 0x19 are a multiple of 256 |
| `HeaderRepair.SegaPlannedIff` | crates/rom-weaver-checksum/src/variants.rs:959-978 | a Genesis header is planned for exactly when it says SEGA at 0x100 or 0x101 |
| `HeaderRepair.SegaRepairedHolds` | crates/rom-weaver-checksum/src/variants.rs:959-978 | the stored word of the repaired file is the sum of its big-endian words from 0x200 on, mod 65536 |
| `HeaderRepair.N64PlannedIff` | crates/rom-weaver-checksum/src/variants.rs:980-1006 | an N64 header is planned for exactly when the image is long enough, its order is known, and its boot code names no chip with another checksum |
| `HeaderRepair.N64RepairedHolds` | crates/rom-weaver-checksum/src/variants.rs:241-276 | the stored words of the repaired file are the pair given by the sums over its words of [0x1000, 0x101000) |
| `HeaderRepair.DefersMeans` | crates/rom-weaver-checksum/src/variants.rs:890-907 | only a Genesis repair is deferred, and the 64 MiB cap is reached only by its length |
| `HeaderRepair.ProfilesMean` | crates/rom-weaver-checksum/src/variants.rs:415-431 | the profiles reported are those whose stored checksum is wrong |
| `CheckValues.Crc32OfZero` | crates/rom-weaver-checksum/src/variants.rs:1008-1060 | the CRC-32 by which the boot code is told has its known value on the byte 0 |
| `FixHeader.FixHeader.Feed` | crates/rom-weaver-checksum/src/variants.rs:322-360 | after every slice the buffered prefix, or once flushed the hasher, is that of the bytes seen so far with their patches applied |
| `FixHeader.FixHeader.Flush` | crates/rom-weaver-checksum/src/variants.rs:362-384 | flushing hashes the buffered prefix under the patches, or drops the variant when there are none |
| `FixHeader.FixHeader.ResolvePatches` | crates/rom-weaver-checksum/src/variants.rs:386-413 | the patches from the running sums, inserted profile by profile, are the ones the whole stream so far calls for |
| `FixHeader.FixHeader.KeepHashing` | crates/rom-weaver-checksum/src/variants.rs:322-360 | past the flush offset hashing the rest of the stream as it is equals hashing the patched file |
| `FixHeader.FixHeader.IntoOutput` | crates/rom-weaver-checksum/src/variants.rs:433-484 | for every slicing, also of streams that end before the flush offset, the outcome is the one defined on the whole file |
| `Variants.PlanLocal` | crates/rom-weaver-checksum/src/variants.rs:707-803 | the whole plan depends only on the scan window |
| `Variants.PlanFromBuffer` | crates/rom-weaver-checksum/src/variants.rs:616-642 | planning from any buffer that fills the window, or holds the whole file, gives the plan of the file |
| `Variants.PlansAlike` | crates/rom-weaver-checksum/src/variants.rs:616-642 | of a stream as long as announced, or announced to fill the window, it makes no difference how much was buffered when the plan was made |
| `Variants.LongerStreamsDiffer` | crates/rom-weaver-checksum/src/variants.rs:616-642 | a stream longer than a shorter announced length can be answered in two ways, depending on its slices |
| `Variants.ThreadsWithinBudget` | crates/rom-weaver-checksum/src/variants.rs:707-803 | the worker threads of all hashers a plan builds, added up, never exceed the budget |
| `Variants.BudgetMeans` | crates/rom-weaver-checksum/src/variants.rs:575-583 | from one mebibyte on the whole budget is shared out; below it everything is hashed inline |
| `Variants.SharedEvenly` | crates/rom-weaver-checksum/src/variants.rs:747-778 | each hasher gets an even share of the budget, no more threads than it has algorithms, and none for a share of one |
| `VariantEngine.PlannedVariants.WithinBudget` | crates/rom-weaver-checksum/src/variants.rs:707-803 | neither do those of the hashers the variants hold at any later point of the pass |
| `Variants.CarryOver` | crates/rom-weaver-checksum/src/variants.rs:138-157 | reordering the carried bytes with the next chunk continues the reorder of the stream and leaves the right carry |
| `Variants.VariantHasher.Update` | crates/rom-weaver-checksum/src/variants.rs:123-160 | for every slicing the variant has hashed exactly the transformed bytes of the stream so far |
| `Variants.VariantHasher.Finalize` | crates/rom-weaver-checksum/src/variants.rs:162-184 | a finished variant is the row of the whole transformed stream, with no bytes carried when the length is a multiple of four |
| `Variants.PlannedAreFinished` | crates/rom-weaver-checksum/src/variants.rs:597-686 | every announced id is finished, in order; besides them there is at most `fix-header`, finished or deferred |
| `Variants.RowsAreFull` | crates/rom-weaver-checksum/src/variants.rs:707-803 | in every row of the answer the algorithms hashed and the digests known beforehand are together the requested ones and never overlap; only the raw row has known digests; and each row was hashed over the bytes it stands for, said of the file itself |
| `HeaderForms.RowsPresent` | crates/rom-weaver-checksum/src/variants.rs:731-743 | which rows an answer has: what the header, the length and the wrong checksums of the file call for, and nothing for a PBP file but the raw row |
| `HeaderForms.HeaderedFileRow` | crates/rom-weaver-checksum/src/variants.rs:123-160 | a file of a headered format has a row of all requested algorithms over what follows its header |
| `VariantEngine.StreamingVariantChecksums.Update` | crates/rom-weaver-checksum/src/variants.rs:616-642 | a slice of any size, also one past the announced length, keeps the engine in the state of the bytes seen so far; a plan once made stays |
| `VariantEngine.StreamingVariantChecksums.TakePlannedVariants` | crates/rom-weaver-checksum/src/variants.rs:597-614 | the planned ids are handed out at most once, and only when the plan is known |
| `VariantEngine.StreamingVariantChecksums.Finalize` | crates/rom-weaver-checksum/src/variants.rs:644-686 | whatever the slices were, rows, digests and deferred patches are those of the whole-file definition under the plan made; of a stream as announced this is the plan of the file |
| `VariantEngine.HashInSlices` | crates/rom-weaver-checksum/src/variants.rs:616-686 | any two ways to cut a file into slices give the same answer, the whole-file one |
| `VariantEngine.FinishDeferredFixHeader` | crates/rom-weaver-checksum/src/variants.rs:1087-1120 | a deferred `fix-header` becomes one more row, hashed from a second read under its patches |
| `VariantEngine.FixHeaderHashesRepairedFile` | crates/rom-weaver-checksum/src/variants.rs:433-484 | in pass or deferred, `fix-header` appears exactly when there is something to patch, and hashes the source with its patches applied |
| `Varint.Encode` | crates/rom-weaver-checksum/src/identify_pack_v1.rs:611-624 | the digit loop writes the base-128 encoding |
| `Varint.VarOfEnc` | crates/rom-weaver-checksum/src/identify_pack_v1.rs:661-682 | every u64 is read back, and nothing past its encoding is consumed |
| `Varint.EncOfVar` | crates/rom-weaver-checksum/src/identify_pack_v1.rs:661-682 | what is accepted is the encoding of its value: overlong, overflowing and truncated forms are refused |
| `Varint.Cursor.Variable` | crates/rom-weaver-checksum/src/identify_pack_v1.rs:661-682 | the cursor loop reads what the definition reads, and moves past exactly that |
| `Order.KeyLessTotal` | crates/rom-weaver-checksum/src/identify_pack_v1.rs:244-250 | the key order of every table is a strict total order |
| `Order.SortBySorted` | crates/rom-weaver-checksum/src/identify_pack_v1.rs:244-250 | the sort is a permutation in key order |
| `Order.SortByStable` | crates/rom-weaver-checksum/src/identify_pack_v1.rs:244-250 | items with equal keys keep their order |
| `Order.OrderedSetAscending` | crates/rom-weaver-checksum/src/identify_pack_v1.rs:251-289 | an ordered set holds exactly the items put in, strictly ascending |
| `Order.AscendingUnique` | crates/rom-weaver-checksum/src/identify_pack_v1.rs:251-289 | a strictly ascending table is determined by its members |
| `Order.IndexOfMonotone` | crates/rom-weaver-checksum/src/identify_pack_v1.rs:285-289 | ids assigned by position order the items as their keys do |
| `Hex.PairsOfLower` | crates/rom-weaver-checksum/src/identify_pack_v1.rs:749-757 | lowercase text of bytes reads back |
| `Hex.LowerOfPairs` | crates/rom-weaver-checksum/src/identify_pack_v1.rs:600-606 | lowercase text of a digest is what the bytes it stands for are written as |
| `Hex.LowerKeepsOrder` | crates/rom-weaver-checksum/src/identify_pack_v1.rs:335-358 | digests of one width are ordered as text as they are as bytes |
| `PackContainer.MembersReadBack` | crates/rom-weaver-checksum/src/identify_pack_v1.rs:440-450 | the container gives back exactly the members written |
| `PackContainer.CollectMembers` | crates/rom-weaver-checksum/src/identify_pack.rs:37-87 | the directory and slicing loops read what the container definition reads: bounds, duplicate names and trailing bytes refused |
| `PackFormat.HashReadsBack` | crates/rom-weaver-checksum/src/identify_pack_v1.rs:779-843 | a hash row reads back, whatever follows it |
| `PackFormat.ComponentReadsBack` | crates/rom-weaver-checksum/src/identify_pack_v1.rs:850-914 | a component row reads back, whatever follows it |
| `PackFormat.GameReadsBack` | crates/rom-weaver-checksum/src/identify_pack_v1.rs:1118-1160 | a game row reads back, whatever follows it |
| `PackTables.TablesReadBack` | crates/rom-weaver-checksum/src/identify_pack_v1.rs:427-450 | all nine members of a pack within the limits read back as they were written |
| `PackParse.ReadIsStorable` | crates/rom-weaver-checksum/src/identify_pack_v1.rs:88-133 | whatever is read keeps the count, string and digest-width limits of the format |
| `PackHashes.HashRowsReadBack` | crates/rom-weaver-checksum/src/identify_pack_v1.rs:574-610 | sizes written as differences of sorted rows add up to the sizes again, and scopes and digests return |
| `PackHashes.KeyReadsBack` | crates/rom-weaver-checksum/src/identify_pack_v1.rs:895-909 | a canonical key is written as a row whose components carry that key |
| `PackOwners.DeltasReadBack` | crates/rom-weaver-checksum/src/identify_pack_v1.rs:561-570 | ascending owner ids survive delta coding |
| `PackOwners.FromDeltasAscends` | crates/rom-weaver-checksum/src/identify_pack_v1.rs:927-940 | accepted owner ids ascend below the component count |
| `PackOwners.ValidateOwners` | crates/rom-weaver-checksum/src/identify_pack_v1.rs:947-969 | the marking loop accepts exactly the owner tables that list every component once, under a row equal to its own |
| `PackOwners.OwnerTableValid` | crates/rom-weaver-checksum/src/identify_pack_v1.rs:309-325 | the owners collected while encoding are a valid table |
| `PackRoutes.ExpectedExact` | crates/rom-weaver-checksum/src/identify_pack_v1.rs:1007-1030 | the expected routes are exactly the eligible rows, each once, in strictly ascending key order |
| `PackReaders.ParseHashes` | crates/rom-weaver-checksum/src/identify_pack_v1.rs:779-843 | the cursor loop reads the hash table as defined: running size within 64 bits, scope codes, digest mask |
| `PackReaders.ParseComponents` | crates/rom-weaver-checksum/src/identify_pack_v1.rs:846-914 | the cursor loop reads the component table as defined |
| `PackReaders.ParseOwners` | crates/rom-weaver-checksum/src/identify_pack_v1.rs:916-945 | the nested loops read the owner table as defined and refuse ids that do not ascend |
| `PackReaders.ParseRoutes` | crates/rom-weaver-checksum/src/identify_pack_v1.rs:971-1037 | checking row by row and then against the eligible rows accepts exactly the expected route table |
| `PackWriters.EncodeHashes` | crates/rom-weaver-checksum/src/identify_pack_v1.rs:574-610 | the writer loop with its running previous size writes the table of the rows |
| `PackWriters.EncodeOwners` | crates/rom-weaver-checksum/src/identify_pack_v1.rs:561-571 | the nested writer loops write the delta-coded owner table |
| `PackBuild.TablesIntern` | crates/rom-weaver-checksum/src/identify_pack_v1.rs:251-284 | every string and hash key of every game has an id |
| `PackBuild.HashTableOrdered` | crates/rom-weaver-checksum/src/identify_pack_v1.rs:288-307 | the hash keys are sorted by size first, so no size difference is negative, and every scope has a string id |
| `PackRoundTrip.NamesReadBack` | crates/rom-weaver-checksum/src/identify_pack_v1.rs:386-392 | tags and alternate names come back sorted and without repeats, because ids are positions in a sorted table |
| `PackRoundTrip.ProvenanceReadsBack` | crates/rom-weaver-checksum/src/identify_pack_v1.rs:365-385 | provenance comes back in manifest order without repeats, the last of equal entries counting |
| `PackRoundTrip.RouteOrdersAgree` | crates/rom-weaver-checksum/src/identify_pack_v1.rs:335-358 | routes sorted by the text of their crc32 are sorted by its bytes |
| `PackRoundTrip.RoutesReadBack` | crates/rom-weaver-checksum/src/identify_pack_v1.rs:335-358 | the routes written are the ones the parser expects |
| `PackRoundTrip.ComponentsReadBack` | crates/rom-weaver-checksum/src/identify_pack_v1.rs:535-560 | every component is intact but for its ordinal |
| `PackRoundTrip.GamesReadBack` | crates/rom-weaver-checksum/src/identify_pack_v1.rs:1095-1203 | cutting the component table into runs gives every game back in normal form |
| `PackRoundTrip.AlternatesReadBack` | crates/rom-weaver-checksum/src/identify_pack_v1.rs:517-533 | alternate names return also when the member is left out because no game has any |
| `PackSizes.MembersAreShort` | crates/rom-weaver-checksum/src/identify_pack_v1.rs:440-450 | the members of a pack within the limits have 64-bit lengths, whatever they hold |
| `PackCodec.RoundTrip` | crates/rom-weaver-checksum/src/identify_pack_v1.rs:236-452 | parsing what was encoded returns the games sorted by platform, name and id, in normal form, with the manifest |
| `PackLimits.TablesReadBackExactly` | crates/rom-weaver-checksum/src/identify_pack_v1.rs:686-693 | tables read back exactly when they are within the limits of the format, and are refused otherwise |
| `PackLimits.RoundTripExactly` | crates/rom-weaver-checksum/src/identify_pack_v1.rs:88-143 | what is encoded round-trips exactly when the games are within those limits, and is refused by the parser otherwise |
| `PackLimits.SmallCountsFit` | crates/rom-weaver-checksum/src/identify_pack_v1.rs:88-143 | counting strings, components and games is enough to know that games are within the limits |
| `PackFields.RoundTripOnFields` | crates/rom-weaver-checksum/src/identify_pack_v1.rs:236-250 | on the fields: the games come back by platform, name and id, games equal in all three in the order given; every field is that of the request but for ordinals, sorted name lists and provenance in manifest order |
| `PackFields.HashRowsInOrder` | crates/rom-weaver-checksum/src/identify_pack_v1.rs:251-289 | the hash rows are written by size, scope, crc32, md5, sha1 and sha256, an absent digest first |
| `PackLayout.PackBegins` | crates/rom-weaver-checksum/src/identify_pack_v1.rs:440-450 | a pack begins with its magic and the number of its members |
| `PackLayout.MembersSpelled` | crates/rom-weaver-checksum/src/identify_pack_v1.rs:427-450 | the names of the members, in order, and the magic and version each table begins with |
| `PackLayout.LimitsAre` | crates/rom-weaver-checksum/src/identify_pack_v1.rs:684-695 | counts above four million and strings above 4096 bytes are refused |
| `PackLayout.AcceptedMeans` | crates/rom-weaver-checksum/src/identify_pack_v1.rs:88-143 | an accepted pack names the format and version, its games have its platform, source and provenance, and their components are numbered |
| `PackSound.AcceptedIsSound` | crates/rom-weaver-checksum/src/identify_pack_v1.rs:88-143 | in every pack the parser accepts the owners partition the components of the games, keys agree, and the routes are the eligible rows |
| `PackIndex.IndexAgreesWithScan` | crates/rom-weaver-checksum/src/identify_pack_v1.rs:166-197 | what a query on a sound pack finds, before its indexes are cut to width, are exactly the matching components whose row is routed, each once, in row order, with its game and place |
| `PackIndex.DiscriminatingAnswered` | crates/rom-weaver-checksum/src/identify_pack_v1.rs:166-197 | a query returns every matching discriminating component with a size, its two indexes cut to their widths |
| `PackIndex.QueryExactIff` | crates/rom-weaver-checksum/src/identify_pack_v1.rs:166-197 | one query returns exactly those components, in order and each once, if and only if their indexes are below 65536 |
| `PackIndex.RouteExactIff` | crates/rom-weaver-checksum/src/identify_pack_v1.rs:166-197 | all queries, of any text and size, return the matching components of routed rows, in order and each once, if and only if every such component has an index below 65536 |
| `PackSound.AcceptedAnswersIff` | crates/rom-weaver-checksum/src/identify_pack_v1.rs:88-197 | so it is for every pack the parser accepts |
| `PackSound.SmallGamesAnswered` | crates/rom-weaver-checksum/src/identify_pack_v1.rs:88-197 | every query on an accepted pack whose games have at most 65536 components is answered exactly |
| `PackWideGame.WideGameMisrouted` | crates/rom-weaver-checksum/src/identify_pack_v1.rs:181-193 | a game of 65537 components is encoded and its bytes are accepted; a query for its last component then names the first, which does not match |
| `PackScan.RouteIsScanIff` | crates/rom-weaver-checksum/src/identify_pack_v1.rs:166-197 | every query on a sound pack returns what a scan of the games for the size, the crc32 and a hash that some discriminating component carries would find, if and only if the pack is narrow and no such hash is split over rows |
| `PackScan.AcceptedScansIff` | crates/rom-weaver-checksum/src/identify_pack_v1.rs:88-197 | so it is for every pack the parser accepts |
| `PackFields.EncodedScans` | crates/rom-weaver-checksum/src/identify_pack_v1.rs:166-360 | on an encoded pack, which writes no row twice, every query returns what the scan finds if the pack is narrow |
| `PackScan.NothingTells` | crates/rom-weaver-checksum/src/identify_pack_v1.rs:988-1016 | a pack without a discriminating component answers every crc32 query with nothing |
| `PackSplitRows.SplitRowsMissed` | crates/rom-weaver-checksum/src/identify_pack_v1.rs:947-1030 | tables that write one hash row twice are accepted, and a query leaves out a component the scan finds |
| `PackRoutes.RouteQuery` | crates/rom-weaver-checksum/src/identify_pack_v1.rs:166-197 | the three nested loops return what the query is defined to return |
| `ArtifactMatch.MatchComponent` | crates/rom-weaver-checksum/src/artifact_match.rs:201-256 | the counting loop accepts exactly the pairs with fitting scope and size, some agreeing hash, and none that disagrees |
| `ArtifactMatch.ComponentMatchesMeans` | crates/rom-weaver-checksum/src/artifact_match.rs:201-256 | said hash by hash: scopes equal or a whole file for a track, sizes equal or unknown, some hash the same in either case of letters and none different |
| `ArtifactMatch.AssignSound` | crates/rom-weaver-checksum/src/artifact_match.rs:290-313 | the greedy pass assigns each artifact component at most once, and only to a component it matches |
| `ArtifactMatch.AssignStarves` | crates/rom-weaver-checksum/src/artifact_match.rs:290-313 | a component that goes without had every match taken by the ones before it |
| `ArtifactMatch.VerifyCandidate` | crates/rom-weaver-checksum/src/artifact_match.rs:280-359 | the loop over consumed flags and counters computes the verification as defined |
| `ArtifactMatch.ExactMeansComplete` | crates/rom-weaver-checksum/src/artifact_match.rs:324-348 | exact is reported exactly when the greedy assignment supplies all required components and uses up every artifact component with a crc32 |
| `ArtifactMatch.VerificationMeans` | crates/rom-weaver-checksum/src/artifact_match.rs:280-359 | a candidate is verified when a required discriminating component was found; the counts, the missing components and the unexpected files are exactly those of the assignment, in order |
| `ArtifactMatch.ExactIsSound` | crates/rom-weaver-checksum/src/artifact_match.rs:334-348 | an exact match has an injective, agreeing assignment of all required components |
| `ArtifactMatch.GreedySupplies` | crates/rom-weaver-checksum/src/artifact_match.rs:290-313 | by exchange: where game and artifact are orderly, the greedy pass supplies whatever can be supplied |
| `ArtifactMatch.GreedySuffices` | crates/rom-weaver-checksum/src/artifact_match.rs:290-348 | where they are orderly, an exact match is reported if and only if a complete assignment exists |
| `ArtifactMatch.GreedyRightIff` | crates/rom-weaver-checksum/src/artifact_match.rs:290-348 | the greedy pass is right about a game and an artifact and every selection of their components if and only if they are orderly |
| `ArtifactMatch.PairMissedIff` | crates/rom-weaver-checksum/src/artifact_match.rs:290-348 | of two components against two, a complete assignment is missed if and only if the first file matches both and the second only the first |
| `ArtifactMatch.TwinsAreFound` | crates/rom-weaver-checksum/src/artifact_match.rs:290-348 | components with the same key are found |
| `ArtifactMatch.GreedyMissesAssignment` | crates/rom-weaver-checksum/src/artifact_match.rs:290-348 | with a component of unknown size first, a complete assignment exists and the match is not exact |
| `PackMatch.MatchArtifact` | crates/rom-weaver-checksum/src/artifact_match.rs:363-461 | the matcher computes the outcome as defined |
| `PackMatch.ReportMeaning` | crates/rom-weaver-checksum/src/artifact_match.rs:438-460 | the report holds exactly the verified candidates of the best quality, sorted, and is ambiguous just when there is more than one |
| `PackMatch.ReportInOrder` | crates/rom-weaver-checksum/src/artifact_match.rs:438-460 | the report is in order of platform and then name |
| `PackMatch.ExactReportIsSound` | crates/rom-weaver-checksum/src/artifact_match.rs:407-460 | every game reported exact has a complete assignment |
| `PackMatch.GameIsCandidate` | crates/rom-weaver-checksum/src/artifact_match.rs:367-398 | no game with a discriminating component of that size and crc32 is overlooked |
| `PackMatch.CandidateHasCause` | crates/rom-weaver-checksum/src/artifact_match.rs:367-398 | and every candidate has a component some file asks for by size and crc32, in a hash that tells games apart |
| `CheatIps.WriteBytesMeaning` | crates/rom-weaver-cli/src/cheats/mod.rs:990-1010 | a write of width one to four puts that many low bytes of the value, in the byte order of the system; other widths are refused |
| `CheatIps.ApplyWrites` | crates/rom-weaver-cli/src/cheats/mod.rs:1014-1034 | the in-place writes give the overlay of the writes in order, or stop at one that does not fit |
| `CheatIps.SerializeIps` | crates/rom-weaver-cli/src/cheats_apply.rs:72-105 | the record loop prints the records of the writes, shifting one on the reserved offset |
| `CheatIps.SerializeIps32` | crates/rom-weaver-cli/src/cheats_apply.rs:107-134 | the record loop prints the records of the writes, refusing the reserved offset |
| `CheatIps.PrintedReadsBack` | crates/rom-weaver-patches/src/ips.rs:460-545 | the interpreter reads exactly the printed records and stops at the final marker |
| `CheatIps.IpsPrintable` | crates/rom-weaver-cli/src/cheats_apply.rs:72-105 | no printed record starts on the reserved offset |
| `CheatIps.IpsAgreesIff` | crates/rom-weaver-cli/src/cheats_apply.rs:72-105 | an IPS patch gives the directly written ROM exactly when no shifted record puts the old byte back over another one |
| `CheatIps.Ips32Agrees` | crates/rom-weaver-cli/src/cheats_apply.rs:107-134 | an IPS32 patch always gives the directly written ROM |
| `CheatIps.PrintableWrites` | crates/rom-weaver-cli/src/cheats_apply.rs:142-151 | writes that fit the ROM can be printed exactly when IPS32, if it is needed, can address them all |
| `CheatIps.PatchAgreesIff` | crates/rom-weaver-cli/src/cheats_apply.rs:142-151 | the chosen patch against the direct writes, for every list of writes that fits the ROM |
| `CheatIps.PatchSpelled` | crates/rom-weaver-cli/src/cheats_apply.rs:142-151 | the patch is IPS32 when some write lies past 16 MiB and IPS otherwise, with the opening and closing characters of each |
| `CheatIps.RunReadsBack` | crates/rom-weaver-patches/src/ips.rs:460-545 | a record of size zero is read as a run of one byte |
| `CheatIps.CutToLength` | crates/rom-weaver-patches/src/ips.rs:434-546 | three bytes behind the end of an IPS patch cut the result to a length |
| `CheatIps.ShiftUndoesAWrite` | crates/rom-weaver-cli/src/cheats_apply.rs:82-95 | two one-byte writes whose patch undoes the first one |
| `DiscDirectory.CopySectors` | crates/rom-weaver-checksum/src/rom_identity.rs:95-112 | the sector loop returns the asked sectors, or what the image has of them |
| `DiscDirectory.RawReadsAsCooked` | crates/rom-weaver-checksum/src/rom_identity.rs:95-112 | 2352-byte sectors, the last one possibly cut, read as their 2048-byte sectors do, wherever and however many are asked for |
| `DiscDirectory.ReadDirectory` | crates/rom-weaver-checksum/src/platform_detection.rs:261-292 | the position loop ends on every buffer and collects the records of the walk |
| `DiscDirectory.ExtentReadsBack` | crates/rom-weaver-checksum/src/platform_detection.rs:261-292 | an extent laid out by sections 6.8.1.1 and 9.1 of ECMA-119 gives exactly its entries, in order |
| `DiscDirectory.RawDetectsAsCooked` | crates/rom-weaver-checksum/src/platform_detection.rs:149-156 | a raw image is recognised as the platform its cooked image is, mode 1 or mode 2 |
| `DiscPlatform.SignedPlatform` | crates/rom-weaver-checksum/src/platform_detection.rs:185-208 | which head or magic word of sector 0 makes a disc which platform, in order of precedence |
| `DiscPlatform.LaidOutPlatform` | crates/rom-weaver-checksum/src/platform_detection.rs:210-249 | a disc without such a word and with a root directory laid out by the standard is a PSP disc just when it has a UMD entry; otherwise its last SYSTEM.CNF decides: PlayStation 2 by BOOT2, PlayStation by BOOT alone, and none otherwise |
| `DiscPlatform.FileReads` | crates/rom-weaver-checksum/src/platform_detection.rs:235-237 | the text looked into is the file behind the entry, as far as the image goes |
| `DiscDirectory.FramingMeans` | crates/rom-weaver-checksum/src/rom_identity.rs:260-278 | an image is raw exactly when it starts with a zero, ten bytes 0xFF and a zero; the mode byte gives the data offset |
| `DiscDirectory.DetectionIgnoresFraming` | crates/rom-weaver-checksum/src/rom_identity.rs:260-278 | sync pattern and mode byte choose the framing; the 2 MiB prefix of a raw image is recognised as its cooked image is, cut to the user data that prefix holds |
| `DiscDirectory.SmallImagesDetectAlike` | crates/rom-weaver-checksum/src/rom_identity.rs:260-278 | a raw image of up to 891 sectors and its cooked image are recognised as the same platform |
| `DiscDirectory.IdentityPrefix.Push` | crates/rom-weaver-checksum/src/rom_identity.rs:179-185 | the prefix is the first 2 MiB of the stream and the count is its length, for every slicing |

## Left out

- MD5, SHA-1, SHA-256, BLAKE3, CRC32 and CRC32C: their inner workings and their library combine functions, which are
  taken to stand for the concatenation of the bytes fed.
- Opening, mapping, seeking and deleting files, the thread pool, a thread that cannot be started, and a worker that
  panics.
- Cancellation and the progress calls inside the plans; the tracker they call is modelled alone in `Progress`.
- The file range of a request (`ResolvedRange`): a source is the bytes of the range.
- The smaller limits of the 32-bit WebAssembly build.
- The six running words of the N64 CRC are kept as one value that is stepped word by word.
- HeaderRepair.RepairIsFixedPoint: speaks of the profiles that were planned; a file that is at once a valid GBA and N64
  image could have its N64 boot code changed by the GBA byte, which matters only to a profile that was not planned.
- VariantEngine.StreamingVariantChecksums.Update: counts the bytes without bound, where the source saturates at 2^64.
- Interning: the maps that are filled and renumbered in place are modelled as ordered sets, where an id is a position.
- The readers and writers of the string, game, set and alternate-name tables are functions on values, not loops over a
  cursor; those of the other tables are loops.
- PackBuild.Build: gives nothing beyond 2^32 provenance entries or games, where the source would cut set ids to 32 bits.
- JSON: the manifest's writer and reader are parameters, the reader inverting the writer; the provenance value is the
  list it holds.
- UTF-8: strings and member names are byte strings.
- PackCodec.RoundTrip: asks for lowercase digests of their own width, as the format's own reader produces; other
  hexadecimal text is encoded but does not return as it was.
- `matching_routes`, labels, catalogs, platform names and their aliases, and every report.
- The medium of a disc (CD, GD-ROM, DVD), UDF, PBP files and cartridges in `detect_rom_identity`.
- Sector offsets that would overflow a 32-bit address.
- EBP metadata after an IPS patch, and the permissive validation that skips empty runs and trailing bytes.
- Decoding, classifying and resolving cheat codes: a write is an offset, a value and a width.
- Match evidence text: a missing component is reported as itself.
