# A verified model of the ErgoFS image builder

ErgoFS writes EROFS images. This project models the part of it that decides
where every byte of an image goes and how the image is recognised as intact,
and proves properties of whole runs of that code.

* **The buffer-block allocator** (`Layout`, `LayoutInv`, `Mapping`, `Placement`,
  `Flushing`, `FlushOutcome`, `Runs`, `LiveData`, `Conservation`, `Reachable`,
  `Recency`, `Reserving`, `Buffers`). `Layout` gives each operation as a function on a value `State`;
  `Buffers` gives the manager, its blocks and its heads as objects whose methods
  have the loops and branches of the source, each proved to take the object from
  one `State` to the next. The invariant `Layout.Inv` says that the mapped
  blocks form a prefix of the list, that non-empty extents ascend below the
  tail, that heads are sorted and unshared, and that the buckets index exactly
  the mapped blocks. The lemmas about `State` say what this means for bytes: no
  byte has two heads, a mapped head never moves, what was written behind it is
  read back for as long as it lives and reaches the image, and padding never
  meets data. The block count covers everything and never exceeds what the
  requests need on their own. The choice of a block is stated twice: as the best
  fit of a plain scan, and in the quantities that the code compares.
* **The fragment dedupe store** (`Fragments`, `FragmentStore`): an append-only
  file and a table of remembered tails, the search for the longest match, and
  the run invariants that every reference ever handed out still decodes and that
  no remembered tail is missed.
* **CRC-32C and the superblock** (`Crc32c`, `CrcPowers`, `CrcErrors`,
  `LittleEndian`, `SuperBlocks`, `SuperBlockImage`, `Corruption`): the bitwise
  checksum with the reflected polynomial of section 12.1 of RFC 3720 (without
  that standard's final complement), its error detection, both superblock
  serializers, the checksum step, and exactly which four-byte errors in a
  superblock it misses. What a reader finds in the bytes is stated on its own,
  field by field (`SuperBlockImage.Describes`). `FinishedImage` joins the allocator and the superblock:
  what was written is in the finished image.
* **The circular list** (`LinkedList`): the pointer operations refine finite
  sequences.
* `Rounding` has the mask and rounding arithmetic, with machine-word wrap-around
  written out where the source relies on it.

`dafny verify dfyconfig.toml` checks the whole project.

## What turned out not to hold

* `BDrop` with revocation can leave an empty mapped block above the tail:
  `Runs.DropKeepsOrderIff` gives the exact condition and
  `Reachable.OrderCanBreak` a run of six calls. The extents that hold bytes stay
  in order in every run (`Reachable.ReachableLayout`).
* A flush can move the end of the image although nothing is added, when it visits
  an empty block that such a drop left above the tail:
  `Conservation.FlushConservesIff` gives the exact condition and
  `Reachable.FlushCanMoveEnd` the run. The upper bound on the size of the image
  holds nevertheless in every run (`Conservation.ImageIsBounded`).
* For blocks of 512 and 1024 bytes the checksum step leaves the superblock as it
  was: it writes back only the first block, and the superblock lies behind it
  (`SuperBlockImage.ChecksumVerifiesIff`). For the same sizes the `WriteSuperblock`
  method stores beyond its buffer (`SuperBlockImage.WriteSuperblock`).
* The two superblock writers never agree on the directory block bits
  (`SuperBlockImage.WritersAgreeIff`). For one and the same record the
  hand-written stores and the serialization of `ToDisk` do agree.
* A few four-byte errors in a superblock go unnoticed: they lie at position 1030,
  half in the checksum field and half behind it, and cancel in the checksum.
  `Corruption.FourByteErrorPassesIff` lists them for every block size and says
  that all other four-byte errors, at any position, are noticed;
  `Corruption.FourBytesCanPass` puts one into any image.
  `SuperBlockImage.UndetectedIff` gives the condition for errors of any extent.
* A match that covers all of a remembered item but not the whole file stops at
  the start of the item, although the packed file may go on matching in front
  of it (`Fragments.ShortMatchExactIff`, `Fragments.SearchCanStopShort`). A match
  that leaves memory stops at the last whole chunk, unless it reaches the start
  of a file (`Fragments.LongMatchExactIff`, `Fragments.LongMatchCanStopShort`).

## Where the model follows the intent of the code

* A link leads back to the object that owns it. `ContainerOf`
  (pkg/types/list.go:288-336) builds a new object instead; `BufferBlockFromList`
  returns the owner, and the model does so everywhere.
* `Balloc` is the search of `BfindForAttach`, or else the new block of
  pkg/types/internal.go:155-172, followed by `BattachInternal`. The second search
  and the placement at pkg/types/internal.go:184-230 bypass that logic.
* `BhBalloon` (pkg/types/internal.go:262-268) grows the last head of a block
  without linking it a second time.
* `ErofsBfree` (pkg/types/helper.go:165-187) frees in any case, and the last
  mapped block moves back to its predecessor in the block list. The early return
  for an empty block is read as an assertion; `Flushing.RetiredBlockIsEmpty` says
  when a flushed block meets it.
* Every slot of the fragment hash table starts as an empty list.

## Standing assumptions

* Blocks have 512, 1024, 2048 or 4096 bytes.
* A request has a type and an alignment that `GetAlignSize` returns, and sizes
  whose sum stays 4096 below the 32-bit limit.
* The image leaves room: no address handed out reaches the null address.
  `Layout.Fits` states this for a state and `Placement.Room` for a request.
* Heads and blocks that are attached or inserted are not linked anywhere yet.
* A file whose tail is to be stored has an inode without a fragment.
* Device writes, and reads other than those of the match extension, are
  complete. There the parameter `io` says which reads succeed.

## Model

| member | source | states |
|---|---|---|
| `Rounding.RoundUpLeast` | pkg/types/utils.go:22-27 | `RoundUp` is the least multiple of `y` not below `x` |
| `Rounding.RoundUpFormsAgree` | pkg/types/utils.go:17-27 | the mask form `Round_Up`, with its 32-bit wrap at zero included, equals the division form wherever 32 bits suffice |
| `Rounding.MaskIsMod` | pkg/types/helper.go:254-259 | masking bit by bit with `blksiz - 1` is reduction modulo the block size |
| `Rounding.InBlockRounding` | pkg/types/helper.go:254-259 | rounding inside the last block differs from rounding the whole offset by exactly the base of that block, also at offset zero where `boff - 1` wraps |
| `Rounding.BoundaryTestExact` | pkg/types/helper.go:254-263 | the sign `oob` compares the end of the request with the end of the extent the block already has, for every offset and every alignment dividing the block size |
| `Rounding.NoGrowthWithinExtent` | pkg/types/helper.go:268-306 | when `oob <= 0` the rounded size of the block does not change, so leaving the tail alone is right |
| `Rounding.ReturnedFill` | pkg/types/helper.go:310-310 | the returned value is the fill of the last block, in 1..blksiz, congruent to the new offset |
| `Placement.AttachSucceedsIff` | pkg/types/helper.go:250-310 | a request is taken if and only if it ends within the blocks the buffer block has, or the block is not mapped, or it is the last mapped one and ends at the tail; the result is then the fill of the last block, and -22 otherwise |
| `LayoutInv.AttachCases` | pkg/types/helper.go:262-299 | a successful attach leaves the rounded size alone, or touches an unmapped block, or extends the last mapped block whose end is the tail, and then moves the tail with it |
| `LayoutInv.AttachInv` | pkg/types/helper.go:250-311 | an attach keeps the mapped prefix, the order of extents, the sorted heads and the index |
| `Buffers.BufferManager.BattachInternal` | pkg/types/helper.go:250-311 | return value for every input; a dry run and a failed call change nothing; a real call makes exactly the modelled new state, with 64-bit and 32-bit arithmetic written out |
| `Buffers.BufferManager.BupdateMapped` | pkg/types/helper.go:233-247 | a mapped block moves to the end of the bucket of its type and fill, an unmapped one stays in none |
| `LayoutInv.Relink` | pkg/types/helper.go:233-247 | after the move the index is exact again, provided it was exact for every other block |
| `LayoutInv.ExactlyOneBucket` | pkg/types/helper.go:233-247 | a mapped block is in the bucket of its type and fill, once, and in no other; an unmapped one is in none |
| `Recency.ReachableRecency` | pkg/types/helper.go:233-247 | in every state reached from `ErofsBufferInit` each bucket lists its blocks in the order in which they were last updated, by an attach or by being mapped |
| `Buffers.AlignSizesDivide` | pkg/types/helper.go:319-342 | every alignment handed out divides the block size and belongs to a DATA or META request; any other type gives -EINVAL |
| `Buffers.BallocAligns` | pkg/types/helper.go:319-342 | over every run a mapped inode starts at a multiple of 32 bytes in the image, an extended attribute of 4, a device slot of 128, data and directories at the start of a block; only data requests get data blocks |
| `Placement.IndexedBlockFits` | pkg/types/helper.go:44-88 | for a block in front of the last mapped one the dry run succeeds if and only if its fill is between one and the rounded-down start of the bucket search, and then everything ends within its block |
| `Placement.BucketHead` | pkg/types/helper.go:46-88 | the four panics and the error branch of the bucket loop are unreachable; the one head that is passed over is the last mapped block |
| `Placement.HighestBucketWins` | pkg/types/helper.go:44-93 | the first head met from the top bucket gives the greatest resulting fill among all indexed blocks that can take the request |
| `Placement.NoIndexedBlock` | pkg/types/helper.go:44-93 | when the bucket search finds nothing, a plain scan over the blocks in front of the last mapped one finds nothing either |
| `Placement.WalkStep` | pkg/types/helper.go:96-162 | the walk from the last mapped block replaces the choice only for a strictly greater fill, and then the choice is the best seen so far |
| `Placement.BestFitIsUnique` | pkg/types/helper.go:18-162 | the preference that defines the best fitting block leaves no two candidates |
| `Placement.RefusedBlock` | pkg/types/helper.go:96-162 | in the quantities of the code: a walked block that takes the request with its inline part whole is refused only if it would be filled less than it is and less than a new block; an indexed one only for a request of a block or more or behind the last mapped block in its bucket |
| `Placement.ChosenBlock` | pkg/types/helper.go:18-162 | what is chosen has the type and a partly filled last block, takes the request, and never meets both of those comparisons; an indexed choice is the head of its bucket |
| `Placement.ChosenBeatsWalked` | pkg/types/helper.go:96-162 | no walked block that is not refused would be filled more than the choice, and none in front of a walked choice as much |
| `Placement.ChosenBeatsIndexed` | pkg/types/helper.go:44-93 | an indexed block that could have been taken is filled less than a walked choice, and no more than an indexed one |
| `Recency.ChoiceIsOldest` | pkg/types/helper.go:46-58 | of all mapped blocks of the type and fill of an indexed choice the choice is the one whose last update is longest ago |
| `Buffers.BufferManager.TryBucket` | pkg/types/helper.go:46-88 | one round of the bucket loop with the four panics and the error branch as assertions: the head of the bucket is passed over only if it is the last mapped block |
| `Buffers.BufferManager.FindInBuckets` | pkg/types/helper.go:44-93 | the bucket loop: the block it returns is indexed and eligible, and no bucket above offers one |
| `Buffers.BufferManager.BfindForAttach` | pkg/types/helper.go:18-162 | the block returned is the best fit of a plain scan over the whole list; no block is returned only if none is eligible or the request asks for a block of its own; in the quantities of the code, a walked block that takes the request is passed over for a new one only when both comparisons are strict, and none for which they are is returned; ENOSPC exactly when the inline part cannot fit |
| `Placement.ChosenBlockTakesRequest` | pkg/types/helper.go:78-88 | a chosen block takes the real attach at once, with the value of the dry run, and the required extension and the inline part end within one block |
| `Placement.NewBlockTakesRequest` | pkg/types/internal.go:155-172 | a new block takes any request, and the fill it then has is the one the search compared against |
| `Mapping.NewBlockAddress` | pkg/types/internal.go:155-172 | a new data block will be mapped next, at the tail address, and any other new block behind everything that is not mapped yet |
| `Placement.GrowthBound` | pkg/types/helper.go:295-306 | a request adds at most the blocks that its bytes need on their own |
| `Placement.AttachFits` | pkg/types/helper.go:295-306 | if that many block addresses are left, no address after the attach reaches the null address |
| `Buffers.BufferManager.constructor` | pkg/types/buffer.go:74-90 | the new manager satisfies the invariant and is the empty state with 2 x 4096 empty buckets |
| `Buffers.BufferManager.NewBuffer` | pkg/types/internal.go:155-172 | a data block goes right behind the last mapped block, any other to the end of the list; nothing else changes |
| `Buffers.BufferManager.Balloc` | pkg/types/internal.go:124-172 | a request ends in the best fitting block or else in a new one at the right place, with a fresh head attached there; there is none exactly for an unknown type or an inline part that cannot fit |
| `Buffers.BufferManager.Battach` | pkg/types/internal.go:234-259 | a further head is attached to the block of a last head, and only of a last head; otherwise nothing changes |
| `Buffers.BufferManager.BhBalloon` | pkg/types/internal.go:262-268 | the last head of a block grows; no head is linked twice; any other head gives an error and no change |
| `Mapping.MapUptoFacts` | pkg/types/internal.go:271-303 | `MapBh` gives the blocks it maps consecutive, gap-free addresses from the old tail on, changes nothing else, and stops at the block asked for, so its panic is never hit |
| `Mapping.MapUptoInv` | pkg/types/internal.go:271-323 | mapping any number of blocks keeps the invariant |
| `Mapping.MappingConserves` | pkg/types/internal.go:271-303 | mapping does not change where the finished image ends; with everything mapped the tail is the old tail plus the rounded sizes of the unmapped blocks |
| `Mapping.BlockCountCoversHeads` | pkg/types/buffer.go:140-142 | the block count after `MapBh(bmgr, nil)` covers the bytes of every head |
| `Mapping.HeadsDisjoint` | pkg/types/internal.go:326-346 | no byte of the image belongs to two heads |
| `Mapping.ByteHasHead` | pkg/types/internal.go:326-346 | and every byte from the start of the first head of a mapped block to the end of its data belongs to one |
| `Buffers.BufferManager.MapBhInternal` | pkg/types/internal.go:306-323 | an unmapped next block gets the tail address and becomes the last mapped one, the tail rises to the end of the extent, and that end is returned |
| `Buffers.BufferManager.MapBh` | pkg/types/internal.go:271-303 | the address of a mapped block, or the tail after mapping everything up to the block; the panic stands as an assertion |
| `Buffers.BufferManager.BhTell` | pkg/types/internal.go:326-346 | the byte position of the start or of the end of a head, where the end is the start of the next head or the end of the data |
| `LayoutInv.FreeInv` | pkg/types/helper.go:165-187 | taking a block out keeps the invariant, and the last mapped block becomes the predecessor in the list |
| `LayoutInv.DropInv` | pkg/types/internal.go:349-376 | dropping a head, with or without giving the address back, keeps the invariant |
| `Buffers.BufferManager.ErofsBfree` | pkg/types/helper.go:165-187 | the block leaves the list and its bucket, the last mapped block moves back, and nothing else changes |
| `Buffers.BufferManager.BDrop` | pkg/types/internal.go:349-376 | the head leaves its block; an emptied block is freed and either gives its address back or is counted as metadata |
| `Runs.DropOutcome` | pkg/types/internal.go:349-376 | the state after every drop: the tail goes back to the address of the block if and only if that is asked for, the head was the last one and the block ends at the tail, and otherwise a metadata block is counted |
| `Runs.DropKeepsOrderIff` | pkg/types/internal.go:349-376 | a drop keeps all extents ascending below the tail if and only if it does not give back the address of a non-empty block that has a mapped block behind it |
| `Reachable.OrderCanBreak` | pkg/types/internal.go:354-376 | a concrete run of six calls from the initial state after which an empty mapped block lies above the tail |
| `Flushing.FlushInv` | pkg/types/internal.go:10-100 | flushing keeps the invariant, also when a head refuses with EBUSY |
| `Flushing.FlushAccounts` | pkg/types/internal.go:27-96 | `MetaBlkCnt` grows, modulo 2^32, by the sum of the rounded sizes of the metadata blocks retired, and by nothing else |
| `Flushing.MetaBlocksSnoc` | pkg/types/internal.go:81-89 | that sum counts the blocks of type META without a head that skips the write, and no others |
| `Flushing.RetireDevice` | pkg/types/internal.go:27-96 | retiring a block zeroes exactly the bytes from the end of its data to the end of its extent |
| `Flushing.FlushKeepsMapped` | pkg/types/internal.go:27-96 | in every state a flush changes no byte of any head of a mapped block |
| `Flushing.FlushKeepsData` | pkg/types/internal.go:27-96 | no byte of the data of any block, mapped before the flush or by it, at the address it has or gets, is changed by a whole flush |
| `Flushing.FlushKeepsHeads` | pkg/types/internal.go:27-96 | so no byte of any head is changed, at the address the head has or gets when everything is mapped behind the blocks the flush visits |
| `Flushing.FlushZeroes` | pkg/types/internal.go:27-96 | every padding byte of every retired block, at the address it has or gets, is zero afterwards |
| `Flushing.RetiredBlockIsEmpty` | pkg/types/helper.go:168-170 | a retired block has no head left if and only if none of its heads lacked a flush operation: the emptiness read as an assertion |
| `FlushOutcome.FlushLeaves` | pkg/types/internal.go:27-96 | a flush that succeeds leaves of the blocks in front of the stop block exactly those with a head that skips the write, without the heads that ask to be dropped, and the rest of the list as it was |
| `FlushOutcome.FlushSucceedsIff` | pkg/types/internal.go:27-96 | it succeeds if and only if no head of a block in front of the stop block refuses, and gives -EBUSY otherwise |
| `Buffers.RunFlushOps` | pkg/types/internal.go:27-60 | the loop over the heads drops those that say so, keeps the others in order, and stops at the first that fails |
| `Buffers.BufferManager.FlushBlock` | pkg/types/internal.go:27-96 | one round of the outer loop: map, run the heads, and unless one skips the write zero the padding, count and free |
| `Buffers.BufferManager.ErofsBflush` | pkg/types/internal.go:10-100 | the whole flush up to a stop block is the recursive specification the lemmas above speak about, with its return code |
| `Runs.StepInv` | pkg/types/internal.go:124-376 | each of new block, attach, map, flush, drop, a flush operation set and data written behind a head keeps the invariant and the address limit |
| `Runs.RunInv` | pkg/types/internal.go:124-376 | every state of every run keeps them |
| `Runs.RunStrict` | pkg/types/internal.go:124-376 | over runs without a misplacing drop the extents of all mapped blocks, empty ones included, ascend and the tail bounds them |
| `Reachable.ReachableLayout` | pkg/types/buffer.go:74-90 | from `ErofsBufferInit` on, in every reachable state: mapped blocks are a prefix, no byte has two heads, and bucket membership is exact |
| `Reachable.ReachableOrder` | pkg/types/helper.go:250-311 | from `ErofsBufferInit` on, without a misplacing drop, extents ascend without overlap and the tail bounds them all |
| `Reachable.ReachableWithoutDrops` | pkg/types/helper.go:250-311 | in particular in every run without drops |
| `Reachable.ReachableFlush` | pkg/types/internal.go:27-96 | in every state reached from `ErofsBufferInit` a flush changes no byte of any mapped head |
| `Runs.RunOrigin` | pkg/types/helper.go:301-308 | every head after a run that did not issue it was there before, in the same block at the same offset, at the same address once there was one, and ends no earlier |
| `Runs.MappedHeadIsPinned` | pkg/types/internal.go:326-346 | the start of a mapped head never changes in any later run |
| `Runs.HeadsAreAligned` | pkg/types/helper.go:262-310 | in every state after its attach the start of a head is a multiple of the alignment of its request, in the block and in the image |
| `Runs.SuperblockStaysPinned` | pkg/types/buffer.go:93-114 | the superblock at byte zero stays there through every run that neither drops it nor lets a flush drop it, and no other head gets a byte below 1152 |
| `Buffers.BufferManager.WriteHead` | pkg/compression/compress.go:437-439 | a caller writes to the device behind the start of a head |
| `LiveData.WriteSpares` | pkg/compression/compress.go:437-439 | a write within one head reaches no byte of another |
| `LiveData.LiveBytesStay` | pkg/types/internal.go:326-346 | over every run the bytes of a mapped head that is still there change only by a write to it: no growth, map, flush or drop of anything else touches one |
| `LiveData.WrittenIsRead` | pkg/compression/compress.go:437-440 | what was written behind a head is read there after any run that keeps the head and does not write to it again |
| `LiveData.WrittenReachesImage` | pkg/compression/compress.go:437-440 | and it is in the image after the flush that follows, whether or not that flush drops the head |
| `FinishedImage.EnabledSpares` | pkg/types/superblkinfo.go:343-388 | the checksum step changes only the eight bytes of checksum and compatible features |
| `FinishedImage.EnabledDescribes` | pkg/types/superblkinfo.go:343-388 | so a reader finds the same values before and after it |
| `FinishedImage.SuperblockReadable` | pkg/types/buffer.go:117-183 | on any device, written at byte zero and summed: a reader finds the values and the block count, and the image verifies if and only if a block has at least 2048 bytes |
| `FinishedImage.FinishedReadable` | pkg/types/buffer.go:117-183 | the finished image of any state has a superblock with the values of the configuration and, as its number of blocks, the end of everything left after the flush |
| `FinishedImage.FinishingKeeps` | pkg/types/buffer.go:117-189 | flushing everything, mapping the rest, writing the superblock and enabling its checksum change no byte of any other head |
| `FinishedImage.WrittenIsInImage` | pkg/compression/compress.go:437-440 | end to end: what was written behind a head is in the finished image at the same place, whatever happened before, as long as the head lived until the last flush and was not written to again |
| `Conservation.StepConserves` | pkg/types/internal.go:124-376 | every step, in every state, moves the end of the finished image by exactly what it adds or gives back; a new block, mapping, setting an operation and writing move it nowhere |
| `Flushing.FlushLifts` | pkg/types/internal.go:27-96 | a flush is the same whether or not the tail is first raised to the ends of the mapped blocks it visits |
| `Conservation.FlushConserves` | pkg/types/internal.go:27-96 | a flush moves the end of the image exactly as far as the mapped blocks it visits end above the tail |
| `Conservation.FlushConservesIff` | pkg/types/internal.go:27-96 | so the end stays if and only if no mapped block that the flush visits, the refusing one included, ends above the tail |
| `Conservation.StrictFlushIsFree` | pkg/types/internal.go:27-96 | which is so in every state whose extents are in order |
| `Reachable.FlushCanMoveEnd` | pkg/types/internal.go:27-96 | a reachable state, and a flush of it that moves the end from block 0 to block 1 although nothing is added |
| `Conservation.RunConserves` | pkg/types/internal.go:271-376 | over every run the image ends where the additions of the single steps put it, however mapping and flushing were interleaved |
| `Conservation.ImageIsBounded` | pkg/types/helper.go:262-306 | packing never costs more than separate blocks, in any run: the image grows by at most every request rounded up on its own, alignment gaps, drops and raised tails included |
| `Conservation.RunCounts` | pkg/types/internal.go:81-89 | after any run `MetaBlkCnt` is, modulo 2^32, the sizes of the metadata blocks that its flushes retired and its drops freed without giving the address back |
| `Reachable.ReachableSize` | pkg/types/buffer.go:139-142 | from `ErofsBufferInit` on, for every run, the block count of the superblock is the start block plus that balance, and at most every request rounded up on its own |
| `Reachable.ReachableCount` | pkg/types/internal.go:81-89 | from `ErofsBufferInit` on `MetaBlkCnt` counts from zero |
| `Reserving.RevokeUndoes` | pkg/types/buffer.go:107-110 | mapping the first block and dropping its only head with revocation gives back the state before the reservation |
| `Buffers.BufferManager.ReserveSuperblock` | pkg/types/buffer.go:93-114 | on a fresh manager it succeeds if and only if the image starts at block zero; its block then holds 1152 bytes; otherwise the manager is as before |
| `Buffers.BufferManager.WriteSuperBlock` | pkg/types/buffer.go:117-189 | everything is mapped, a reader finds every value of the configuration and the end of the image as the block count where the superblock was written, the returned count is where the finished image ends, the superblock is written where its head is and the head is dropped, or without a head at byte zero |
| `Buffers.SuperblockEndToEnd` | pkg/types/buffer.go:117-183 | from any state with a reserved superblock: written at byte zero, its bytes 1060 to 1063 hold the block count of the finished image and the other fields the values of the configuration, and after the checksum step it verifies if and only if a block has at least 2048 bytes |
| `Crc32c.Crc32c` | pkg/types/helper.go:344-359 | the two nested loops compute the checksum function |
| `Crc32c.ErofsGetCrc32c` | pkg/types/helper.go:361-373 | so does the second copy, over the first `length` bytes: the two agree |
| `Crc32c.CrcAppend` | pkg/types/helper.go:344-373 | the checksum composes over concatenation |
| `Crc32c.BitLinear` | pkg/types/helper.go:344-359 | the bit step is linear over XOR |
| `Crc32c.BitInjective` | pkg/types/helper.go:344-359 | the bit step loses nothing, because the top bit of the polynomial is set |
| `Crc32c.FourBytesAreOneWord` | pkg/types/helper.go:344-359 | four byte steps equal 32 bit steps on the register and the little-endian word |
| `Crc32c.CrcInjective` | pkg/types/helper.go:344-359 | for fixed data the checksum determines the seed |
| `Crc32c.BurstDetected` | pkg/types/helper.go:344-373 | a change confined to four consecutive bytes changes the checksum, for every seed, length and position |
| `Crc32c.BitBurstDetected` | pkg/types/helper.go:344-373 | so does every burst of up to 32 bits, at whichever bit of a byte it begins |
| `Crc32c.ParityOfCrc` | pkg/types/helper.go:344-359 | the parity of the checksum is the parity of the seed and of all data bits |
| `Crc32c.OddErrorsDetected` | pkg/types/helper.go:344-359 | messages that differ in an odd number of bits never collide |
| `Crc32c.CrcLinear` | pkg/types/helper.go:344-359 | the checksum is linear over XOR in register and message together |
| `Crc32c.CrcDifference` | pkg/types/helper.go:344-359 | how two checksums differ depends only on how the messages differ |
| `Crc32c.FromAllOnes` | pkg/types/superblkinfo.go:376-376 | starting from all ones is starting from zero with the first four bytes inverted |
| `CrcErrors.KnownChecksum` | pkg/types/helper.go:344-359 | over 32 zero bytes the complement of the checksum is the first example of section B.4 of RFC 3720 |
| `SuperBlocks.FromDiskOfToDisk` | pkg/types/superblock.go:68-142 | reading back a converted record gives the record, for all field values |
| `SuperBlocks.ToDiskOfFromDisk` | pkg/types/superblock.go:68-142 | and the other way round |
| `SuperBlocks.DecodeEncode` | pkg/types/buffer.go:165-170 | the 128 bytes of the serialized record determine it |
| `SuperBlocks.EncodedFields` | pkg/types/superblock.go:40-65 | where each field of a record is in the 128 bytes, little-endian |
| `SuperBlockImage.RecordDescribes` | pkg/types/buffer.go:117-183 | the bytes of either writer hold at each place the value the format has there: block count, metadata start and all the others, the compression field chosen by bit one of the incompatible features, a zero checksum and the compatible features without bit zero |
| `SuperBlockImage.WrittenDescribes` | pkg/types/buffer.go:117-183 | wherever they are written on a device a reader finds them there, the block count 1060 bytes further on |
| `SuperBlockImage.WriteSuperblock` | pkg/types/superblkinfo.go:159-339 | every field is found at its place, with the block count modulo 2^32, or two if that is zero; the hand-written byte stores give zeros and the same 128 bytes as little-endian output of `ToDisk` for the same record; with blocks of 512 or 1024 bytes the first store is out of range |
| `SuperBlockImage.WritersAgreeIff` | pkg/types/superblkinfo.go:159-339 | the two writers give the same 128 bytes if and only if the block counts agree and the block size bits are zero, because only one of them fills the directory block bits |
| `SuperBlockImage.ChecksumBitMasked` | pkg/types/buffer.go:131-131 | clearing the checksum feature is rounding down to an even number |
| `SuperBlockImage.ChecksumBitSet` | pkg/types/superblkinfo.go:369-370 | setting it turns on the lowest bit |
| `SuperBlockImage.ErofsEnableSbChksum` | pkg/types/superblkinfo.go:343-388 | -EFAULT and no change without the magic number; otherwise the first block is rewritten with feature bit and checksum, which is the one that starts from zero over the inverted first four bytes, and that checksum is handed out |
| `SuperBlockImage.StoredSumIs` | pkg/types/superblkinfo.go:369-388 | the checksum of the source in terms of the register alone, and that blocks of at least 2048 bytes hold it in bytes 1028 to 1031 |
| `SuperBlockImage.VerifiesIff` | pkg/types/superblkinfo.go:343-388 | an image verifies if and only if it has the magic bytes e2 e1 f5 e0, the feature bit, and the checksum from zero over 1d 1e 0a 1f, four zeros and the bytes from 1032 to the end of the summed part |
| `SuperBlockImage.WrittenIsUnsummed` | pkg/types/buffer.go:117-183 | a superblock as written has the magic number, a zero checksum and no checksum feature, whatever was on the device |
| `SuperBlockImage.ChecksumVerifiesIff` | pkg/types/superblkinfo.go:343-388 | after the checksum step zeroing the field and recomputing reproduces the stored value with the feature bit set, if and only if a block has at least 2048 bytes |
| `SuperBlockImage.UndetectedIff` | pkg/types/superblkinfo.go:343-388 | of all errors in an image that verifies, exactly those stay undetected that spare the magic number and the feature bit and whose own checksum cancels what they do to the stored one |
| `SuperBlockImage.CorruptionDetected` | pkg/types/superblkinfo.go:343-388 | every change confined to four bytes of the checksummed part is detected, those apart that reach out of the checksum field at its end |
| `Corruption.FourByteErrorPassesIff` | pkg/types/superblkinfo.go:343-388 | of all changes confined to four bytes of the checksummed part, at any position, exactly the listed ones at position 1030 stay undetected: three patterns with blocks of 512 bytes, one with every larger size |
| `Corruption.FourBytesCanPass` | pkg/types/superblkinfo.go:343-388 | for every block size and every image that verifies a change that stays undetected; with blocks of 4096 bytes a6 9d in bytes 1032 and 1033 with c7 5f in bytes 1030 and 1031 |
| `Corruption.ErrorSum` | pkg/types/helper.go:344-359 | what an error in the four bytes behind the checksum field does to the checksum is its word after the bit steps of the remaining bytes |
| `CrcPowers.SquareBits` | pkg/types/helper.go:344-359 | squaring a register modulo the polynomial doubles the number of bit steps it has made |
| `CrcErrors.MulIs` | pkg/types/helper.go:344-359 | bit steps on a word of few bits multiply it with the power of the register they compute |
| `CrcErrors.OneByteRun` | pkg/types/helper.go:344-359 | over the lengths that occur no one-byte error leaves the low byte of the checksum clear |
| `CrcErrors.TwoByteRun` | pkg/types/helper.go:344-359 | the two-byte errors that leave the two low bytes clear are exactly listed |
| `CrcErrors.CancelsIs` | pkg/types/helper.go:344-359 | and the listed ones have the listed checksums |
| `CrcErrors.ThreeByteRun` | pkg/types/helper.go:344-359 | no three-byte error leaves the three low bytes clear |
| `SuperBlockImage.OddCorruptionDetected` | pkg/types/superblkinfo.go:343-388 | so is every change of an odd number of bits of data and stored checksum together |
| `SuperBlockImage.FiveBytesCanPass` | pkg/types/superblkinfo.go:343-388 | in every image that verifies some change of the checksum field and the byte behind it stays undetected |
| `Fragments.HashIsMask` | pkg/types/dedupe.go:57-58 | the hash slot is the low 16 bits of the checksum |
| `Fragments.LcsIsLongest` | pkg/types/dedupe.go:120-126 | the longest common suffix by recursion: a common suffix of length n exists if and only if n is not above it |
| `Fragments.MatchSound` | pkg/types/dedupe.go:103-156 | every match length found is a real match with the packed file ending at the candidate, also when reads fail |
| `Fragments.ShortOrLong` | pkg/types/dedupe.go:103-128 | the search leaves memory if and only if all that is in memory matches the end of the remembered data |
| `Fragments.ShortMatchExact` | pkg/types/dedupe.go:103-127 | if it does not, the length is the exact longest common suffix of the file and the remembered data |
| `Fragments.ShortMatchExactIff` | pkg/types/dedupe.go:103-156 | then it is the longest common suffix with the packed file if and only if the file does not end with all of the remembered data and one more byte that lies in front of them in the packed file |
| `Fragments.SearchCanStopShort` | pkg/types/dedupe.go:103-156 | an input for which it stops short |
| `Fragments.LongMatchExact` | pkg/types/dedupe.go:127-156 | if it does, and every read succeeds, the length is the longest common suffix with the packed file when that reaches the start of either file, and otherwise as much of it as fills whole chunks in front of memory |
| `Fragments.LongMatchExactIff` | pkg/types/dedupe.go:127-156 | so it is the longest common suffix if and only if that reaches the start of either file or ends with a chunk |
| `Fragments.LongMatchNearMaximal` | pkg/types/dedupe.go:127-156 | and always less than 16384 bytes short of it |
| `Fragments.LongMatchCanStopShort` | pkg/types/dedupe.go:127-156 | an input for which it is one byte short |
| `Fragments.ScanIsBest` | pkg/types/dedupe.go:92-177 | the result of the search is a real match and no candidate of the slot has a longer one |
| `Fragments.ScanIsFirst` | pkg/types/dedupe.go:92-177 | of the candidates with the longest match the first one in the slot is taken |
| `Fragments.BeginOk` | pkg/types/inode1.go:218-244 | one dedupe-or-pack step keeps every remembered item equal to its slice, only appends, and gives a reference that decodes |
| `Fragments.BeginDeduped` | pkg/types/inode1.go:218-244 | in whole-inode mode the reference is all of the file or nothing, and the file is packed exactly if all files are and no match covers it; in full mode any match is the reference and nothing is appended |
| `Fragments.BeginPlain` | pkg/types/inode1.go:239-244 | a file that is not deduplicated is packed if all files are, the packed file itself excepted, and the kept checksum stays |
| `Fragments.PackRemembers` | pkg/types/inode1.go:278-380 | what is remembered of a packed file: its last 262144 bytes at their position, at the end of the slot of the kept checksum, if it was mapped and has more than 16 bytes |
| `Fragments.RunDecodes` | pkg/types/inode1.go:218-244 | over any sequence of files every remembered item stays right and every reference handed out decodes to the end of its own file after all later steps |
| `Fragments.RunKeepsItems` | pkg/types/dedupe.go:183-219 | nothing that was remembered is forgotten or changed by later steps |
| `Fragments.PackedFileIsFound` | pkg/types/dedupe.go:121-177 | after a file of more than 16 bytes was packed and remembered, searching for the same content finds all of it, after any later steps and beyond the 256 KiB window |
| `Fragments.BeginAgain` | pkg/types/inode1.go:218-244 | beginning a packed and remembered file again, after any steps, refers to all of it and appends nothing |
| `Fragments.SharedTailIsFound` | pkg/types/dedupe.go:19-177 | a file that shares at least 16 bytes at its end with a packed and remembered one finds at least as much of them as lies in the last 256 KiB |
| `Fragments.NothingMissed` | pkg/types/dedupe.go:19-177 | after any sequence of files whose tails are summed before they are remembered, every remembered tail of the whole table with the last 16 bytes of a file gives a match of at least 16 bytes and no longer than the one found |
| `Fragments.ShortestMatch` | pkg/types/dedupe.go:24-26 | no match of less than 16 bytes is found, and none for a file of at most 16 bytes |
| `Fragments.TofCrcIs` | pkg/types/dedupe.go:28-38 | the kept checksum in terms of the register alone, over the last 16 bytes |
| `FragmentStore.PackedInode.MatchInMemory` | pkg/types/dedupe.go:103-126 | the byte loop from the end computes the longest common suffix in memory |
| `FragmentStore.PackedInode.MatchCandidate` | pkg/types/dedupe.go:103-156 | with the chunk loop in front, whose offset never becomes negative, it computes the match length of a candidate |
| `FragmentStore.PackedInode.FragmentsDedupeFind` | pkg/types/dedupe.go:52-180 | the inode gets the reference of the search, or keeps its fields when there is none |
| `FragmentStore.PackedInode.FragmentsDedupe` | pkg/types/dedupe.go:19-49 | the kept checksum is that of the last 16 bytes, and files of at most 16 bytes are left alone |
| `FragmentStore.PackedInode.FragmentsDedupeInsert` | pkg/types/dedupe.go:183-219 | the last 256 KiB are remembered at their own position, at the end of their slot |
| `FragmentStore.PackedInode.PackFileFromFd` | pkg/types/inode1.go:278-380 | the file is appended at once or in pieces of 32 KiB, and remembered only if it was mapped into memory |
| `FragmentStore.PackedInode.BeginCompressedFile` | pkg/types/inode1.go:218-244 | on an inode without a fragment the step on the objects is the step the run lemmas speak about, and keeps the store right |
| `LinkedList.InitListHead` | pkg/types/list.go:16-19 | the ring of an empty sequence |
| `LinkedList.NextPrevInverse` | pkg/types/list.go:16-57 | `Next` and `Prev` are inverse to each other at every node of a ring |
| `LinkedList.RingIsUnique` | pkg/types/list.go:16-19 | the pointers determine the sequence of entries |
| `LinkedList.ListAdd` | pkg/types/list.go:29-44 | an unlinked entry is inserted behind a node at any position of the ring |
| `LinkedList.ListAddTail` | pkg/types/list.go:34-44 | an unlinked entry is inserted in front of a node; in front of the head that is appending |
| `LinkedList.ListDel` | pkg/types/list.go:47-57 | the entry is removed from the sequence and its pointers are nil |
| `LinkedList.IsListEmpty` | pkg/types/list.go:65-67 | the test is true exactly for the empty sequence |
| `LinkedList.ListIsLast` | pkg/types/list.go:60-62 | the test is true exactly for the last entry |
| `LinkedList.ListSpliceTail` | pkg/types/list.go:70-86 | the sequences are concatenated; the head of a non-empty source list is left as it was and no longer in a ring with its entries |
| `LinkedList.VisitedIs` | pkg/types/list.go:189-206 | a traversal visits each entry once and ends with the first that asks for it |
| `LinkedList.ListForEachInList` | pkg/types/list.go:189-195 | the plain traversal visits exactly those entries |
| `LinkedList.ListForEachInListSafe` | pkg/types/list.go:198-206 | the safe traversal visits the entries of the original list, and afterwards exactly the visited entries that the callback deleted are gone |

The functions of `Layout`, `Fragments.Begin`, `Fragments.Find`, `Crc32c.Crc` and
`SuperBlocks.ToDisk` are the specifications these members speak about. The
methods of `Buffers` split `BattachInternal`, `ErofsBfree`, `BDrop` and
`ErofsBflush` into steps (`AttachTest`, `Grow`, `MoveTail`, `CutOut`, `Forget`,
`UnlinkHead`, `FlushHead`, `RetireBlock`, `SearchBlocks` and others) that need no row of their own.

## Left out

- Buffers.BufferManager.Balloc: does not model the second search and the head placed at offset `size` (pkg/types/internal.go:184-230), which bypass the attach logic and break the layout.
- Buffers.BufferManager.Battach: is stated for the types and sizes of the standing assumptions; for an unknown type the source goes on with an alignment of 2^32 - 22, which divides no block size.
- Buffers.BufferManager.BhBalloon: does not model the second linking of the head by pkg/types/internal.go:267; in the one place that calls it, on an otherwise empty block, the offsets are the same.
- Buffers.BufferManager.ErofsBfree: does not model the early return for an empty block nor the predecessor looked up through the bucket list (pkg/types/helper.go:168-177).
- Buffers.BufferManager.WriteSuperBlock: does not model the return code of a failed device write; every write is complete.
- Buffers.BufferManager.ReserveSuperblock: is stated for a manager without blocks, the only state it is called in.
- Runs.RunInv: the blocks of a run stay below the null address, so the wrap-around of 32-bit addresses in an image of 2^32 blocks is not modelled; the metadata count does wrap.
- Placement.HighestBucketWins: passes over buckets headed by the last mapped block, as the source does; blocks further back in such a bucket are not candidates.
- FragmentStore.PackedInode.PackFileFromFd: does not model failing reads and writes; whether the file can be mapped into memory is a parameter.
- LinkedList.ListForEachInListSafe: the callback may delete the current entry and end the traversal, and nothing else.
- The lists inside the allocator and the hash slots are sequences in fields of the objects; the pointer rings are proved separately in `LinkedList`, and entries in two lists at once are not modelled.
- File and device input and output, memory mapping, temporary files and short writes (`ErofsIoPwrite` advances both the slice and the index, pkg/types/io.go:209-222).
- Compression, hint files and extents (pkg/compression, pkg/types/compressHints.go).
- Inode attributes, directories, extended attributes, device numbers and UUIDs: single assignments or random values.
- Feature flags other than the checksum bit and the compression configuration bit.
- `SuperBlock.CalculateChecksum`: a library checksum with another polynomial, not used when an image is made.
- Reflection helpers, debug output and the command line.
