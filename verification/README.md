# Kernel storage and display models

A Dafny model of the parts of the Rany_OS kernel that carry state through
loops, lists and interleavings, with proofs of what they keep. Each class follows
the Rust code it models statement by statement; its methods are specified by
functions on values, and the promises are lemmas about those functions or
invariants that every method keeps. `dafny verify dfyconfig.toml` checks all of it.

Where arithmetic can overflow or underflow, the model is that of the default build
(the `dev` profile of Cargo.toml), in which such an operation panics.

| file | models |
|---|---|
| `Wrappers.dfy`, `Words.dfy` | options, results and outcomes with panics; machine words |
| `Bits.dfy`, `Dyadic.dfy` | bit length, exclusive or, self-aligned power-of-two blocks and their tilings |
| `BuddyLists.dfy`, `BuddyTheorems.dfy`, `BuddyPartition.dfy`, `BuddyAlignment.dfy`, `BuddyHeap.dfy` | the kernel heap's buddy allocator: free lists as values, theorems over whole runs on aligned and on arbitrary bases, and the allocator itself with its lists threaded through heap memory |
| `Chunks.dfy`, `Storage.dfy` | positions as chunk and offset; sectors and buffers |
| `Fat32Table.dfy`, `Fat32.dfy` | the FAT32 table, its two copies on disk, cluster chains and file reads |
| `Ext2.dfy` | ext2 block mapping and file reads |
| `Terminal.dfy` | the scrolling terminal buffer |
| `PageCache.dfy` | the page cache with least-recently-used eviction |
| `Bresenham.dfy`, `LineOverflow.dfy` | the line algorithm, and exactly which lines it can draw in 32-bit arithmetic |
| `Color.dfy`, `Framebuffer.dfy` | pixels in display memory, clipping and lines |
| `Tga.dfy`, `TgaFiles.dfy` | TGA image decoding, and writing files to decode |
| `Histogram.dfy` | the lock-free latency histogram as a step machine |

## Main results

- **Buddy allocator.** In every run of allocations, releases and client writes the
  free and live blocks are self-aligned, disjoint and tile exactly the area that
  initialisation registered, and no two sibling blocks are both free. Every live block
  honours its layout. A request is refused exactly when no wholly free aligned
  region of a block size as large as its size and alignment exists. Allocating and releasing at once restores every chain,
  order included. A heap emptied after any history has the free blocks it started with.
- **Where that needs the heap base.** Initialisation cuts blocks at absolute
  multiples of their size, but buddies are paired by their offset from the base.
  For every base and size, layouts are honoured in all runs if and only if the base,
  rounded up to 64, is a multiple of every block size that fits. The same condition
  decides whether in all runs requests are served exactly when there is room for them,
  and whether every emptied heap has its first free blocks again. For any other
  base client histories that break each promise are constructed. On every
  base merges join neighbours, so free and live blocks still partition the heap, no
  block is handed out twice and client data survives.
- **FAT32.** The cached table equals the decoded bytes of both copies after any
  sequence of operations, if the copies agreed at mount. A write keeps that exactly
  when the value fits in 28 bits, and keeps the reserved bits of an entry, as the
  specification asks, exactly when they were zero.
  Freeing a chain ends for every table content, and the free counter stays exact
  if and only if the chain is well formed. Disjoint chains stay disjoint and
  free plus used clusters are conserved over whole runs. Freeing a file leaves all
  others' chains and contents alone. A read returns the requested slice of the
  concatenated clusters, and its result is pinned for every chain, disk and table. The
  table is the copy's bytes read as little-endian words, and all clusters in order are the
  disk's bytes from the data area on.
- **ext2.** Logical blocks correspond one to one to direct, indirect, double and
  triple slots. The block found for a number is that entry of one list: the inode's
  pointers, the words of the indirect block, and the words of each block listed in
  the double-indirect block. The file is those blocks' contents in a row. A read returns the bytes of the sparse flat file or the first error in
  its range, and fails as unsupported exactly when it meets a block in the
  triple-indirect area first. The block number is cut to 32 bits before mapping; the
  exact offsets at which that changes the result are proved, and one is reached.
- **Terminal.** After any text the screen is the last window of an endless canvas
  that never scrolls, and the scrollback is the up to 1000 canvas rows above it. A
  buffer without rows panics exactly when a text needs a second row. Plain text fills
  rows from left to right, and a tab is the fewest spaces up to a multiple of eight.
- **Page cache.** A hit returns the bytes of the latest insert. In every run a dirty or
  pinned page stays cached with its bytes until it is inserted over, invalidated or
  unpinned while clean. Eviction removes only
  clean unpinned pages, oldest first over all files; the order is exact until the
  64-bit clock wraps, and a page stamped with its last value is never evicted. Accounted size is the page size
  times cached pages plus inserts over cached pages, so it is exact if and only
  if no insert replaced a page; inserting one page twice shows the difference.
- **Line drawing.** The line ends exactly at its end point after max(|dx|, |dy|) + 1
  points, each within half a pixel of the ideal line, and exactly its visible pixels
  take the colour's bytes in all five pixel formats. Some computation overflows 32 bits
  if and only if a closed form of the two sides and their greatest common divisor
  says so; over all lines of length `n`, none overflows if and only if
  `2(n + n/2 - 1)` is below 2^31. Drawing panics exactly on those lines, and where a clip
  rectangle's edge, with its size cast to a signed number, leaves the 32-bit range.
- **TGA.** The run-length branch builds the same image as the uncompressed branch
  does on the unpacked bytes if and only if the image is top-down or no packet crosses
  the end of the image; otherwise it panics. With exactly the image's pixels they always
  agree. For every picture, row order, pixel size, identifier and colour map, the file
  written from it, uncompressed or cut into any packets, decodes to that picture; it
  fails exactly when the image's bytes cannot be counted in 32 bits.
- **Histogram.** In every interleaving, with spurious compare-exchange failures, the
  minimum never rises and the maximum never falls; when all calls have finished,
  buckets, sum, count, minimum and maximum are exact. Without spurious
  failures `n` calls finish within `7n(n + 1) + n` steps under any schedule.

## Model

| member | source | states |
|---|---|---|
| `Bits.BitLengthBounds` | src/memory.rs:135-142 | word width minus leading zeros is the exact binary order of magnitude |
| `Bits.XorFlipsBit` | src/memory.rs:283-287 | exclusive or of a multiple of 2^n with 2^n turns an even multiple into the next and an odd one into the previous |
| `Bits.XorKeepsLow` | src/memory.rs:283-287 | exclusive or with a multiple of 64 leaves the six low bits alone |
| `Bits.XorMovesByBit` | src/memory.rs:283-287 | exclusive or with one bit adds that bit's value or takes it away |
| `Dyadic.SizeIsShift` | src/memory.rs:146-148 | the block size of an order is 64 shifted left by the order |
| `Dyadic.NestedOrDisjoint` | src/memory.rs:87-129 | two self-aligned blocks are nested or disjoint |
| `Dyadic.CoveredRegionInOneBlock` | src/memory.rs:261-279 | in a fully merged set of blocks every covered self-aligned region lies inside a single block |
| `Dyadic.MergedTilingUnique` | src/memory.rs:248-279 | an interval has at most one fully merged tiling by blocks of order at most 16 |
| `Dyadic.SplitTiles` | src/memory.rs:237-245 | replacing a block by its halves keeps a tiling |
| `Dyadic.MergeTiles` | src/memory.rs:261-279 | replacing two halves by their parent keeps a tiling |
| `BuddyLists.SizeToOrderIsCeilLog` | src/memory.rs:135-142 | the order of a size is the least order whose block holds it, for every size |
| `BuddyLists.OrderForIsLeast` | src/memory.rs:205-215 | the order of a layout is the least whose block is as large as its size and as its alignment |
| `BuddyLists.LargestBlock` | src/memory.rs:214-219 | a layout has an order up to 16 exactly when size and alignment are at most 4 MiB |
| `BuddyLists.FirstFit` | src/memory.rs:221-233 | the order found is the lowest non-empty one at or above the wanted order, 17 if there is none |
| `BuddyLists.BuddyFromLo` | src/memory.rs:283-287 | a base between two 64-byte boundaries pairs blocks as the next boundary does |
| `BuddyLists.BuddyIsSibling` | src/memory.rs:283-287 | on an aligned base the buddy address of one half is the other half, both ways |
| `BuddyLists.FreeBuddyIsSibling` | src/memory.rs:261-287 | on an aligned base a buddy inside the heap is the other half of a self-aligned parent whose address is the lower of the two |
| `BuddyLists.TakeStep` | src/memory.rs:171-197 | unlinking a listed block keeps the partition, with that block in hand |
| `BuddyLists.SplitStep` | src/memory.rs:237-245 | listing the right half and keeping the left keeps the partition and maximal merging |
| `BuddyLists.MergeStep` | src/memory.rs:261-279 | taking the free sibling off its list keeps the partition, with the parent in hand |
| `BuddyLists.PutStep` | src/memory.rs:261-279 | listing the block in hand keeps maximal merging when its sibling is not free |
| `BuddyTheorems.LargestFit` | src/memory.rs:97-108 | the order chosen is the largest one that is aligned and fits, or 0 |
| `BuddyTheorems.GreedyTiles` | src/memory.rs:87-129 | greedy cutting tiles exactly up to the end rounded down to 64 |
| `BuddyTheorems.GreedyIsMaximal` | src/memory.rs:87-129 | each block cut is the largest self-aligned one that fits at its address |
| `BuddyTheorems.GreedyIsMerged` | src/memory.rs:87-129 | greedy cutting leaves no two siblings |
| `BuddyTheorems.InitTilesHeap` | src/memory.rs:72-131 | for every base and size, initialisation leaves repeat-free lists that tile the 64-byte-aligned part of the heap, fully merged, each block the largest possible in its place |
| `BuddyTheorems.SplitKeeps` | src/memory.rs:237-245 | a whole split keeps the partition and leaves the lowest block of the wanted order in hand |
| `BuddyTheorems.CoalesceKeeps` | src/memory.rs:261-279 | coalescing keeps the partition and ends fully merged |
| `BuddyTheorems.AllocateKeepsInv` | src/memory.rs:200-234 | an allocation keeps the invariant, returns a block that was not live, and changes nothing when it fails |
| `BuddyTheorems.ReleaseKeepsInv` | src/memory.rs:248-279 | releasing a live block keeps the invariant |
| `BuddyTheorems.AllocateFailsOnlyWhenFull` | src/memory.rs:200-234 | for an order up to 16 a block is returned if and only if some self-aligned region of that order is wholly free |
| `BuddyTheorems.CoalesceUndoesSplit` | src/memory.rs:237-279 | coalescing the block left by a split meets every split half again and undoes the split |
| `BuddyTheorems.AllocateReleaseRoundTrip` | src/memory.rs:200-279 | a successful allocation followed by its release restores every free list, chain order included |
| `BuddyTheorems.BuddyOfFreeNotFree` | src/memory.rs:261-279 | in a reachable state the buddy of a free block below order 16 is not free |
| `BuddyTheorems.AlignedForLayout` | src/memory.rs:205-215 | a self-aligned block of the layout's order is large enough and aligned as asked |
| `BuddyTheorems.EveryRunIsSafe` | src/memory.rs:151-279 | at every point of every run the lists are repeat-free, free and live blocks tile the heap, siblings are never both free, and every live block honours its layout |
| `BuddyTheorems.EmptiedHeapIsCanonical` | src/memory.rs:248-279 | whenever nothing is live, the free blocks are those initialisation made |
| `BuddyPartition.BuddyIsNeighbour` | src/memory.rs:283-287 | for every base and address the buddy is the block of the same size just above or just below |
| `BuddyPartition.OwnCoalesce` | src/memory.rs:261-279 | for every base coalescing keeps free and held blocks a partition of the heap |
| `BuddyPartition.AllocateKeepsOwned` | src/memory.rs:200-234 | on every base an allocation keeps the partition and returns a block that was not live |
| `BuddyPartition.ReleaseKeepsOwned` | src/memory.rs:248-279 | on every base releasing a live block keeps the partition |
| `BuddyPartition.EveryRunKeepsPartition` | src/memory.rs:151-279 | on every base, unless a block would start at the null address, at every point of every run, the lists are repeat-free and free and live blocks are disjoint and cover the heap |
| `BuddyAlignment.PromisesKeptIffBaseAligned` | src/memory.rs:104-287 | for every base and size, unless a block would start at the null address, all runs honour their layouts if and only if the base rounded up to 64 is a multiple of every block size that fits |
| `BuddyAlignment.ServesWhenRoomIffBaseAligned` | src/memory.rs:104-287 | at every point of all runs requests succeed exactly when the free blocks cover an aligned region of their size, if and only if the base is so aligned |
| `BuddyAlignment.EmptiesToInitIffBaseAligned` | src/memory.rs:104-287 | in all runs a heap with nothing live has the free blocks of initialisation, if and only if the base is so aligned |
| `BuddyAlignment.LowestPairFreed` | src/memory.rs:104-287 | on any other base, draining the heap and releasing the two lowest blocks leaves one misaligned block of twice the size, with everything above it in use |
| `BuddyAlignment.CoalesceStartsHigh` | src/memory.rs:261-279 | once the lowest address starts a free block of an order, no release leaves it starting a smaller one |
| `BuddyAlignment.ReleaseAll` | src/memory.rs:248-279 | from any point of a run every live block can be released, the block at the lowest address staying as large |
| `BuddyAlignment.Drain` | src/memory.rs:200-234 | repeated requests of one order end, in a run, with a refusal |
| `BuddyAlignment.BaseZeroLeaks` | src/memory.rs:200-234 | on base 0 the block at address 0 leaves its list as a null result and is lost |
| `BuddyHeapAllocator.BuddyHeap.constructor` | src/memory.rs:61-69 | a new allocator is uninitialised with empty lists |
| `BuddyHeapAllocator.BuddyHeap.AddToFreeList` | src/memory.rs:151-158 | the block becomes the head of its chain and no other word changes |
| `BuddyHeapAllocator.BuddyHeap.RemoveFromFreeList` | src/memory.rs:161-168 | the head is returned and the chain is its tail; an empty list gives none |
| `BuddyHeapAllocator.BuddyHeap.RemoveSpecific` | src/memory.rs:171-197 | a block anywhere in a chain is unlinked, the rest keeps its order; false and no change if absent; only words of nodes still listed change |
| `BuddyHeapAllocator.BuddyHeap.SplitBlock` | src/memory.rs:237-245 | the lists are those of the split, and only words of listed nodes change |
| `BuddyHeapAllocator.BuddyHeap.CoalesceAt` | src/memory.rs:261-279 | the lists are those of coalescing, and only words of listed nodes change |
| `BuddyHeapAllocator.BuddyHeap.MergeBuddies` | src/memory.rs:261-276 | the loop ends with every free buddy on the way up taken off its list |
| `BuddyHeapAllocator.BuddyHeap.LargestOrderAt` | src/memory.rs:97-108 | the descending search finds the largest order that is aligned and fits |
| `BuddyHeapAllocator.BuddyHeap.RegisterNext` | src/memory.rs:90-129 | one round makes progress and keeps the final outcome of initialisation, or panics exactly when it would list the null address |
| `BuddyHeapAllocator.BuddyHeap.Init` | src/memory.rs:72-131 | for every base and size it panics exactly when a block would start at the null address; otherwise the lists in memory are the greedy cut and all blocks are self-aligned and merged |
| `BuddyHeapAllocator.BuddyHeap.Allocate` | src/memory.rs:200-234 | null without change before initialisation; otherwise the first-fit block, not live before and large enough, with no word of a live block changed, on every base; where blocks are sound it is aligned, null exactly when no wholly free aligned region of a block size up to 4 MiB is as large as the layout's size and alignment, and blocks stay sound |
| `BuddyHeapAllocator.BuddyHeap.Deallocate` | src/memory.rs:248-258 | null or uninitialised changes nothing; on every base a live block leaves the live set and is coalesced, and no word of another live block changes; on an aligned base blocks stay sound |
| `BuddyHeapAllocator.BuddyHeap.ClientWrite` | src/memory.rs:151-197 | a store anywhere in a live block disturbs no free list |
| `BuddyHeapAllocator.RoomForIs` | src/memory.rs:205-233 | some block size as large as a layout's size and alignment has a wholly free aligned region exactly when the layout's own order has one |
| `BuddyHeapAllocator.CoalesceIsMergeUp` | src/memory.rs:261-279 | coalescing is merging upwards followed by one list insertion |
| `BuddyHeapAllocator.LiveWordsKept` | src/memory.rs:151-197 | if only words of free nodes changed, every word of a block that stays live is as before |
| `BuddyHeapAllocator.MergedIsNotOnList` | src/memory.rs:261-279 | on every base the block carried to the end of coalescing is not null and on no list |
| `Fat32Table.EncodeDecode` | src/fs/fat32.rs:638-726 | writing an entry and decoding it gives the value's low 28 bits |
| `Fat32Table.DecodeIsLittleEndian` | src/fs/fat32.rs:654-660 | a decoded entry is the low 28 bits of its four bytes read as a little-endian number |
| `Fat32Table.EncodeIsLittleEndian` | src/fs/fat32.rs:712-713 | the four bytes written are the value's low 28 bits as a little-endian number |
| `Fat32Table.MarkersAre` | src/fs/fat32.rs:48-58 | the bytes of a free entry and of an end of chain, neither of which is followed |
| `Fat32Table.CountFreeIs` | src/fs/fat32.rs:666-669 | the free count is the number of entries that are zero |
| `Fat32Table.CountFreeUpdate` | src/fs/fat32.rs:666-669 | how one table update changes the number of free entries |
| `Fat32Table.FreeChain` | src/fs/fat32.rs:754-764 | freeing a chain ends for every table, cyclic, crossed or out of range, and keeps its length |
| `Fat32Table.FreeChainFreesExactly` | src/fs/fat32.rs:754-764 | the clusters of a repeat-free in-use path become free and no other entry changes; the result says whether the path left the table |
| `Fat32Table.CounterExactIff` | src/fs/fat32.rs:746-764 | the counter gains exactly the freed entries if and only if the chain is well formed, and is at most one too high otherwise |
| `Fat32Table.SelfLinkedCounter` | src/fs/fat32.rs:746-764 | a cluster linked to itself is freed once and counted twice |
| `Fat32Table.AllocateKeepsVolume` | src/fs/fat32.rs:729-743 | the lowest free cluster lies in no chain, and becomes a chain of its own beside the others if and only if its number is below the markers |
| `Fat32Table.MarkerClusterLeaks` | src/fs/fat32.rs:729-764 | in a larger table a cluster numbered like a marker is claimed and cannot be given back |
| `Fat32Table.FreeKeepsVolume` | src/fs/fat32.rs:754-764 | freeing one file's chain succeeds, frees its length and leaves all other chains intact |
| `Fat32Table.VolumeStepKeeps` | src/fs/fat32.rs:729-764 | each operation keeps disjoint acyclic chains and an exact counter, and conserves free plus used clusters |
| `Fat32Table.VolumeConserved` | src/fs/fat32.rs:729-764 | the same at every point of every run, as long as clusters claimed are numbered below the markers |
| `Fat32.WriteEntryReads` | src/fs/fat32.rs:691-726 | a write changes the decoded value of its own entry and of no other |
| `Fat32.EntryIsWord` | src/fs/fat32.rs:638-663 | entry i of a copy is bytes 4i to 4i + 3 of its sectors in a row, as a little-endian number cut to 28 bits |
| `Fat32.WriteEntryTouches` | src/fs/fat32.rs:691-726 | a write changes only the entry's four bytes in the first copy, and the second copy's sector follows the first |
| `Fat32.ReservedKeptIff` | src/fs/fat32.rs:712-723 | in either copy a write clears an entry's reserved bits, so they survive exactly where they were zero |
| `Fat32.ReservedLost` | src/fs/fat32.rs:712-723 | a volume on which a write loses a reserved bit |
| `Fat32.WriteBytes` | src/fs/fat32.rs:701-723 | a write leaves the disk's length and all sectors outside the two copies alone |
| `Fat32.ClustersKept` | src/fs/fat32.rs:675-678 | what lies outside the two copies includes every byte of every cluster |
| `Fat32.ClustersEndToEnd` | src/fs/fat32.rs:675-678 | cluster 2 starts the data area and each cluster starts where the one before ends |
| `Fat32.DataAreaIsClusters` | src/fs/fat32.rs:675-784 | clusters 2 to n + 1 in a row are the disk's bytes from the start of the data area on |
| `Fat32.WalkFailsAt` | src/fs/fat32.rs:1105-1113 | a walk fails with the error of the first cluster that has no entry or whose entry is no cluster |
| `Fat32.WriteKeepsMirrorIff` | src/fs/fat32.rs:691-726 | cache and both copies agree after a write if and only if the value fits in 28 bits |
| `Fat32.MirrorDecodesBothCopies` | src/fs/fat32.rs:638-672 | a mirrored cache is what decoding either copy gives |
| `Fat32.Fat32FileSystem.constructor` | src/fs/fat32.rs:638-672 | mounting caches the decoded first copy with an exact counter, and mirrors both copies if and only if they agree |
| `Fat32.Fat32FileSystem.LoadFat` | src/fs/fat32.rs:638-672 | the cache is the decoded first copy and the counter its number of free entries; reloading a mirrored table changes nothing |
| `Fat32.Fat32FileSystem.DecodeSector` | src/fs/fat32.rs:648-663 | the 128 entries of a sector are decoded into their places and earlier ones kept |
| `Fat32.Fat32FileSystem.ReadFatEntry` | src/fs/fat32.rs:681-688 | the cached entry, or an error exactly out of range |
| `Fat32.Fat32FileSystem.WriteFatEntry` | src/fs/fat32.rs:691-726 | out of range nothing changes; otherwise the cache entry and both copies are written, and mirroring survives exactly for 28-bit values |
| `Fat32.Fat32FileSystem.AllocateCluster` | src/fs/fat32.rs:729-743 | the lowest free cluster from 2 on is marked end-of-chain in cache and on disk, losing reserved bits exactly if it had any; no space exactly when none is free |
| `Fat32.Fat32FileSystem.FreeCluster` | src/fs/fat32.rs:746-751 | the entry becomes free in cache and on disk, losing reserved bits exactly if it had any, and the counter goes up, staying exact if and only if the entry was in use; or an error without change |
| `Fat32.Fat32FileSystem.FreeClusterChain` | src/fs/fat32.rs:754-764 | table, disk, result and counter are those of freeing the chain, nothing outside the two copies changes, mirroring is kept, and an exact counter stays exact if and only if the chain is well formed |
| `Fat32.Fat32FileSystem.ReadCluster` | src/fs/fat32.rs:767-784 | the buffer holds the cluster's sectors in order; a panic exactly when the sector number cannot be computed in 32 bits, an error exactly for too short a buffer or sectors off the disk |
| `Fat32.Fat32Inode.Seek` | src/fs/fat32.rs:1105-1113 | the cluster reached after so many links, or the error of the first link that cannot be followed |
| `Fat32.Fat32Inode.CopyOut` | src/fs/fat32.rs:1115-1132 | the copying loop delivers the file's bytes from the offset on and ends as the first cluster that cannot be located, read or followed decides |
| `Fat32.Fat32Inode.Read` | src/fs/fat32.rs:1092-1133 | directories fail, offsets past the size read nothing, otherwise number, error or panic are pinned, the buffer holds the file's bytes and the rest of it is untouched; all requested bytes are delivered if their clusters are reachable, and fewer only where the chain ends |
| `Fat32.ReadIsSliceOfFlatFile` | src/fs/fat32.rs:1092-1133 | for a chain long enough, being the file's bytes at an offset is being that slice of the concatenated clusters |
| `Fat32.DeliveryComplete` | src/fs/fat32.rs:1115-1132 | delivery is complete when every cluster of the range can be reached |
| `Fat32.DeliveryShort` | src/fs/fat32.rs:1115-1132 | delivery is short only where the chain ends |
| `Fat32.FreeKeepsOtherFiles` | src/fs/fat32.rs:754-764 | freeing one file leaves every other file's chain and contents as they were |
| `Ext2.SlotsAreOneToOne` | src/fs/ext2.rs:470-543 | logical block numbers and direct, indirect, double and triple slots correspond one to one, both ways |
| `Ext2.Inode.FileSizeIs` | src/fs/ext2.rs:284-292 | the low half of the size is the low field, the high half the other field in regular files and zero in all others |
| `Ext2.PointerIsWord` | src/fs/ext2.rs:490-540 | a pointer is the word at its place in the block's sectors in a row |
| `Ext2.ResolveIsListed` | src/fs/ext2.rs:470-543 | a logical block's slot leads to that entry of the list of the inode's pointers, the indirect block's words and the words of each block listed in the double-indirect block, holes listing holes; past the list it is unsupported |
| `Ext2.FileIsContents` | src/fs/ext2.rs:470-809 | the flat file is the contents of the listed blocks in a row, zeros for holes |
| `Ext2.NotSupportedIff` | src/fs/ext2.rs:770-809 | a read fails as unsupported if and only if its range reaches a block whose cut number lies in the triple-indirect area before any I/O error |
| `Ext2.FetchIsFileByteIff` | src/fs/ext2.rs:770-809 | cutting the block number to 32 bits gives the flat file's byte if and only if the number fits or its low part lies in the unsupported area |
| `Ext2.CutReached` | src/fs/ext2.rs:781-785 | with 1 KiB blocks and 32-bit size fields, position 2^42 of a file reads block 0 instead of failing |
| `Ext2.FetchedIsFile` | src/fs/ext2.rs:770-809 | within the first 2^32 blocks fetching bytes is reading the sparse flat file |
| `Ext2.ReadBlock` | src/fs/ext2.rs:450-467 | the buffer holds the block's bytes, or an error exactly when the block is off the disk |
| `Ext2.ReadPointer` | src/fs/ext2.rs:490-540 | the little-endian word at an index of an indirect block |
| `Ext2.GetBlockNum` | src/fs/ext2.rs:470-543 | the entry of the list of all pointers at that number, zero for a hole at any level, or the first error |
| `Ext2.Read` | src/fs/ext2.rs:770-809 | on success min(buffer, size - offset) bytes, each the mapped block's byte or zero in a hole, the rest of the buffer untouched; on failure the error of the first position that has one, unsupported exactly when the range reaches such a block first |
| `Terminal.PutShows` | src/console/mod.rs:258-265 | storing a cell at the cursor shows the canvas with that cell written |
| `Terminal.OffScreen` | src/console/mod.rs:258-265 | a cell beyond the screen occurs only without columns and leaves the screen showing the canvas |
| `Terminal.ScrollShows` | src/console/mod.rs:278-303 | scrolling shows the window one canvas row further down and moves the top row to the scrollback |
| `Terminal.HistoryGrows` | src/console/mod.rs:279-285 | the scrollback stays the up to 1000 canvas rows above the screen |
| `Terminal.WindowIs` | src/console/mod.rs:278-303 | the screen ends with the cursor's row, and the kept rows are the up to 1000 just above it |
| `Terminal.WindowShowsRows` | src/console/mod.rs:258-265 | each row of the flat screen is one row of the canvas |
| `Terminal.TextFillsRows` | src/console/mod.rs:220-275 | printing text from the start of a row fills rows of the screen's width, left to right and top to bottom |
| `Terminal.TabIsSpaces` | src/console/mod.rs:220-268 | a tab writes the fewest spaces, at least one, that reach a multiple of eight columns |
| `Terminal.ControlsMove` | src/console/mod.rs:220-268 | return, line feed, backspace and bell write nothing and move the cursor as named |
| `Terminal.TerminalBuffer.constructor` | src/console/mod.rs:206-217 | a new buffer of any size shows the blank canvas with the cursor at the origin |
| `Terminal.TerminalBuffer.SetAttributes` | src/console/mod.rs:335-337 | sets the attributes of later characters |
| `Terminal.TerminalBuffer.ShiftRows` | src/console/mod.rs:287-296 | the nested loops move every row up by one |
| `Terminal.TerminalBuffer.ScrollUp` | src/console/mod.rs:278-303 | all rows move up, the last is blank, the top row joins the scrollback and the oldest beyond 1000 is dropped |
| `Terminal.TerminalBuffer.WriteChar` | src/console/mod.rs:220-268 | for every character, newline, return, tab, backspace, bell and wrap included, the buffer shows the canvas the character was written on; a panic exactly when a buffer without rows needs a second one |
| `Terminal.TerminalBuffer.WriteStr` | src/console/mod.rs:271-275 | the same for every text |
| `PageCache.FindLruPage` | src/fs/cache.rs:247-254 | a clean unpinned page of least access time, or none exactly when there is no such page |
| `PageCache.FindVictim` | src/fs/cache.rs:406-422 | an evictable page no younger than any other over all files, or none exactly when there is none; a page stamped with the clock's last value is not one |
| `PageCache.EvictOneMore` | src/fs/cache.rs:401-442 | removing the oldest evictable page keeps the removed set the oldest evictable pages |
| `PageCache.RemovedWereIdle` | src/fs/cache.rs:247-254 | no evicted page was dirty or pinned |
| `PageCache.StepKeepsHeld` | src/fs/cache.rs:325-512 | after any call a dirty or pinned page is still cached with its bytes if and only if the call did not insert over it, drop its file or unpin it while clean |
| `PageCache.HeldUntilLetGo` | src/fs/cache.rs:325-512 | the same over every stretch of every run |
| `PageCache.DirtyPageStays` | src/fs/cache.rs:358-442 | in a cache for one page a dirty page outlives the insert of another, over the limit |
| `PageCache.TickIs` | src/fs/cache.rs:320-322 | the clock counts modulo 2^64 |
| `PageCache.EvictedAreOlder` | src/fs/cache.rs:401-442 | until the clock wraps, evicted pages are strictly older than the evictable ones kept |
| `PageCache.ClockedPagesCanGo` | src/fs/cache.rs:401-422 | until the clock wraps, nothing can be evicted exactly when all pages are dirty or pinned |
| `PageCache.LastTickStays` | src/fs/cache.rs:406-422 | a clean unpinned page stamped with the clock's last value that is never evicted |
| `PageCache.InvalidateKeys` | src/fs/cache.rs:499-512 | dropping a file drops as many pages as it had |
| `PageCache.ReadPage` | src/fs/cache.rs:167-176 | copies the page's bytes from the offset, at most the buffer's length |
| `PageCache.PageCache.constructor` | src/fs/cache.rs:295-303 | a new cache is empty with size zero |
| `PageCache.PageCache.EvictPages` | src/fs/cache.rs:401-442 | removes the oldest pages that are neither dirty nor pinned, no more than needed; until the clock wraps, strictly oldest first and short only when all pages left are dirty or pinned |
| `PageCache.PageCache.Read` | src/fs/cache.rs:325-355 | a hit exactly when the page is cached, returning bytes of its latest insert and refreshing its access time; a miss changes no page; access times stay in order exactly until the clock wraps |
| `PageCache.PageCache.Insert` | src/fs/cache.rs:358-380 | evicts one page exactly when the limit would be exceeded and one is evictable; the accounted size then exceeds neither the limit nor its previous value, and stays exact exactly when the page was not cached; access times stay in order exactly until the clock wraps |
| `PageCache.PageCache.SizeExactIff` | src/fs/cache.rs:358-380 | the accounted size is that of the cached pages if and only if no insert replaced a page |
| `PageCache.InsertTwice` | src/fs/cache.rs:358-380 | inserting one page twice under the limit accounts for two pages with one cached |
| `PageCache.PageCache.MarkDirty` | src/fs/cache.rs:383-398 | marks the page if cached and says whether it was |
| `PageCache.PageCache.SetPins` | src/fs/cache.rs:152-158 | a holder's pinning changes that page's count and nothing else |
| `PageCache.PageCache.Invalidate` | src/fs/cache.rs:499-512 | drops all pages of a file and their accounted size |
| `Bresenham.RoundStep` | src/graphics/framebuffer.rs:240-262 | before the end point each round moves at least one way, never overshoots, and keeps the error term and the half-pixel bound |
| `Bresenham.RoundEnds` | src/graphics/framebuffer.rs:240-262 | the end point is met after exactly max(abs dx, abs dy) rounds and not before |
| `Bresenham.ErrorTermBounded` | src/graphics/framebuffer.rs:228-263 | the doubled error term stays within three times the line's length |
| `Bresenham.PathIsLine` | src/graphics/framebuffer.rs:228-263 | the visited points start and end at the end points, number max(abs dx, abs dy) + 1, and each is within half a pixel of the ideal line |
| `LineOverflow.Reduced` | src/graphics/framebuffer.rs:228-234 | both sides in units of their greatest common divisor, with coefficients that prove the units have no common divisor |
| `LineOverflow.WideAttained` | src/graphics/framebuffer.rs:240-262 | on a line at least as wide as high, every deviation the divisor and the half-pixel window allow is met in some round |
| `LineOverflow.HighAttained` | src/graphics/framebuffer.rs:240-262 | the same on a line higher than wide |
| `LineOverflow.PointsFit` | src/graphics/framebuffer.rs:236-262 | coordinates never leave the range of the end points |
| `LineOverflow.LineFitsIff` | src/graphics/framebuffer.rs:228-263 | for all 32-bit end points nothing overflows in the whole run if and only if the closed form of the two sides holds |
| `LineOverflow.LengthFitsIff` | src/graphics/framebuffer.rs:228-263 | for every length n a line between 32-bit points can have, no line of that length overflows if and only if 2(n + n/2 - 1) is below 2^31 |
| `LineOverflow.LongLineOverflows` | src/graphics/framebuffer.rs:245 | a level line of 2^30 pixels overflows in its first round |
| `LineOverflow.LongestDiagonalFits` | src/graphics/framebuffer.rs:228-263 | a diagonal across the whole non-negative range does not overflow |
| `LineOverflow.SteepLineOverflows` | src/graphics/framebuffer.rs:245-260 | one pixel off that diagonal some computation overflows |
| `Framebuffer.Rect.NoTestFailsIff` | src/graphics/types.rs:182-194 | testing points against a rectangle never overflows if and only if its right edge fits in 32 bits, and its bottom edge too unless the rectangle has no columns |
| `Framebuffer.AsI32Is` | src/graphics/types.rs:182-188 | the cast of a size keeps its low 32 bits |
| `Framebuffer.Rect.ContainsIs` | src/graphics/types.rs:192-194 | a rectangle whose size does not turn negative holds width columns and height rows from its corner on |
| `Framebuffer.HugeClipIsEmpty` | src/graphics/types.rs:182-194 | a rectangle of the largest size contains no point, because its size turns negative |
| `Framebuffer.FarEdgeFails` | src/graphics/types.rs:182-194 | a rectangle whose right edge is past the 32-bit range fails its first test |
| `Framebuffer.PixelFormat.DecodeEncode` | src/graphics/framebuffer.rs:124-175 | reading a stored colour back gives it as far as the format keeps it |
| `Framebuffer.PixelFormat.StoredNumber` | src/graphics/framebuffer.rs:124-143 | the number stored for a colour in each format, as a sum of shifted channels |
| `Framebuffer.Display.PixelsFollow` | src/graphics/framebuffer.rs:119-120 | pixels follow each other in a row and rows follow each other at the pitch, from offset 0 on |
| `Framebuffer.Display.PixelsApart` | src/graphics/framebuffer.rs:119-120 | different pixels share no byte |
| `Framebuffer.Display.PlotThenRead` | src/graphics/framebuffer.rs:104-143 | plotting changes the pixel if it is visible and no other |
| `Framebuffer.Display.PlottedPixels` | src/graphics/framebuffer.rs:104-143 | after a path exactly its visible pixels have the colour |
| `Framebuffer.Display.PaddingKept` | src/graphics/framebuffer.rs:104-143 | bytes of no visible pixel keep their values |
| `Framebuffer.Framebuffer.SetPixel` | src/graphics/framebuffer.rs:104-143 | panics exactly when the pixel is on the screen and testing it against the clip rectangle overflows; otherwise stores the colour's bytes in the display's format at the pixel's offset exactly when it is on the screen and inside the clip rectangle, and changes no other byte |
| `Framebuffer.Framebuffer.DrawLine` | src/graphics/framebuffer.rs:228-263 | for all 32-bit end points the loop ends, its points form such a line, it panics exactly when the closed form is violated or testing a point of the line on the screen overflows, and exactly the visible ones of the points drawn, all of them without a panic, take the colour |
| `Tga.SetThenGet` | src/graphics/image.rs:110-135 | setting a pixel changes that pixel and no other |
| `Tga.PaintedPixel` | src/graphics/image.rs:512-614 | the n-th pixel of the file is seen in column n mod width of row n div width, from the top or from the bottom |
| `Tga.PaintEnough` | src/graphics/image.rs:536-614 | pixels past the last row leave no trace |
| `Tga.PacketParses` | src/graphics/image.rs:543-613 | parsing an encoded packet gives its pixels and the index after it |
| `Tga.ExpandIsUnpack` | src/graphics/image.rs:536-614 | every packet stream expands to the pixels of its unpacked bytes |
| `Tga.Image.constructor` | src/graphics/image.rs:61-68 | a new image is transparent |
| `Tga.Image.SetPixel` | src/graphics/image.rs:125-135 | writes the pixel's four bytes, or nothing outside the image |
| `Tga.DecodeRaw` | src/graphics/image.rs:512-535 | the image shows the whole pixels of the payload in file order |
| `Tga.PaintLiteral` | src/graphics/image.rs:583-611 | a literal packet paints the colours present in the payload and no more, and panics exactly when they cross the end of a bottom-up image |
| `Tga.PaintRun` | src/graphics/image.rs:571-580 | a run packet paints one colour so many times, and panics exactly when they cross the end of a bottom-up image |
| `Tga.DecodeRle` | src/graphics/image.rs:536-614 | for every payload the image shows the expanded pixels in file order, or decoding panics exactly when a packet of a bottom-up image starts before its end and crosses it |
| `Tga.DecodeTga` | src/graphics/image.rs:474-617 | the two errors, the three panics (slice past the end, size over 32 bits, row underflow) and the decoded image, each exactly when it happens |
| `Tga.CrossesStep` | src/graphics/image.rs:543-613 | one packet of the loop crosses the end of the image, or a later one does after it |
| `Tga.SizesAre` | src/graphics/image.rs:543-613 | the packets found in an encoded stream have the stream's sizes |
| `Tga.RleEqualsRaw` | src/graphics/image.rs:512-614 | for every packet stream and format the uncompressed file decodes, and the run-length file decodes to the same image if and only if the image is top-down or no packet crosses its end |
| `Tga.ExactRleEqualsRaw` | src/graphics/image.rs:512-614 | with at most width times height pixels both files decode to the same image, in both row orders |
| `Tga.OverrunPanics` | src/graphics/image.rs:571-580 | a bottom-up file of one pixel with a run of two panics, and its uncompressed twin decodes |
| `Tga.HugeImagePanics` | src/graphics/image.rs:61-62 | a file of 32768 by 32768 pixels panics whatever its payload |
| `TgaFiles.HeaderParses` | src/graphics/image.rs:475-512 | decoding finds size, row order, pixel size and the pixel bytes as written, behind any identifier and colour map |
| `TgaFiles.RawRoundTrip` | src/graphics/image.rs:475-541 | an uncompressed file of any picture decodes to the picture's rows from the top, each pixel as red, green, blue and alpha, or panics exactly when the image is too large |
| `TgaFiles.RleRoundTrip` | src/graphics/image.rs:475-616 | so does a run-length file, for every way of cutting the pixels into packets |
| `Histogram.BucketMeans` | src/diag/mod.rs:148-153 | bucket 0 holds zero, bucket i values in [2^(i-1), 2^i), the last everything from 2^62 |
| `Histogram.StepKeepsTotals` | src/diag/mod.rs:146-186 | each atomic step keeps buckets, sum and count equal to the tallies of the calls past that stage |
| `Histogram.StepKeepsExtremes` | src/diag/mod.rs:159-185 | no step raises the minimum or lowers the maximum; they stay attained and bound every call that passed its update |
| `Histogram.ExtremesOnlyWiden` | src/diag/mod.rs:159-185 | over any stretch of any run the minimum never rises and the maximum never falls |
| `Histogram.FinishedCallEnclosed` | src/diag/mod.rs:159-185 | from its return on, every call's value lies between minimum and maximum |
| `Histogram.QuietIsExact` | src/diag/mod.rs:146-186 | with no call in flight every bucket, sum and count is exact modulo 2^64, the buckets add up to the count, and minimum and maximum are exact |
| `Histogram.QuietStats` | src/diag/mod.rs:189-202 | statistics read then describe exactly the recorded values |
| `Histogram.SchedulesAreBounded` | src/diag/mod.rs:146-186 | without spurious failures every schedule of n calls is over after at most 7n(n + 1) + n steps |
| `Histogram.StuckMeansQuiet` | src/diag/mod.rs:146-186 | a schedule can be continued if and only if some call is unfinished |

## Left out

- Machine addresses and sizes of the heap are unbounded naturals; the heap is word-addressed at block starts, and overflow of base plus size is not modelled.
- The rounding of a misaligned start in initialisation is a bit mask in the code and a division here; for powers of two they are the same.
- BuddyHeapAllocator.BuddyHeap.Init: a store through the null address is a panic, as in a build with checks; `BaseZeroLeaks` shows what would be lost without them.
- BuddyHeapAllocator.BuddyHeap.Deallocate: requires a live block with its layout, as the allocator interface demands of its callers.
- The heap's `block_states` array, its spin lock, `heap_stats` and the comments' constant-time claims; removal from a list is a linear scan.
- Fat32.Fat32FileSystem.constructor: requires exactly two copies and fewer than 2^32 table entries and sectors, so that cluster and sector numbers fit their types.
- Fat32.Fat32FileSystem.FreeCluster: the counter is unbounded; its 32-bit overflow would take 2^32 releases of free clusters.
- Device failures other than out-of-range sectors, concurrent use of one FAT32 instance, several instances with separate caches, reading the boot sector, long names, directories, file creation and writing.
- Ext2.Read: the block size is 1 to 64 KiB; directories, symbolic links and everything that writes are not modelled.
- ANSI escape handling, erase modes, cursor placement and the console manager.
- PageCache.FindVictim: the order in which the code visits files and pages is abstracted to any order; it can matter only after the clock has wrapped, when access times may be equal.
- Page cache statistics, write-back of dirty pages and the unfinished page write; holders that pin a page are a method of their own.
- Framebuffer.Framebuffer.SetPixel: requires rows that fit their pitch and a buffer below 2^32 bytes, as a display has; double buffering only changes which buffer is drawn to.
- Circles, rectangles, blitting and text drawing.
- Tga.DecodeTga: running out of memory for an image is not modelled.
- BMP and ICO decoding, blending and resizing.
- Histogram.QuietIsExact: relaxed atomics are modelled as an interleaving of atomic steps, each word having one modification order; `reset` and the floating-point percentile are not modelled.
- Histogram.QuietStats: requires that the number and the sum of recorded values fit in 64 bits; without that only the statements modulo 2^64 hold.
- Domains, interrupts, drivers, networking, the window manager and the other parts of the kernel, which are register access, wrappers or case lists.
