# Verified models of HANA's allocators, on-disk trees and caches

HANA is a small RISC-V kernel with an ext4 file system. This project models
the parts of it whose meaning is simple and whose code is not, and proves that
the code has that meaning. Every module is self-contained Dafny;
`dafny verify dfyconfig.toml` checks the whole project.

* **Extent tree** (`Extent*.dfy`). An inode's logical-to-physical block map as
  a B+ tree of bounded nodes in disk blocks: binary-search descent, leaf
  insertion with merging, key correction up the path, multi-level splitting,
  growth of the root, the retry loop. `ExtentTree` has the tree as a value,
  `ExtentStore` ties it to blocks, `ExtentFile` is the code working in place.
  Between calls every key is the first block below it and no leaf is empty, so
  an extent that overlaps nothing always fits the leaf it belongs to.
  The prepend-merge branch moves the first logical block but not the physical
  start; insertion is right exactly when that branch is not taken. A split
  that runs out of blocks half way returns the blocks it took although
  extents were already moved there; what is lost is stated exactly.
* **Block cache** (`BlockCache*.dfy`). Reference counts, LRU tree, dirty list,
  nested write-back and eviction; every run of client calls is a run of a
  plain array of blocks.
* **kfifo** (`Kfifo*.dfy`). The byte ring with free-running 32-bit indices,
  under its lock as a bounded queue, and without it as a state machine of one
  writer and one reader whose sample, copy and publish steps interleave.
* **Directories** (`DirBlock*.dfy`, `HTree*.dfy`, `QuickSort.dfy`). Linear
  blocks tiled by variable-length records; the hashed index over them,
  lookup and leaf split; the kernel's qsort, on which the split rests.
* **Buddy allocator** (`Buddy*.dfy`). Free rings threaded through the free
  pages, splitting, recursive coalescing over flipped address bits, and the
  initial layout; blocks always partition the range.
* **User malloc** (`Umalloc*.dfy`). The circular address-ordered free list.
* **Indirect block map and Sv39 page table** (`Radix.dfy`, `IndirectMap.dfy`,
  `PageTable.dfy`). Both are trees of tables; setting one entry changes one
  entry. The page table follows section 4.4 of the RISC-V Privileged
  Architecture, version 20211203.
* **Block and inode allocation** (`Bitmap.dfy`, `BitGroups.dfy`,
  `BlockAlloc.dfy`, `InodeAlloc.dfy`). Bitmaps with group and file system
  counts; counts always equal clear bits.
* **grep** (`GrepMatch.dfy`, `GrepLines.dfy`). The matcher against a
  declarative meaning of patterns, and the line buffer under any chunking.

`Bits.dfy`, `Lists.dfy` and `Wrappers.dfy` hold what several of these use: the
arithmetic of masks and shifts, queues without repetition, optional values.

How things are represented. Operations that update state are classes with
`modifies` clauses, proved against functions on values; the properties are
lemmas about those functions. Memory and disk blocks are finite maps from
addresses or block numbers to contents, so aliasing and update in place are
part of the model; a directory block is a map from offsets to whole records.
What comes from outside is a parameter: blocks, pages and memory handed out by
another allocator, whether `brk` or `malloc` succeeds, the answer of the
kernel's in-RAM check, the sizes of reads, the hash function (any function
with even values). Integer widths are written out where code depends on them:
32-bit ring indices, the 32-bit LRU counter, the 32-bit unit count of malloc.
Masks and shifts are defined bit by bit in `Bits`.

Where the code does not do what its name or comment promises, the model keeps
the code, states exactly when it does, and gives an input on which it does not:

* `ExtentMeaning.InsertRightIff`, `PrependExample`: the prepend-merge branch;
* `ExtentMeaning.GaveUpKeepsIff`, `BrokenExample`: a split that runs out of blocks;
* `Bitmap.FoundIsClear`, `FoundExample`: the search for a clear bit;
* `PageTable.CountCovers`, `CountExample`: the number of pages to map;
* `BlockCacheSpec.FreshNeeded`, `WrapExample`: the 32-bit LRU counter;
* `BitGroups.GiveIff`, `GiveRangeIff`, `DoubleFreeExample`: freeing what is free;
* `Umalloc.UnitsEnough`, `Allocator.Malloc`, `UnitsExample`: the 32-bit unit count;
* `GrepLines.ShownIsSelected`, `LongLineExample`: lines longer than the buffer.

## Model

| member | source | states |
|---|---|---|
| ExtentFile.BinarySearch | kernel/fs/ext4/lwext4/ext4_extent.c:803-852 | the search loop finds the last key not above the block, or the first key if all are above |
| ExtentFile.ExtentFile.constructor | kernel/fs/ext4/lwext4/ext4_extent.c:377-393 | a fresh inode holds an empty, well-formed tree |
| ExtentFile.ExtentFile.FindExtent | kernel/fs/ext4/lwext4/ext4_extent.c:854-938 | the descent gives at every level the node and entry on the way to the leaf of the block |
| ExtentTreeProofs.FindIsScan | kernel/fs/ext4/lwext4/ext4_extent.c:803-938 | in every well-formed tree the descent answers as a scan of all extents of all leaves |
| ExtentTreeProofs.FlatSorted | kernel/fs/ext4/lwext4/ext4_extent.c:854-938 | the extents of all leaves, left to right, are sorted and disjoint |
| ExtentFile.ExtentFile.Covered | kernel/fs/ext4/lwext4/ext4_extent.c:2030-2063 | the extent found covers the block exactly when some extent of the tree does, and gives its physical block |
| ExtentFile.ExtentFile.GetBlock | kernel/fs/ext4/lwext4/ext4_extent.c:2012-2130 | lookup without create equals the scan and 0 for a hole; with create the map gains exactly the new block or ENOSPC, by an exact count of free blocks; in the prepend branch the block returned is not the one a later lookup gives |
| ExtentFile.ExtentFile.SetKey | kernel/fs/ext4/lwext4/ext4_extent.c:1147-1191 | rewriting one parent key after an insert in front, as the tree-level insertion does |
| ExtentFile.ExtentFile.CorrectIndexes | kernel/fs/ext4/lwext4/ext4_extent.c:1147-1191 | after the walk up, the stored tree is the inserted tree with all keys corrected |
| ExtentFile.ExtentFile.WriteLeaf | kernel/fs/ext4/lwext4/ext4_extent.c:1249-1345 | writing the leaf is the leaf part of the tree-level insertion |
| ExtentFile.ExtentFile.InsertLeaf | kernel/fs/ext4/lwext4/ext4_extent.c:1249-1345 | success, clash and need-to-split each happen exactly when they should, and success is the tree-level insertion |
| ExtentInsertProofs.PutLeafOk | kernel/fs/ext4/lwext4/ext4_extent.c:1249-1345 | append-merge or insertion in the middle of a leaf keeps it sorted and gains exactly the extent |
| ExtentKeys.ApartInRange | kernel/fs/ext4/lwext4/ext4_extent.c:1147-1345 | an extent that overlaps nothing ends before the next leaf's key, since every key is the first block below it |
| ExtentKeys.InsertKeepsShape | kernel/fs/ext4/lwext4/ext4_extent.c:1147-1345 | inserting any extent that overlaps nothing keeps keys sorted and tight, leaves non-empty and depth uniform |
| ExtentKeys.InsertAdds | kernel/fs/ext4/lwext4/ext4_extent.c:1249-1345 | the extents of the tree gain exactly the new one, alone or merged to its left neighbour |
| ExtentMeaning.InsertedAddsRange | kernel/fs/ext4/lwext4/ext4_extent.c:1193-1345 | gaining the extent means: its blocks map to its physical blocks, every other block as before |
| ExtentMeaning.InsertRightIff | kernel/fs/ext4/lwext4/ext4_extent.c:1278-1290 | insertion adds exactly the new range if and only if the prepend branch is not taken |
| ExtentMeaning.PrependedWrong | kernel/fs/ext4/lwext4/ext4_extent.c:1278-1290 | the prepend branch always maps some block wrongly |
| ExtentMeaning.PrependExample | kernel/fs/ext4/lwext4/ext4_extent.c:1278-1290 | a two-block input on which the prepend branch gives the wrong physical block |
| ExtentMeaning.PrependFind | kernel/fs/ext4/lwext4/ext4_extent.c:1278-1290 | after the prepend branch the lookup of the new block gives the physical block behind the new extent |
| ExtentFile.ExtentFile.SplitLeafLevel | kernel/fs/ext4/lwext4/ext4_extent.c:1005-1140 | the first level of a split: the right half of the leaf goes to a new block |
| ExtentFile.ExtentFile.SplitIndexLevel | kernel/fs/ext4/lwext4/ext4_extent.c:1005-1140 | each further level moves its right part and links the block below |
| ExtentFile.ExtentFile.InsertIndex | kernel/fs/ext4/lwext4/ext4_extent.c:949-1003 | the new index entry goes behind the old one; an equal key or a full node is an error and changes nothing |
| ExtentFile.ExtentFile.SplitLevels | kernel/fs/ext4/lwext4/ext4_extent.c:1005-1140 | the split goes level by level and fails exactly when the free blocks run out |
| ExtentFile.ExtentFile.SplitNode | kernel/fs/ext4/lwext4/ext4_extent.c:1005-1140 | a split makes room on the path, or leaves the tree cut off at the level reached; the adjusted path is a fresh descent |
| ExtentFile.ExtentFile.GiveBack | kernel/fs/ext4/lwext4/ext4_extent.c:1121-1140 | a failed split returns the blocks it took |
| ExtentSplitProofs.SplitOk | kernel/fs/ext4/lwext4/ext4_extent.c:1005-1140 | both halves of a split are well-formed trees within their key ranges |
| ExtentSplitProofs.SplitFlat | kernel/fs/ext4/lwext4/ext4_extent.c:1005-1140 | the halves together hold the same extents in the same order |
| ExtentSplitProofs.SplitWithin | kernel/fs/ext4/lwext4/ext4_extent.c:1005-1140 | both halves respect the node capacities |
| ExtentRoomProofs.RoomMadeOk | kernel/fs/ext4/lwext4/ext4_extent.c:1005-1140 | after the split at any level the whole tree is well formed and holds the same extents |
| ExtentRoomProofs.BrokenShape | kernel/fs/ext4/lwext4/ext4_extent.c:1121-1140 | a split that ran out of blocks still leaves a well-formed tree |
| ExtentRoomProofs.BrokenLoses | kernel/fs/ext4/lwext4/ext4_extent.c:1121-1140 | what it leaves holds exactly the extents that had not been moved |
| ExtentMeaning.BrokenKeepsIff | kernel/fs/ext4/lwext4/ext4_extent.c:1121-1140 | a split that ran out of blocks loses nothing if and only if it only had an empty right part to move |
| ExtentMeaning.GaveUpKeepsIff | kernel/fs/ext4/lwext4/ext4_extent.c:1429-1513 | the same for the whole insertion, after growing or not, by the number of free blocks |
| ExtentMeaning.BrokenExample | kernel/fs/ext4/lwext4/ext4_extent.c:1121-1140 | a sound tree with four entries in the root and five in a block, and one spare block too few: a mapped block is no longer found |
| ExtentKeys.RoomMadeTight | kernel/fs/ext4/lwext4/ext4_extent.c:1005-1140 | splitting keeps every key tight, except that the leaf waiting for the new extent may be empty |
| ExtentKeys.InsertTight | kernel/fs/ext4/lwext4/ext4_extent.c:1147-1345 | inserting into such a tree makes every key tight and every leaf non-empty again |
| ExtentKeys.BrokenTight | kernel/fs/ext4/lwext4/ext4_extent.c:1121-1140 | a split that ran out of blocks leaves every key tight and no leaf empty |
| ExtentStoreProofs.SplitRep | kernel/fs/ext4/lwext4/ext4_extent.c:1005-1140 | writing the halves into blocks represents the split tree, without touching any other node |
| ExtentSplitStore.JoinStore | kernel/fs/ext4/lwext4/ext4_extent.c:949-1003 | linking the right half into its parent block represents the joined tree |
| ExtentFile.ExtentFile.GrowInDepth | kernel/fs/ext4/lwext4/ext4_extent.c:1355-1417 | the old root moves to a new block below a root of one entry; without a free block nothing changes |
| ExtentRoomProofs.GrowReady | kernel/fs/ext4/lwext4/ext4_extent.c:1355-1417 | growing keeps the tree well formed with the same extents one level deeper |
| ExtentFile.ExtentFile.FreeLevel | kernel/fs/ext4/lwext4/ext4_extent.c:1429-1513 | the lowest level with room on the path, or none if every node on it is full |
| ExtentFile.ExtentFile.MakeSpace | kernel/fs/ext4/lwext4/ext4_extent.c:1429-1513 | splitting or growing gives room for the extent, or the blocks do not suffice, exactly by count |
| ExtentFile.ExtentFile.InsertExtent | kernel/fs/ext4/lwext4/ext4_extent.c:1429-1513 | for every written extent that overlaps nothing the retry loop ends: the map gains exactly the range, or ENOSPC or EIO, each by an exact condition; ENOSPC loses nothing exactly by BrokenKeepsIff's condition |
| ExtentPath.ReplaceWF | kernel/fs/ext4/lwext4/ext4_extent.c:1005-1140 | replacing a subtree by one that fits its place keeps the whole tree well formed |
| ExtentStore.ReplaceRep | kernel/fs/ext4/lwext4/ext4_extent.c:1005-1140 | rewriting the blocks of a subtree represents the tree with the subtree replaced |
| BlockCacheSpec.ListsMean | kernel/fs/ext4/lwext4/ext4_bcache.c:100-117 | the LRU tree is exactly the unreferenced buffers, the dirty list exactly the unreferenced dirty ones, ref_blocks the number cached |
| BlockCacheSpec.ChangedInv | kernel/fs/ext4/lwext4/ext4_bcache.c:161-315 | a change to one buffer that is fine by itself keeps the cache invariant and changes the contents at that block only |
| BlockCacheSpec.FlushBufOk | kernel/fs/ext4/lwext4/ext4_blockdev.c:143-170 | writing a buffer out keeps the invariant and what clients see |
| BlockCacheSpec.DropBufOk | kernel/fs/ext4/lwext4/ext4_bcache.c:161-179 | dropping a clean unreferenced buffer keeps the invariant and what clients see |
| BlockCacheSpec.FindGetOk | kernel/fs/ext4/lwext4/ext4_bcache.c:208-232 | taking a cached buffer adds one reference and keeps contents and invariant |
| BlockCacheSpec.NewBufOk | kernel/fs/ext4/lwext4/ext4_bcache.c:234-268 | a new buffer shows the block as the device has it |
| BlockCacheSpec.FreshNeeded | kernel/fs/ext4/lwext4/ext4_bcache.c:208-268 | an acquisition keeps the invariant if and only if the 32-bit id it hands out is not in use |
| BlockCacheSpec.ReleasedListedIff | kernel/fs/ext4/lwext4/ext4_bcache.c:208-315 | a block taken and given back can be evicted again if and only if no other block in the LRU tree had the id handed out |
| BlockCacheSpec.WrapExample | kernel/fs/ext4/lwext4/ext4_bcache.c:208-232 | a counter that wraps onto an id in use |
| BlockCacheSpec.FreeOk | kernel/fs/ext4/lwext4/ext4_bcache.c:270-315 | giving a buffer back - kept, queued, written or dropped - changes nothing clients see |
| BlockCacheSpec.ShakeOk | kernel/fs/ext4/lwext4/ext4_blockdev.c:185-210 | eviction drops unreferenced buffers only, changes no contents, and ends with room unless all are in use |
| BlockCacheSpec.ShakeOldest | kernel/fs/ext4/lwext4/ext4_bcache.c:156-159 | whatever is evicted was acquired before every idle buffer that stays |
| BlockCacheSpec.FlushAllOk | kernel/fs/ext4/lwext4/ext4_blockdev.c:443-455 | after a flush the device holds every block that nobody holds, and the dirty list is empty |
| BlockCacheSpec.WriteThrough | kernel/fs/ext4/lwext4/ext4_blockdev.c:457-470 | with write-back off the device is current wherever no client holds the block |
| BlockCacheRun.FillOk | kernel/fs/ext4/lwext4/ext4_blockdev.c:243-267 | a buffer that was got has the contents clients see |
| BlockCacheRun.SetDirtyOk | kernel/include/fs/ext4/lwext4/ext4_bcache.h:175-178 | modifying a held buffer and marking it dirty is one write to the array |
| BlockCacheRun.FlushLbaOk | kernel/fs/ext4/lwext4/ext4_blockdev.c:172-183 | flushing one block puts its contents on the device and keeps the references |
| BlockCacheRun.SetWriteBackOk | kernel/fs/ext4/lwext4/ext4_blockdev.c:457-470 | nested write-back switches keep the contents; reaching zero writes everything not held |
| BlockCacheRun.StepOk | kernel/fs/ext4/lwext4/ext4_blockdev.c:143-278 | each call keeps the invariant, does to the contents what it does to an array, and answers as the array |
| BlockCacheRun.RunOk | kernel/fs/ext4/lwext4/ext4_bcache.c:208-315 | every run of calls is a run of the plain array: same contents, same answers, whatever was evicted |
| BlockCacheRun.CacheIsArray | kernel/fs/ext4/lwext4/ext4_blockdev.c:143-278 | from creation on, for any capacity and device, following the rules is enough until the 32-bit counter wraps |
| BlockCacheRun.StepPins | kernel/fs/ext4/lwext4/ext4_bcache.c:208-315 | a held buffer stays cached until its holder gives it back |
| BlockCache.Unlink | kernel/include/fs/ext4/lwext4/ext4_bcache.h:205-211 | the list walk removes the first occurrence |
| BlockCache.Cache.constructor | kernel/fs/ext4/lwext4/ext4_bcache.c:70-83 | a new cache is empty |
| BlockCache.Cache.RemoveDirtyNode | kernel/include/fs/ext4/lwext4/ext4_bcache.h:205-211 | takes a queued buffer off the dirty list |
| BlockCache.Cache.InsertDirtyNode | kernel/include/fs/ext4/lwext4/ext4_bcache.h:194-200 | puts a buffer at the head of the dirty list once |
| BlockCache.Cache.FlushOne | kernel/fs/ext4/lwext4/ext4_blockdev.c:143-170 | is the flush step of the state machine |
| BlockCache.Cache.Drop | kernel/fs/ext4/lwext4/ext4_bcache.c:161-179 | is the drop step of the state machine |
| BlockCache.Cache.Find | kernel/fs/ext4/lwext4/ext4_bcache.c:208-232 | is the acquisition of a cached block, and reports whether there was one |
| BlockCache.Cache.Allocate | kernel/fs/ext4/lwext4/ext4_bcache.c:234-268 | finds or creates a buffer; fails only without memory |
| BlockCache.Cache.ReleaseLast | kernel/fs/ext4/lwext4/ext4_bcache.c:287-309 | is the release step of the state machine |
| BlockCache.Cache.GiveBack | kernel/fs/ext4/lwext4/ext4_bcache.c:270-315 | drops one reference, keeping invariant and contents |
| BlockCache.Cache.ShakeCache | kernel/fs/ext4/lwext4/ext4_blockdev.c:185-210 | the eviction loop ends with room or with no idle buffer, contents unchanged |
| BlockCache.Cache.CacheFlush | kernel/fs/ext4/lwext4/ext4_blockdev.c:443-455 | the flush loop writes out the whole queue |
| BlockCache.Cache.SetWriteBackMode | kernel/fs/ext4/lwext4/ext4_blockdev.c:457-470 | is the write-back step; at zero the device is current wherever nobody holds the block |
| BlockCache.Cache.GetNoRead | kernel/fs/ext4/lwext4/ext4_blockdev.c:212-241 | fails only out of range or without memory, and otherwise holds the block |
| BlockCache.Cache.Get | kernel/fs/ext4/lwext4/ext4_blockdev.c:243-267 | what is got reads as the array behind the cache |
| BlockCache.Cache.MarkDirty | kernel/include/fs/ext4/lwext4/ext4_bcache.h:175-178 | updates the array at one block |
| BlockCache.Cache.FlushBlock | kernel/fs/ext4/lwext4/ext4_blockdev.c:172-183 | puts one block on the device, contents unchanged |
| KfifoRing.RoundUp | kernel/lib/kfifo.c:36-52 | the least power of two not below the size asked for |
| KfifoRing.PlaceIs | kernel/lib/kfifo.c:153-158 | the two copies put byte j of a transfer into slot (position + j) mod size although only the wrapped index is known |
| KfifoRing.SlotsApart | kernel/lib/kfifo.c:139-170 | positions less than a buffer apart never share a slot |
| KfifoRing.WrappedDistance | kernel/lib/kfifo.c:189 | subtracting wrapped indices gives the true number of bytes |
| KfifoRing.WrappedRoom | kernel/lib/kfifo.c:144 | the free space computed from wrapped indices is the true one |
| KfifoLockFree.NoOverwrite | kernel/lib/kfifo.c:139-170 | a writer never stores onto a byte still to be read, nor twice onto one slot |
| KfifoLockFree.NextOk | kernel/lib/kfifo.c:139-214 | every step of either side keeps the invariant of the shared ring |
| KfifoLockFree.RunKeeps | kernel/lib/kfifo.c:136-214 | so does every interleaving of one reader and one writer |
| KfifoLockFree.TakenIsPrefix | kernel/lib/kfifo.c:136-214 | in every interleaving, across index wrap, the bytes read are a prefix of the bytes written, at most a buffer behind |
| Kfifo.Fifo.constructor | kernel/lib/kfifo.c:86-104 | a ring of the rounded size, empty |
| Kfifo.Fifo.CopyIn | kernel/lib/kfifo.c:153-158 | one memcpy into the ring |
| Kfifo.Fifo.Put | kernel/lib/kfifo.c:139-170 | appends the first min(len, free) bytes |
| Kfifo.Fifo.Get | kernel/lib/kfifo.c:184-214 | removes and returns the first min(len, used) bytes |
| Kfifo.Fifo.LockedGet | kernel/include/tools/kfifo.h:104-123 | the same; restarting the indices of an empty ring is not observable |
| Kfifo.Fifo.Reset | kernel/include/tools/kfifo.h:53-56 | empties the ring |
| Kfifo.StoredAppends | kernel/lib/kfifo.c:153-158 | bytes stored behind the used ones extend the queue by exactly those bytes |
| Kfifo.HalvesStore | kernel/lib/kfifo.c:153-158 | the two copies of a put store every byte in its place and touch nothing else |
| Kfifo.HalvesRead | kernel/lib/kfifo.c:198-203 | the two copies of a get read the oldest bytes in order |
| QuickSort.Partition | kernel/lib/sort.c:23-51 | elements before the returned place come strictly before the pivot, the others do not; the rest of the array is untouched |
| QuickSort.SortRange | kernel/lib/sort.c:23-53 | sorts the range by rearranging it, for any total preorder |
| QuickSort.Sort | kernel/lib/sort.c:56-58 | a sorted permutation of the array |
| QuickSort.Sides | kernel/lib/sort.c:47-53 | partitioning and then sorting both sides sorts the range |
| DirBlockSpec.FindIsLookup | kernel/fs/ext4/lwext4/ext4_dir.c:654-695 | the search gives the first entry of the name and misses exactly when there is none, early stop included |
| DirBlockSpec.InsertOk | kernel/fs/ext4/lwext4/ext4_dir.c:580-652 | insertion succeeds exactly when some record has room, keeps the tiling and adds exactly the entry |
| DirBlockSpec.RemoveOk | kernel/fs/ext4/lwext4/ext4_dir.c:543-573 | removal keeps the tiling and deletes exactly the entry of the record |
| DirBlockSpec.MergedOk | kernel/fs/ext4/lwext4/ext4_dir.c:550-573 | merging into the predecessor keeps every other entry |
| DirBlock.AddedLookup | kernel/fs/ext4/lwext4/ext4_dir.c:580-652 | adding an entry under a new name is adding a pair to the map |
| DirBlock.WithoutLookup | kernel/fs/ext4/lwext4/ext4_dir.c:527-578 | deleting an entry is deleting a key from the map |
| DirBlock.FindInBlock | kernel/fs/ext4/lwext4/ext4_dir.c:654-695 | the loop computes the specified search, zero-length records included |
| DirBlock.Block.constructor | kernel/fs/ext4/lwext4/ext4_dir.c:427-439 | a fresh block with one entry tiles exactly |
| DirBlock.Block.Find | kernel/fs/ext4/lwext4/ext4_dir.c:654-695 | answers as the map from names to inodes |
| DirBlock.Block.TryInsert | kernel/fs/ext4/lwext4/ext4_dir.c:580-652 | adds the pair, or reports ENOSPC exactly when no record has room; a new name is found afterwards and no other lookup changes |
| DirBlock.Block.Remove | kernel/fs/ext4/lwext4/ext4_dir.c:527-578 | deletes the key, or reports ENOENT exactly when it is absent |
| DirBlock.Predecessor | kernel/fs/ext4/lwext4/ext4_dir.c:553-565 | finds the record that ends where the removed one begins |
| HTreeFind.Search | kernel/fs/ext4/lwext4/ext4_dir_idx.c:570-582 | the last entry whose hash does not exceed the name's, never reading the first entry's hash |
| HTreeFind.LeafFound | kernel/fs/ext4/lwext4/ext4_dir_idx.c:564-636 | searching level by level finds the last position of the whole index |
| HTreeFind.GetLeaf | kernel/fs/ext4/lwext4/ext4_dir_idx.c:535-636 | the descent ends at that position; a bad count or limit on the way is reported, and nothing else is |
| HTreeFind.NeverDamaged | kernel/fs/ext4/lwext4/ext4_dir_idx.c:564-636 | a well-formed index meets the lookup's conditions and is never reported as bad |
| HTreeFind.Climb | kernel/fs/ext4/lwext4/ext4_dir_idx.c:655-668 | advances in the lowest node that has a further entry |
| HTreeFind.NextBlock | kernel/fs/ext4/lwext4/ext4_dir_idx.c:645-712 | goes on exactly when the next leaf continues the hash |
| HTree.Reached | kernel/fs/ext4/lwext4/ext4_dir_idx.c:535-831 | a name lies at the searched position or behind it over keys marked as continuing |
| HTreeFind.FindEntry | kernel/fs/ext4/lwext4/ext4_dir_idx.c:714-831 | finds a name if and only if a scan of all leaf blocks would; reports a bad index exactly when the descent meets damage |
| HTreeSplit.Collect | kernel/fs/ext4/lwext4/ext4_dir_idx.c:927-959 | reads the valid records with their hashes |
| HTreeSplit.CollectedNames | kernel/fs/ext4/lwext4/ext4_dir_idx.c:927-959 | every entry with a name is collected |
| HTreeSplit.FindMiddle | kernel/fs/ext4/lwext4/ext4_dir_idx.c:984-1000 | the first record past half a block; none exactly when the records fit half a block |
| HTreeSplit.MiddleInside | kernel/fs/ext4/lwext4/ext4_dir_idx.c:984-1005 | when the records exceed half a block the split point has a record before it |
| HTreeSplit.WriteTiles | kernel/fs/ext4/lwext4/ext4_dir_idx.c:1012-1038 | writes the records one behind the other, the last one taking the rest |
| HTreeSplit.TilesOk | kernel/fs/ext4/lwext4/ext4_dir_idx.c:1012-1038 | the written block is tiled by exactly these entries |
| HTreeSplit.HalvesOk | kernel/fs/ext4/lwext4/ext4_dir_idx.c:984-1005 | entries before the split point hash below the new key, the others not below it but for the mark |
| HTreeSplit.SplitData | kernel/fs/ext4/lwext4/ext4_dir_idx.c:893-1066 | both blocks are well tiled, share out the same entries around the key, and the index gains the new entry |
| HTreeSplitIndex.SplitKeepsIndex | kernel/fs/ext4/lwext4/ext4_dir_idx.c:863-1066 | after a split the index is well formed again and has exactly the same names |
| HTreeSplitIndex.KeyBetween | kernel/fs/ext4/lwext4/ext4_dir_idx.c:984-1005 | the new key lies between its neighbours |
| BuddySpec.BuddyIs | kernel/include/mm/buddy.h:9 | flipping the bit moves by exactly one block, whatever the alignment |
| BuddySpec.LowIs | kernel/include/mm/buddy.h:10 | clearing it gives the lower of the two buddies |
| BuddySpec.BuddiesTouch | kernel/include/mm/buddy.h:7-11 | a block and its buddy are adjacent and the merged block starts at the lower one |
| BuddySpec.SplitOk | kernel/mm/buddy.c:131-149 | the two halves of a block take its place in the partition |
| BuddySpec.MergeOk | kernel/mm/buddy.c:179-193 | two adjacent blocks of one order make a block of the next |
| BuddyLists.AddLastOk | kernel/mm/buddy.c:39-55 | the ring gains the block at its end, links in both directions |
| BuddyLists.AddFirstOk | kernel/mm/buddy.c:22-36 | the ring gains the block at its front |
| BuddyLists.UnlinkOk | kernel/mm/buddy.c:58-73 | the ring loses exactly that block |
| BuddyZone.HoldersWriteOk | kernel/mm/buddy.c:22-55 | whatever holders write into their pages, short of the magic number, keeps the allocator's invariant |
| BuddyZone.ListedOk | kernel/mm/buddy.c:22-55 | listing a block keeps rings, counters, magic numbers and the partition consistent |
| BuddyZone.UnlistedOk | kernel/mm/buddy.c:58-73 | so does taking one off its list |
| Buddy.GetOrder | kernel/mm/buddy.c:11-19 | the smallest order that holds the size |
| Buddy.InitialCounts | kernel/mm/buddy.c:89-109 | the counts of the initial blocks add up to the pages available |
| Buddy.Allocator.constructor | kernel/mm/buddy.c:76-126 | after initialisation free blocks partition the range and nothing is handed out |
| Buddy.Allocator.Populate | kernel/mm/buddy.c:112-125 | the blocks laid out cover the range exactly |
| Buddy.Allocator.PutLast | kernel/mm/buddy.c:39-55 | lists a block at the end, keeping the invariant |
| Buddy.Allocator.PutFirst | kernel/mm/buddy.c:22-36 | lists a block at the front, keeping the invariant |
| Buddy.Allocator.Remove | kernel/mm/buddy.c:58-73 | takes a free block off its list, keeping the invariant |
| Buddy.Allocator.Require | kernel/mm/buddy.c:131-149 | splits a larger block down to the order, or there is none larger; other holders keep theirs |
| Buddy.Allocator.Alloc | kernel/mm/buddy.c:152-176 | hands out a block of the least sufficient order that nobody had, or no free block is that large |
| Buddy.Allocator.FreeHelper | kernel/mm/buddy.c:179-193 | coalesces upwards; exactly the block given back stops being held and the partition stays exact |
| Buddy.Allocator.Free | kernel/mm/buddy.c:196-202 | the same for every answer of the range check on links |
| Umalloc.UnitsEnough | user/lib/umalloc.c:70-75 | the units hold the request exactly when the 32-bit count does not wrap |
| Umalloc.UnitsExample | user/lib/umalloc.c:70-75 | the smallest request whose count wraps, to zero |
| UmallocSpec.FreedOk | user/lib/umalloc.c:23-46 | freeing keeps the ring circular, sorted, disjoint and fully coalesced, and returns exactly that block |
| UmallocSpec.LinkLoose | user/lib/umalloc.c:28-45 | linking a block behind its predecessor keeps the ring sorted and apart from blocks in use |
| UmallocSpec.SwallowLoose | user/lib/umalloc.c:31-43 | merging two touching neighbours keeps it so |
| UmallocSpec.FreedCovers | user/lib/umalloc.c:23-46 | the freed units are part of some free block afterwards |
| UmallocTake.WholeOk | user/lib/umalloc.c:85-86 | handing out a whole block keeps the invariant |
| UmallocTake.TailOk | user/lib/umalloc.c:87-92 | so does handing out its tail |
| UmallocTake.GrownOk | user/lib/umalloc.c:58-66 | memory from the break is new |
| Umalloc.Allocator.FindPlace | user/lib/umalloc.c:28-30 | the search ends, at the last node below the block |
| Umalloc.Allocator.Free | user/lib/umalloc.c:23-46 | returns the block and keeps the invariant |
| Umalloc.Allocator.MoreCore | user/lib/umalloc.c:48-67 | a block of the size asked for exists afterwards, or brk failed and nothing changed |
| Umalloc.Allocator.Take | user/lib/umalloc.c:83-95 | takes units from a node: a new block, disjoint from all others, unless the count is zero; then the static header is unlinked or a header of size 0 written behind the free block |
| Umalloc.Allocator.Malloc | user/lib/umalloc.c:69-99 | returns a new disjoint block; grows the heap at most once; fails only if brk fails; the invariant is kept if and only if the unit count is not zero |
| IndirectMap.FindLevel | kernel/fs/ext4/lwext4/ext4_fs.c:1390-1401 | the level loop finds the level whose range holds the block |
| IndirectMap.PathFits | kernel/fs/ext4/lwext4/ext4_fs.c:1403-1451 | the offsets of a block are valid indexes at every level |
| IndirectMap.PathsApart | kernel/fs/ext4/lwext4/ext4_fs.c:92-103 | two blocks of one level differ in some index |
| IndirectMap.GrowMap | kernel/fs/ext4/lwext4/ext4_fs.c:1569-1610 | linking in an empty indirect block changes no block number |
| IndirectMap.WriteMap | kernel/fs/ext4/lwext4/ext4_fs.c:1612-1617 | writing the last pointer renumbers that block alone |
| IndirectMap.Inode.constructor | kernel/fs/ext4/lwext4/ext4_fs.c:92-103 | an empty inode maps everything to 0 |
| IndirectMap.Inode.Get | kernel/fs/ext4/lwext4/ext4_fs.c:1345-1457 | the number of the block, 0 for holes and empty files, an error beyond the last level |
| IndirectMap.Inode.Descend | kernel/fs/ext4/lwext4/ext4_fs.c:1416-1452 | the loop through the levels is the lookup in the tree |
| IndirectMap.Inode.Set | kernel/fs/ext4/lwext4/ext4_fs.c:1475-1638 | afterwards the block has the number and every other block its old one; no space if and only if fewer blocks are supplied than indirect blocks are missing on the way, and exactly those are taken; a failure renumbers none |
| IndirectMap.Inode.SetBelow | kernel/fs/ext4/lwext4/ext4_fs.c:1560-1638 | the same from the root of a level down, with the exact number of blocks taken |
| IndirectMap.Inode.Root | kernel/fs/ext4/lwext4/ext4_fs.c:1523-1558 | the first table of a level, added if missing; fails only without a block |
| IndirectMap.Inode.Table | kernel/fs/ext4/lwext4/ext4_fs.c:1564-1610 | the table below, added if missing, taking one block exactly then; fails only without a block |
| Radix.WriteLeaf | kernel/fs/ext4/lwext4/ext4_fs.c:1612-1617 | in a tree of tables a written entry is read exactly through its own path |
| Radix.GrowSame | kernel/arch/riscv/mm/mm.c:98-105 | adding an empty table changes no lookup |
| Radix.GrowReach | kernel/arch/riscv/mm/mm.c:98-105 | adding a table lets exactly its own place be reached |
| Radix.ReachPlace | kernel/arch/riscv/mm/mm.c:96-108 | every table is reached along the indexes of its place |
| Radix.DigitsApart | kernel/fs/ext4/lwext4/ext4_fs.c:1403-1451 | numbers with the same digits are equal |
| PageTable.PathsApart | kernel/arch/riscv/mm/mm.c:96-108 | the three 9-bit indexes determine the page |
| PageTable.NextEntry | kernel/mm/vm.c:46-57 | the next page is the next entry of the table unless this is the last |
| PageTable.CountCovers | kernel/mm/vm.c:40-42 | for any start the pages reach the end of the range if and only if it does not end one byte past a page boundary, and none lies wholly past it |
| PageTable.CountExample | kernel/mm/vm.c:40-42 | 4097 bytes get one page, one byte gets none |
| PageTable.LeafPteFields | kernel/mm/vm.c:48-48 | the entry written gives back the frame and the flags, marked valid |
| PageTable.WriteMap | kernel/mm/vm.c:48 | writing the entry of a page changes that page alone |
| PageTable.Table.constructor | kernel/arch/riscv/mm/mm.c:93-109 | an empty root maps nothing |
| PageTable.Table.Child | kernel/arch/riscv/mm/mm.c:97-106 | the next table, allocated if missing and asked for, one page taken exactly then, with no page remapped |
| PageTable.Table.Walk | kernel/arch/riscv/mm/mm.c:93-109 | the entry of the page, with no page remapped; null if and only if more tables are missing on its way than can be added; afterwards exactly those tables are there too |
| PageTable.Table.MapPages | kernel/mm/vm.c:37-58 | exactly the counted pages map to consecutive frames with the given flags; every other page is unchanged; it succeeds if and only if the pages supplied cover the tables lacking on all its walks, takes exactly that many, and otherwise stops at the first walk that they do not cover |
| PageTable.MissingCount | kernel/arch/riscv/mm/mm.c:93-109 | what a walk has to add is the set of tables lacking on its way |
| PageTable.LackingMore | kernel/mm/vm.c:46-57 | the tables lacking for one more walk are those lacking before and those lacking now, without overlap |
| Bitmap.FindClear | kernel/fs/ext4/lwext4/ext4_bitmap.c:90-158 | the loops compute the first clear bit, but report the start of the search for one before the byte boundary |
| Bitmap.FoundIsClear | kernel/fs/ext4/lwext4/ext4_bitmap.c:90-112 | the reported bit is clear if and only if the start is clear or the bits up to the byte boundary are all set |
| Bitmap.FoundExample | kernel/fs/ext4/lwext4/ext4_bitmap.c:104 | a four-bit map for which a used bit is reported |
| Bitmap.BitsFree | kernel/fs/ext4/lwext4/ext4_bitmap.c:45-88 | clears exactly the range |
| BitGroups.TakeOk | kernel/fs/ext4/lwext4/ext4_balloc.c:555-583 | taking a clear bit keeps group and file system counts equal to the clear bits |
| BitGroups.GiveIff | kernel/fs/ext4/lwext4/ext4_balloc.c:152-231 | giving a bit back keeps the counts exact if and only if it was in use |
| BitGroups.DoubleFreeExample | kernel/fs/ext4/lwext4/ext4_balloc.c:152-231 | freeing a free block counts two free blocks where one is |
| BitGroups.GiveRangeIff | kernel/fs/ext4/lwext4/ext4_balloc.c:260-330 | giving back a range keeps the counts exact if and only if all of it was in use |
| BlockAlloc.AddressRoundTrip | kernel/include/fs/ext4/lwext4/ext4_fs.h:93-116 | addresses and positions in groups determine each other, but for block 0 before the first group |
| BlockAlloc.LastGroup | kernel/fs/ext4/lwext4/ext4_super.c:51-74 | the sizes of the groups add up to the blocks |
| BlockAlloc.NearGoal | kernel/fs/ext4/lwext4/ext4_balloc.c:409-464 | the search from the goal gives the first clear bit from there on, though the bitmap search alone would not |
| BlockAlloc.Allocator.AllocBlock | kernel/fs/ext4/lwext4/ext4_balloc.c:352-583 | returns a block that was free and takes it alone; ENOSPC if and only if none is free |
| BlockAlloc.Allocator.OtherGroups | kernel/fs/ext4/lwext4/ext4_balloc.c:479-553 | visits every group once |
| BlockAlloc.Allocator.TakeBit | kernel/fs/ext4/lwext4/ext4_balloc.c:555-583 | takes a bit and lowers the counts |
| BlockAlloc.Allocator.FreeBlock | kernel/fs/ext4/lwext4/ext4_balloc.c:152-231 | frees the block; the counts stay exact if and only if it was in use |
| BlockAlloc.Allocator.FreeBlocks | kernel/fs/ext4/lwext4/ext4_balloc.c:233-350 | frees a run across groups; the counts stay exact if and only if all of it was in use |
| BlockAlloc.Allocator.TryAllocBlock | kernel/fs/ext4/lwext4/ext4_balloc.c:585-665 | takes the block if it is free and says so |
| BlockAlloc.ClearedNow | kernel/fs/ext4/lwext4/ext4_bitmap.c:45-88 | the bitmap with the range cleared |
| InodeAlloc.InodeRoundTrip | kernel/fs/ext4/lwext4/ext4_ialloc.c:62-92 | inode numbers and positions determine each other |
| InodeAlloc.SomeClear | kernel/fs/ext4/lwext4/ext4_ialloc.c:265-301 | a positive count means the search succeeds, so the branch that does not advance is never taken |
| InodeAlloc.Allocator.AllocInode | kernel/fs/ext4/lwext4/ext4_ialloc.c:229-366 | goes round the groups once from the last one used; returns an inode that was free; ENOSPC if and only if none is |
| InodeAlloc.Allocator.TakeInode | kernel/fs/ext4/lwext4/ext4_ialloc.c:303-353 | takes the inode and keeps the counts |
| InodeAlloc.Allocator.FreeInode | kernel/fs/ext4/lwext4/ext4_ialloc.c:158-227 | frees the inode; the counts stay exact if and only if it was in use |
| GrepMatch.Match | user/src/grep.c:72-82 | true if and only if the text satisfies the declarative meaning of the pattern |
| GrepMatch.MatchHere | user/src/grep.c:85-96 | the same at one position |
| GrepMatch.MatchStar | user/src/grep.c:99-106 | a star followed by the rest, at one position |
| GrepMatch.HereFirst | user/src/grep.c:85-96 | a text fits a list of pieces exactly when a beginning fits the first and the rest the others |
| GrepLines.TakeLines | user/src/grep.c:16-26 | writes the completed matching lines and leaves the unfinished one |
| GrepLines.Grep | user/src/grep.c:6-33 | for every way the input is chunked the output is the matching lines in order, up to the first line that holds a NUL or more than 1022 bytes |
| GrepLines.ShownIsSelected | user/src/grep.c:6-33 | all matching lines are shown for every pattern if and only if there is no such line |
| GrepLines.LongLineExample | user/src/grep.c:6-33 | a matching line of 1023 bytes that is not shown |

## Left out

- Extents: unwritten extents and their conversion, and removal of ranges; the code modelled creates written extents only.
- ExtentFile.ExtentFile.GetBlock: asks for one block per call; the length of the run found or created is not modelled.
- Device errors: reads and writes succeed in the cache and file system models; write-completion callbacks and the flag that stops eviction during them are not modelled.
- Block cache: invalidation of ranges, reads and writes that bypass the cache, and byte-granular access.
- Checksums of metadata blocks, and with them the directory tail's contents and the smaller index capacity they imply.
- Hash functions of the directory index: any even-valued function stands for them. Splitting of index nodes is not modelled, only of leaves.
- HTreeSplit.SplitData: asks for records that exceed half a block, since the code reads before the start of its array otherwise, and for names of 1 to 255 bytes.
- HTreeFind.FindEntry: an index that the descent finds undamaged is taken to be well formed; damage in nodes that the descent does not read is not modelled.
- HTreeFind.GetLeaf: takes the same for granted.
- BlockAlloc.Allocator.AllocBlock: asks for a goal inside the file system, or one behind it whose bit is set, since further on the code's count of bits to search wraps around and a clear bit there would be taken.
- BlockAlloc.Allocator.FreeBlocks: takes the number of blocks in a group to be eight times the block size, as the code does when it steps from group to group.
- DirBlockSpec.InsertOk: a block holds whole records by offset; a record that overlaps another, which a damaged block could hold, is not modelled byte by byte.
- Block and inode counters of an inode, unused-inode hints of a group, and block revocation.
- kfifo: each index is sampled in one read, and the barriers are taken to order the three phases; the memory model itself is not modelled.
- KfifoRing.RoundUp: asks for at most 2^31 bytes, since the code shifts by the word width otherwise.
- Kfifo.Fifo.constructor: asks for the same.
- Buddy.Allocator.Alloc: asks for at most the largest block, since the code indexes past its table otherwise. Holders are taken not to write the magic number into the first bytes of a page.
- Buddy.Allocator.FreeHelper: memory outside the range is taken never to show the magic number; the code looks there when a buddy's address falls outside.
- Umalloc.Allocator.Malloc: sizes of merged blocks are unbounded, and the static header lies below the heap.
- PageTable.Table.MapPages: the range does not wrap around the address space; page reference counts are not modelled; a failed allocation, on which the code stops the kernel, is a result.
- IndirectMap.Inode.Set: a block handed out for an indirect block stays linked when a later one is missing, as in the code; giving it back is not modelled because the code does not.
- Path walking, journal, extended attributes, file system creation, processes, scheduling, traps, drivers and the network: large glue code, or easy members only.
