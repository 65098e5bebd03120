# A model of NAOFS, and what holds of it

NAOFS is a System V style file system: a chained list of free blocks, inodes with ten direct
slots and single, double and triple indirect blocks, an in-core inode cache, and flat
directories. The model is layered as the program is. Every operation that changes a disk, a
linked structure or a cache step by step is a method, proved against a function or a relation
of the state before it; the properties are then lemmas about those, over every disk, every file
size up to the triple-indirect limit, every cache and every run.

1. Free blocks. `Disk` is the device: exactly `NUM_OF_BLOCKS` blocks of 128 words, with a
   1024-byte view in `Bytes`. `FreeChain` gives `blockAlloc` and `_freeInto` as functions and
   says what they do to the free list as a sequence; `Allocator` has the loops, `Mkfs` lays the
   chain out.
2. Files. `BlockPath` is the mixed-radix arithmetic of `calculateOffset`; `BlockTree`,
   `TreeGrowth` and `TreeRelease` the tree of indirect blocks; `FileMap`, `FileGrowth` and
   `FileRelease` a whole inode, `ReleaseOrder` the order of its release. `INodeManager` and
   `BMap` have the code step by step. `Conservation` is the state machine over all files of the
   disk. `FileContent`, `FileWrite`, `FileRead` and `FileTruncate` treat a file as a sequence of
   bytes, and `FileIO` has the loops. `FileOutcome` says exactly which writes do what they
   should, and byte for byte what every other write and every read comes to. `FileShrink` and
   `StaleShrink` settle truncation over any number of blocks, and `Reachable` shows that the
   failing states are reached from mkfs. `INodeTable` is the addressing of inodes on disk and
   `INodeImage` their bytes.
3. The inode cache. `NodeList` and `HashQueue` are the two pointer structures, `CacheModel` the
   cache as a value with what every run keeps, and `INodeCache` runs `iget` and `iput` on the
   linked nodes and refines `CacheModel`. `CacheView` says what holders of inodes see.
4. Directories and links. `DirectoryEntry` is the 64-byte entry and the directory as a map,
   `Directory` the searches through blocks, `DirectoryContent` what they do to the map, and
   `DirectoryTree` all inodes of a volume on one disk. `Paths`, `Links`, `VolumeSteps`,
   `CreateSteps`, `RenameSteps` and `Volumes` are path resolution, creation of files and
   directories, unlink, rmdir and rename over the cache, with one sequence of entries per directory,
   from the state mkfs leaves. `PathEffects` says where paths lead afterwards, and `VolumeRuns`
   what holds in every state of a run of such requests, with inodes opened and closed between
   them; the outcomes of its requests are the predicates that the methods of `Volumes` ensure.
   `DirectoryRuns` follows the entries `.` and `..` through such runs.

`Separate` is the statement that holds layers 1 and 2 together: the free list, all data and
indirect blocks of a file, and any given set of other blocks share nothing.

## What is not as promised

These are results about the code, each with the exact condition where there is one.

- Freeing works if and only if the head of the free list has a nonzero first or last slot, or
  the freed block happens to hold only zeros (`FreeChain.FreeIffGuard`).
- Truncation takes each path from the size instead of from the last block, so from an aligned
  size an indirect block is given back one round late. A truncation frees exactly what leaves
  the file if and only if its new end starts no indirect block or no block was dropped from an
  aligned size, provided the first path is not stale (`FileShrink.ShrinkFreesIff`,
  `Conservation.TruncateConservesIff`). One entry leaves a directory safely at any size.
- On a stale path, where the next index starts one or more indirect blocks, whatever words the
  slots still lead to are freed: right if and only if the first of them is 0 and the head of the
  free list is not full (`StaleShrink.ShrinkStaleIff`).
- An unguarded head, a file that leaks when it is shrunk and a file whose shrink frees a block
  that is free already are reached from mkfs (`Reachable.UnguardedReached`,
  `Reachable.LeakReached`, `Reachable.StaleReached`).
- A write that starts inside a file and ends past it is wrong except when it rewrites a file of
  at most one block or starts in a block-aligned file it is no longer than
  (`FileOutcome.WriteExact`). There are three ways to go wrong (`FileOutcome.UnsafeIsOne`): with more bytes than the file has,
  from inside it, the file becomes as long as the first part written and loses every block past
  its first (`FileOutcome.WriteInside`); past an end inside a block the size stays and what is
  behind it is lost (`FileOutcome.WriteCut`); over a longer file of several blocks, from its start,
  the bytes are right and every block past the first is lost (`FileOutcome.WriteOver`).
- A read returns too many bytes unless it starts at 0, or ends at a block boundary
  (`FileRead.ReadExact`): it goes on to the end of the block, or as far past its end as it started
  past the start of the file (`FileOutcome.ReadReturns`).
- The root never has a link, so every iget fetches it again. A change to it is there at the next
  iget if and only if nobody else held it meanwhile (`CacheView.ChangeSurvivesIff`), and a
  reference to it that is never given back costs the next entry added to it
  (`CreateSteps.LeakCosts`).
- Names of 62 bytes or more are stored without a terminator (`DirectoryEntry.StoredNameFound`).
- Unlinking in a directory of at most two entries, the last of which names inode 65535, drops
  the last entry instead of the one found (`DirectoryContent.UnlinkRemoves`).
- A path component looked for in a file leads to the root. A path resolves as the directories
  say if and only if only directories are searched, or what comes below the first file leads
  nowhere from the root (`Paths.WalkIsFoldIff`, `VolumeSteps.ResolvesIff`).
- Creating a file or directory below something that is no directory gives it a link and no name
  (`CreateSteps.CreatedCounted`); creating a name that exists leaves a reference to the parent
  behind (`Volumes.Volume.CreateFile`), and a rename whose target directory does not exist
  leaves one to the file behind (`Volumes.Volume.RenameFile`).
- A rename leaves the right names if and only if unlinking the source takes the source's own entry
  away, which the marker of a directory of two entries can prevent (`RenameSteps.RenamedIff`).
- If the marker keeps the entry of the target, the target directory has the new name twice
  (`RenameSteps.TwiceNamed`); if the target directory is a root that someone else holds, the next
  iget shows it without the new entry (`RenameSteps.HoldingRoot`).
- Renaming a file to its own name removes it (`RenameSteps.NewNameBoundIff`, `PathEffects.RenameLeads`).
- A directory that is moved keeps `..` for the directory it was in (`DirectoryRuns.MovedKeepsParent`).
- A reclaimed inode keeps the numbers of its released blocks in the inode table
  (`CacheView.ReclaimedTable`).
- A directory starts with two links and an unlink takes one, so its inode and blocks are never
  given back (`VolumeRuns.RunKeepsDirectory`).
- A request keeps the link counts and the root right if and only if it is careful: a creation is
  in a directory, nobody else holds the root while an entry of it comes or goes, and the marker
  takes no entry of another regular file away (`VolumeRuns.StepSoundIff`). References balance
  except for the two leaks above (`VolumeRuns.RunRefs`).

## Model

| member | source | states |
|---|---|---|
| Allocator.BlockAlloc | src/dsk/alloc.c:12-50 | the loop over the head block computes `Alloc` on the whole disk |
| Allocator.FreeInto | src/dsk/free.c:13-61 | both branches of the push compute `Free` on the whole disk |
| Allocator.BlockFree | src/dsk/free.c:103-107 | a free goes to the list at block 2 |
| FreeChain.AllocPops | src/dsk/alloc.c:29-44 | a nonempty free list loses exactly its first block, which is returned; crossing a link block included |
| FreeChain.AllocFromEmpty | src/dsk/alloc.c:29-44 | the empty list gives block 0 and stays empty |
| FreeChain.FreePushes | src/dsk/free.c:28-57 | under the guard a freed block joins the free list, once, at a place that is stated, and the chain stays well formed |
| FreeChain.FreeWrites | src/dsk/free.c:38-57 | with room in the head only the head is written; else the head moves into the freed block and a head that lists just that block takes its place |
| FreeChain.FreeIffGuard | src/dsk/free.c:28-57 | a free adds exactly its block if and only if the head's first or last slot is in use or the block holds zeros |
| FreeChain.FreeThenAlloc | src/dsk/free.c:28-57 | freeing, then allocating gives the block back and restores the head word for word, when the head is full or its zeros are a prefix |
| FreeChain.FreeThenAllocOther | src/dsk/free.c:38-46 | in every other guarded head the next allocation returns a different block |
| FreeChain.ChainUnique | src/dsk/alloc.c:38-44 | a disk has one free list: what the chain lists is determined by the disk |
| FreeChain.GuardHolds | src/dsk/free.c:28-46 | a list of at least 128 blocks satisfies the guard |
| FreeChain.GuardKept | src/dsk/free.c:28-46 | freeing keeps the guard |
| Mkfs.MakeOneBlock | src/mkfs/freeBlockList.c:8-25 | one list block, cut off at the end of the disk, and its last number or 0 |
| Mkfs.InitializeDiskBlocks | src/mkfs/mkfs.c:91-108 | the loop ends and lays out the chain |
| Mkfs.MkfsFreesAll | src/mkfs/mkfs.c:91-108 | mkfs frees exactly startPos up to the last block, each once, for every startPos, multiples of 128 included |
| Mkfs.DrainInOrder | src/dsk/alloc.c:29-44 | n allocations return the first n free blocks in order, and 0 once they run out |
| BlockPath.CalculateOffset | src/incoreInodeOps/iNodeManager.c:38-58 | the four branches fill in the path of the block index |
| BlockPath.PathRoundTrip | src/incoreInodeOps/iNodeManager.c:38-58 | the index is recovered from its path for every index up to the limit |
| BlockPath.IndexRoundTrip | src/incoreInodeOps/iNodeManager.c:38-58 | every valid tree path is the path of exactly one index, so the map is a bijection |
| BlockPath.PathOrder | src/incoreInodeOps/iNodeManager.c:38-58 | index order is lexicographic order on level and offsets |
| BlockPath.ZeroTail | src/incoreInodeOps/iNodeManager.c:60-75 | the all-zero tail test marks exactly the first leaf of a subtree |
| INodeManager.AllocateBlockIfNeeded | src/incoreInodeOps/iNodeManager.c:60-75 | allocates exactly when all offsets are zero |
| INodeManager.AllocateAllNeededBlocks | src/incoreInodeOps/iNodeManager.c:77-111 | the descent that allocates, rewrites and links indirect blocks computes `Grow` |
| INodeManager.UpdateIndex | src/incoreInodeOps/iNodeManager.c:119-132 | direct slot or tree, by level |
| INodeManager.InsertDataBlockInINode | src/incoreInodeOps/iNodeManager.c:141-154 | inserts at the index of the file's size, and does nothing when the size is not aligned |
| INodeManager.FreeNeeded | src/incoreInodeOps/iNodeManager.c:156-168 | true exactly when all offsets are zero |
| INodeManager.FreeNeededBlocks | src/incoreInodeOps/iNodeManager.c:170-206 | frees the block, notes indirect blocks on the way down, and frees them afterwards |
| INodeManager.FreeDataBlockInINode | src/incoreInodeOps/iNodeManager.c:208-217 | removes a block along the path of the current size |
| INodeManager.DiskBlockFree | src/dsk/free.c:63-81 | the recursion over a tree with a shared remaining size computes `FreeTree`, and ends |
| INodeManager.InodeBlocksFree | src/dsk/free.c:83-101 | both loops compute `ReleaseFile`, slots included |
| TreeGrowth.InsertGrows | src/incoreInodeOps/iNodeManager.c:77-111 | inserting leaf m in a tree of m leaves makes the walk to m find the new block, keeps every earlier walk, and takes exactly the new spine from the front of the free list |
| TreeRelease.FreeTreeReleases | src/dsk/free.c:63-81 | the recursive release puts exactly the blocks of the tree that belong to the remaining size on the free list, each once, though every free overwrites blocks |
| TreeRelease.CollectIsSpine | src/incoreInodeOps/iNodeManager.c:186-196 | the blocks noted on the way down are the spine that insertion of that leaf had taken |
| FileMap.FileCost | src/incoreInodeOps/iNodeManager.c:21-23 | a file of n blocks owns exactly n + Meta(n) blocks, in closed form with breaks at 10, 138 and 16522 |
| FileMap.FileNewStep | src/incoreInodeOps/iNodeManager.c:60-111 | the closed form grows by exactly the indirect blocks that index n takes |
| FileGrowth.AppendGrows | src/incoreInodeOps/bmap.c:49-63 | appending block n of any file below the limit: the new block at index n, the old block at every earlier index, its spine from the free list, and file, free list and all other blocks still disjoint |
| FileGrowth.GrownOwns | src/incoreInodeOps/iNodeManager.c:141-154 | the file gains exactly the block and the indirect blocks that were allocated |
| FileGrowth.AppendKeepsWords | src/incoreInodeOps/iNodeManager.c:77-111 | apart from the head of the free list an append changes no word but those at the offsets of the new block, so a new indirect block keeps what it held |
| FileRelease.RemoveLast | src/incoreInodeOps/iNodeManager.c:170-206 | with the path of the last block exactly that block and its spine are freed, in this order; the rest of the file and every other block is untouched |
| FileRelease.InsertThenRemove | src/incoreInodeOps/iNodeManager.c:77-206 | append, then remove: every block taken is free again and the file is as before |
| FileRelease.ReleaseFrees | src/dsk/free.c:83-101 | releasing an inode puts exactly its data and indirect blocks on the free list, each once, and touches nothing else |
| FileRelease.ReleaseClears | src/dsk/free.c:83-101 | exactly the slots that the file used are 0 afterwards |
| ReleaseOrder.ReleasesInOrder | src/dsk/free.c:63-101 | the order of the frees: the direct blocks in order, then each tree from its first leaf on, an indirect block after all that is below it |
| FileRelease.SizePathExact | src/incoreInodeOps/iNodeManager.c:208-217 | the path from the size frees exactly the right indirect blocks if and only if the size is path-safe |
| FileRelease.ShrinkMoves | src/incoreInodeOps/iNodeManager.c:208-217 | at a path-safe size the last block goes from the file to the free list and no other block moves |
| BMap.MapBlock | src/incoreInodeOps/bmap.c:39-81 | the error cases, the append case and the lookup case, with what each leaves unchanged |
| BMap.ProcessAndGetDiskBlock | src/incoreInodeOps/bmap.c:13-31 | the loop down the indirect blocks computes `Descend` |
| BMap.LookUpFinds | src/incoreInodeOps/bmap.c:65-77 | on a well-formed file the lookup of any index finds the block of that index |
| BMap.AppendLookUp | src/incoreInodeOps/bmap.c:39-81 | after an append the lookup finds the new block for the new index and the same block as before for all others |
| Conservation.StepConserves | src/dsk/free.c:28-57 | append, path-safe removal of a block, truncation that loses nothing, release of an inode and data writes keep free and owned blocks a partition of the data area |
| Conservation.FormatConserves | src/mkfs/mkfs.c:110-116 | mkfs starts with that partition |
| Conservation.RunConserves | src/mkfs/mkfs.c:91-116 | in every state that a run from mkfs reaches the partition holds |
| Conservation.Partition | src/dsk/alloc.c:29-44 | what the partition means: each data block is free or owned by exactly one inode, once |
| Conservation.AppendConservesIff | src/incoreInodeOps/bmap.c:49-63 | an append keeps the partition if and only if enough blocks were free for it |
| Conservation.TruncateConservesIff | src/interface/truncate.c:43-60 | a truncation by any number of bytes that starts on no stale path keeps the partition if and only if its new end starts no indirect block or no block was dropped from an aligned size |
| Conservation.ShrinkLeaks | src/incoreInodeOps/iNodeManager.c:208-217 | dropping one block from an aligned file of n blocks with (n - 10) % 128 = 1 breaks the partition, for all such n above 10 |
| StaleShrink.ShrinkStaleIff | src/incoreInodeOps/iNodeManager.c:186-202 | the other unsafe half: where index n starts one, two or three indirect blocks, dropping a block from n aligned blocks keeps the partition if and only if the first stale word is 0 and the head of the free list is not full |
| StaleShrink.FreeBack | src/dsk/free.c:28-57 | a free that leaves a well-formed list started from one, which was one block shorter |
| StaleShrink.DoubleFree | src/dsk/free.c:28-57 | freeing a block that is free already leaves no free list at all |
| Reachable.UnguardedReached | src/dsk/alloc.c:29-44 | mkfs and 31440769 allocations lead to a head on which the next free of a nonzero block goes wrong, with 123 blocks free |
| Reachable.LeakReached | src/incoreInodeOps/iNodeManager.c:208-217 | mkfs and eleven appends lead to a file that leaks a block when its last block is dropped |
| Reachable.StaleReached | src/incoreInodeOps/iNodeManager.c:186-202 | mkfs, eleven appends and a shrink that conserves every block lead to a file whose next shrink frees its old indirect block again |
| Bytes.PackHolds | src/interface/write.c:28 | the words packed from 1024 bytes hold those bytes |
| Bytes.ViewsAgree | src/mkfs/freeBlockList.c:16-20 | the word view and the byte view of a block determine each other |
| Bytes.SpliceHolds | src/interface/write.c:28 | memcpy into a block changes exactly the bytes it covers |
| Bytes.LittleEndian | src/mkfs/freeBlockList.c:16-20 | eight bytes make a word, the first counting least |
| Bytes.WordBytes | src/mkfs/freeBlockList.c:16-20 | word i of a block is its bytes 8i to 8i + 7 in that order |
| FileContent.PutBlock | src/interface/write.c:11-36 | overwriting a data block keeps the block map, the free list, the indirect blocks and all other files |
| FileContent.PutContent | src/interface/write.c:11-36 | and changes the contents of that index only |
| FileIO.WriteToBlock | src/interface/write.c:11-36 | fetch, memcpy and write back |
| FileIO.WriteToFile | src/interface/write.c:53-88 | -1 past the end, otherwise the loop computes `WriteLoop`, inode and file offset included; `FileOutcome.WriteExact` and the three lemmas of `FileOutcome` say what that is for every write |
| FileIO.ReadBytes | src/interface/read.c:78-104 | the read loop returns `Read`, moves the file offset by it, and changes nothing else |
| FileIO.ReadInBlock | src/interface/read.c:67-76 | the bytes of one block from the offset on |
| FileIO.IncreaseFileSizeBy | src/interface/truncate.c:27-41 | a well-formed file that is grown, with enough blocks free, keeps its bytes and then holds zeros, takes exactly the blocks it needs and leaves all others; in any case the growth is an append of that many zero bytes |
| FileIO.WriteNullBytes | src/interface/truncate.c:15-25 | each byte of the range is 0 and every other byte of the block as before |
| FileIO.DecreaseFileSizeBy | src/interface/truncate.c:43-60 | the loop computes `ShrinkLoop` |
| FileIO.TruncateINode | src/interface/truncate.c:62-72 | the three cases of a new size; a larger one leaves the old bytes followed by zeros up to the new size |
| FileIO.ZerosExtend | src/interface/truncate.c:27-41 | appending zeros keeps every old byte, makes every new one 0, and takes exactly the blocks needed |
| FileWrite.AppendWrites | src/interface/write.c:60-84 | a write at the end appends the bytes, takes exactly the blocks it needs from the front of the free list, and leaves all other files |
| FileWrite.OverWrites | src/interface/write.c:60-84 | a write inside a file replaces exactly that slice |
| FileWrite.ShortWrites | src/interface/write.c:70-75 | rewriting a file of at most one block from its start with more bytes gives exactly those bytes |
| FileOutcome.WriteExact | src/interface/write.c:60-84 | a write does what it should, contents, size, blocks and other files, if and only if offset, size and length are `WriteSafe` |
| FileOutcome.WriteInside | src/interface/write.c:70-75 | from inside a file, more bytes than it has: the part that fits in the block of the offset is written and returned, the file is exactly what was before the offset and then the bytes, cut to the length of that part; every block past its first is lost, nothing is taken or freed |
| FileOutcome.WriteCut | src/interface/write.c:60-84 | past an end inside a block: bytes up to the end of that block count as written, those up to the end of the file are, size, blocks and other files stay |
| FileOutcome.WriteOver | src/interface/write.c:70-75 | more bytes than a file of several blocks has, from its start: the file holds exactly them, its blocks are counted anew from the first on, and all its other old blocks are lost |
| FileOutcome.UnsafeIsOne | src/interface/write.c:60-84 | these three are exactly the writes that are not `WriteSafe` |
| FileRead.ReadExact | src/interface/read.c:78-104 | a read returns exactly the bytes of the file that were asked for if and only if it is `ReadSafe` |
| FileOutcome.ReadReturns | src/interface/read.c:78-104 | every read, byte for byte: where it stops, and that it returns the bytes of the blocks of the file from the offset to there |
| FileTruncate.ShrinkKeepsPrefix | src/interface/truncate.c:43-60 | a shrink of which every round is safe keeps exactly the prefix and moves exactly the blocks no longer needed to the free list |
| FileShrink.LagDrop | src/incoreInodeOps/iNodeManager.c:170-206 | a round from an aligned size frees its block and the indirect blocks left over from the round before, and leaves its own behind |
| FileShrink.ShrinkExact | src/interface/truncate.c:43-60 | any shrink that starts on no stale path keeps exactly the prefix, moves what leaves the file to the free list, and loses exactly the indirect blocks that its new end starts |
| FileShrink.ShrinkFreesIff | src/interface/truncate.c:43-60 | so it frees what it should if and only if nothing is lost, a condition on the two sizes |
| FileTruncate.DirectShrinkSafe | src/interface/truncate.c:43-60 | every shrink of a file of fewer than ten blocks' bytes is safe |
| FileTruncate.EntryShrinkSafe | src/interface/unlink.c:43 | dropping one directory entry is safe at any size |
| INodeTable.InitializeINodeParams | src/mandsk/params.c:10-25 | the halving loop gives a power of two above the struct size, half of which is not |
| INodeTable.LeastPower | src/mandsk/params.c:13-20 | no smaller power of two is above the struct size |
| INodeTable.Disjoint | src/mkfs/iNodeManager.c:96-113 | inodes lie whole inside the inode blocks and no two overlap |
| INodeTable.AccessINode | src/mkfs/iNodeManager.c:86-115 | both access types, and -1 for a number out of range; a read gives bytes 256 (i mod 4) to 256 (i mod 4) + 175 of block 4 + i / 4 |
| INodeTable.TableSizes | src/mandsk/params.c:10-25 | the stride of the table is the power of two that the halving loop gives for 176 bytes, a block holds 1024 over it, and the inode blocks reach from block 4 to the first data block |
| INodeTable.ReadFrom | src/mkfs/iNodeManager.c:86-115 | inode i is the 176 bytes at its offset in its block, for that size |
| INodeTable.WrittenTo | src/mkfs/iNodeManager.c:106-109 | writing inode i sets those bytes, clears the rest of its slot and changes no other byte of the disk |
| INodeTable.WriteThenRead | src/mkfs/iNodeManager.c:86-115 | writing inode i, then reading j gives the new value if and only if i = j, and leaves the free list and data blocks |
| INodeImage.ImageRoundTrip | src/mkfs/iNodeManager.c:103-109 | the 176 bytes of an inode whose fields are in range give the inode back |
| INodeImage.ImageLayout | include/inode/iNode.h:21-51 | each field of struct iNode at its byte, with the codes of the three types |
| INodeImage.TableWritten | src/mkfs/iNodeManager.c:134-140 | writing an inode to the disk sets its entry of the inode table and no other |
| INode.InCoreINode.InsertDiskINodeData | src/inode/inCoreiNode.c:3-21 | the in-core inode stands for the disk inode, its reference count and flags kept |
| INode.InCoreINode.GetDiskINodeData | src/inode/inCoreiNode.c:23-41 | the copy back is the inode it stands for |
| INode.InCoreINode.UpdateMetadata | src/incoreInodeOps/iNodeManager.c:219-229 | size, link count and flags after a change |
| NodeList.FreeList.Insert | src/incoreInodeOps/freeList.c:42-53 | the ring gains the node at the tail, links mutually inverse |
| NodeList.FreeList.Pop | src/incoreInodeOps/freeList.c:55-73 | the ring loses its head, which is returned, or is empty |
| NodeList.FreeList.Remove | src/incoreInodeOps/freeList.c:75-99 | the walk ends and takes out exactly that node; a node not in the ring changes nothing |
| HashQueue.HashQueues.RemoveFromHashQ | src/incoreInodeOps/hashQ.c:21-36 | the node leaves its queue and every other node keeps its place |
| HashQueue.HashQueues.InsertInHash | src/incoreInodeOps/hashQ.c:38-48 | the node is in front of the queue of the number |
| HashQueue.HashQueues.UpdateInHashQ | src/incoreInodeOps/hashQ.c:50-54 | the node moves to the queue of its new number |
| HashQueue.HashQueues.HashLookup | src/incoreInodeOps/hashQ.c:57-68 | a hashed node of that number, or none if the queue holds none |
| CacheModel.IGetKeeps | src/incoreInodeOps/iget.c:27-58 | iget keeps the cache invariant: free if and only if unreferenced, one slot per inode, clean unreferenced slots with links equal to the table |
| CacheModel.IPutKeeps | src/incoreInodeOps/iput.c:22-64 | so does iput, in all its cases |
| CacheModel.ModifyKeeps | src/incoreInodeOps/iNodeManager.c:219-229 | so does a change that sets the changed flag |
| CacheModel.IGetFails | src/incoreInodeOps/iget.c:31-37 | iget returns nothing if and only if the inode is not cached and every slot is referenced |
| CacheModel.IGetShows | src/incoreInodeOps/iget.c:27-58 | iget shows the inode's current value and changes no inode's value, that of the evicted one included |
| CacheModel.IPutLosesNothing | src/incoreInodeOps/iput.c:36-42 | iput changes the value of no other inode, nor of its own while it has links |
| CacheModel.ModifySets | src/incoreInodeOps/iput.c:36-42 | the value last set is the value a later iget shows |
| CacheModel.HeldKeptIff | src/incoreInodeOps/iget.c:52-54 | the guard of the second fetch: what holders see stays if and only if the inode has links or agrees with the table |
| CacheModel.RunCounts | src/incoreInodeOps/iput.c:22-64 | in every run the invariant holds and the reference count is successful igets minus successful iputs |
| CacheModel.FreshOk | src/incoreInodeOps/freeList.c:25-40 | the fresh cache satisfies the invariant |
| CacheModel.PoolSplits | src/incoreInodeOps/freeList.c:25-40 | free and referenced slots add up to the pool |
| CacheModel.IPutFails | src/incoreInodeOps/iput.c:27-32 | -1 exactly when nobody holds the inode, and then nothing changes; 0 otherwise |
| CacheModel.StaysCached | src/incoreInodeOps/freeList.c:42-73 | slots are reused in the order of their release: with j slots before its own on the free list an inode is still cached after j igets of others |
| CacheModel.ReleasedStays | src/incoreInodeOps/iput.c:34-60 | a released inode with links keeps its contents in the cache for as many igets of others as there were free slots before it |
| CacheModel.MissTakesFirst | src/incoreInodeOps/iget.c:34-43 | an inode that is not cached gets the slot released first, with the contents of the table |
| INodeCache.ICache.constructor | src/incoreInodeOps/freeList.c:25-40 | the linked nodes stand for the fresh cache |
| INodeCache.ICache.IGet | src/incoreInodeOps/iget.c:27-58 | on the linked nodes iget does what the model does, both structures stay well formed, and the in-core inode returned is that of the slot |
| INodeCache.ICache.IPut | src/incoreInodeOps/iput.c:22-64 | the same for iput, and the blocks of the inode are released exactly when it is reclaimed |
| INodeCache.InitFreeInCoreINodeList | src/incoreInodeOps/freeList.c:25-40 | distinct nodes around distinct zeroed inodes, all on the free list, none hashed |
| CacheView.AcquireKeeps | src/incoreInodeOps/iget.c:27-58 | iget of an available inode that has links, is as the table has it, or is unheld changes no inode's view and adds exactly one reference |
| CacheView.LinklessKept | src/incoreInodeOps/iget.c:52-54 | an inode without links, as the root always is, keeps its view at an iget if and only if nobody held it or it is as the table has it |
| CacheView.ChangeSurvivesIff | src/incoreInodeOps/iput.c:36-42 | a change to the root between an iget and its iput is there at the next iget if and only if nobody else held the root; otherwise the table's old value is |
| CacheView.ReleaseKeeps | src/incoreInodeOps/iput.c:22-64 | iput takes exactly one reference back and changes no view, save that of an inode it reclaims; the root is never reclaimed |
| CacheView.ReclaimedIff | src/incoreInodeOps/iput.c:36-60 | an inode is reclaimed exactly at the iput that drops the last reference while it has no links |
| CacheView.ReclaimedTable | src/mkfs/ifree.c:59-62 | a reclaimed inode stays in the table with type, mode, owner, group, size and links cleared and every other field as last held |
| CacheView.HeldStays | src/incoreInodeOps/iget.c:16-25 | no iget or iput moves a held inode to another slot |
| CacheView.NewKeeps | src/mkfs/iNodeManager.c:118-132 | a new inode written to the table under a stale cached copy is what everyone sees |
| DirectoryEntry.EntryRoundTrip | src/trav/directory.c:172-184 | an entry read from where it was stored is that entry |
| DirectoryEntry.StrEqIsName | src/trav/directory.c:63-66 | strcmp on the block agrees with the entry's name, for names that leave room for the terminator |
| DirectoryEntry.StoredNameFound | src/trav/directory.c:178-180 | a stored name is found again if and only if it is shorter than the field or the bytes behind the field continue it |
| DirectoryEntry.SearchIsLookUp | src/trav/directory.c:62-74 | with unique names the first match is the binding of the map |
| DirectoryEntry.AppendBinds | src/trav/directory.c:203-204 | an appended entry with a new name adds exactly its binding |
| DirectoryEntry.SwapUnbinds | src/trav/directory.c:68-71 | moving the last entry over the one found and dropping the last removes exactly one binding |
| DirectoryEntry.NoSwapUnbinds | src/trav/directory.c:68-71 | without the move it does so if and only if the entry was the last |
| Directory.SearchBlockDirectoryEntries | src/trav/directory.c:55-85 | the first match in a block, its entry, and the overwrite for an unlink |
| Directory.CheckInBlock | src/trav/directory.c:87-103 | the number of entries to check, and the write back only after a match with a last entry |
| Directory.GetLastEntry | src/trav/directory.c:105-120 | the last entry, and that its marker stays -1 exactly in a directory of at most 128 bytes whose last entry names inode 65535 |
| Directory.SearchINodeDirectoryEntries | src/trav/directory.c:127-170 | -1 for anything but a directory; else where the search through the blocks ends and the disk it leaves |
| Directory.CollectINodeDirectoryEntries | src/trav/directory.c:127-170 | the collecting mode, whose limit counts only between blocks |
| Directory.AddDirectoryEntry | src/trav/directory.c:172-184 | 62 bytes of the name, then the low and the high byte of the number, and no other byte changed |
| Directory.GetAndUpdateDirectoryTable | src/trav/directory.c:189-207 | -1 for anything but a directory; else an append of the entry's bytes to the file |
| Directory.UpdateNewDirMetaData | src/trav/directory.c:210-224 | `.` for the directory and `..` for its parent, 128 bytes more and two links |
| Directory.TypeBits | src/trav/directory.c:40-47 | a mode is that of a directory if and only if its four type bits are 4 |
| Directory.FillDirectoryEntries | src/interface/read.c:19-40 | the loop gives `Listed` and changes nothing |
| DirectoryContent.LocateIsFirst | src/trav/directory.c:144-159 | a search over all blocks stops at the first entry with the name, nowhere if there is none |
| DirectoryContent.SearchFinds | src/trav/directory.c:127-170 | search finds a name if and only if the directory binds it, and returns the bound number |
| DirectoryContent.WriteEntry | src/trav/directory.c:98-100 | writing over one entry changes that entry and no other, and no other file |
| DirectoryContent.DropEntry | src/interface/unlink.c:43 | truncating by 64 bytes drops exactly the last entry and loses no block |
| DirectoryContent.UnlinkRemoves | src/interface/unlink.c:22-47 | unlink removes exactly the binding if and only if the directory has more than two entries, the last does not name inode 65535, or the entry was the last |
| DirectoryContent.CreateAdds | src/trav/directory.c:189-207 | create adds exactly one entry and its binding, with the blocks it needs taken from the free list |
| DirectoryContent.NewDirHolds | src/trav/directory.c:210-224 | a new directory holds exactly its two entries, in one block |
| DirectoryContent.NewDirBinds | src/trav/directory.c:219-220 | they bind `.` to the directory and `..` to its parent and nothing else |
| DirectoryContent.ListsAll | src/interface/read.c:19-40 | a listing names every entry exactly once, in storage order |
| DirectoryContent.CollectsTo | src/trav/directory.c:144-159 | the collecting mode from a block on gives the entries up to the end of the block in which the limit is reached, or of the directory |
| DirectoryTree.JoinedFresh | src/mkfs/mkfs.c:110-125 | the disk mkfs leaves holds every inode of its table and an empty root |
| DirectoryTree.JoinedAdd | src/trav/directory.c:189-207 | adding an entry to one directory of a volume leaves the entries of every other directory and all blocks apart |
| DirectoryTree.JoinedRemove | src/interface/unlink.c:22-47 | so does taking one away and truncating, with exactly the blocks no longer needed free |
| DirectoryTree.JoinedRelease | src/incoreInodeOps/iput.c:44-60 | releasing an inode frees exactly its data and indirect blocks and leaves every other inode as it was |
| DirectoryTree.JoinedUnlink | src/interface/unlink.c:22-47 | swap, release of the file and truncation of the directory in one: the entry is gone, the free list grew by exactly the blocks of the file and those the directory no longer needs, and every other inode is as it was |
| DirectoryTree.JoinedWrite | src/interface/write.c:53-88 | a safe write to a regular file gives it the merged bytes and leaves all directories as they were |
| Paths.WalkIsFold | src/trav/namei.c:83-106 | resolution is the fold of directory lookup over the non-empty components, as long as only directories are searched |
| Paths.WalkIsFoldIff | src/trav/namei.c:49-55 | resolution agrees with the directories if and only if only directories are searched, or what comes below the first file searched leads nowhere from inode 0 |
| Paths.WalkSplit | src/trav/namei.c:62-78 | a path leads where its last component leads from its directory part |
| Paths.WalkStays | src/trav/namei.c:83-106 | a path through directories leads to the same inode while no name of a directory changes |
| Paths.DirPathJoin | src/trav/namei.c:83-106 | a path through directories can be continued by one more directory |
| Links.MkfsSound | src/mkfs/mkfs.c:16-25 | a fresh cache over a fresh disk satisfies the invariant: an empty root without links, no inode in use |
| Links.MkfsViews | src/mkfs/mkfs.c:16-25 | every field that counts of every inode after mkfs, the mode and the block of the root included |
| Links.NamedInUse | src/interface/unlink.c:32-37 | an inode that some entry names has a link or is the root, so no entry names a released inode |
| VolumeSteps.ResolvesIff | src/trav/namei.c:83-106 | in a valid state resolution agrees with the directories as maps if and only if the path is straight: only directories are searched, or what comes below the first file leads nowhere from the root |
| VolumeSteps.UnlinkCounted | src/interface/unlink.c:35-43 | one link less and one entry less keep the link counts right if and only if the entry that went names the same inode, or both inodes are directories |
| VolumeSteps.LinkCounted | src/interface/rename.c:116-117 | one entry and one link more of a file or directory keep them right |
| CreateSteps.CreatedCounted | src/interface/create.c:74-88 | creation of a file, or of a directory with its two entries and two links, keeps them right if and only if the parent is a directory; the root ends up written back if and only if it is not the parent or nobody else held it |
| CreateSteps.MadeIs | src/interface/create.c:70-84 | the type, mode, links and size of what was created, the two entries of a directory with their numbers, and every other field as before |
| CreateSteps.PlacedIs | src/trav/directory.c:189-207 | the name is the last entry of its directory, and no other entry of the volume changed |
| CreateSteps.LeakCosts | src/interface/create.c:53-56 | with a reference to the root leaked, the next iget after a creation in the root shows it without the new entry |
| Volumes.Volume.constructor | src/mkfs/mkfs.c:111-125 | the program started after mkfs is in a valid state, with every inode as mkfs leaves it |
| Volumes.Volume.Operate | src/trav/namei.c:32-56 | the next inode, holding it instead of the current one |
| Volumes.Volume.GetFileINode | src/trav/namei.c:83-106 | the inode the path leads to with exactly one more reference, or none anywhere; nothing else is seen to change; the result is what the directories say if and only if the path is straight |
| Volumes.Volume.GetParentINode | src/interface/create.c:18-26 | the same for the directory part |
| Volumes.Volume.CreateFile | src/interface/create.c:61-91 | all outcomes for files and directories: entries, views and references; after a creation the state is valid if and only if the parent is a directory and not a root that someone else held |
| Volumes.Volume.UnlinkFileFromINode | src/interface/unlink.c:22-47 | one link goes and one entry, its own or the last if the marker stays; a file is released if that was its last link and nobody holds it, kept with its blocks otherwise; the counts are right if and only if the entry that went pays for the link |
| Volumes.Volume.UnlinkFile | src/interface/unlink.c:49-75 | the three outcomes with their return values, references balanced; afterwards the state is valid if and only if the right entry went and the parent is not a root that someone else held |
| Volumes.Volume.UnlinkDir | src/interface/unlink.c:187-206 | -13 for the root, -39 for a directory of more than two entries or a file of more than 128 bytes, -20 for any other file, each with nothing changed and the reference given back; else exactly what unlinkFile does |
| Volumes.Volume.ValidateAndEmptyDirectoryIfNeeded | src/interface/unlink.c:168-185 | the code for each inode, a directory being judged by its number of entries |
| Volumes.Volume.RemoveDestinationIfExists | src/interface/rename.c:20-48 | the target name, if bound, loses its entry, or the last one if the marker stays, and its file one link; the counts are right if and only if that pays for the link |
| Volumes.Volume.RenameFile | src/interface/rename.c:52-133 | a file or directory keeps its contents and links, the file it replaces loses one, every other inode is untouched; the new name is bound and then the old one unbound, if and only if the own entry of the source goes; the exact condition for a valid state afterwards |
| RenameSteps.SourceStays | src/interface/rename.c:126 | the source is found again after the target was replaced |
| RenameSteps.RenamedIff | src/interface/rename.c:73-126 | the directories afterwards are the renamed maps if and only if unlink takes the source's own entry away |
| RenameSteps.NewNameBoundIff | src/interface/rename.c:73-126 | the new name is bound afterwards if and only if it was not the old one |
| RenameSteps.HoldingRoot | src/interface/rename.c:116-124 | after the new link was made the root is as the table has it unless it is the target and someone else held it; then the next iget shows it as it was before |
| RenameSteps.TwiceNamed | src/interface/rename.c:39-44 | when the marker keeps the entry of the target, adding the new one gives the directory the name twice |
| PathEffects.CreateLeads | src/interface/create.c:61-91 | what was created is found under its path, and every path through directories still leads where it led |
| PathEffects.BelowDirectory | src/trav/namei.c:83-106 | a name below a path that leads to a directory, a new one included, is looked for in that directory |
| PathEffects.LeadsBelow | src/trav/namei.c:83-106 | and it leads to what that directory binds it to |
| PathEffects.DotsLead | src/trav/directory.c:219-220 | a new directory binds `.` and `..` and nothing else, and from its path they lead to itself and to the directory it was made in |
| PathEffects.UnlinkLeads | src/interface/unlink.c:49-75 | the path of an unlinked file leads nowhere if and only if the marker did not take another entry of it away |
| PathEffects.RenameLeads | src/interface/rename.c:52-133 | the new path of a renamed file leads to it and the old one nowhere, unless both are one name in one directory, which then is gone |
| VolumeRuns.StepSoundIff | src/interface/rename.c:52-133 | creation, unlink, removal of a directory, rename, open and close from a valid state end in one if and only if the request is careful |
| VolumeRuns.CloseSound | src/interface/close.c:18-21 | an iput keeps the state valid: what it reclaims has no name and no entries |
| VolumeRuns.RunSound | src/mkfs/mkfs.c:111-125 | from mkfs on, every state of a run of careful requests is valid, and no regular file without a name is in use unless someone holds it |
| VolumeRuns.NamesAreLinks | src/interface/unlink.c:32-37 | in such a state a regular file has as many links as names, and a name or a holder |
| VolumeRuns.RunRefs | src/interface/open.c:30-36 | in every state of a run the references to an inode are its opens less its closes, and those that a creation of an existing name and a rename without a target directory leave behind |
| VolumeRuns.RunKeepsDirectory | src/interface/unlink.c:35-37 | in every run an inode that is a directory is one in every later state |
| DirectoryRuns.RunDotted | src/trav/directory.c:210-224 | from mkfs on, every directory but the root keeps `.` for itself and `..`, in every state of a run of careful requests that do not unlink or rename them |
| DirectoryRuns.RmdirLeaves | src/interface/unlink.c:187-206 | an rmdir that succeeds took the name of a directory other than the root that had no name but `.` and `..`, so no inode loses a path with it |
| DirectoryRuns.BoundIsFile | src/interface/unlink.c:187-206 | the inode that rmdir looks at is the one whose entry unlinkFile then takes away |
| DirectoryRuns.MovedKeepsParent | src/interface/rename.c:52-133 | a renamed directory keeps its entries, `..` for its old parent included |

## Left out

- Volumes.Volume.CreateFile: the number of the new inode is given, because the free inode list is not part of this model; the mode has no file type bits.
- Volumes.Volume.UnlinkFile: the name, if bound, is that of a regular file, or of a directory that keeps a link and is neither the root nor the directory searched; the reclaim of a directory that still has entries is not modelled.
- Volumes.Volume.UnlinkFileFromINode: the same condition on the name.
- Volumes.Volume.UnlinkDir: the same condition on the name; the path leads somewhere, since the program dereferences NULL otherwise.
- Volumes.Volume.RemoveDestinationIfExists: the destination is no directory, since forced removal is not part of this model.
- Volumes.Volume.RenameFile: the source is reached through directories and is neither the root nor one of the two directories; the target name is absent or a regular file whose entry unlink takes away, in a directory that is not a root someone else holds; `RenameSteps.TwiceNamed` and `RenameSteps.HoldingRoot` have what happens otherwise up to the unlink of the source. A path that ends in a slash is not renamed.
- Volumes.Volume.GetFileINode: one cache slot is unreferenced at the start (two for create and unlink, three for rename), where the program dereferences NULL; the root is as the table has it, which `CreateSteps.LeakCosts` shows to matter. Path components have fewer than 62 bytes, since longer ones are compared past the field.
- Volumes.Volume.GetParentINode: the same root and components.
- Volumes.Volume.Operate: the same root and components.
- DirectoryRuns.RmdirLeaves: a state with the dots in place, as `DirectoryRuns.RunDotted` shows; once `..` of a directory is unlinked by name, a directory of two entries can hold a file.
- PathEffects.UnlinkLeads: a regular file, since a directory may be on its own path.
- PathEffects.RenameLeads: a regular file, since a directory can be moved below itself.
- Directory.FillDirectoryEntries: the inode is a directory; for anything else the source takes -1 as the number of entries.
- FileOutcome.WriteExact: assumes as many free blocks as the whole file after the write would take, since an exhausted list makes bmap write to block 0.
- FileShrink.ShrinkExact: truncations that start on a stale path; `StaleShrink.ShrinkStaleIff` has one round of them.
- StaleShrink.ShrinkStaleIff: stale words that are neither 0 nor data blocks, and words other than 0 after a 0, which only a block 0 that does not start with 0 leads to.
- FreeChain.FreePushes: a head with zeros in its first and last slot, which the guard excludes; `FreeChain.FreeIffGuard` has it.
- CacheView.NewKeeps: the new inode's other fields keep what the table held.
- Layers 3 and 4 meet the disk through their specifications: directories of `Volumes` are sequences of entries, which `DirectoryTree` ties to the disk for entries added and removed, whole unlinks and writes, and `INodeCache.INodeStore` is the inode table by number, which `INodeImage.TableWritten` ties to the disk. In `Volumes` the slots of an inode that grows or shrinks are any.
- Buffers from malloc that the program reads before writing are taken as zeroed, such as the bmap response of an unlink in an empty directory and the path of a file of the largest size.
- The bytes behind a name's terminator in a directory entry are zeros in `Volumes` and arbitrary in `Directory`.
- The fourth and later rounds of the second loop of inodeBlocksFree, which only a file past the triple-indirect limit reaches and which read past the array.
- Sizes past the triple-indirect limit, and the truncation of byte counts to `int` in updateINodeMetadata and writeToFile above 2^31.
- Timestamps, permission bits, owner and group, and stat filling.
- Concurrency: the program starts single-threaded, and alloc.c and free.c lock different mutexes.
- Device access and the memory disk: a total map from block numbers to blocks.
- The free inode list (ialloc.c, ifree.c, metaBlocks.c): refilling it copies with the wrong stride, and the scan fails at its last slot.
- initHashQueues, whose counter is not initialised: the queues start empty.
- The expression in getHash, whose shifts are too wide for many inputs: any function into 0..7.
- emptyDir, which only a forced removal reaches: its loop compares a byte offset with an entry count.
- The file table, so that open and close are a reference taken and given back; link.c, string splitting, FUSE glue and printing.
