/**
  src/incoreInodeOps/iNodeManager.c, the tree half of src/dsk/free.c and
  src/incoreInodeOps/bmap.c, step by step on an in-core inode and the disk.
 */
module INodeManager {
  import opened Params
  import opened Disk
  import opened FreeChain
  import opened Allocator
  import opened BlockPath
  import opened BlockTree
  import opened TreeGrowth
  import opened TreeRelease
  import opened FileMap
  import opened FileGrowth
  import opened FileRelease
  import opened INode

  const ERROR_BLOCK: Word := 0

  method AllocateBlockIfNeeded(disk: Device, indirOffsets: seq<nat>) returns (b: Word)
    modifies disk
    ensures (disk.blocks, b) == AllocateIfNeeded(old(disk.blocks), indirOffsets)
  {
    var counter := 0;
    var shouldAdd := true;
    while counter < |indirOffsets|
      invariant counter <= |indirOffsets| && shouldAdd
      invariant forall i :: 0 <= i < counter ==> indirOffsets[i] == 0
    {
      if indirOffsets[counter] != 0 {
        shouldAdd := false;
        break;
      }
      counter := counter + 1;
    }
    if shouldAdd {
      b := BlockAlloc(disk);
    } else {
      b := ERROR_BLOCK;
    }
  }

  // `curBlock` is the word the C pointer starts at; `root` is what it holds afterwards.
  method AllocateAllNeededBlocks(disk: Device, curBlock: Word, blockNumToAdd: Word, indirOffsets: seq<nat>)
    returns (root: Word)
    requires Offsets(indirOffsets) && indirOffsets != []
    modifies disk
    ensures (disk.blocks, root) == Grow(old(disk.blocks), curBlock, indirOffsets, blockNumToAdd)
  {
    var n := |indirOffsets|;
    ghost var goal := Grow(disk.blocks, curBlock, indirOffsets, blockNumToAdd);
    var cur, parentBlock: Word := curBlock, 0;
    var dataBlock, workingData := ClearBlock(), ClearBlock();
    root := curBlock;
    var counter := 0;
    while counter < n
      invariant counter <= n
      invariant counter == 0 ==> disk.blocks == old(disk.blocks) && cur == curBlock && dataBlock == ClearBlock()
      invariant counter > 0 ==> Offsets(indirOffsets[counter - 1..]) && workingData == dataBlock
      invariant counter > 0 ==> root == goal.1 && cur == workingData[indirOffsets[counter - 1]]
      invariant counter > 0 ==>
                  GrowBelow(disk.blocks, parentBlock, workingData, indirOffsets[counter - 1..], blockNumToAdd) == goal.0
    {
      ghost var before, parent, w := disk.blocks, parentBlock, workingData;
      var newAllocBlock := AllocateBlockIfNeeded(disk, indirOffsets[counter..]);
      if newAllocBlock != ERROR_BLOCK {
        cur := newAllocBlock;
        if counter != 0 {
          workingData := workingData[indirOffsets[counter - 1] := cur];
          dataBlock := workingData;
          disk.WriteDiskBlock(parentBlock, dataBlock);
        }
      }
      if counter == 0 {
        root := cur;
      }
      var tmp := cur;
      dataBlock := disk.GetDiskBlock(tmp, dataBlock);
      workingData := dataBlock;
      parentBlock := tmp;
      cur := workingData[indirOffsets[counter]];
      if counter == 0 {
        assert indirOffsets[0..] == indirOffsets;
      } else {
        GrowBelowStep(before, parent, w, indirOffsets[counter - 1..], blockNumToAdd);
        assert indirOffsets[counter - 1..][1..] == indirOffsets[counter..];
      }
      counter := counter + 1;
    }
    workingData := workingData[indirOffsets[n - 1] := blockNumToAdd];
    disk.WriteDiskBlock(parentBlock, workingData);
  }

  lemma GrowBelowStep(d: Store, parent: Word, w: Block, offs: seq<nat>, add: Word)
    requires Offsets(offs) && |offs| > 1
    ensures var (d1, a) := AllocateIfNeeded(d, offs[1..]);
      GrowBelow(d, parent, w, offs, add)
      == if a != 0 then
           var w1 := w[offs[0] := a];
           var d2 := Put(d1, parent, w1);
           GrowBelow(d2, a, Fetch(d2, a, w1), offs[1..], add)
         else
           GrowBelow(d1, w[offs[0]], Fetch(d1, w[offs[0]], w), offs[1..], add)
  {
  }

  method UpdateIndex(disk: Device, iNode: InCoreINode, blockNumToAdd: Word, blkOffset: BlkTreeOffset, ghost k: nat)
    requires k <= TRIPLE_INDIRECT_LIMIT && Valid(PathOf(k)) && blkOffset == Struct(PathOf(k))
    modifies disk, iNode`dataBlockNums, iNode`inodeChanged
    ensures (disk.blocks, iNode.dataBlockNums)
            == InsertBlock(old(disk.blocks), old(iNode.dataBlockNums), k, blockNumToAdd)
    ensures k > DIRECT_BLOCK_LIMIT ==> iNode.inodeChanged
    ensures k <= DIRECT_BLOCK_LIMIT ==> iNode.inodeChanged == old(iNode.inodeChanged)
  {
    StructParts(k);
    if blkOffset.offsetIndirection == 0 {
      iNode.dataBlockNums := iNode.dataBlockNums[blkOffset.offsets[0] := blockNumToAdd];
      return;
    }
    var indirection := blkOffset.offsetIndirection;
    var slot := DIRECT_BLOCK_LIMIT + indirection;
    var offs: seq<nat> := blkOffset.offsets[1..1 + indirection];
    var root := AllocateAllNeededBlocks(disk, iNode.dataBlockNums[slot], blockNumToAdd, offs);
    iNode.dataBlockNums := iNode.dataBlockNums[slot := root];
    iNode.inodeChanged := true;
  }

  lemma StructParts(k: nat)
    requires k <= TRIPLE_INDIRECT_LIMIT && Valid(PathOf(k))
    ensures var p, s := PathOf(k), Struct(PathOf(k));
      && s.offsetIndirection == p.level <= 3 && |s.offsets| == 4
      && (p.level == 0 <==> k <= DIRECT_BLOCK_LIMIT)
      && (p.level == 0 ==> s.offsets[0] == k)
      && (p.level > 0 ==> s.offsets[1..1 + p.level] == p.offs && Offsets(p.offs) && p.offs != [])
  {
    hide Digits;
  }

  // The size must point at the head of a new block; otherwise nothing happens.
  method InsertDataBlockInINode(disk: Device, iNode: InCoreINode, blockNumToAdd: Word)
    requires iNode.size / BLOCK_SIZE <= TRIPLE_INDIRECT_LIMIT
    modifies disk, iNode`dataBlockNums, iNode`inodeChanged
    ensures old(iNode.size) % BLOCK_SIZE == 0 ==>
              (disk.blocks, iNode.dataBlockNums)
              == InsertBlock(old(disk.blocks), old(iNode.dataBlockNums), old(iNode.size) / BLOCK_SIZE, blockNumToAdd)
    ensures old(iNode.size) % BLOCK_SIZE != 0 ==>
              disk.blocks == old(disk.blocks) && iNode.dataBlockNums == old(iNode.dataBlockNums)
    ensures iNode.inodeChanged || iNode.inodeChanged == old(iNode.inodeChanged)
  {
    var size := iNode.size;
    if size % BLOCK_SIZE != 0 {
      return;
    }
    var blkOffset := CalculateOffset(size, BlkTreeOffset([], 0));
    UpdateIndex(disk, iNode, blockNumToAdd, blkOffset, size / BLOCK_SIZE);
  }

  method FreeNeeded(indirOffsets: seq<nat>) returns (shouldFree: bool)
    ensures shouldFree <==> AllZero(indirOffsets)
  {
    var counter := 0;
    shouldFree := true;
    while counter < |indirOffsets|
      invariant counter <= |indirOffsets| && shouldFree
      invariant forall i :: 0 <= i < counter ==> indirOffsets[i] == 0
    {
      if indirOffsets[counter] != 0 {
        shouldFree := false;
        break;
      }
      counter := counter + 1;
    }
  }

  method FreeNeededBlocks(disk: Device, iNode: InCoreINode, blockNumToRemove: Word, blkOffset: BlkTreeOffset,
                          ghost k: nat)
    requires Valid(TakenPath(k))
    requires blkOffset == if k <= TRIPLE_INDIRECT_LIMIT then Struct(TakenPath(k)) else ClearOffset()
    modifies disk
    ensures disk.blocks == RemoveBlock(old(disk.blocks), iNode.dataBlockNums, blockNumToRemove, TakenPath(k))
  {
    if k <= TRIPLE_INDIRECT_LIMIT {
      StructParts(k);
    }
    BlockFree(disk, blockNumToRemove);
    if blkOffset.offsetIndirection == 0 {
      return;
    }
    var indirection := blkOffset.offsetIndirection;
    var offsets: seq<nat> := blkOffset.offsets[1..1 + indirection];
    var root := iNode.dataBlockNums[DIRECT_BLOCK_LIMIT + indirection];
    ghost var noted := Collect(disk.blocks, root, offsets, ClearBlock());
    var blocksToBeFreed := NoteBlocks(disk, root, offsets);
    assert blocksToBeFreed == noted;
    ghost var freed := FreeAll(disk.blocks, noted);
    var counter := 0;
    while counter < |blocksToBeFreed|
      invariant counter <= |blocksToBeFreed|
      invariant FreeAll(disk.blocks, blocksToBeFreed[counter..]) == freed
    {
      BlockFree(disk, blocksToBeFreed[counter]);
      assert blocksToBeFreed[counter..][1..] == blocksToBeFreed[counter + 1..];
      counter := counter + 1;
    }
  }

  // The first loop of freeNeededBlocks.
  method NoteBlocks(disk: Device, root: Word, offsets: seq<nat>) returns (blocksToBeFreed: seq<Word>)
    requires Offsets(offsets)
    ensures blocksToBeFreed == Collect(disk.blocks, root, offsets, ClearBlock())
  {
    hide Collect, AllZero, Fetch;
    var blockIndex, dataBlock := root, ClearBlock();
    ghost var goal := Collect(disk.blocks, root, offsets, ClearBlock());
    blocksToBeFreed := [];
    var counter := 0;
    assert offsets[0..] == offsets;
    while counter < |offsets|
      invariant counter <= |offsets| && Offsets(offsets[counter..])
      invariant blocksToBeFreed + Collect(disk.blocks, blockIndex, offsets[counter..], dataBlock) == goal
    {
      CollectUnfold(disk.blocks, blockIndex, offsets[counter..], dataBlock);
      assert offsets[counter..][1..] == offsets[counter + 1..];
      assert offsets[counter..][0] == offsets[counter];
      var needed := FreeNeeded(offsets[counter..]);
      if needed {
        blocksToBeFreed := blocksToBeFreed + [blockIndex];
      }
      dataBlock := disk.GetDiskBlock(blockIndex, dataBlock);
      blockIndex := dataBlock[offsets[counter]];
      counter := counter + 1;
    }
    CollectEnd(disk.blocks, blockIndex, offsets[counter..], dataBlock);
  }

  lemma CollectUnfold(d: Store, cur: Word, offs: seq<nat>, buffer: Block)
    requires Offsets(offs) && offs != []
    ensures var w := Fetch(d, cur, buffer);
            Collect(d, cur, offs, buffer)
            == (if AllZero(offs) then [cur] else []) + Collect(d, w[offs[0]], offs[1..], w)
  {
  }

  lemma CollectEnd(d: Store, cur: Word, offs: seq<nat>, buffer: Block)
    requires Offsets(offs) && offs == []
    ensures Collect(d, cur, offs, buffer) == []
  {
  }

  // The path comes from the current size, whichever block is being removed.
  method FreeDataBlockInINode(disk: Device, iNode: InCoreINode, blockNumToRemove: Word)
    modifies disk
    ensures Valid(SizePath(iNode.size))
    ensures disk.blocks
            == RemoveBlock(old(disk.blocks), iNode.dataBlockNums, blockNumToRemove, SizePath(iNode.size))
  {
    var size := iNode.size;
    var blkOffset := CalculateOffset(size, ClearOffset());
    SizePathIs(size);
    FreeNeededBlocks(disk, iNode, blockNumToRemove, blkOffset, size / BLOCK_SIZE);
  }

  // ---------- src/dsk/free.c ----------

  method DiskBlockFree(disk: Device, diskBlockNumber: Word, leftSize: int, recursionLevel: nat) returns (left: int)
    modifies disk
    ensures (disk.blocks, left) == FreeTree(old(disk.blocks), diskBlockNumber, leftSize, recursionLevel)
    decreases recursionLevel
  {
    left := leftSize;
    if recursionLevel != 0 {
      var diskBlocks := disk.GetDiskBlock(diskBlockNumber, ClearBlock());
      var i := 0;
      while i < K && left > 0
        invariant i <= K
        invariant (disk.blocks, left) == FreeKids(old(disk.blocks), diskBlocks, i, leftSize, recursionLevel)
      {
        left := DiskBlockFree(disk, diskBlocks[i], left, recursionLevel - 1);
        i := i + 1;
      }
      KidsStop(old(disk.blocks), diskBlocks, i, leftSize, recursionLevel);
    } else {
      left := left - BLOCK_SIZE;
    }
    BlockFree(disk, diskBlockNumber);
  }

  // Once nothing is left the remaining rounds change nothing.
  lemma {:induction false} KidsStop(d: Store, w: Block, i: nat, left: int, l: nat)
    requires i <= K && l > 0 && (i == K || FreeKids(d, w, i, left, l).1 <= 0)
    ensures FreeKids(d, w, K, left, l) == FreeKids(d, w, i, left, l)
    decreases K - i
  {
    if i < K {
      KidsUnfold(d, w, i + 1, left, l);
      hide FreeKids, FreeTree;
      KidsStop(d, w, i + 1, left, l);
    }
  }

  method InodeBlocksFree(disk: Device, iNode: InCoreINode)
    modifies disk, iNode`dataBlockNums
    ensures (disk.blocks, iNode.dataBlockNums) == ReleaseFile(old(disk.blocks), old(iNode.dataBlockNums), iNode.size)
  {
    var leftSize: int := iNode.size;
    var i := 0;
    while i <= DIRECT_BLOCK_LIMIT && leftSize > 0
      invariant i <= DIRECT_BLOCK_LIMIT + 1
      invariant (disk.blocks, iNode.dataBlockNums, leftSize)
                == FreeDirect(old(disk.blocks), old(iNode.dataBlockNums), i, iNode.size)
    {
      BlockFree(disk, iNode.dataBlockNums[i]);
      iNode.dataBlockNums := iNode.dataBlockNums[i := 0];
      leftSize := leftSize - BLOCK_SIZE;
      i := i + 1;
    }
    DirectStop(old(disk.blocks), old(iNode.dataBlockNums), i, iNode.size);
    ReleaseIs(old(disk.blocks), old(iNode.dataBlockNums), iNode.size);
    hide FreeDirect, ReleaseFile, FreeTree, Free;
    var indirectBlocks := [10, 11, 12];
    FreeIndirect(disk, iNode, leftSize);
  }

  // The second loop of inodeBlocksFree.
  method FreeIndirect(disk: Device, iNode: InCoreINode, left: int)
    modifies disk, iNode`dataBlockNums
    ensures (disk.blocks, iNode.dataBlockNums) == FreeLevels(old(disk.blocks), old(iNode.dataBlockNums), 1, left)
  {
    hide FreeTree;
    ghost var goal := FreeLevels(disk.blocks, iNode.dataBlockNums, 1, left);
    var leftSize := left;
    var indirectBlocks := [10, 11, 12];
    var i := 0;
    while i < 3 && leftSize > 0
      invariant i <= 3
      invariant FreeLevels(disk.blocks, iNode.dataBlockNums, i + 1, leftSize) == goal
    {
      leftSize := DiskBlockFree(disk, iNode.dataBlockNums[indirectBlocks[i]], leftSize, i + 1);
      iNode.dataBlockNums := iNode.dataBlockNums[indirectBlocks[i] := 0];
      i := i + 1;
    }
  }

  lemma {:induction false} DirectStop(d: Store, nums: Slots, i: nat, left: int)
    requires i <= DIRECT_BLOCK_LIMIT + 1 && (i == DIRECT_BLOCK_LIMIT + 1 || FreeDirect(d, nums, i, left).2 <= 0)
    ensures FreeDirect(d, nums, DIRECT_BLOCK_LIMIT + 1, left) == FreeDirect(d, nums, i, left)
    decreases DIRECT_BLOCK_LIMIT + 1 - i
  {
    if i < DIRECT_BLOCK_LIMIT + 1 {
      DirectUnfold(d, nums, i + 1, left);
      hide FreeDirect;
      DirectStop(d, nums, i + 1, left);
    }
  }
}
