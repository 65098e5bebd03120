/**
  src/dsk/alloc.c and the chain half of src/dsk/free.c, step by step on the disk.
 */
module Allocator {
  import opened Params
  import opened Disk
  import opened FreeChain

  method BlockAlloc(disk: Device) returns (newBlock: Word)
    modifies disk
    ensures (disk.blocks, newBlock) == Alloc(old(disk.blocks))
  {
    var freeListBlock := disk.GetDiskBlock(FREE_LIST_BLOCK, ClearBlock());
    ghost var head := freeListBlock;
    var blkNos := new Word[K](i requires 0 <= i < K => freeListBlock[i]);
    newBlock := 0;
    var counter := 0;
    while counter < K
      invariant counter <= K && newBlock == 0 && blkNos[..] == head
      invariant forall j :: 0 <= j < counter ==> head[j] == 0
    {
      if blkNos[counter] != 0 {
        newBlock := blkNos[counter];
        blkNos[counter] := 0;
        break;
      }
      counter := counter + 1;
    }
    if counter < K {
      FirstUsedAt(head, counter);
    }
    if counter == K - 1 {
      freeListBlock := disk.GetDiskBlock(newBlock, freeListBlock);
    } else {
      freeListBlock := blkNos[..];
    }
    disk.WriteDiskBlock(FREE_LIST_BLOCK, freeListBlock);
  }

  method FreeInto(disk: Device, freeListBlockNumber: Word, blockNumber: Word)
    requires freeListBlockNumber == FREE_LIST_BLOCK
    modifies disk
    ensures disk.blocks == Free(old(disk.blocks), blockNumber)
  {
    var freeListBlock := disk.GetDiskBlock(freeListBlockNumber, ClearBlock());
    ghost var head := freeListBlock;
    var blkNos := new Word[K](i requires 0 <= i < K => freeListBlock[i]);
    assert blkNos[..] == head;
    if blkNos[0] != 0 {
      disk.WriteDiskBlock(blockNumber, freeListBlock);
      blkNos[K - 1] := blockNumber;
      var counter := 0;
      while counter < K - 1
        invariant counter <= K - 1 && blkNos[K - 1] == blockNumber
        invariant forall j :: 0 <= j < counter ==> blkNos[j] == 0
        invariant disk.blocks == Put(old(disk.blocks), blockNumber, head)
      {
        blkNos[counter] := 0;
        counter := counter + 1;
      }
      assert blkNos[..] == FreshHead(blockNumber);
    } else {
      var i := K - 1;
      while i > -1
        invariant -1 <= i < K && blkNos[..] == head
        invariant forall j :: i < j < K ==> head[j] != 0
        invariant disk.blocks == old(disk.blocks)
        decreases i
      {
        if blkNos[i] == 0 {
          LastClearAt(head, i);
          blkNos[i] := blockNumber;
          break;
        }
        i := i - 1;
      }
      assert i == LastClear(head);
    }
    freeListBlock := blkNos[..];
    disk.WriteDiskBlock(freeListBlockNumber, freeListBlock);
  }

  lemma LastClearAt(w: seq<Word>, i: nat)
    requires i < |w| && w[i] == 0 && forall j :: i < j < |w| ==> w[j] != 0
    ensures LastClear(w) == i
  {
  }

  method BlockFree(disk: Device, blockNumber: Word)
    modifies disk
    ensures disk.blocks == Free(old(disk.blocks), blockNumber)
  {
    FreeInto(disk, FREE_LIST_BLOCK, blockNumber);
  }
}
