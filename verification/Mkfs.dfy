/**
  mkfs: src/mkfs/freeBlockList.c and initializeDiskBlocks of src/mkfs/mkfs.c.
 */
module Mkfs {
  import opened Params
  import opened Disk
  import opened Bags
  import opened FreeChain

  // The free-list block that lists the blocks from `start` on, padded with zeros.
  function Filled(start: Word): Block {
    seq(K, i => if 0 <= i && start + i < NUM_OF_BLOCKS then start + i else 0)
  }

  function Range(start: nat): (r: seq<Word>)
    ensures start <= NUM_OF_BLOCKS ==> |r| == NUM_OF_BLOCKS - start
    ensures forall i :: 0 <= i < |r| ==> r[i] == start + i
  {
    seq(if start <= NUM_OF_BLOCKS then NUM_OF_BLOCKS - start else 0,
        i requires 0 <= i < NUM_OF_BLOCKS - start => start + i)
  }

  // The disk after the chain has been laid out from block `p` on.
  function Laid(d: Store, p: Word, start: Word): Store
    decreases NUM_OF_BLOCKS - start
  {
    var d' := Put(d, p, Filled(start));
    if start + LAST < NUM_OF_BLOCKS then Laid(d', start + LAST, start + K) else d'
  }

  method MakeOneBlock(startNode: Word) returns (blk: Block, last: Word)
    requires startNode <= NUM_OF_BLOCKS
    ensures blk == Filled(startNode)
    ensures last == if startNode + LAST < NUM_OF_BLOCKS then startNode + LAST else 0
  {
    var data := new Word[K](_ => 0);
    var ptrIntoBlock := 0;
    var nodeCounter := startNode;
    while ptrIntoBlock < K && nodeCounter < NUM_OF_BLOCKS
      invariant ptrIntoBlock <= K && startNode <= nodeCounter <= NUM_OF_BLOCKS
      invariant nodeCounter == startNode + ptrIntoBlock
      invariant forall i :: 0 <= i < K ==> data[i] == if i < ptrIntoBlock then startNode + i else 0
    {
      data[ptrIntoBlock] := nodeCounter;
      nodeCounter := nodeCounter + 1;
      ptrIntoBlock := ptrIntoBlock + 1;
    }
    blk := data[..];
    assert blk == Filled(startNode);
    last := if ptrIntoBlock == K then nodeCounter - 1 else 0;
  }

  method InitializeDiskBlocks(disk: Device, freeBlockNum: Word, startPos: Word)
    requires freeBlockNum < startPos <= NUM_OF_BLOCKS
    modifies disk
    ensures disk.blocks == Laid(old(disk.blocks), freeBlockNum, startPos)
  {
    var pointerBlockNumber: Word, start: Word := freeBlockNum, startPos;
    while pointerBlockNumber < NUM_OF_BLOCKS
      invariant pointerBlockNumber < start <= NUM_OF_BLOCKS
      invariant Laid(disk.blocks, pointerBlockNumber, start) == Laid(old(disk.blocks), freeBlockNum, startPos)
      decreases NUM_OF_BLOCKS - start
    {
      var metaBlock, next := MakeOneBlock(start);
      disk.WriteDiskBlock(pointerBlockNumber, metaBlock);
      if next == 0 {
        break;
      }
      pointerBlockNumber := next;
      start := start + K;
    }
  }

  lemma FilledUsed(start: Word)
    requires 0 < start <= NUM_OF_BLOCKS
    ensures NonZero(Filled(start)) == if start + K <= NUM_OF_BLOCKS then Filled(start) else Range(start)
  {
    var n := if start + K <= NUM_OF_BLOCKS then K else NUM_OF_BLOCKS - start;
    var w := Filled(start);
    assert w == w[..n] + w[n..];
    NonZeroConcat(w[..n], w[n..]);
    NonZeroClear(w[n..]);
    AllUsed(w[..n]);
    assert w[..n] == if n == K then w else Range(start);
  }

  lemma {:induction false} AllUsed(w: seq<Word>)
    requires forall i :: 0 <= i < |w| ==> w[i] != 0
    ensures NonZero(w) == w
  {
    if w != [] {
      AllUsed(w[1..]);
      assert w == [w[0]] + w[1..];
    }
  }

  lemma {:induction false} LaidFrame(d: Store, p: Word, start: Word, x: Word)
    requires x < start && x != p && x < NUM_OF_BLOCKS
    ensures Laid(d, p, start)[x] == d[x]
    decreases NUM_OF_BLOCKS - start
  {
    if start + LAST < NUM_OF_BLOCKS {
      LaidFrame(Put(d, p, Filled(start)), start + LAST, start + K, x);
    }
  }

  // The chain laid from block p on lists start, start + 1, ... up to the end of the disk.
  lemma {:induction false} LaidChain(d: Store, p: Word, start: Word)
    requires p < start <= NUM_OF_BLOCKS
    requires p < NUM_OF_BLOCKS
    ensures var d' := Laid(d, p, start); d'[p] == Filled(start) && IsChain(d', d'[p], Range(start))
    decreases NUM_OF_BLOCKS - start
  {
    var d' := Laid(d, p, start);
    FilledUsed(start);
    if start + LAST < NUM_OF_BLOCKS {
      var d1 := Put(d, p, Filled(start));
      LaidFrame(d1, start + LAST, start + K, p);
      LaidChain(d1, start + LAST, start + K);
      assert Range(start)[K..] == Range(start + K);
      assert Range(start)[..K] == Filled(start);
    }
  }

  // mkfs leaves every block from startPos on free, once each, and nothing else.
  lemma MkfsFreesAll(d: Store, start: Word)
    requires FIRST_DATA_BLOCK <= start <= NUM_OF_BLOCKS
    ensures FreeList(Laid(d, FREE_LIST_BLOCK, start), Range(start))
  {
    LaidChain(d, FREE_LIST_BLOCK, start);
    RangeUnique(start);
  }

  lemma RangeUnique(start: Word)
    ensures Unique(multiset(Range(start)))
  {
    DistinctUnique(Range(start));
  }

  lemma {:induction false} DistinctUnique(s: seq<Word>)
    requires forall i, j :: 0 <= i < j < |s| ==> s[i] != s[j]
    ensures Unique(multiset(s))
  {
    if s != [] {
      DistinctUnique(s[1..]);
      assert s == [s[0]] + s[1..];
    }
  }

  // The state after n allocations, and the blocks they returned.
  ghost function Drained(d: Store, n: nat): (Store, seq<Word>) {
    if n == 0 then (d, [])
    else
      var (d1, bs) := Drained(d, n - 1);
      var (d2, b) := Alloc(d1);
      (d2, bs + [b])
  }

  // Repeated allocation walks the free list in order, then returns 0 for ever.
  lemma {:induction false} DrainInOrder(d: Store, st: seq<Word>, n: nat)
    requires FreeList(d, st)
    ensures var (d', bs) := Drained(d, n);
      && |bs| == n
      && (forall i :: 0 <= i < n ==> bs[i] == if i < |st| then st[i] else 0)
      && FreeList(d', if n <= |st| then st[n..] else [])
  {
    hide Alloc, FreeList;
    if n == 0 {
      assert st[0..] == st;
    } else {
      DrainInOrder(d, st, n - 1);
      assert st[|st|..] == [];
      var (d1, bs) := Drained(d, n - 1);
      if n <= |st| {
        AllocPops(d1, st[n - 1..]);
        assert st[n - 1..][1..] == st[n..];
      } else {
        AllocFromEmpty(d1);
      }
    }
  }
}
