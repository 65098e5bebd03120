/**
  decreaseFileSizeBy of src/interface/truncate.c as a function.
 */
module FileTruncate {
  import opened Params
  import opened Disk
  import opened Bytes
  import opened FreeChain
  import opened BlockPath
  import opened BlockTree
  import opened FileMap
  import opened FileGrowth
  import opened FileRelease
  import opened FileContent
  import opened BMap
  import opened FileWrite

  // Bytes in the last block of a file.
  function Tail(size: nat): nat
    requires size > 0
  {
    (size - 1) % BLOCK_SIZE + 1
  }

  // The loop with `left` bytes still to drop: the disk and the size afterwards.
  function ShrinkLoop(d: Store, nums: Slots, size: nat, left: nat): (Store, nat)
    requires left <= size <= MAX_FILE_SIZE
    decreases left
  {
    if left == 0 then (d, size)
    else if left < Tail(size) then (d, size - left)
    else
      SizePathIs(size);
      var b := LookUp(d, nums, (size - 1) / BLOCK_SIZE);
      ShrinkLoop(RemoveBlock(d, nums, b, SizePath(size)), nums, size - Tail(size), left - Tail(size))
  }

  // Every block the loop drops is dropped at a path-safe size.
  predicate ShrinkSafe(size: nat, left: nat)
    requires left <= size
    decreases left
  {
    left == 0 || left < Tail(size) || (SizePathSafe(size) && ShrinkSafe(size - Tail(size), left - Tail(size)))
  }

  // A file of fewer than ten blocks' worth of bytes can be shrunk to any size.
  lemma {:induction false} DirectShrinkSafe(size: nat, left: nat)
    requires left <= size < 10 * BLOCK_SIZE
    ensures ShrinkSafe(size, left)
    decreases left
  {
    if left > 0 && left >= Tail(size) {
      DirectShrinkSafe(size - Tail(size), left - Tail(size));
    }
  }

  // One directory entry can be dropped from a directory of any size.
  lemma EntryShrinkSafe(size: nat)
    requires 64 <= size && size % 64 == 0
    ensures ShrinkSafe(size, 64)
  {
    if 64 >= Tail(size) {
      assert size % BLOCK_SIZE == 64;
      assert ShrinkSafe(size - 64, 0);
    }
  }

  lemma TailFacts(size: nat)
    requires 0 < size <= MAX_FILE_SIZE
    ensures var n := BlockCount(size);
      && 0 < n <= MAX_FILE_BLOCKS && (size - 1) / BLOCK_SIZE == n - 1
      && size - Tail(size) == (n - 1) * BLOCK_SIZE && BlockCount(size - Tail(size)) == n - 1
      && (n - 1) * BLOCK_SIZE <= size
  {
  }

  lemma BlockOwned(d: Store, nums: Slots, n: nat, j: nat)
    requires j < n <= MAX_FILE_BLOCKS
    ensures BlockAt(d, nums, j) in FileNodes(d, nums, n, 0)
  {
    hide *;
    Values();
    FileSplit(d, nums, n);
    BlockListed(d, nums, n, j);
    assert FileBlocks(d, nums, n)[j] in multiset(FileBlocks(d, nums, n));
  }

  // Bytes in blocks that are neither moved nor touched stay.
  lemma KeptByte(d: Store, d': Store, st': seq<Word>, nums: Slots, k: nat, others: multiset<Word>, p: nat)
    requires k <= MAX_FILE_BLOCKS && p < k * BLOCK_SIZE && SameBlocks(d, d', nums, nums, k)
    requires Separate(d', st', nums, k, others) && SameOn(d, d', FileNodes(d, nums, k, 0) + others)
    ensures p < MAX_FILE_SIZE && ContentAt(d', nums, p) == ContentAt(d, nums, p)
  {
    var j := p / BLOCK_SIZE;
    assert j < k;
    hide Separate, BlockAt, FileNodes, BlockByte, SameOn, SameBlocks;
    SameBlockAt(d, d', nums, nums, k, j);
    BlockOwned(d, nums, k, j);
    DataBlockApart(d', st', nums, k, others, j);
    SameOnAt(d, d', FileNodes(d, nums, k, 0) + others, BlockAt(d, nums, j));
  }

  lemma SameOnAt(d: Store, d': Store, m: multiset<Word>, b: Word)
    requires SameOn(d, d', m) && b in m && b < NUM_OF_BLOCKS
    ensures At(d', b) == At(d, b)
  {
  }

  lemma KeptContent(d: Store, d': Store, st': seq<Word>, nums: Slots, k: nat, size: nat, others: multiset<Word>)
    requires k <= MAX_FILE_BLOCKS && k * BLOCK_SIZE <= size <= MAX_FILE_SIZE && SameBlocks(d, d', nums, nums, k)
    requires Separate(d', st', nums, k, others) && SameOn(d, d', FileNodes(d, nums, k, 0) + others)
    ensures Content(d', nums, k * BLOCK_SIZE) == Content(d, nums, size)[..k * BLOCK_SIZE]
  {
    var bytes := Content(d, nums, size)[..k * BLOCK_SIZE];
    hide Separate, ContentAt, SameBlocks, SameOn, FileNodes;
    forall p | 0 <= p < k * BLOCK_SIZE
      ensures ContentAt(d', nums, p) == bytes[p]
    {
      KeptByte(d, d', st', nums, k, others, p);
    }
    ContentIs(d', nums, bytes);
  }

  // Dropping the last block at a path-safe size keeps the bytes of the blocks before it and
  // frees what the block cost.
  lemma DropBlock(d: Store, st: seq<Word>, nums: Slots, size: nat, others: multiset<Word>) returns (st': seq<Word>)
    requires 0 < size <= MAX_FILE_SIZE && SizePathSafe(size) && CanFree(d) && Good(d, st, nums, size, others)
    ensures Tail(size) <= size && (size - 1) / BLOCK_SIZE <= TRIPLE_INDIRECT_LIMIT && Valid(SizePath(size))
    ensures var d' := RemoveBlock(d, nums, LookUp(d, nums, (size - 1) / BLOCK_SIZE), SizePath(size));
      && CanFree(d')
      && FileIs(d', st', nums, size - Tail(size), others, Content(d, nums, size)[..size - Tail(size)])
      && SameOn(d, d', others)
      && |st'| == |st| + Need(size - Tail(size), size)
      && Moved(d, d', st, st', nums, size, size - Tail(size))
  {
    hide *;
    Values();
    TailFacts(size);
    GoodIs(d, st, nums, size, others);
    st' := DropBlockAt(d, st, nums, size, BlockCount(size) - 1, others);
  }

  lemma DropBlockAt(d: Store, st: seq<Word>, nums: Slots, size: nat, k: nat, others: multiset<Word>)
    returns (st': seq<Word>)
    requires 0 < size <= MAX_FILE_SIZE && SizePathSafe(size) && CanFree(d)
    requires k + 1 == BlockCount(size) <= MAX_FILE_BLOCKS && k * BLOCK_SIZE <= size <= MAX_FILE_SIZE
    requires BlockCount(k * BLOCK_SIZE) == k && Separate(d, st, nums, k + 1, others)
    ensures Valid(SizePath(size))
    ensures var d' := RemoveBlock(d, nums, LookUp(d, nums, k), SizePath(size));
      && CanFree(d')
      && FileIs(d', st', nums, k * BLOCK_SIZE, others, Content(d, nums, size)[..k * BLOCK_SIZE])
      && SameOn(d, d', others)
      && |st'| == |st| + Need(k * BLOCK_SIZE, size)
      && Moved(d, d', st, st', nums, size, k * BLOCK_SIZE)
  {
    hide *;
    Values();
    FoundBlock(d, st, nums, k + 1, others, k);
    st' := ShrinkMoves(d, st, nums, size, others);
    var d' := RemoveBlock(d, nums, BlockAt(d, nums, k), SizePath(size));
    GoodFrom(d', st', nums, k * BLOCK_SIZE, others);
    KeptContent(d, d', st', nums, k, size, others);
    FileIsFrom(d', st', nums, k * BLOCK_SIZE, others, Content(d, nums, size)[..k * BLOCK_SIZE]);
    SameOnPart(d, d', FileNodes(d, nums, k, 0) + others, others);
    FileCost(d, nums, k + 1);
    FileCost(d', nums, k);
    NeedIs(k * BLOCK_SIZE, size);
    MovedFrom(d, d', st, st', nums, size, k * BLOCK_SIZE);
    assert |multiset(st') + FileNodes(d', nums, k, 0)| == |multiset(st) + FileNodes(d, nums, k + 1, 0)|;
  }

  // Blocks went from the file to the free list, and nowhere else.
  ghost predicate Moved(d: Store, d': Store, st: seq<Word>, st': seq<Word>, nums: Slots, size: nat, size': nat) {
    multiset(st') + FileNodes(d', nums, BlockCount(size'), 0) == multiset(st) + FileNodes(d, nums, BlockCount(size), 0)
  }

  lemma MovedFrom(d: Store, d': Store, st: seq<Word>, st': seq<Word>, nums: Slots, size: nat, size': nat)
    requires multiset(st') + FileNodes(d', nums, BlockCount(size'), 0)
             == multiset(st) + FileNodes(d, nums, BlockCount(size), 0)
    ensures Moved(d, d', st, st', nums, size, size')
  {
    hide FileNodes;
  }

  lemma MovedTwice(d: Store, d1: Store, d': Store, st: seq<Word>, s1: seq<Word>, st': seq<Word>, nums: Slots, size: nat,
                   size1: nat, size': nat)
    requires Moved(d, d1, st, s1, nums, size, size1) && Moved(d1, d', s1, st', nums, size1, size')
    ensures Moved(d, d', st, st', nums, size, size')
  {
    hide FileNodes;
  }

  lemma NeedIs(size: nat, size': nat)
    ensures Need(size, size') == BlockCount(size') + Meta(BlockCount(size')) - BlockCount(size) - Meta(BlockCount(size))
  {
  }

  // Shrinking keeps a prefix of the file and puts exactly the blocks it no longer needs back
  // on the free list.
  lemma {:induction false} ShrinkKeepsPrefix(d: Store, st: seq<Word>, nums: Slots, size: nat, left: nat,
                                             others: multiset<Word>)
    returns (st': seq<Word>)
    requires left <= size <= MAX_FILE_SIZE && ShrinkSafe(size, left) && CanFree(d) && Good(d, st, nums, size, others)
    ensures var (d', size') := ShrinkLoop(d, nums, size, left);
      && size' == size - left
      && CanFree(d')
      && FileIs(d', st', nums, size', others, Content(d, nums, size)[..size'])
      && SameOn(d, d', others)
      && |st'| == |st| + Need(size', size)
      && Moved(d, d', st, st', nums, size, size')
    decreases left
  {
    hide *;
    Values();
    if left == 0 || left < Tail(size) {
      ShrinkKeeps(d, st, nums, size, left, others);
      st' := st;
    } else {
      ShrinkStepIs(d, nums, size, left);
      var s1 := DropBlock(d, st, nums, size, others);
      var d1 := RemoveBlock(d, nums, LookUp(d, nums, (size - 1) / BLOCK_SIZE), SizePath(size));
      var size1 := size - Tail(size);
      FileIsGood(d1, s1, nums, size1, others, Content(d, nums, size)[..size1]);
      st' := ShrinkKeepsPrefix(d1, s1, nums, size1, left - Tail(size), others);
      assert Content(d, nums, size)[..size1][..size - left] == Content(d, nums, size)[..size - left];
      SameOnTwice(d, d1, ShrinkLoop(d, nums, size, left).0, others);
      MovedTwice(d, d1, ShrinkLoop(d, nums, size, left).0, st, s1, st', nums, size, size1, size - left);
      NeedIs(size1, size);
      NeedIs(size - left, size1);
      NeedIs(size - left, size);
    }
  }

  lemma ShrinkKeeps(d: Store, st: seq<Word>, nums: Slots, size: nat, left: nat, others: multiset<Word>)
    requires left <= size <= MAX_FILE_SIZE && Good(d, st, nums, size, others)
    requires left == 0 || left < Tail(size)
    ensures ShrinkLoop(d, nums, size, left) == (d, size - left)
    ensures FileIs(d, st, nums, size - left, others, Content(d, nums, size)[..size - left])
    ensures SameOn(d, d, others) && Need(size - left, size) == 0 && Moved(d, d, st, st, nums, size, size - left)
  {
    assert BlockCount(size - left) == BlockCount(size);
    hide Separate, ContentAt, LookUp, RemoveBlock, Meta;
  }

  lemma ShrinkStepIs(d: Store, nums: Slots, size: nat, left: nat)
    requires left <= size <= MAX_FILE_SIZE && left > 0 && left >= Tail(size)
    ensures 0 < Tail(size) <= size && (size - 1) / BLOCK_SIZE <= TRIPLE_INDIRECT_LIMIT && Valid(SizePath(size))
    ensures ShrinkSafe(size, left) ==> SizePathSafe(size) && ShrinkSafe(size - Tail(size), left - Tail(size))
    ensures var d1 := RemoveBlock(d, nums, LookUp(d, nums, (size - 1) / BLOCK_SIZE), SizePath(size));
            ShrinkLoop(d, nums, size, left) == ShrinkLoop(d1, nums, size - Tail(size), left - Tail(size))
  {
    SizePathIs(size);
    hide RemoveBlock, LookUp, PathOf, SizePathSafe;
  }
}
