/**
  decreaseFileSizeBy over several blocks. From a block-aligned size each round frees the path of
  the index after the block it drops, so it is the round after that gives an indirect block back.
 */
module FileShrink {
  import opened Params
  import opened Disk
  import opened Bags
  import opened FreeChain
  import opened BlockPath
  import opened BlockTree
  import opened TreeGrowth
  import opened TreeRelease
  import opened FileMap
  import opened FileGrowth
  import opened FileRelease
  import opened FileContent
  import opened BMap
  import opened FileWrite
  import opened FileTruncate

  // Index j is the first under some indirect block.
  predicate Starts(j: nat) {
    10 <= j <= TRIPLE_INDIRECT_LIMIT && (j - 10) % 128 == 0
  }

  // What the slots still hold as the indirect blocks that start at index j, though the file has
  // only j blocks.
  ghost function Dangling(d: Store, nums: Slots, j: nat): seq<Word>
    requires j <= MAX_FILE_BLOCKS
  {
    if j <= TRIPLE_INDIRECT_LIMIT then FileSpine(d, nums, j) else []
  }

  lemma DanglingIff(d: Store, nums: Slots, j: nat)
    requires j <= MAX_FILE_BLOCKS
    ensures |Dangling(d, nums, j)| == (if j <= TRIPLE_INDIRECT_LIMIT then FileNew(j) else 0)
    ensures Dangling(d, nums, j) != [] <==> Starts(j)
  {
    if j <= TRIPLE_INDIRECT_LIMIT {
      FileSpineLength(d, nums, j);
      FileNewZero(j);
      hide FileSpine, FileNew;
    }
  }

  // ---------- one round ----------

  // The free of block j - 1 leaves the way to the dangling blocks alone.
  lemma WayIntact(d: Store, d1: Store, nums: Slots, j: nat, kept: multiset<Word>)
    requires 1 <= j <= TRIPLE_INDIRECT_LIMIT
    requires FileNodes(d, nums, j - 1, 0) + multiset(FileSpine(d, nums, j - 1)) <= kept
    requires InData(multiset(FileSpine(d, nums, j)) + kept)
    requires SameOn(d, d1, multiset(FileSpine(d, nums, j)) + kept)
    ensures InData(FileNodes(d, nums, j + 1, 1)) && SameOn(d, d1, FileNodes(d, nums, j + 1, 1))
  {
    hide *;
    Values();
    RemovedParts(d, nums, j);
    RemovedParts(d, nums, j - 1);
    FileNodesSplit(d, nums, j - 1);
    var whole, part := multiset(FileSpine(d, nums, j)) + kept, FileNodes(d, nums, j + 1, 1);
    InDataPart(whole, part);
    SameOnPart(d, d1, whole, part);
  }

  lemma LagCollects(d: Store, nums: Slots, j: nat, b: Word, kept: multiset<Word>)
    requires 1 <= j <= MAX_FILE_BLOCKS
    requires FileNodes(d, nums, j - 1, 0) + multiset(FileSpine(d, nums, j - 1)) <= kept
    requires InData(multiset(Dangling(d, nums, j)) + kept)
    requires SameOn(d, Free(d, b), multiset(Dangling(d, nums, j)) + kept)
    ensures Valid(TakenPath(j)) && Collected(d, nums, b, TakenPath(j)) == Dangling(d, nums, j)
  {
    TakenIsValid(j);
    DanglingIs(d, nums, j);
    hide *;
    Values();
    if j <= TRIPLE_INDIRECT_LIMIT {
      WayIntact(d, Free(d, b), nums, j, kept);
      CollectedSpine(d, Free(d, b), nums, j);
      CollectedIs(d, nums, b, PathOf(j));
    } else {
      TakenPastEnd(d, nums, b, j);
    }
  }

  lemma DanglingIs(d: Store, nums: Slots, j: nat)
    requires j <= MAX_FILE_BLOCKS
    ensures Dangling(d, nums, j) == if j <= TRIPLE_INDIRECT_LIMIT then FileSpine(d, nums, j) else []
  {
  }

  // The spine of the new last index is where it was.
  lemma SpineSame(d: Store, d': Store, nums: Slots, k: nat, kept: multiset<Word>)
    requires k < MAX_FILE_BLOCKS
    requires FileNodes(d, nums, k, 0) + multiset(FileSpine(d, nums, k)) <= kept
    requires InData(kept) && SameOn(d, d', kept)
    ensures FileSpine(d', nums, k) == FileSpine(d, nums, k)
  {
    hide *;
    Values();
    RemovedParts(d, nums, k);
    FileNodesSplit(d, nums, k);
    var part := FileNodes(d, nums, k + 1, 1);
    InDataPart(kept, part);
    SameOnPart(d, d', kept, part);
    FileFrame(d, d', nums, k + 1, 1);
    CollectedSpine(d, d', nums, k);
    SameOnSelf(d', part);
    CollectedSpine(d', d', nums, k);
  }

  // The free blocks, the file's blocks and what dangles.
  ghost function Whole(d: Store, st: seq<Word>, nums: Slots, n: nat): multiset<Word>
    requires n <= MAX_FILE_BLOCKS
  {
    multiset(st) + FileNodes(d, nums, n, 0) + multiset(Dangling(d, nums, n))
  }

  lemma WholeIs(d: Store, st: seq<Word>, nums: Slots, n: nat)
    requires n <= MAX_FILE_BLOCKS
    ensures Whole(d, st, nums, n) == multiset(st) + FileNodes(d, nums, n, 0) + multiset(Dangling(d, nums, n))
  {
    hide FileNodes, Dangling;
  }

  // A round from a block-aligned size frees its block and what dangled, and leaves the spine of
  // the block dangling.
  lemma LagDrop(d: Store, st: seq<Word>, nums: Slots, j: nat, others: multiset<Word>) returns (st': seq<Word>)
    requires 1 <= j <= MAX_FILE_BLOCKS && CanFree(d)
    requires Separate(d, st, nums, j, others + multiset(Dangling(d, nums, j)))
    ensures Valid(TakenPath(j))
    ensures var d' := RemoveBlock(d, nums, BlockAt(d, nums, j - 1), TakenPath(j));
      && Freed(d, d', st, st', multiset{BlockAt(d, nums, j - 1)} + multiset(Dangling(d, nums, j)))
      && Separate(d', st', nums, j - 1, others + multiset(Dangling(d', nums, j - 1)))
      && SameBlocks(d, d', nums, nums, j - 1)
      && SameOn(d, d', FileNodes(d, nums, j - 1, 0) + others)
      && Whole(d', st', nums, j - 1) == Whole(d, st, nums, j)
  {
    hide *;
    Values();
    var b, spine, gone := BlockAt(d, nums, j - 1), FileSpine(d, nums, j - 1), Dangling(d, nums, j);
    var kept := FileNodes(d, nums, j - 1, 0) + (others + multiset(spine));
    RemovedParts(d, nums, j - 1);
    SeparateWhole(d, st, nums, j, others + multiset(gone));
    assert FileNodes(d, nums, j, 0) + (others + multiset(gone)) == multiset{b} + (multiset(gone) + kept);
    assert multiset(st) + FileNodes(d, nums, j, 0) + (others + multiset(gone))
        == multiset(st) + (multiset{b} + (multiset(gone) + kept));
    ReleasableIs(d, st, multiset{b} + (multiset(gone) + kept));
    ReleasablePart(d, st, multiset{b}, multiset(gone) + kept);
    var s1 := FreeRoot(d, st, b);
    var d1 := Free(d, b);
    ReleasableRest(d, d1, st, s1, multiset{b}, multiset(gone) + kept);
    InDataOf(d1, s1, multiset(gone) + kept);
    LagCollects(d, nums, j, b, kept);
    st' := FreeSpine(d1, s1, gone, kept);
    var d' := FreeAll(d1, gone);
    CollectedIs(d, nums, b, TakenPath(j));
    FreedTwice(d, d1, d', st, s1, st', multiset{b}, multiset(gone));
    SameOnPart(d, d1, multiset(gone) + kept, kept);
    SameOnTwice(d, d1, d', kept);
    LagKept(d, d', st', nums, j - 1, others, kept);
    FreedIs(d, d', st, st', multiset{b} + multiset(gone));
    WholeIs(d, st, nums, j);
    WholeIs(d', st', nums, j - 1);
  }

  lemma LagKept(d: Store, d': Store, st': seq<Word>, nums: Slots, k: nat, others: multiset<Word>, kept: multiset<Word>)
    requires k < MAX_FILE_BLOCKS && kept == FileNodes(d, nums, k, 0) + (others + multiset(FileSpine(d, nums, k)))
    requires Releasable(d', st', kept) && SameOn(d, d', kept)
    ensures Separate(d', st', nums, k, others + multiset(Dangling(d', nums, k)))
    ensures SameBlocks(d, d', nums, nums, k) && SameOn(d, d', FileNodes(d, nums, k, 0) + others)
    ensures Dangling(d', nums, k) == FileSpine(d, nums, k) && FileNodes(d', nums, k, 0) == FileNodes(d, nums, k, 0)
  {
    DanglingIs(d', nums, k);
    hide *;
    Values();
    InDataOf(d', st', kept);
    SpineSame(d, d', nums, k, kept);
    KeptAfter(d, d', st', nums, k, others + multiset(FileSpine(d, nums, k)));
    SameOnPart(d, d', kept, FileNodes(d, nums, k, 0) + others);
  }

  // ---------- the loop ----------

  // A file of `size` bytes with something dangling at index BlockCount(size).
  ghost predicate Lagging(d: Store, st: seq<Word>, nums: Slots, size: nat, others: multiset<Word>, bytes: seq<Byte>) {
    && size <= MAX_FILE_SIZE
    && BlockCount(size) <= MAX_FILE_BLOCKS
    && CanFree(d)
    && FileIs(d, st, nums, size, others + multiset(Dangling(d, nums, BlockCount(size))), bytes)
  }

  lemma LaggingIs(d: Store, st: seq<Word>, nums: Slots, size: nat, others: multiset<Word>, bytes: seq<Byte>)
    requires Lagging(d, st, nums, size, others, bytes)
    ensures size <= MAX_FILE_SIZE && BlockCount(size) <= MAX_FILE_BLOCKS && CanFree(d)
    ensures FileIs(d, st, nums, size, others + multiset(Dangling(d, nums, BlockCount(size))), bytes)
  {
    hide FileIs, Dangling;
  }

  lemma LaggingFrom(d: Store, st: seq<Word>, nums: Slots, size: nat, others: multiset<Word>, bytes: seq<Byte>)
    requires size <= MAX_FILE_SIZE && BlockCount(size) <= MAX_FILE_BLOCKS && CanFree(d)
    requires FileIs(d, st, nums, size, others + multiset(Dangling(d, nums, BlockCount(size))), bytes)
    ensures Lagging(d, st, nums, size, others, bytes)
  {
    hide FileIs, Dangling;
  }

  lemma AlignedSize(j: nat)
    requires 1 <= j <= MAX_FILE_BLOCKS
    ensures j * BLOCK_SIZE <= MAX_FILE_SIZE && j * BLOCK_SIZE / BLOCK_SIZE == j
    ensures (j * BLOCK_SIZE - 1) / BLOCK_SIZE == j - 1
    ensures BlockCount(j * BLOCK_SIZE) == j && BlockCount((j - 1) * BLOCK_SIZE) == j - 1
    ensures Tail(j * BLOCK_SIZE) == BLOCK_SIZE
    ensures j * BLOCK_SIZE - BLOCK_SIZE == (j - 1) * BLOCK_SIZE
  {
  }

  lemma LagRound(d: Store, st: seq<Word>, nums: Slots, j: nat, others: multiset<Word>, bytes: seq<Byte>)
    returns (st': seq<Word>)
    requires 1 <= j <= MAX_FILE_BLOCKS && Lagging(d, st, nums, j * BLOCK_SIZE, others, bytes)
    ensures Valid(TakenPath(j))
    ensures var d' := RemoveBlock(d, nums, LookUp(d, nums, j - 1), TakenPath(j));
      && |bytes| == j * BLOCK_SIZE && (j - 1) * BLOCK_SIZE <= |bytes|
      && Lagging(d', st', nums, (j - 1) * BLOCK_SIZE, others, bytes[..(j - 1) * BLOCK_SIZE])
      && SameOn(d, d', others)
      && Whole(d', st', nums, j - 1) == Whole(d, st, nums, j)
  {
    TakenIsValid(j);
    hide *;
    Values();
    AlignedSize(j);
    var size := j * BLOCK_SIZE;
    LaggingIs(d, st, nums, size, others, bytes);
    var all := others + multiset(Dangling(d, nums, j));
    FileIsGood(d, st, nums, size, all, bytes);
    GoodIs(d, st, nums, size, all);
    FoundBlock(d, st, nums, j, all, j - 1);
    st' := LagDrop(d, st, nums, j, others);
    var b := BlockAt(d, nums, j - 1);
    var d' := RemoveBlock(d, nums, b, TakenPath(j));
    FreedIs(d, d', st, st', multiset{b} + multiset(Dangling(d, nums, j)));
    LagContent(d, d', st', nums, j - 1, size, others);
    LaggingFrom(d', st', nums, (j - 1) * BLOCK_SIZE, others, bytes[..(j - 1) * BLOCK_SIZE]);
    SameOnPart(d, d', FileNodes(d, nums, j - 1, 0) + others, others);
  }

  lemma LagContent(d: Store, d': Store, st': seq<Word>, nums: Slots, k: nat, size: nat, others: multiset<Word>)
    requires k < MAX_FILE_BLOCKS && k * BLOCK_SIZE <= size <= MAX_FILE_SIZE && BlockCount(k * BLOCK_SIZE) == k
    requires Separate(d', st', nums, k, others + multiset(Dangling(d', nums, k)))
    requires SameBlocks(d, d', nums, nums, k) && SameOn(d, d', FileNodes(d, nums, k, 0) + others)
    ensures FileIs(d', st', nums, k * BLOCK_SIZE, others + multiset(Dangling(d', nums, k)),
            Content(d, nums, size)[..k * BLOCK_SIZE])
  {
    hide *;
    Values();
    var all := others + multiset(Dangling(d', nums, k));
    GoodFrom(d', st', nums, k * BLOCK_SIZE, all);
    SameOnPart(d, d', FileNodes(d, nums, k, 0) + others, FileNodes(d, nums, k, 0));
    KeptPrefix(d, d', st', nums, k, size, all);
    FileIsFrom(d', st', nums, k * BLOCK_SIZE, all, Content(d, nums, size)[..k * BLOCK_SIZE]);
  }

  // Like KeptContent, for the file alone.
  lemma KeptPrefix(d: Store, d': Store, st': seq<Word>, nums: Slots, k: nat, size: nat, others: multiset<Word>)
    requires k <= MAX_FILE_BLOCKS && k * BLOCK_SIZE <= size <= MAX_FILE_SIZE && SameBlocks(d, d', nums, nums, k)
    requires Separate(d', st', nums, k, others) && SameOn(d, d', FileNodes(d, nums, k, 0))
    ensures Content(d', nums, k * BLOCK_SIZE) == Content(d, nums, size)[..k * BLOCK_SIZE]
  {
    hide *;
    Values();
    SeparateAlone(d', st', nums, k, others);
    assert FileNodes(d, nums, k, 0) + multiset{} == FileNodes(d, nums, k, 0);
    KeptContent(d, d', st', nums, k, size, multiset{});
  }

  lemma SeparateAlone(d: Store, st: seq<Word>, nums: Slots, n: nat, others: multiset<Word>)
    requires Separate(d, st, nums, n, others)
    ensures Separate(d, st, nums, n, multiset{})
  {
    hide FileNodes, FreeList;
    InDataParts(FileNodes(d, nums, n, 0), others);
    UniquePart(multiset(st) + FileNodes(d, nums, n, 0) + others, multiset(st) + FileNodes(d, nums, n, 0) + multiset{});
    assert FileNodes(d, nums, n, 0) + multiset{} == FileNodes(d, nums, n, 0);
  }

  // Shrinking on from a block-aligned size with something dangling: a prefix of the file is
  // kept, what dangles moves to the new end, and everything else that leaves the file is free.
  lemma {:induction false} LagLoop(d: Store, st: seq<Word>, nums: Slots, j: nat, left: nat, others: multiset<Word>,
                                   bytes: seq<Byte>)
    returns (st': seq<Word>)
    requires j <= MAX_FILE_BLOCKS && left <= j * BLOCK_SIZE && Lagging(d, st, nums, j * BLOCK_SIZE, others, bytes)
    ensures j * BLOCK_SIZE <= MAX_FILE_SIZE && |bytes| == j * BLOCK_SIZE
    ensures var (d', size') := ShrinkLoop(d, nums, j * BLOCK_SIZE, left);
      && size' == j * BLOCK_SIZE - left
      && Lagging(d', st', nums, size', others, bytes[..size'])
      && SameOn(d, d', others)
      && BlockCount(size') <= MAX_FILE_BLOCKS
      && Whole(d', st', nums, BlockCount(size')) == Whole(d, st, nums, j)
    decreases left
  {
    hide *;
    Values();
    var size := j * BLOCK_SIZE;
    LaggingIs(d, st, nums, size, others, bytes);
    FileIsGood(d, st, nums, size, others + multiset(Dangling(d, nums, BlockCount(size))), bytes);
    if j == 0 || left < BLOCK_SIZE {
      LagStops(d, st, nums, j, left, others, bytes);
      st' := st;
      SameOnSelf(d, others);
    } else {
      AlignedSize(j);
      LagStepIs(d, nums, j, left);
      var s1 := LagRound(d, st, nums, j, others, bytes);
      var d1 := RemoveBlock(d, nums, LookUp(d, nums, j - 1), TakenPath(j));
      st' := LagLoop(d1, s1, nums, j - 1, left - BLOCK_SIZE, others, bytes[..(j - 1) * BLOCK_SIZE]);
      assert bytes[..(j - 1) * BLOCK_SIZE][..size - left] == bytes[..size - left];
      SameOnTwice(d, d1, ShrinkLoop(d, nums, size, left).0, others);
    }
  }

  lemma LagStepIs(d: Store, nums: Slots, j: nat, left: nat)
    requires 1 <= j <= MAX_FILE_BLOCKS && BLOCK_SIZE <= left <= j * BLOCK_SIZE
    ensures Valid(TakenPath(j)) && j * BLOCK_SIZE <= MAX_FILE_SIZE && left - BLOCK_SIZE <= (j - 1) * BLOCK_SIZE
    ensures var d1 := RemoveBlock(d, nums, LookUp(d, nums, j - 1), TakenPath(j));
            ShrinkLoop(d, nums, j * BLOCK_SIZE, left) == ShrinkLoop(d1, nums, (j - 1) * BLOCK_SIZE, left - BLOCK_SIZE)
  {
    hide *;
    Values();
    AlignedSize(j);
    AlignedPath(j);
    ShrinkStepIs(d, nums, j * BLOCK_SIZE, left);
  }

  lemma AlignedPath(j: nat)
    ensures Valid(TakenPath(j)) && SizePath(j * BLOCK_SIZE) == TakenPath(j)
  {
    TakenIsValid(j);
    assert j * BLOCK_SIZE / BLOCK_SIZE == j;
  }

  lemma LagStops(d: Store, st: seq<Word>, nums: Slots, j: nat, left: nat, others: multiset<Word>, bytes: seq<Byte>)
    requires j <= MAX_FILE_BLOCKS && left <= j * BLOCK_SIZE && (j == 0 || left < BLOCK_SIZE)
    requires Lagging(d, st, nums, j * BLOCK_SIZE, others, bytes) && j * BLOCK_SIZE <= MAX_FILE_SIZE
    ensures |bytes| == j * BLOCK_SIZE
    ensures BlockCount(j * BLOCK_SIZE - left) == j
    ensures ShrinkLoop(d, nums, j * BLOCK_SIZE, left) == (d, j * BLOCK_SIZE - left)
    ensures Lagging(d, st, nums, j * BLOCK_SIZE - left, others, bytes[..j * BLOCK_SIZE - left])
  {
    hide Dangling, Separate, ContentAt, LookUp, RemoveBlock, CanFree, BlockCount, ShrinkLoop, Content, Tail, FileIs;
    StopSizes(j, left);
    LaggingIs(d, st, nums, j * BLOCK_SIZE, others, bytes);
    StopsIs(d, nums, j * BLOCK_SIZE, left);
    ShrunkInside(d, st, nums, j * BLOCK_SIZE, left, others + multiset(Dangling(d, nums, j)), bytes);
    LaggingFrom(d, st, nums, j * BLOCK_SIZE - left, others, bytes[..j * BLOCK_SIZE - left]);
  }

  lemma StopSizes(j: nat, left: nat)
    requires j <= MAX_FILE_BLOCKS && left <= j * BLOCK_SIZE && (j == 0 || left < BLOCK_SIZE)
    ensures BlockCount(j * BLOCK_SIZE - left) == BlockCount(j * BLOCK_SIZE) == j
    ensures left > 0 ==> left < Tail(j * BLOCK_SIZE)
  {
  }

  lemma StopsIs(d: Store, nums: Slots, size: nat, left: nat)
    requires left <= size <= MAX_FILE_SIZE && (left > 0 ==> left < Tail(size))
    ensures ShrinkLoop(d, nums, size, left) == (d, size - left)
  {
    hide LookUp, RemoveBlock, Tail;
  }

  lemma ShrunkInside(d: Store, st: seq<Word>, nums: Slots, size: nat, left: nat, others: multiset<Word>,
                     bytes: seq<Byte>)
    requires left <= size && FileIs(d, st, nums, size, others, bytes) && BlockCount(size - left) == BlockCount(size)
    ensures |bytes| == size && FileIs(d, st, nums, size - left, others, bytes[..size - left])
  {
    hide Separate, ContentAt, BlockCount;
  }

  // ---------- any shrink ----------

  // Some block is dropped from a block-aligned size.
  predicate Lags(size: nat, left: nat)
    requires left <= size
  {
    left > 0 && left >= Tail(size) + (if size % BLOCK_SIZE == 0 then 0 else BLOCK_SIZE)
  }

  // The first such round takes the path of an index that starts no indirect block.
  predicate NothingStale(size: nat, left: nat)
    requires left <= size
  {
    !Lags(size, left) || !Starts(size / BLOCK_SIZE)
  }

  // The new end starts no indirect block.
  predicate NothingLost(size: nat, left: nat)
    requires left <= size
  {
    !Lags(size, left) || !Starts(BlockCount(size - left))
  }

  lemma NothingLostIs(size: nat, left: nat)
    requires left <= size
    ensures NothingLost(size, left) <==> !Lags(size, left) || !Starts(BlockCount(size - left))
  {
  }

  lemma MovedButIs(d: Store, d': Store, st: seq<Word>, st': seq<Word>, nums: Slots, size: nat, size': nat,
                   lost: multiset<Word>)
    requires MovedBut(d, d', st, st', nums, size, size', lost)
    ensures multiset(st') + FileNodes(d', nums, BlockCount(size'), 0) + lost
            == multiset(st) + FileNodes(d, nums, BlockCount(size), 0)
  {
    hide FileNodes;
  }

  // The indirect blocks that a shrink to `size'` bytes leaves neither free nor owned.
  ghost function Lost(d: Store, nums: Slots, size: nat, left: nat): multiset<Word>
    requires left <= size <= MAX_FILE_SIZE
  {
    var n := BlockCount(size - left);
    if Lags(size, left) && n <= MAX_FILE_BLOCKS then multiset(Dangling(d, nums, n)) else multiset{}
  }

  lemma LostIff(d: Store, nums: Slots, size: nat, left: nat)
    requires left <= size <= MAX_FILE_SIZE
    ensures Lost(d, nums, size, left) == multiset{} <==> !Lags(size, left) || !Starts(BlockCount(size - left))
    ensures BlockCount(size - left) <= MAX_FILE_BLOCKS
    ensures Lags(size, left) ==> Lost(d, nums, size, left) == multiset(Dangling(d, nums, BlockCount(size - left)))
    ensures !Lags(size, left) ==> Lost(d, nums, size, left) == multiset{}
  {
    var n := BlockCount(size - left);
    assert n <= MAX_FILE_BLOCKS;
    DanglingIff(d, nums, n);
    hide Dangling, FileNew, Lags, Starts, BlockCount;
    if Dangling(d, nums, n) != [] {
      assert Dangling(d, nums, n)[0] in multiset(Dangling(d, nums, n));
    }
  }

  // The cases of the first round.
  lemma FirstRound(size: nat, left: nat)
    requires left <= size <= MAX_FILE_SIZE
    ensures !Lags(size, left) ==> left == 0 || left < Tail(size)
                                  || (size % BLOCK_SIZE != 0 && size > 0
                                     && Tail(size) <= left < Tail(size) + BLOCK_SIZE)
    ensures Lags(size, left) && size % BLOCK_SIZE == 0 ==>
              size / BLOCK_SIZE * BLOCK_SIZE == size && size / BLOCK_SIZE <= MAX_FILE_BLOCKS
    ensures size > 0 && size % BLOCK_SIZE != 0 ==>
              && SizePathSafe(size) && Tail(size) <= size
              && size - Tail(size) == size / BLOCK_SIZE * BLOCK_SIZE && size / BLOCK_SIZE <= MAX_FILE_BLOCKS
    ensures BlockCount(size / BLOCK_SIZE * BLOCK_SIZE) == size / BLOCK_SIZE
    ensures Lags(size, left) ==> left > 0 && left >= Tail(size) && Tail(size) <= size
  {
  }

  // A shrink whose path is nowhere stale keeps exactly the prefix of the file, and frees what
  // leaves it but for the blocks in Lost, which end up neither free nor owned.
  lemma ShrinkExact(d: Store, st: seq<Word>, nums: Slots, size: nat, left: nat, others: multiset<Word>)
    returns (st': seq<Word>)
    requires left <= size <= MAX_FILE_SIZE && NothingStale(size, left) && CanFree(d) && Good(d, st, nums, size, others)
    ensures var (d', size') := ShrinkLoop(d, nums, size, left);
      && size' == size - left
      && CanFree(d')
      && FileIs(d', st', nums, size', others + Lost(d', nums, size, left), Content(d, nums, size)[..size'])
      && SameOn(d, d', others)
      && MovedBut(d, d', st, st', nums, size, size', Lost(d', nums, size, left))
  {
    hide *;
    Values();
    var d' := ShrinkLoop(d, nums, size, left).0;
    LostIff(d', nums, size, left);
    if !Lags(size, left) {
      st' := ShortShrink(d, st, nums, size, left, others);
      assert others + multiset{} == others;
      MovedAll(d, d', st, st', nums, size, size - left);
    } else {
      var j, size1 := LagStart(size, left);
      if size1 == size {
        st' := AlignedShrink(d, st, nums, j, size, left, others);
      } else {
        st' := RaggedShrink(d, st, nums, j, size1, size, left, others);
      }
    }
  }

  // The whole blocks of the file, and their bytes.
  lemma LagStart(size: nat, left: nat) returns (j: nat, size1: nat)
    requires left <= size <= MAX_FILE_SIZE && NothingStale(size, left) && Lags(size, left)
    ensures size1 == j * BLOCK_SIZE <= size && j <= MAX_FILE_BLOCKS && !Starts(j) && BlockCount(size1) == j
    ensures size1 < size ==> size - size1 == Tail(size) <= left && SizePathSafe(size)
  {
    FirstRound(size, left);
    StaleIs(size, left);
    j, size1 := size / BLOCK_SIZE, size / BLOCK_SIZE * BLOCK_SIZE;
    hide Lags, NothingStale, Starts, SizePathSafe;
  }

  // At most one block leaves, from a size that is not aligned.
  lemma ShortShrink(d: Store, st: seq<Word>, nums: Slots, size: nat, left: nat, others: multiset<Word>)
    returns (st': seq<Word>)
    requires left <= size <= MAX_FILE_SIZE && CanFree(d) && Good(d, st, nums, size, others) && !Lags(size, left)
    ensures var (d', size') := ShrinkLoop(d, nums, size, left);
      && size' == size - left
      && CanFree(d')
      && FileIs(d', st', nums, size', others, Content(d, nums, size)[..size'])
      && SameOn(d, d', others)
      && Moved(d, d', st, st', nums, size, size')
  {
    FirstRound(size, left);
    OneRoundSafe(size, left);
    hide *;
    Values();
    st' := ShrinkKeepsPrefix(d, st, nums, size, left, others);
  }

  lemma OneRoundSafe(size: nat, left: nat)
    requires left <= size <= MAX_FILE_SIZE && !Lags(size, left)
    ensures ShrinkSafe(size, left)
  {
    if left > 0 && left >= Tail(size) {
      FirstRound(size, left);
      assert left - Tail(size) < BLOCK_SIZE;
      assert ShrinkSafe(size - Tail(size), left - Tail(size));
    }
  }

  lemma NoneDangles(d: Store, st: seq<Word>, nums: Slots, j: nat, others: multiset<Word>, bytes: seq<Byte>)
    requires j <= MAX_FILE_BLOCKS && !Starts(j) && CanFree(d) && BlockCount(j * BLOCK_SIZE) == j
    requires FileIs(d, st, nums, j * BLOCK_SIZE, others, bytes)
    ensures Lagging(d, st, nums, j * BLOCK_SIZE, others, bytes)
    ensures Whole(d, st, nums, j) == multiset(st) + FileNodes(d, nums, j, 0)
  {
    FileIsGood(d, st, nums, j * BLOCK_SIZE, others, bytes);
    DanglingIff(d, nums, j);
    WholeIs(d, st, nums, j);
    hide *;
    Values();
    assert others + multiset(Dangling(d, nums, j)) == others;
    LaggingFrom(d, st, nums, j * BLOCK_SIZE, others, bytes);
  }

  lemma StaleIs(size: nat, left: nat)
    requires left <= size && NothingStale(size, left) && Lags(size, left)
    ensures !Starts(size / BLOCK_SIZE)
  {
  }

  // All rounds start from aligned sizes.
  lemma AlignedShrink(d: Store, st: seq<Word>, nums: Slots, j: nat, size: nat, left: nat, others: multiset<Word>)
    returns (st': seq<Word>)
    requires j <= MAX_FILE_BLOCKS && size == j * BLOCK_SIZE && left <= size <= MAX_FILE_SIZE && BlockCount(size) == j
    requires CanFree(d) && Good(d, st, nums, size, others) && Lags(size, left) && !Starts(j)
    ensures var (d', size') := ShrinkLoop(d, nums, size, left);
      && size' == size - left
      && CanFree(d')
      && FileIs(d', st', nums, size', others + Lost(d', nums, size, left), Content(d, nums, size)[..size'])
      && SameOn(d, d', others)
      && MovedBut(d, d', st, st', nums, size, size', Lost(d', nums, size, left))
  {
    hide *;
    Values();
    var bytes := Content(d, nums, size);
    FileIsFrom(d, st, nums, size, others, bytes);
    NoneDangles(d, st, nums, j, others, bytes);
    st' := LagLoop(d, st, nums, j, left, others, bytes);
    var d' := ShrinkLoop(d, nums, size, left).0;
    LagEnds(d', st', nums, size, left, others, bytes[..size - left]);
    MovedButFrom(d, d', st, st', nums, size, size - left, Lost(d', nums, size, left));
  }

  lemma LagEnds(d: Store, st: seq<Word>, nums: Slots, size: nat, left: nat, others: multiset<Word>, bytes: seq<Byte>)
    requires left <= size <= MAX_FILE_SIZE && Lags(size, left) && Lagging(d, st, nums, size - left, others, bytes)
    ensures CanFree(d) && FileIs(d, st, nums, size - left, others + Lost(d, nums, size, left), bytes)
    ensures BlockCount(size - left) <= MAX_FILE_BLOCKS
    ensures Whole(d, st, nums, BlockCount(size - left))
            == multiset(st) + FileNodes(d, nums, BlockCount(size - left), 0) + Lost(d, nums, size, left)
  {
    hide *;
    Values();
    LaggingIs(d, st, nums, size - left, others, bytes);
    LostIff(d, nums, size, left);
    WholeIs(d, st, nums, BlockCount(size - left));
  }

  // The first round drops the ragged end along its own path.
  lemma RaggedRound(d: Store, st: seq<Word>, nums: Slots, j: nat, size1: nat, size: nat, left: nat,
                    others: multiset<Word>)
    returns (d1: Store, s1: seq<Word>)
    requires size1 < size <= MAX_FILE_SIZE && size - size1 <= left <= size && j <= MAX_FILE_BLOCKS
    requires size1 == j * BLOCK_SIZE && size - size1 == Tail(size) && SizePathSafe(size) && BlockCount(size1) == j
    requires CanFree(d) && Good(d, st, nums, size, others) && !Starts(j)
    ensures ShrinkLoop(d, nums, size, left) == ShrinkLoop(d1, nums, size1, left - (size - size1))
    ensures Lagging(d1, s1, nums, size1, others, Content(d, nums, size)[..size1]) && SameOn(d, d1, others)
    ensures Moved(d, d1, st, s1, nums, size, size1)
    ensures Whole(d1, s1, nums, j) == multiset(s1) + FileNodes(d1, nums, j, 0)
  {
    hide ShrinkLoop, RemoveBlock, LookUp, TakenPath, Valid, Good, Content, FileIs, Lagging, CanFree, Lags, Starts, Meta;
    hide BlockCount, FileNew, Need, Moved, Whole, FileNodes, SameOn, SizePathSafe, Tail;
    ShrinkStepIs(d, nums, size, left);
    s1 := DropBlock(d, st, nums, size, others);
    d1 := RemoveBlock(d, nums, LookUp(d, nums, (size - 1) / BLOCK_SIZE), SizePath(size));
    NoneDangles(d1, s1, nums, j, others, Content(d, nums, size)[..size1]);
  }

  lemma RaggedShrink(d: Store, st: seq<Word>, nums: Slots, j: nat, size1: nat, size: nat, left: nat,
                     others: multiset<Word>)
    returns (st': seq<Word>)
    requires size1 < size <= MAX_FILE_SIZE && size - size1 <= left <= size && j <= MAX_FILE_BLOCKS
    requires size1 == j * BLOCK_SIZE && size - size1 == Tail(size) && SizePathSafe(size) && BlockCount(size1) == j
    requires CanFree(d) && Good(d, st, nums, size, others) && Lags(size, left) && !Starts(j)
    ensures var (d', size') := ShrinkLoop(d, nums, size, left);
      && size' == size - left
      && CanFree(d')
      && FileIs(d', st', nums, size', others + Lost(d', nums, size, left), Content(d, nums, size)[..size'])
      && SameOn(d, d', others)
      && MovedBut(d, d', st, st', nums, size, size', Lost(d', nums, size, left))
  {
    hide *;
    Values();
    var bytes := Content(d, nums, size);
    var d1, s1 := RaggedRound(d, st, nums, j, size1, size, left, others);
    st' := LagLoop(d1, s1, nums, j, left - (size - size1), others, bytes[..size1]);
    var d' := ShrinkLoop(d, nums, size, left).0;
    assert bytes[..size1][..size - left] == bytes[..size - left];
    LagEnds(d', st', nums, size, left, others, bytes[..size - left]);
    SameOnTwice(d, d1, d', others);
    MovedIs(d, d1, st, s1, nums, size, size1);
    MovedButFrom(d, d', st, st', nums, size, size - left, Lost(d', nums, size, left));
  }

  // Blocks went from the file to the free list, but for those in `lost`.
  ghost predicate MovedBut(d: Store, d': Store, st: seq<Word>, st': seq<Word>, nums: Slots, size: nat, size': nat,
                           lost: multiset<Word>) {
    multiset(st') + FileNodes(d', nums, BlockCount(size'), 0) + lost
        == multiset(st) + FileNodes(d, nums, BlockCount(size), 0)
  }

  lemma MovedButFrom(d: Store, d': Store, st: seq<Word>, st': seq<Word>, nums: Slots, size: nat, size': nat,
                     lost: multiset<Word>)
    requires multiset(st') + FileNodes(d', nums, BlockCount(size'), 0) + lost
             == multiset(st) + FileNodes(d, nums, BlockCount(size), 0)
    ensures MovedBut(d, d', st, st', nums, size, size', lost)
  {
    hide FileNodes;
  }

  lemma MovedAll(d: Store, d': Store, st: seq<Word>, st': seq<Word>, nums: Slots, size: nat, size': nat)
    requires Moved(d, d', st, st', nums, size, size')
    ensures MovedBut(d, d', st, st', nums, size, size', multiset{})
  {
    hide FileNodes;
  }

  lemma MovedIs(d: Store, d': Store, st: seq<Word>, st': seq<Word>, nums: Slots, size: nat, size': nat)
    requires Moved(d, d', st, st', nums, size, size')
    ensures multiset(st') + FileNodes(d', nums, BlockCount(size'), 0)
            == multiset(st) + FileNodes(d, nums, BlockCount(size), 0)
  {
    hide FileNodes;
  }

  lemma MovedCount(d: Store, d': Store, st: seq<Word>, st': seq<Word>, nums: Slots, size: nat, size': nat,
                   lost: multiset<Word>)
    requires MovedBut(d, d', st, st', nums, size, size', lost) && BlockCount(size) <= MAX_FILE_BLOCKS
    requires BlockCount(size') <= MAX_FILE_BLOCKS
    ensures |st'| + |lost| == |st| + Need(size', size)
  {
    FileCost(d, nums, BlockCount(size));
    FileCost(d', nums, BlockCount(size'));
    hide FileNodes, Meta, BlockCount;
    assert |multiset(st') + FileNodes(d', nums, BlockCount(size'), 0) + lost|
        == |multiset(st) + FileNodes(d, nums, BlockCount(size), 0)|;
  }

  // So it frees exactly what leaves the file if and only if the new end starts no indirect
  // block, or no block was dropped from an aligned size.
  lemma ShrinkFreesIff(d: Store, st: seq<Word>, nums: Slots, size: nat, left: nat, others: multiset<Word>)
    returns (st': seq<Word>)
    requires left <= size <= MAX_FILE_SIZE && NothingStale(size, left) && CanFree(d) && Good(d, st, nums, size, others)
    ensures var (d', size') := ShrinkLoop(d, nums, size, left);
      && FreeList(d', st')
      && (|st'| == |st| + Need(size', size) <==> NothingLost(size, left))
  {
    hide *;
    Values();
    st' := ShrinkExact(d, st, nums, size, left, others);
    var (d', size') := ShrinkLoop(d, nums, size, left);
    LostIff(d', nums, size, left);
    NothingLostIs(size, left);
    FileIsGood(d', st', nums, size', others + Lost(d', nums, size, left), Content(d, nums, size)[..size']);
    GoodIs(d', st', nums, size', others + Lost(d', nums, size, left));
    SeparateParts(d', st', nums, BlockCount(size'), others + Lost(d', nums, size, left));
    GoodIs(d, st, nums, size, others);
    MovedCount(d, d', st, st', nums, size, size', Lost(d', nums, size, left));
    SizeZero(Lost(d', nums, size, left));
  }

  lemma SizeZero(m: multiset<Word>)
    ensures |m| == 0 <==> m == multiset{}
  {
  }
}
