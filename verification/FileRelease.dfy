/**
  Giving blocks of a file back: freeNeededBlocks of src/incoreInodeOps/iNodeManager.c for one
  block, inodeBlocksFree of src/dsk/free.c for the whole inode.
 */
module FileRelease {
  import opened Params
  import opened Disk
  import opened Bags
  import opened FreeChain
  import opened BlockPath
  import opened BlockTree
  import opened TreeGrowth
  import opened TreeRelease
  import opened FileMap
  import opened FileGrowth

  // ---------- the code, as functions ----------

  // freeNeededBlocks: free block `b`, then the indirect blocks on path `p` that start with it.
  function RemoveBlock(d: Store, nums: Slots, b: Word, p: Path): Store
    requires Valid(p)
  {
    var d1 := Free(d, b);
    if p.level == 0 then d1
    else FreeAll(d1, Collect(d1, nums[DIRECT_BLOCK_LIMIT + p.level], p.offs, ClearBlock()))
  }

  // The direct loop of inodeBlocksFree, after i rounds.
  function FreeDirect(d: Store, nums: Slots, i: nat, left: int): (Store, Slots, int)
    requires i <= DIRECT_BLOCK_LIMIT + 1
  {
    if i == 0 then (d, nums, left)
    else
      var (d1, nums1, left1) := FreeDirect(d, nums, i - 1, left);
      if left1 > 0 then (Free(d1, nums1[i - 1]), nums1[i - 1 := 0], left1 - BLOCK_SIZE)
      else (d1, nums1, left1)
  }

  // Its indirect loop, from the level-l tree on.
  function FreeLevels(d: Store, nums: Slots, l: nat, left: int): (Store, Slots)
    requires 1 <= l
    decreases 4 - l
  {
    if l > 3 || left <= 0 then (d, nums)
    else
      var (d1, left1) := FreeTree(d, nums[DIRECT_BLOCK_LIMIT + l], left, l);
      FreeLevels(d1, nums[DIRECT_BLOCK_LIMIT + l := 0], l + 1, left1)
  }

  function ReleaseFile(d: Store, nums: Slots, size: nat): (Store, Slots) {
    var (d1, nums1, left) := FreeDirect(d, nums, DIRECT_BLOCK_LIMIT + 1, size);
    FreeLevels(d1, nums1, 1, left)
  }

  // ---------- removing the last block ----------

  lemma RemovedParts(d: Store, nums: Slots, k: nat)
    requires k < MAX_FILE_BLOCKS
    ensures FileNodes(d, nums, k + 1, 0)
            == FileNodes(d, nums, k, 0) + multiset(FileSpine(d, nums, k)) + multiset{BlockAt(d, nums, k)}
    ensures FileNodes(d, nums, k + 1, 1) == FileNodes(d, nums, k, 1) + multiset(FileSpine(d, nums, k))
  {
    hide *;
    Values();
    FileStep(d, nums, k, 0);
    FileStep(d, nums, k, 1);
    OwnLeafIs(BlockAt(d, nums, k));
  }

  // The path of the last block leads past the freed block to exactly its spine.
  lemma CollectedSpine(d: Store, d1: Store, nums: Slots, k: nat)
    requires k < MAX_FILE_BLOCKS
    requires InData(FileNodes(d, nums, k + 1, 1)) && SameOn(d, d1, FileNodes(d, nums, k + 1, 1))
    ensures Valid(PathOf(k))
    ensures var p := PathOf(k);
      FileSpine(d, nums, k)
      == if p.level == 0 then []
         else Collect(d1, nums[DIRECT_BLOCK_LIMIT + p.level], p.offs, ClearBlock())
  {
    hide *;
    Values();
    PathIsValid(k);
    PathIs(k);
    BlockAtFrame(d, d1, nums, k + 1, k);
    if Level(k) == 0 {
      PlaceOf(d, nums, k);
    } else {
      FileFrame(d, d1, nums, k + 1, 1);
      TreeSpineCollected(d1, nums, k);
    }
  }

  lemma TreeSpineCollected(d: Store, nums: Slots, k: nat)
    requires k < MAX_FILE_BLOCKS && InData(FileNodes(d, nums, k + 1, 1))
    ensures Valid(PathOf(k))
    ensures var p := PathOf(k);
            p.level > 0 ==>
              Collect(d, nums[DIRECT_BLOCK_LIMIT + p.level], p.offs, ClearBlock()) == FileSpine(d, nums, k)
  {
    hide *;
    Values();
    PathIsValid(k);
    PathIs(k);
    PlaceOf(d, nums, k);
    if Level(k) > 0 {
      var l := Level(k);
      LevelStep(k);
      TreeInData(d, nums, l, k + 1);
      CollectIsSpine(d, nums[DIRECT_BLOCK_LIMIT + l], l, k - Base(l), ClearBlock());
    }
  }

  lemma TreeInData(d: Store, nums: Slots, l: nat, n: nat)
    requires 1 <= l <= 3 && InData(FileNodes(d, nums, n, 1))
    ensures InData(Nodes(d, nums[DIRECT_BLOCK_LIMIT + l], l, TreeSize(l, n), 1))
  {
    hide *;
    Values();
    TreeIs(d, nums, l, n, 1);
    TreeIsPart(d, nums, l, n, 1);
    InDataPart(FileNodes(d, nums, n, 1), Tree(d, nums, l, n, 1));
  }

  lemma PathIs(k: nat)
    requires k <= TRIPLE_INDIRECT_LIMIT
    ensures PathOf(k).level == Level(k)
    ensures Level(k) > 0 ==> Base(Level(k)) <= k && PathOf(k).offs == Digits(Level(k), k - Base(Level(k)))
  {
  }

  lemma InDataPart(whole: multiset<Word>, part: multiset<Word>)
    requires InData(whole) && part <= whole
    ensures InData(part)
  {
  }

  lemma SameOnSelf(d: Store, m: multiset<Word>)
    ensures SameOn(d, d, m)
  {
  }

  lemma SameOnTwice(d: Store, d1: Store, d': Store, kept: multiset<Word>)
    requires SameOn(d, d1, kept) && SameOn(d1, d', kept)
    ensures SameOn(d, d', kept)
  {
  }

  lemma FreeSpine(d: Store, st: seq<Word>, spine: seq<Word>, kept: multiset<Word>) returns (st': seq<Word>)
    requires Releasable(d, st, multiset(spine) + kept)
    ensures Freed(d, FreeAll(d, spine), st, st', multiset(spine))
    ensures Releasable(FreeAll(d, spine), st', kept) && SameOn(d, FreeAll(d, spine), kept)
  {
    ReleasablePart(d, st, multiset(spine), kept);
    hide FreeList, CanFree, FreeAll, Unique, InData, SameOn, Freed;
    st' := FreeEach(d, st, spine);
    ReleasableRest(d, FreeAll(d, spine), st, st', multiset(spine), kept);
  }

  lemma KeptAfter(d: Store, d': Store, st': seq<Word>, nums: Slots, k: nat, others: multiset<Word>)
    requires k <= MAX_FILE_BLOCKS
    requires Releasable(d', st', FileNodes(d, nums, k, 0) + others)
    requires SameOn(d, d', FileNodes(d, nums, k, 0) + others)
    ensures Separate(d', st', nums, k, others)
    ensures SameBlocks(d, d', nums, nums, k)
    ensures FileNodes(d', nums, k, 0) == FileNodes(d, nums, k, 0)
  {
    hide *;
    Values();
    FileNodesSplit(d, nums, k);
    SameOnPart(d, d', FileNodes(d, nums, k, 0) + others, FileNodes(d, nums, k, 1));
    FileFrame(d, d', nums, k, 0);
    SameBlocksFrame(d, d', nums, k);
    ReleasableSeparate(d', st', nums, k, others);
  }

  lemma ReleasableSeparate(d: Store, st: seq<Word>, nums: Slots, k: nat, others: multiset<Word>)
    requires Releasable(d, st, FileNodes(d, nums, k, 0) + others)
    ensures Separate(d, st, nums, k, others)
  {
    hide FileNodes, FreeList;
    assert multiset(st) + (FileNodes(d, nums, k, 0) + others) == multiset(st) + FileNodes(d, nums, k, 0) + others;
  }

  // Removing the last block with its own path gives back exactly that block and its spine,
  // and leaves the rest of the file and every other block as they were.
  lemma RemoveLast(d: Store, st: seq<Word>, nums: Slots, k: nat, others: multiset<Word>) returns (st': seq<Word>)
    requires k < MAX_FILE_BLOCKS && Separate(d, st, nums, k + 1, others) && CanFree(d)
    ensures Valid(PathOf(k))
    ensures var d' := RemoveBlock(d, nums, BlockAt(d, nums, k), PathOf(k));
      && Freed(d, d', st, st', multiset{BlockAt(d, nums, k)} + multiset(FileSpine(d, nums, k)))
      && Separate(d', st', nums, k, others)
      && SameBlocks(d, d', nums, nums, k)
      && FileNodes(d', nums, k, 0) == FileNodes(d, nums, k, 0)
      && SameOn(d, d', FileNodes(d, nums, k, 0) + others)
      && d' == FreeAll(d, [BlockAt(d, nums, k)] + FileSpine(d, nums, k))
  {
    hide *;
    Values();
    var b, spine := BlockAt(d, nums, k), FileSpine(d, nums, k);
    FreeFirst(d, b, spine);
    var kept := FileNodes(d, nums, k, 0) + others;
    RemovedParts(d, nums, k);
    SeparateWhole(d, st, nums, k + 1, others);
    assert FileNodes(d, nums, k + 1, 0) + others == multiset{b} + (multiset(spine) + kept);
    assert multiset(st) + FileNodes(d, nums, k + 1, 0) + others
        == multiset(st) + (multiset{b} + (multiset(spine) + kept));
    ReleasableIs(d, st, multiset{b} + (multiset(spine) + kept));
    ReleasablePart(d, st, multiset{b}, multiset(spine) + kept);
    var s1 := FreeRoot(d, st, b);
    var d1 := Free(d, b);
    ReleasableRest(d, d1, st, s1, multiset{b}, multiset(spine) + kept);
    PathIsValid(k);
    LastSpine(d, st, nums, k, others);
    st' := FreeSpine(d1, s1, spine, kept);
    var d' := FreeAll(d1, spine);
    CollectedIs(d, nums, b, PathOf(k));
    FreedTwice(d, d1, d', st, s1, st', multiset{b}, multiset(spine));
    SameOnPart(d, d1, multiset(spine) + kept, kept);
    SameOnTwice(d, d1, d', kept);
    KeptAfter(d, d', st', nums, k, others);
  }

  lemma InDataOf(d: Store, st: seq<Word>, owned: multiset<Word>)
    requires Releasable(d, st, owned)
    ensures InData(owned)
  {
  }

  lemma ReleasableIs(d: Store, st: seq<Word>, owned: multiset<Word>)
    requires FreeList(d, st) && CanFree(d) && InData(owned) && Unique(multiset(st) + owned)
    ensures Releasable(d, st, owned)
  {
  }

  lemma SpineIntact(d: Store, d1: Store, nums: Slots, k: nat, kept: multiset<Word>)
    requires k < MAX_FILE_BLOCKS
    requires FileNodes(d, nums, k, 0) <= kept
    requires InData(multiset(FileSpine(d, nums, k)) + kept)
    requires SameOn(d, d1, multiset(FileSpine(d, nums, k)) + kept)
    ensures InData(FileNodes(d, nums, k + 1, 1)) && SameOn(d, d1, FileNodes(d, nums, k + 1, 1))
  {
    hide *;
    Values();
    RemovedParts(d, nums, k);
    FileNodesSplit(d, nums, k);
    var whole, part := multiset(FileSpine(d, nums, k)) + kept, FileNodes(d, nums, k + 1, 1);
    InDataPart(whole, part);
    SameOnPart(d, d1, whole, part);
  }

  // ---------- releasing the whole file ----------

  function BlockCount(size: nat): nat {
    (size + 1023) / 1024
  }

  function DirectCount(i: nat, n: nat): (c: nat)
    ensures c <= i
  {
    if i < n then i else n
  }

  lemma DirectUnfold(d: Store, nums: Slots, i: nat, left: int)
    requires 0 < i <= DIRECT_BLOCK_LIMIT + 1
    ensures var (d1, nums1, left1) := FreeDirect(d, nums, i - 1, left);
            FreeDirect(d, nums, i, left)
            == if left1 > 0 then (Free(d1, nums1[i - 1]), nums1[i - 1 := 0], left1 - BLOCK_SIZE)
               else (d1, nums1, left1)
  {
  }

  lemma {:induction false} DirectReleases(d: Store, st: seq<Word>, nums: Slots, i: nat, size: nat)
    returns (st': seq<Word>)
    requires i <= DIRECT_BLOCK_LIMIT + 1
    requires Releasable(d, st, multiset(nums[..DirectCount(i, BlockCount(size))]))
    ensures var (d', nums', left) := FreeDirect(d, nums, i, size);
      && Freed(d, d', st, st', multiset(nums[..DirectCount(i, BlockCount(size))]))
      && left == size - 1024 * DirectCount(i, BlockCount(size))
      && nums'[i..] == nums[i..]
  {
    hide *;
    Values();
    var n := BlockCount(size);
    if i == 0 {
      NoDirect(d, nums, size);
      NothingReleased(d, st);
      st' := st;
    } else {
      var c1, c, b := DirectCount(i - 1, n), DirectCount(i, n), nums[i - 1];
      DirectUnfold(d, nums, i, size);
      DirectNext(i - 1, size);
      var (d1, nums1, left1) := FreeDirect(d, nums, i - 1, size);
      if c1 < c {
        assert nums[..c] == nums[..c1] + [b];
        ReleasablePart(d, st, multiset(nums[..c1]), multiset{b});
        var s1 := DirectReleases(d, st, nums, i - 1, size);
        assert nums1[i - 1] == nums1[i - 1..][0] == b;
        ReleasableRest(d, d1, st, s1, multiset(nums[..c1]), multiset{b});
        st' := FreeRoot(d1, s1, b);
        FreedTwice(d, d1, Free(d1, b), st, s1, st', multiset(nums[..c1]), multiset{b});
      } else {
        st' := DirectReleases(d, st, nums, i - 1, size);
      }
      assert nums[i - 1..][1..] == nums[i..] && nums1[i - 1..][1..] == nums1[i..];
    }
  }

  lemma NoDirect(d: Store, nums: Slots, size: nat)
    ensures DirectCount(0, BlockCount(size)) == 0 && FreeDirect(d, nums, 0, size) == (d, nums, size)
    ensures nums[..0] == []
  {
  }

  lemma DirectNext(i: nat, size: nat)
    ensures var c := DirectCount(i, BlockCount(size));
      if size - 1024 * c > 0 then c == i && DirectCount(i + 1, BlockCount(size)) == i + 1
      else DirectCount(i + 1, BlockCount(size)) == c
  {
  }

  // The trees of level l and above.
  ghost function TreesFrom(d: Store, nums: Slots, l: nat, n: nat): multiset<Word>
    requires 1 <= l
    decreases 4 - l
  {
    if l > 3 then multiset{} else Tree(d, nums, l, n, 0) + TreesFrom(d, nums, l + 1, n)
  }

  lemma {:induction false} TreesFrame(d: Store, d': Store, nums: Slots, nums': Slots, l: nat, n: nat)
    requires 1 <= l <= 4 && nums'[DIRECT_BLOCK_LIMIT + l..] == nums[DIRECT_BLOCK_LIMIT + l..]
    requires SameOn(d, d', TreesFrom(d, nums, l, n))
    ensures TreesFrom(d', nums', l, n) == TreesFrom(d, nums, l, n)
    decreases 4 - l
  {
    if l <= 3 {
      var i := DIRECT_BLOCK_LIMIT + l;
      assert nums'[i] == nums'[i..][0] == nums[i..][0] == nums[i];
      assert nums'[i..][1..] == nums'[i + 1..] && nums[i..][1..] == nums[i + 1..];
      hide Nodes, SameOn, TreeSize;
      var tree, rest := Tree(d, nums, l, n, 0), TreesFrom(d, nums, l + 1, n);
      SameOnPart(d, d', tree + rest, tree);
      SameOnPart(d, d', tree + rest, rest);
      SameNodes(d, d', nums[i], l, TreeSize(l, n));
      TreesFrame(d, d', nums, nums', l + 1, n);
    }
  }

  // What is left of the size when the release reaches the level-l tree.
  predicate LeftAt(l: nat, size: nat, left: int) {
    if BlockCount(size) > Base(l) then left == size - 1024 * Base(l) else left <= 0
  }

  lemma LeftNext(l: nat, size: nat, left: int)
    requires 1 <= l <= 3 && LeftAt(l, size, left)
    ensures left > 0 ==> TreeSize(l, BlockCount(size)) == LeavesFor(l, left)
    ensures left <= 0 ==> TreeSize(l, BlockCount(size)) == 0
    ensures l < 3 && left > 0 ==> LeftAt(l + 1, size, left - 1024 * LeavesFor(l, left))
    ensures l < 3 && left <= 0 ==> LeftAt(l + 1, size, left)
  {
  }

  lemma {:induction false} NoTrees(d: Store, nums: Slots, l: nat, size: nat, left: int)
    requires 1 <= l && left <= 0 && (l <= 3 ==> LeftAt(l, size, left))
    ensures TreesFrom(d, nums, l, BlockCount(size)) == multiset{}
    decreases 4 - l
  {
    if l <= 3 {
      LeftNext(l, size, left);
      NodesNone(d, nums[DIRECT_BLOCK_LIMIT + l], l, 0, 0);
      hide Nodes, LeftAt, TreeSize, Base, BlockCount;
      NoTrees(d, nums, l + 1, size, left);
    }
  }

  lemma LevelsUnfold(d: Store, nums: Slots, l: nat, left: int)
    requires 1 <= l
    ensures l > 3 || left <= 0 ==> FreeLevels(d, nums, l, left) == (d, nums)
    ensures l <= 3 && left > 0 ==>
              var (d1, left1) := FreeTree(d, nums[DIRECT_BLOCK_LIMIT + l], left, l);
              FreeLevels(d, nums, l, left) == FreeLevels(d1, nums[DIRECT_BLOCK_LIMIT + l := 0], l + 1, left1)
  {
  }

  lemma TreesUnfold(d: Store, nums: Slots, l: nat, n: nat)
    requires 1 <= l
    ensures l > 3 ==> TreesFrom(d, nums, l, n) == multiset{}
    ensures l <= 3 ==> TreesFrom(d, nums, l, n)
                       == Nodes(d, nums[DIRECT_BLOCK_LIMIT + l], l, TreeSize(l, n), 0) + TreesFrom(d, nums, l + 1, n)
  {
  }

  lemma {:induction false} LevelsRelease(d: Store, st: seq<Word>, nums: Slots, l: nat, size: nat, left: int)
    returns (st': seq<Word>)
    requires 1 <= l && (l <= 3 ==> LeftAt(l, size, left))
    requires Releasable(d, st, TreesFrom(d, nums, l, BlockCount(size)))
    ensures Freed(d, FreeLevels(d, nums, l, left).0, st, st', TreesFrom(d, nums, l, BlockCount(size)))
    decreases 4 - l
  {
    hide *;
    Values();
    var n := BlockCount(size);
    LevelsUnfold(d, nums, l, left);
    TreesUnfold(d, nums, l, n);
    if l > 3 || left <= 0 {
      if l <= 3 {
        NoTrees(d, nums, l, size, left);
      }
      NothingReleased(d, st);
      st' := st;
    } else {
      LeftNext(l, size, left);
      var root, i := nums[DIRECT_BLOCK_LIMIT + l], DIRECT_BLOCK_LIMIT + l;
      LeavesFit(l, left);
      var tree, rest := Nodes(d, root, l, LeavesFor(l, left), 0), TreesFrom(d, nums, l + 1, n);
      ReleasablePart(d, st, tree, rest);
      var s1 := FreeTreeReleases(d, st, root, left, l);
      var (d1, left1) := FreeTree(d, root, left, l);
      ReleasableRest(d, d1, st, s1, tree, rest);
      assert nums[i := 0][i + 1..] == nums[i + 1..];
      TreesFrame(d, d1, nums, nums[i := 0], l + 1, n);
      st' := LevelsRelease(d1, s1, nums[i := 0], l + 1, size, left1);
      FreedTwice(d, d1, FreeLevels(d1, nums[i := 0], l + 1, left1).0, st, s1, st', tree, rest);
    }
  }

  lemma FileIsParts(d: Store, nums: Slots, n: nat)
    ensures FileNodes(d, nums, n, 0)
            == multiset(nums[..DirectCount(DIRECT_BLOCK_LIMIT + 1, n)]) + TreesFrom(d, nums, 1, n)
  {
    hide Tree;
    assert TreesFrom(d, nums, 1, n) == Tree(d, nums, 1, n, 0) + TreesFrom(d, nums, 2, n);
    assert TreesFrom(d, nums, 2, n) == Tree(d, nums, 2, n, 0) + TreesFrom(d, nums, 3, n);
    assert TreesFrom(d, nums, 3, n) == Tree(d, nums, 3, n, 0) + TreesFrom(d, nums, 4, n);
  }

  lemma DirectLeaves(size: nat)
    ensures LeftAt(1, size, size - 1024 * DirectCount(DIRECT_BLOCK_LIMIT + 1, BlockCount(size)))
  {
  }

  // inodeBlocksFree puts exactly the file's data blocks and indirect blocks back, each once.
  lemma ReleaseFrees(d: Store, st: seq<Word>, nums: Slots, size: nat) returns (st': seq<Word>)
    requires Releasable(d, st, FileNodes(d, nums, BlockCount(size), 0))
    ensures Freed(d, ReleaseFile(d, nums, size).0, st, st', FileNodes(d, nums, BlockCount(size), 0))
  {
    hide *;
    Values();
    var n := BlockCount(size);
    var c := DirectCount(DIRECT_BLOCK_LIMIT + 1, n);
    FileIsParts(d, nums, n);
    var direct, trees := multiset(nums[..c]), TreesFrom(d, nums, 1, n);
    ReleasablePart(d, st, direct, trees);
    var s1 := DirectReleases(d, st, nums, DIRECT_BLOCK_LIMIT + 1, size);
    var (d1, nums1, left) := FreeDirect(d, nums, DIRECT_BLOCK_LIMIT + 1, size);
    ReleasableRest(d, d1, st, s1, direct, trees);
    DirectLeaves(size);
    TreesFrame(d, d1, nums, nums1, 1, n);
    st' := LevelsRelease(d1, s1, nums1, 1, size, left);
    FreedTwice(d, d1, FreeLevels(d1, nums1, 1, left).0, st, s1, st', direct, trees);
    ReleaseIs(d, nums, size);
  }

  // ---------- the slots afterwards ----------

  lemma {:induction false} DirectClears(d: Store, nums: Slots, i: nat, size: nat, j: nat)
    requires i <= DIRECT_BLOCK_LIMIT + 1 && j < BLOCKS_IN_INODE
    ensures var (d', nums', left) := FreeDirect(d, nums, i, size);
      && left == size - 1024 * DirectCount(i, BlockCount(size))
      && nums'[j] == if j < DirectCount(i, BlockCount(size)) then 0 else nums[j]
  {
    hide *;
    Values();
    if i == 0 {
      NoDirect(d, nums, size);
    } else {
      DirectUnfold(d, nums, i, size);
      DirectNext(i - 1, size);
      DirectClears(d, nums, i - 1, size, j);
      var (d1, nums1, left1) := FreeDirect(d, nums, i - 1, size);
      assert nums1[i - 1 := 0][j] == if j == i - 1 then 0 else nums1[j];
    }
  }

  lemma {:induction false} LevelsClear(d: Store, nums: Slots, l: nat, size: nat, left: int, j: nat)
    requires 1 <= l <= 4 && (l <= 3 ==> LeftAt(l, size, left)) && j < BLOCKS_IN_INODE
    ensures FreeLevels(d, nums, l, left).1[j]
            == if DIRECT_BLOCK_LIMIT + l <= j && SlotUsed(j, BlockCount(size)) then 0 else nums[j]
    decreases 4 - l
  {
    hide *;
    Values();
    LevelsUnfold(d, nums, l, left);
    if l <= 3 {
      LeftNext(l, size, left);
      LeftUsed(l, size, left);
      if left > 0 {
        TreeLeft(d, nums[DIRECT_BLOCK_LIMIT + l], left, l);
        var (d1, left1) := FreeTree(d, nums[DIRECT_BLOCK_LIMIT + l], left, l);
        LevelsClear(d1, nums[DIRECT_BLOCK_LIMIT + l := 0], l + 1, size, left1, j);
      }
    }
  }

  // A file of n blocks uses slot j.
  predicate SlotUsed(j: nat, n: nat) {
    if j < 10 then j < n else if j == 10 then n > 10 else if j == 11 then n > 138 else n > 16522
  }

  lemma LeftUsed(l: nat, size: nat, left: int)
    requires 1 <= l <= 3 && LeftAt(l, size, left)
    ensures left > 0 <==> SlotUsed(9 + l, BlockCount(size))
    ensures left <= 0 ==> forall j :: 9 + l <= j < 13 ==> !SlotUsed(j, BlockCount(size))
  {
  }

  // inodeBlocksFree clears exactly the slots that the file used.
  lemma ReleaseClears(d: Store, nums: Slots, size: nat, j: nat)
    requires j < 13
    ensures ReleaseFile(d, nums, size).1[j]
            == if (if j < 10 then j < BlockCount(size)
                   else if j == 10 then BlockCount(size) > 10
                   else if j == 11 then BlockCount(size) > 138
                   else BlockCount(size) > 16522) then 0 else nums[j]
  {
    DirectClears(d, nums, 10, size, j);
    DirectLeaves(size);
    ReleaseIs(d, nums, size);
    var (d1, nums1, left) := FreeDirect(d, nums, DIRECT_BLOCK_LIMIT + 1, size);
    hide FreeDirect, FreeLevels, ReleaseFile, LeftAt, BlockCount;
    LevelsClear(d1, nums1, 1, size, left, j);
  }

  lemma ReleaseIs(d: Store, nums: Slots, size: nat)
    ensures var (d1, nums1, left) := FreeDirect(d, nums, DIRECT_BLOCK_LIMIT + 1, size);
            ReleaseFile(d, nums, size) == FreeLevels(d1, nums1, 1, left)
  {
    hide FreeDirect, FreeLevels;
  }

  // ---------- the path freeDataBlockInINode takes ----------

  // The indirect blocks that freeNeededBlocks frees for path `p`, once block `b` is freed.
  function Collected(d: Store, nums: Slots, b: Word, p: Path): seq<Word>
    requires Valid(p)
  {
    if p.level == 0 then []
    else Collect(Free(d, b), nums[DIRECT_BLOCK_LIMIT + p.level], p.offs, ClearBlock())
  }

  lemma CollectedCount(d: Store, nums: Slots, b: Word, k: nat)
    requires k <= TRIPLE_INDIRECT_LIMIT
    ensures Valid(PathOf(k)) && |Collected(d, nums, b, PathOf(k))| == FileNew(k)
  {
    PathIsValid(k);
    if Level(k) > 0 {
      var l := Level(k);
      hide Free, Collect, NewNodes, Digits;
      CollectLength(Free(d, b), nums[DIRECT_BLOCK_LIMIT + l], l, k - Base(l), ClearBlock());
    }
  }

  lemma FileNewZero(k: nat)
    requires k <= TRIPLE_INDIRECT_LIMIT
    ensures FileNew(k) == 0 <==> k < 10 || (k - 10) % 128 != 0
  {
    if Level(k) > 0 {
      NewNodesAre(Level(k), k - Base(Level(k)));
      hide NewNodes;
    }
  }

  // The path is taken from the size, not from the last block. It has the right effect when
  // the size is not block-aligned, when neither path starts an indirect block, or when the file
  // is as large as can be.
  predicate SizePathSafe(size: nat) {
    var n := BlockCount(size);
    size % BLOCK_SIZE != 0 || n < 10 || (n - 10) % 128 >= 2 || n == MAX_FILE_BLOCKS
  }

  // freeDataBlockInINode frees exactly the blocks that leave the file if and only if the size
  // is path-safe.
  lemma SizePathExact(d: Store, st: seq<Word>, nums: Slots, size: nat, others: multiset<Word>)
    requires 0 < size <= MAX_FILE_SIZE
    requires Separate(d, st, nums, BlockCount(size), others) && CanFree(d)
    ensures Valid(SizePath(size)) && 0 < BlockCount(size) <= MAX_FILE_BLOCKS
    ensures var b := BlockAt(d, nums, BlockCount(size) - 1);
            Collected(d, nums, b, SizePath(size)) == FileSpine(d, nums, BlockCount(size) - 1)
            <==> SizePathSafe(size)
  {
    hide *;
    Values();
    SizeFacts(size);
    var k, j := BlockCount(size) - 1, size / BLOCK_SIZE;
    var b := BlockAt(d, nums, k);
    SizePathIs(size);
    CollectedCount(d, nums, b, k);
    FileSpineLength(d, nums, k);
    LastSpine(d, st, nums, k, others);
    FileNewZero(k);
    if j <= TRIPLE_INDIRECT_LIMIT {
      CollectedCount(d, nums, b, j);
      FileNewZero(j);
    } else {
      TakenPastEnd(d, nums, b, j);
    }
  }

  lemma TakenPastEnd(d: Store, nums: Slots, b: Word, j: nat)
    requires j > TRIPLE_INDIRECT_LIMIT && Valid(TakenPath(j))
    ensures Collected(d, nums, b, TakenPath(j)) == []
  {
  }

  lemma FreeFirst(d: Store, b: Word, bs: seq<Word>)
    ensures FreeAll(d, [b] + bs) == FreeAll(Free(d, b), bs)
  {
    hide Free;
    assert ([b] + bs)[1..] == bs;
  }

  lemma SizeFacts(size: nat)
    requires 0 < size <= MAX_FILE_SIZE
    ensures var n := BlockCount(size);
      && 0 < n <= MAX_FILE_BLOCKS && size / BLOCK_SIZE <= MAX_FILE_BLOCKS
      && (size / BLOCK_SIZE == MAX_FILE_BLOCKS ==>
            size % BLOCK_SIZE == 0 && n == MAX_FILE_BLOCKS && (n - 11) % 128 != 0)
      && (size % BLOCK_SIZE != 0 ==> size / BLOCK_SIZE == n - 1)
      && (size % BLOCK_SIZE == 0 ==> size / BLOCK_SIZE == n)
      && (SizePathSafe(size) <==> size % BLOCK_SIZE != 0 || n < 10 || (n - 10) % 128 >= 2 || n == MAX_FILE_BLOCKS)
  {
  }

  // With the last block's own path the collected blocks are its spine.
  lemma LastSpine(d: Store, st: seq<Word>, nums: Slots, k: nat, others: multiset<Word>)
    requires k < MAX_FILE_BLOCKS && Separate(d, st, nums, k + 1, others) && CanFree(d)
    ensures Valid(PathOf(k))
    ensures Collected(d, nums, BlockAt(d, nums, k), PathOf(k)) == FileSpine(d, nums, k)
  {
    hide *;
    Values();
    var b, spine := BlockAt(d, nums, k), FileSpine(d, nums, k);
    var kept := FileNodes(d, nums, k, 0) + others;
    RemovedParts(d, nums, k);
    SeparateWhole(d, st, nums, k + 1, others);
    assert FileNodes(d, nums, k + 1, 0) + others == multiset{b} + (multiset(spine) + kept);
    assert multiset(st) + FileNodes(d, nums, k + 1, 0) + others
        == multiset(st) + (multiset{b} + (multiset(spine) + kept));
    ReleasableIs(d, st, multiset{b} + (multiset(spine) + kept));
    ReleasablePart(d, st, multiset{b}, multiset(spine) + kept);
    var s1 := FreeRoot(d, st, b);
    var d1 := Free(d, b);
    ReleasableRest(d, d1, st, s1, multiset{b}, multiset(spine) + kept);
    InDataOf(d1, s1, multiset(spine) + kept);
    SpineIntact(d, d1, nums, k, kept);
    CollectedSpine(d, d1, nums, k);
    CollectedIs(d, nums, b, PathOf(k));
  }

  lemma CollectedIs(d: Store, nums: Slots, b: Word, p: Path)
    requires Valid(p)
    ensures Collected(d, nums, b, p)
            == if p.level == 0 then []
               else Collect(Free(d, b), nums[DIRECT_BLOCK_LIMIT + p.level], p.offs, ClearBlock())
    ensures RemoveBlock(d, nums, b, p) == FreeAll(Free(d, b), Collected(d, nums, b, p))
  {
    hide Free, Collect;
  }

  // On a path-safe size, dropping the last block moves exactly its blocks to the free list.
  lemma ShrinkMoves(d: Store, st: seq<Word>, nums: Slots, size: nat, others: multiset<Word>) returns (st': seq<Word>)
    requires 0 < size <= MAX_FILE_SIZE && SizePathSafe(size)
    requires Separate(d, st, nums, BlockCount(size), others) && CanFree(d)
    ensures Valid(SizePath(size)) && 0 < BlockCount(size) <= MAX_FILE_BLOCKS
    ensures var k := BlockCount(size) - 1;
      var d' := RemoveBlock(d, nums, BlockAt(d, nums, k), SizePath(size));
      && CanFree(d')
      && Separate(d', st', nums, k, others)
      && SameBlocks(d, d', nums, nums, k)
      && multiset(st') + FileNodes(d', nums, k, 0) == multiset(st) + FileNodes(d, nums, k + 1, 0)
      && SameOn(d, d', FileNodes(d, nums, k, 0) + others)
  {
    hide *;
    Values();
    SizeFacts(size);
    SizePathIs(size);
    var k := BlockCount(size) - 1;
    var b, spine := BlockAt(d, nums, k), FileSpine(d, nums, k);
    SizePathExact(d, st, nums, size, others);
    LastSpine(d, st, nums, k, others);
    CollectedIs(d, nums, b, PathOf(k));
    CollectedIs(d, nums, b, SizePath(size));
    st' := RemoveLast(d, st, nums, k, others);
    var d' := RemoveBlock(d, nums, b, PathOf(k));
    FreedIs(d, d', st, st', multiset{b} + multiset(spine));
    RemovedParts(d, nums, k);
  }

  // Appending a block and removing it again puts every block that was taken back on the free
  // list and leaves the file as it was.
  lemma InsertThenRemove(d: Store, b: Word, taken: seq<Word>, rest: seq<Word>, nums: Slots, n: nat,
                         others: multiset<Word>)
    returns (st': seq<Word>)
    requires n < MAX_FILE_BLOCKS && |taken| == FileNew(n) && Separate(d, [b] + taken + rest, nums, n, others)
    requires CanFree(AppendBlock(d, nums, n).0)
    ensures Valid(PathOf(n))
    ensures var (d1, nums1, b1) := AppendBlock(d, nums, n);
      var d2 := RemoveBlock(d1, nums1, b1, PathOf(n));
      && b1 == b
      && Separate(d2, st', nums1, n, others)
      && multiset(st') == multiset([b] + taken + rest)
      && SameBlocks(d, d2, nums, nums1, n)
      && FileNodes(d2, nums1, n, 0) == FileNodes(d, nums, n, 0)
  {
    hide *;
    Values();
    AppendGrows(d, b, taken, rest, nums, n, others);
    var (d1, nums1, b1) := AppendBlock(d, nums, n);
    FileGrownParts(d, d1, nums, nums1, n, b, taken);
    GrownOwns(d, d1, nums, nums1, n, b, taken);
    st' := RemoveLast(d1, rest, nums1, n, others);
    var d2 := RemoveBlock(d1, nums1, b, PathOf(n));
    FreedIs(d1, d2, rest, st', multiset{b} + multiset(taken));
    assert multiset([b] + taken + rest) == multiset(rest) + (multiset{b} + multiset(taken));
    SameBlocksTwice(d, d1, d2, nums, nums1, n);
  }

  lemma FileGrownParts(d: Store, d': Store, nums: Slots, nums': Slots, n: nat, b: Word, taken: seq<Word>)
    requires n < MAX_FILE_BLOCKS && FileGrown(d, d', nums, nums', n, b, taken)
    ensures BlockAt(d', nums', n) == b && FileSpine(d', nums', n) == taken && SameBlocks(d, d', nums, nums', n)
  {
    hide BlockAt, FileNodes, FileSpine, SameBlocks;
  }

  lemma SameBlocksTwice(d: Store, d1: Store, d2: Store, nums: Slots, nums1: Slots, n: nat)
    requires n <= MAX_FILE_BLOCKS && SameBlocks(d, d1, nums, nums1, n) && SameBlocks(d1, d2, nums1, nums1, n)
    ensures SameBlocks(d, d2, nums, nums1, n)
  {
    hide BlockAt;
  }

  lemma FreedIs(d: Store, d': Store, st: seq<Word>, st': seq<Word>, freed: multiset<Word>)
    requires Freed(d, d', st, st', freed)
    ensures FreeList(d', st') && CanFree(d') && multiset(st') == multiset(st) + freed && OnlyTouches(d, d', freed)
  {
  }
}
