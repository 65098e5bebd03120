/**
  The block map of one inode: ten direct slots and three trees. Which blocks a file of n
  blocks owns, and which block holds each index.
 */
module FileMap {
  import opened Params
  import opened Disk
  import opened BlockPath
  import opened BlockTree

  // dataBlockNums of an inode.
  type Slots = s: seq<Word> | |s| == BLOCKS_IN_INODE witness seq(BLOCKS_IN_INODE, _ => 0)

  // Leaves of the level-l tree of a file of n blocks.
  function TreeSize(l: nat, n: nat): (m: nat)
    ensures m <= Cap(l)
  {
    if n <= Base(l) then 0 else if n - Base(l) <= Cap(l) then n - Base(l) else Cap(l)
  }

  ghost function Direct(nums: Slots, n: nat, low: nat): multiset<Word> {
    if low > 0 then multiset{}
    else if n <= DIRECT_BLOCK_LIMIT then multiset(nums[..n])
    else multiset(nums[..DIRECT_BLOCK_LIMIT + 1])
  }

  ghost function Tree(d: Store, nums: Slots, l: nat, n: nat, low: nat): multiset<Word>
    requires 1 <= l <= 3
  {
    Nodes(d, nums[DIRECT_BLOCK_LIMIT + l], l, TreeSize(l, n), low)
  }

  // The blocks of height at least `low` that a file of n blocks owns.
  ghost function FileNodes(d: Store, nums: Slots, n: nat, low: nat): multiset<Word> {
    Direct(nums, n, low) + Tree(d, nums, 1, n, low) + Tree(d, nums, 2, n, low) + Tree(d, nums, 3, n, low)
  }

  // All of FileNodes but the level-l tree.
  ghost function Others(d: Store, nums: Slots, l: nat, n: nat, low: nat): multiset<Word>
    requires 1 <= l <= 3
  {
    Direct(nums, n, low) + Tree(d, nums, if l == 1 then 2 else 1, n, low)
        + Tree(d, nums, if l == 3 then 2 else 3, n, low)
  }

  // The block that holds index k of the file.
  function BlockAt(d: Store, nums: Slots, k: nat): Word
    requires k <= TRIPLE_INDIRECT_LIMIT
  {
    PathIsValid(k);
    var p := PathOf(k);
    if p.level == 0 then nums[k] else Walk(d, nums[DIRECT_BLOCK_LIMIT + p.level], p.offs)
  }

  // The indirect blocks that index k is the first to need.
  function FileSpine(d: Store, nums: Slots, k: nat): seq<Word>
    requires k <= TRIPLE_INDIRECT_LIMIT
  {
    PathIsValid(k);
    var p := PathOf(k);
    if p.level == 0 then [] else Spine(d, nums[DIRECT_BLOCK_LIMIT + p.level], p.offs)
  }

  function FileNew(k: nat): nat {
    if Level(k) == 0 then 0 else NewNodes(Level(k), k - Base(Level(k)))
  }

  // The data blocks of a file of n blocks, in order.
  function FileBlocks(d: Store, nums: Slots, n: nat): (r: seq<Word>)
    requires n <= MAX_FILE_BLOCKS
    ensures |r| == n
  {
    if n == 0 then [] else FileBlocks(d, nums, n - 1) + [BlockAt(d, nums, n - 1)]
  }

  lemma FileParts(d: Store, nums: Slots, l: nat, n: nat, low: nat)
    requires 1 <= l <= 3
    ensures FileNodes(d, nums, n, low) == Others(d, nums, l, n, low) + Tree(d, nums, l, n, low)
  {
    hide Direct, Tree;
  }

  lemma TreeFrame(d: Store, d': Store, nums: Slots, l: nat, n: nat, low: nat)
    requires 1 <= l <= 3 && SameOn(d, d', Tree(d, nums, l, n, 1))
    ensures Tree(d', nums, l, n, low) == Tree(d, nums, l, n, low)
  {
    NodesFrame(d, d', nums[DIRECT_BLOCK_LIMIT + l], l, TreeSize(l, n), low);
  }

  lemma FileFrame(d: Store, d': Store, nums: Slots, n: nat, low: nat)
    requires SameOn(d, d', FileNodes(d, nums, n, 1))
    ensures FileNodes(d', nums, n, low) == FileNodes(d, nums, n, low)
  {
    hide Direct, Tree, SameOn;
    SameOnPart(d, d', FileNodes(d, nums, n, 1), Tree(d, nums, 1, n, 1));
    SameOnPart(d, d', FileNodes(d, nums, n, 1), Tree(d, nums, 2, n, 1));
    SameOnPart(d, d', FileNodes(d, nums, n, 1), Tree(d, nums, 3, n, 1));
    TreeFrame(d, d', nums, 1, n, low);
    TreeFrame(d, d', nums, 2, n, low);
    TreeFrame(d, d', nums, 3, n, low);
  }

  lemma LevelSize(k: nat, n: nat)
    requires k < n <= MAX_FILE_BLOCKS
    ensures Level(k) > 0 ==> k - Base(Level(k)) < TreeSize(Level(k), n) && k - Base(Level(k)) < Cap(Level(k))
  {
  }

  lemma PlaceOf(d: Store, nums: Slots, k: nat)
    requires k <= TRIPLE_INDIRECT_LIMIT
    ensures Level(k) == 0 ==> k <= DIRECT_BLOCK_LIMIT && BlockAt(d, nums, k) == nums[k] && FileSpine(d, nums, k) == []
    ensures Level(k) > 0 ==>
              var l := Level(k);
              && l <= 3 && k > DIRECT_BLOCK_LIMIT && Base(l) <= k && k - Base(l) < Cap(l)
              && Offsets(Digits(l, k - Base(l)))
              && BlockAt(d, nums, k) == Walk(d, nums[DIRECT_BLOCK_LIMIT + l], Digits(l, k - Base(l)))
              && FileSpine(d, nums, k) == Spine(d, nums[DIRECT_BLOCK_LIMIT + l], Digits(l, k - Base(l)))
  {
    PathIsValid(k);
    hide Walk, Spine, Digits;
  }

  lemma TreeIsPart(d: Store, nums: Slots, l: nat, n: nat, low: nat)
    requires 1 <= l <= 3
    ensures Tree(d, nums, l, n, low) <= FileNodes(d, nums, n, low)
  {
    hide Tree, Direct;
  }

  lemma BlockAtFrame(d: Store, d': Store, nums: Slots, n: nat, k: nat)
    requires k < n <= MAX_FILE_BLOCKS && SameOn(d, d', FileNodes(d, nums, n, 1))
    ensures BlockAt(d', nums, k) == BlockAt(d, nums, k)
    ensures FileSpine(d', nums, k) == FileSpine(d, nums, k)
  {
    hide *;
    Values();
    LevelSize(k, n);
    PlaceOf(d, nums, k);
    PlaceOf(d', nums, k);
    if Level(k) != 0 {
      var l := Level(k);
      TreeIsPart(d, nums, l, n, 1);
      SameOnPart(d, d', FileNodes(d, nums, n, 1), Tree(d, nums, l, n, 1));
      TreeIs(d, nums, l, n, 1);
      WalkFrame(d, d', nums[DIRECT_BLOCK_LIMIT + l], l, TreeSize(l, n), k - Base(l));
    }
  }

  lemma TreeIs(d: Store, nums: Slots, l: nat, n: nat, low: nat)
    requires 1 <= l <= 3
    ensures Tree(d, nums, l, n, low) == Nodes(d, nums[DIRECT_BLOCK_LIMIT + l], l, TreeSize(l, n), low)
  {
  }

  // ---------- one block more ----------

  lemma StepSizes(n: nat)
    requires n < MAX_FILE_BLOCKS
    ensures forall l :: 1 <= l <= 3 ==> TreeSize(l, n + 1) == TreeSize(l, n) + if l == Level(n) then 1 else 0
    ensures Level(n) > 0 ==> TreeSize(Level(n), n) == n - Base(Level(n)) < Cap(Level(n))
  {
  }

  lemma LevelStep(n: nat)
    requires n < MAX_FILE_BLOCKS && Level(n) > 0
    ensures 1 <= Level(n) <= 3 && Base(Level(n)) <= n && n - Base(Level(n)) < Cap(Level(n))
    ensures TreeSize(Level(n), n) == n - Base(Level(n))
    ensures TreeSize(Level(n), n + 1) == n - Base(Level(n)) + 1
  {
  }

  lemma FileStep(d: Store, nums: Slots, n: nat, low: nat)
    requires n < MAX_FILE_BLOCKS && low <= 1
    ensures FileNodes(d, nums, n + 1, low)
            == FileNodes(d, nums, n, low) + multiset(FileSpine(d, nums, n)) + OwnLeaf(low, BlockAt(d, nums, n))
  {
    hide *;
    Values();
    PlaceOf(d, nums, n);
    if Level(n) == 0 {
      DirectFileStep(d, nums, n, low);
    } else {
      var l := Level(n);
      TreeStep(d, nums, n, low);
      OthersStep(d, nums, n, low);
      FileParts(d, nums, l, n, low);
      FileParts(d, nums, l, n + 1, low);
    }
  }

  lemma TreeStep(d: Store, nums: Slots, n: nat, low: nat)
    requires n < MAX_FILE_BLOCKS && low <= 1 && Level(n) > 0
    ensures 1 <= Level(n) <= 3
    ensures Tree(d, nums, Level(n), n + 1, low)
            == Tree(d, nums, Level(n), n, low) + multiset(FileSpine(d, nums, n)) + OwnLeaf(low, BlockAt(d, nums, n))
  {
    hide *;
    Values();
    PlaceOf(d, nums, n);
    var l := Level(n);
    TreeIs(d, nums, l, n, low);
    TreeIs(d, nums, l, n + 1, low);
    LevelStep(n);
    NodesStep(d, nums[DIRECT_BLOCK_LIMIT + l], l, TreeSize(l, n), low);
  }

  lemma DirectFileStep(d: Store, nums: Slots, n: nat, low: nat)
    requires n <= DIRECT_BLOCK_LIMIT && low <= 1
    ensures FileNodes(d, nums, n + 1, low) == FileNodes(d, nums, n, low) + OwnLeaf(low, nums[n])
  {
    StepSizes(n);
    DirectStep(nums, n, low);
    hide Direct, Nodes, TreeSize, Base;
  }

  lemma DirectStep(nums: Slots, n: nat, low: nat)
    requires n <= DIRECT_BLOCK_LIMIT && low <= 1
    ensures Direct(nums, n + 1, low) == Direct(nums, n, low) + OwnLeaf(low, nums[n])
  {
    assert nums[..n + 1] == nums[..n] + [nums[n]];
  }

  lemma DirectFull(nums: Slots, n: nat, low: nat)
    requires n > DIRECT_BLOCK_LIMIT
    ensures Direct(nums, n + 1, low) == Direct(nums, n, low)
  {
  }

  lemma OthersStep(d: Store, nums: Slots, n: nat, low: nat)
    requires DIRECT_BLOCK_LIMIT < n < MAX_FILE_BLOCKS
    ensures Level(n) in {1, 2, 3}
    ensures Others(d, nums, Level(n), n + 1, low) == Others(d, nums, Level(n), n, low)
  {
    StepSizes(n);
    DirectFull(nums, n, low);
    hide Direct, Nodes, TreeSize, Base;
  }

  // A file is its indirect blocks and its data blocks.
  lemma {:induction false} FileSplit(d: Store, nums: Slots, n: nat)
    requires n <= MAX_FILE_BLOCKS
    ensures FileNodes(d, nums, n, 0) == FileNodes(d, nums, n, 1) + multiset(FileBlocks(d, nums, n))
  {
    hide *;
    Values();
    if n == 0 {
      NoFile(d, nums, 0);
      NoFile(d, nums, 1);
    } else {
      OwnLeafIs(BlockAt(d, nums, n - 1));
      FileBlocksStep(d, nums, n);
      FileSplit(d, nums, n - 1);
      FileStep(d, nums, n - 1, 0);
      FileStep(d, nums, n - 1, 1);
    }
  }

  lemma FileBlocksStep(d: Store, nums: Slots, n: nat)
    requires 0 < n <= MAX_FILE_BLOCKS
    ensures FileBlocks(d, nums, n) == FileBlocks(d, nums, n - 1) + [BlockAt(d, nums, n - 1)]
  {
  }

  lemma OwnLeafIs(leaf: Word)
    ensures OwnLeaf(0, leaf) == multiset{leaf} && OwnLeaf(1, leaf) == multiset{}
  {
  }

  lemma NoFile(d: Store, nums: Slots, low: nat)
    ensures FileNodes(d, nums, 0, low) == multiset{} && FileBlocks(d, nums, 0) == [] && Meta(0) == 0
  {
    NodesNone(d, nums[10], 1, 0, low);
    NodesNone(d, nums[11], 2, 0, low);
    NodesNone(d, nums[12], 3, 0, low);
    hide Nodes;
    assert nums[..0] == [];
  }

  // ---------- exact space cost ----------

  // Indirect blocks of a file of n blocks, in closed form.
  function Meta(n: nat): nat {
    if n <= 10 then 0
    else if n <= 138 then 1
    else if n <= 16522 then 2 + Ceil(n - 138, 128)
    else 131 + Ceil(n - 16522, 16384) + Ceil(n - 16522, 128)
  }

  lemma FileNewStep(n: nat)
    requires n < MAX_FILE_BLOCKS
    ensures Meta(n + 1) == Meta(n) + FileNew(n)
  {
    var l := Level(n);
    if l > 0 {
      MetaStep(l, n - Base(l));
      hide NewNodes;
    }
  }

  lemma FileSpineLength(d: Store, nums: Slots, n: nat)
    requires n < MAX_FILE_BLOCKS
    ensures |FileSpine(d, nums, n)| == FileNew(n)
  {
    StepSizes(n);
    PathIsValid(n);
    if Level(n) > 0 {
      hide NewNodes, Spine, Digits, Cap, TreeSize;
      SpineLength(d, nums[DIRECT_BLOCK_LIMIT + Level(n)], Level(n), n - Base(Level(n)));
    }
  }

  // A file of n blocks owns exactly n + Meta(n) blocks.
  lemma {:induction false} FileCost(d: Store, nums: Slots, n: nat)
    requires n <= MAX_FILE_BLOCKS
    ensures |FileNodes(d, nums, n, 1)| == Meta(n)
    ensures |FileNodes(d, nums, n, 0)| == n + Meta(n)
  {
    hide *;
    Values();
    if n == 0 {
      NoFile(d, nums, 0);
      NoFile(d, nums, 1);
    } else {
      OwnLeafIs(BlockAt(d, nums, n - 1));
      FileCost(d, nums, n - 1);
      FileStep(d, nums, n - 1, 0);
      FileStep(d, nums, n - 1, 1);
      FileSpineLength(d, nums, n - 1);
      FileNewStep(n - 1);
    }
  }
}
