/**
  Appending a block to a file: insertDataBlockInINode and updateIndex of
  src/incoreInodeOps/iNodeManager.c, as bmap calls them.
 */
module FileGrowth {
  import opened Params
  import opened Disk
  import opened Bags
  import opened FreeChain
  import opened BlockPath
  import opened BlockTree
  import opened TreeGrowth
  import opened FileMap

  // ---------- the code, as functions ----------

  // updateIndex: hang block `b` at index k.
  function InsertBlock(d: Store, nums: Slots, k: nat, b: Word): (Store, Slots)
    requires k <= TRIPLE_INDIRECT_LIMIT
  {
    PathIsValid(k);
    var p := PathOf(k);
    if p.level == 0 then (d, nums[k := b])
    else
      var slot := DIRECT_BLOCK_LIMIT + p.level;
      var (d', root) := Grow(d, nums[slot], p.offs, b);
      (d', nums[slot := root])
  }

  // The appending branch of bmap, for a file of exactly n blocks.
  function AppendBlock(d: Store, nums: Slots, n: nat): (Store, Slots, Word)
    requires n <= TRIPLE_INDIRECT_LIMIT
  {
    var (d1, b) := Alloc(d);
    var (d2, nums2) := InsertBlock(d1, nums, n, b);
    (d2, nums2, b)
  }

  // ---------- what it does to the file ----------

  // The file's blocks and the blocks `others` are data blocks; they and the free list `st`
  // share nothing.
  ghost predicate Separate(d: Store, st: seq<Word>, nums: Slots, n: nat, others: multiset<Word>) {
    && FreeList(d, st)
    && InData(FileNodes(d, nums, n, 0) + others)
    && Unique(multiset(st) + FileNodes(d, nums, n, 0) + others)
  }

  ghost predicate SameBlocks(d: Store, d': Store, nums: Slots, nums': Slots, n: nat)
    requires n <= MAX_FILE_BLOCKS
  {
    forall k :: 0 <= k < n ==> BlockAt(d', nums', k) == BlockAt(d, nums, k)
  }

  // The file gained index n: block `b` there, the indirect blocks `taken` as its spine, and
  // nothing else moved.
  ghost predicate FileGrown(d: Store, d': Store, nums: Slots, nums': Slots, n: nat, b: Word, taken: seq<Word>)
    requires n < MAX_FILE_BLOCKS
  {
    && BlockAt(d', nums', n) == b
    && FileSpine(d', nums', n) == taken
    && SameBlocks(d, d', nums, nums', n)
    && FileNodes(d', nums', n, 1) == FileNodes(d, nums, n, 1)
  }

  lemma FileNodesSplit(d: Store, nums: Slots, n: nat)
    requires n <= MAX_FILE_BLOCKS
    ensures FileNodes(d, nums, n, 1) <= FileNodes(d, nums, n, 0)
  {
    hide *;
    Values();
    FileSplit(d, nums, n);
  }

  lemma SameBlocksList(d: Store, d': Store, nums: Slots, nums': Slots, n: nat)
    requires n <= MAX_FILE_BLOCKS && SameBlocks(d, d', nums, nums', n)
    ensures FileBlocks(d', nums', n) == FileBlocks(d, nums, n)
    decreases n
  {
    hide BlockAt;
    if n > 0 {
      SameBlocksList(d, d', nums, nums', n - 1);
    }
  }

  // What gaining an index means for the blocks the file owns.
  lemma GrownOwns(d: Store, d': Store, nums: Slots, nums': Slots, n: nat, b: Word, taken: seq<Word>)
    requires n < MAX_FILE_BLOCKS && FileGrown(d, d', nums, nums', n, b, taken)
    ensures FileNodes(d', nums', n, 0) == FileNodes(d, nums, n, 0)
    ensures FileNodes(d', nums', n + 1, 0) == FileNodes(d, nums, n, 0) + multiset([b] + taken)
    ensures FileNodes(d', nums', n + 1, 1) == FileNodes(d, nums, n, 1) + multiset(taken)
    ensures FileBlocks(d', nums', n + 1) == FileBlocks(d, nums, n) + [b]
  {
    hide BlockAt, FileSpine, FileNodes, SameBlocks, FileBlocks;
    SameBlocksList(d, d', nums, nums', n);
    FileSplit(d, nums, n);
    FileSplit(d', nums', n);
    FileStep(d', nums', n, 0);
    FileStep(d', nums', n, 1);
    FileBlocksStep(d', nums', n + 1);
  }

  lemma InsertDirect(d: Store, nums: Slots, n: nat, b: Word)
    requires n <= DIRECT_BLOCK_LIMIT
    ensures InsertBlock(d, nums, n, b) == (d, nums[n := b])
    ensures FileGrown(d, d, nums, nums[n := b], n, b, [])
  {
    hide Nodes;
  }

  lemma InsertTree(d: Store, nums: Slots, n: nat, b: Word)
    requires n <= TRIPLE_INDIRECT_LIMIT && Level(n) > 0
    ensures var l := Level(n);
      && l <= 3 && Base(l) <= n && n - Base(l) < Cap(l)
      && Offsets(Digits(l, n - Base(l))) && Digits(l, n - Base(l)) != []
      && var (d', root) := Grow(d, nums[DIRECT_BLOCK_LIMIT + l], Digits(l, n - Base(l)), b);
         InsertBlock(d, nums, n, b) == (d', nums[DIRECT_BLOCK_LIMIT + l := root])
  {
    PathIsValid(n);
    hide Grow, Digits, Offsets;
  }

  lemma OthersSame(d: Store, d': Store, nums: Slots, root: Word, l: nat, n: nat)
    requires 1 <= l <= 3 && SameOn(d, d', Others(d, nums, l, n, 1))
    ensures Others(d', nums[DIRECT_BLOCK_LIMIT + l := root], l, n, 1) == Others(d, nums, l, n, 1)
  {
    var nums' := nums[DIRECT_BLOCK_LIMIT + l := root];
    var a, c := if l == 1 then 2 else 1, if l == 3 then 2 else 3;
    assert nums'[DIRECT_BLOCK_LIMIT + a] == nums[DIRECT_BLOCK_LIMIT + a];
    assert nums'[DIRECT_BLOCK_LIMIT + c] == nums[DIRECT_BLOCK_LIMIT + c];
    SameOnPart(d, d', Others(d, nums, l, n, 1), Tree(d, nums, a, n, 1));
    SameOnPart(d, d', Others(d, nums, l, n, 1), Tree(d, nums, c, n, 1));
    TreeFrame(d, d', nums, a, n, 1);
    TreeFrame(d, d', nums, c, n, 1);
  }

  lemma LevelOrder(k: nat, n: nat)
    requires k < n
    ensures Level(k) <= Level(n)
    ensures Level(k) == Level(n) > 0 ==> Base(Level(n)) <= k && k - Base(Level(n)) < n - Base(Level(n))
  {
  }

  lemma GrownParts(d: Store, d': Store, c: Word, c': Word, l: nat, m: nat, taken: seq<Word>, add: Word, j: nat)
    requires l <= 3 && j < m < Cap(l) && Grown(d, d', c, c', l, m, taken, add)
    ensures Offsets(Digits(l, j)) && Walk(d', c', Digits(l, j)) == Walk(d, c, Digits(l, j))
  {
    DigitsValid(l, j);
    hide Walk, Nodes, Spine, Digits;
    assert SameLeaf(d, d', c, c', l, j);
  }

  lemma GrownEnds(d: Store, d': Store, c: Word, c': Word, l: nat, m: nat, taken: seq<Word>, add: Word)
    requires l <= 3 && m < Cap(l) && Grown(d, d', c, c', l, m, taken, add)
    ensures Nodes(d', c', l, m, 1) == Nodes(d, c, l, m, 1) && Offsets(Digits(l, m))
    ensures Walk(d', c', Digits(l, m)) == add && Spine(d', c', Digits(l, m)) == taken
  {
    DigitsValid(l, m);
    hide Walk, Nodes, Spine, Digits;
  }

  lemma FileGrownIs(d: Store, d': Store, nums: Slots, nums': Slots, n: nat, b: Word, taken: seq<Word>)
    requires n < MAX_FILE_BLOCKS
    requires BlockAt(d', nums', n) == b && FileSpine(d', nums', n) == taken
    requires SameBlocks(d, d', nums, nums', n)
    requires FileNodes(d', nums', n, 1) == FileNodes(d, nums, n, 1)
    ensures FileGrown(d, d', nums, nums', n, b, taken)
  {
    hide FileNodes, BlockAt, FileSpine;
  }

  // An index before n, when the tree that gained index n is the level-l one.
  lemma OtherBlockSame(d: Store, d': Store, nums: Slots, root: Word, n: nat, b: Word, taken: seq<Word>, k: nat)
    requires k < n < MAX_FILE_BLOCKS && 1 <= Level(n) <= 3
    requires Base(Level(n)) <= n && n - Base(Level(n)) < Cap(Level(n))
    requires Grown(d, d', nums[DIRECT_BLOCK_LIMIT + Level(n)], root, Level(n), n - Base(Level(n)), taken, b)
    requires SameOn(d, d', Others(d, nums, Level(n), n, 1))
    ensures BlockAt(d', nums[DIRECT_BLOCK_LIMIT + Level(n) := root], k) == BlockAt(d, nums, k)
  {
    hide *;
    Values();
    LevelOrder(k, n);
    PlaceOf(d, nums, k);
    PlaceOf(d', nums[DIRECT_BLOCK_LIMIT + Level(n) := root], k);
    if Level(k) == Level(n) {
      GrownParts(d, d', nums[DIRECT_BLOCK_LIMIT + Level(n)], root, Level(n), n - Base(Level(n)), taken, b,
          k - Base(Level(n)));
    } else if Level(k) > 0 {
      PlaceOf(d', nums, k);
      OtherTreeSame(d, d', nums, Level(n), n, k);
    }
  }

  lemma OtherTreeSame(d: Store, d': Store, nums: Slots, l: nat, n: nat, k: nat)
    requires k < n < MAX_FILE_BLOCKS && 1 <= l <= 3 && Level(k) > 0 && Level(k) != l
    requires SameOn(d, d', Others(d, nums, l, n, 1))
    ensures BlockAt(d', nums, k) == BlockAt(d, nums, k)
  {
    hide *;
    Values();
    PlaceOf(d, nums, k);
    PlaceOf(d', nums, k);
    var j := Level(k);
    LevelSizeOf(k, n);
    TreeIs(d, nums, j, n, 1);
    TreeInOthers(d, nums, l, j, n);
    SameOnPart(d, d', Others(d, nums, l, n, 1), Tree(d, nums, j, n, 1));
    WalkFrame(d, d', nums[DIRECT_BLOCK_LIMIT + j], j, TreeSize(j, n), k - Base(j));
  }

  lemma LevelSizeOf(k: nat, n: nat)
    requires k < n <= MAX_FILE_BLOCKS && Level(k) > 0
    ensures Base(Level(k)) <= k && k - Base(Level(k)) < TreeSize(Level(k), n)
  {
  }

  lemma TreeInOthers(d: Store, nums: Slots, l: nat, j: nat, n: nat)
    requires 1 <= l <= 3 && 1 <= j <= 3 && j != l
    ensures Tree(d, nums, j, n, 1) <= Others(d, nums, l, n, 1)
  {
    hide Tree;
  }

  lemma GrownFromTree(d: Store, d': Store, nums: Slots, root: Word, n: nat, b: Word, taken: seq<Word>)
    requires n < MAX_FILE_BLOCKS && 1 <= Level(n) <= 3
    requires Base(Level(n)) <= n && n - Base(Level(n)) < Cap(Level(n))
    requires Grown(d, d', nums[DIRECT_BLOCK_LIMIT + Level(n)], root, Level(n), n - Base(Level(n)), taken, b)
    requires SameOn(d, d', Others(d, nums, Level(n), n, 1))
    ensures FileGrown(d, d', nums, nums[DIRECT_BLOCK_LIMIT + Level(n) := root], n, b, taken)
  {
    hide *;
    Values();
    var l := Level(n);
    var nums' := nums[DIRECT_BLOCK_LIMIT + l := root];
    EarlierBlocksSame(d, d', nums, root, n, b, taken);
    PlaceOf(d', nums', n);
    GrownEnds(d, d', nums[DIRECT_BLOCK_LIMIT + l], root, l, n - Base(l), taken, b);
    OthersSame(d, d', nums, root, l, n);
    SameIndirectBlocks(d, d', nums, nums', l, n);
    FileGrownIs(d, d', nums, nums', n, b, taken);
  }

  lemma SameIndirectBlocks(d: Store, d': Store, nums: Slots, nums': Slots, l: nat, n: nat)
    requires n < MAX_FILE_BLOCKS && 1 <= l <= 3 && l == Level(n)
    requires Others(d', nums', l, n, 1) == Others(d, nums, l, n, 1)
    requires Base(l) <= n && n - Base(l) < Cap(l)
    requires Nodes(d', nums'[DIRECT_BLOCK_LIMIT + l], l, n - Base(l), 1)
             == Nodes(d, nums[DIRECT_BLOCK_LIMIT + l], l, n - Base(l), 1)
    ensures FileNodes(d', nums', n, 1) == FileNodes(d, nums, n, 1)
  {
    hide *;
    Values();
    LevelStep(n);
    TreeIs(d, nums, l, n, 1);
    TreeIs(d', nums', l, n, 1);
    FileParts(d, nums, l, n, 1);
    FileParts(d', nums', l, n, 1);
  }

  lemma EarlierBlocksSame(d: Store, d': Store, nums: Slots, root: Word, n: nat, b: Word, taken: seq<Word>)
    requires n < MAX_FILE_BLOCKS && 1 <= Level(n) <= 3
    requires Base(Level(n)) <= n && n - Base(Level(n)) < Cap(Level(n))
    requires Grown(d, d', nums[DIRECT_BLOCK_LIMIT + Level(n)], root, Level(n), n - Base(Level(n)), taken, b)
    requires SameOn(d, d', Others(d, nums, Level(n), n, 1))
    ensures SameBlocks(d, d', nums, nums[DIRECT_BLOCK_LIMIT + Level(n) := root], n)
  {
    hide BlockAt, Level, Base, Cap, Grown, SameOn, Others;
    forall k | 0 <= k < n
      ensures BlockAt(d', nums[DIRECT_BLOCK_LIMIT + Level(n) := root], k) == BlockAt(d, nums, k)
    {
      OtherBlockSame(d, d', nums, root, n, b, taken, k);
    }
  }

  lemma SeparateParts(d: Store, st: seq<Word>, nums: Slots, n: nat, others: multiset<Word>)
    requires n <= MAX_FILE_BLOCKS && Separate(d, st, nums, n, others)
    ensures FreeList(d, st)
    ensures InData(FileNodes(d, nums, n, 1)) && InData(others)
    ensures Unique(multiset(st) + FileNodes(d, nums, n, 1) + others)
  {
    var own, meta := FileNodes(d, nums, n, 0), FileNodes(d, nums, n, 1);
    FileNodesSplit(d, nums, n);
    hide FileNodes, FreeList;
    InDataParts(own, others);
    UniquePart(multiset(st) + own + others, multiset(st) + meta + others);
  }

  // Hanging block `b` in, given that it is already out of the free list.
  lemma InsertGrowsFile(d: Store, st: seq<Word>, nums: Slots, n: nat, others: multiset<Word>, b: Word)
    requires n < MAX_FILE_BLOCKS && Separate(d, st, nums, n, others) && FileNew(n) <= |st|
    ensures var c := FileNew(n);
      var (d', nums') := InsertBlock(d, nums, n, b);
      && FreeList(d', st[c..])
      && FileGrown(d, d', nums, nums', n, b, st[..c])
      && OnlyTouches(d, d', multiset(st[..c]) + FileNodes(d, nums, n, 1))
  {
    hide *;
    Values();
    SeparateParts(d, st, nums, n, others);
    if Level(n) == 0 {
      DirectNeedsNone(n);
      InsertDirect(d, nums, n, b);
      assert st[..0] == [] && st[0..] == st;
      TouchesNothing(d, multiset(st[..0]) + FileNodes(d, nums, n, 1));
    } else {
      InsertTree(d, nums, n, b);
      var l := Level(n);
      LevelStep(n);
      TreeIs(d, nums, l, n, 1);
      FileParts(d, nums, l, n, 1);
      TreeNeeds(n);
      InsertIntoTree(d, st, nums, n, others, b);
    }
  }

  lemma DirectNeedsNone(n: nat)
    requires Level(n) == 0
    ensures n <= DIRECT_BLOCK_LIMIT && FileNew(n) == 0
  {
  }

  lemma TouchesNothing(d: Store, touched: multiset<Word>)
    ensures OnlyTouches(d, d, touched)
  {
  }

  lemma TreeNeeds(n: nat)
    requires Level(n) > 0
    ensures Base(Level(n)) <= n && FileNew(n) == NewNodes(Level(n), n - Base(Level(n)))
  {
  }

  lemma InsertIntoTree(d: Store, st: seq<Word>, nums: Slots, n: nat, others: multiset<Word>, b: Word)
    requires n < MAX_FILE_BLOCKS && 1 <= Level(n) <= 3 && FileNew(n) <= |st|
    requires FreeList(d, st) && InData(FileNodes(d, nums, n, 1))
    requires Unique(multiset(st) + FileNodes(d, nums, n, 1) + others)
    ensures var c := FileNew(n);
      var (d', nums') := InsertBlock(d, nums, n, b);
      && FreeList(d', st[c..])
      && FileGrown(d, d', nums, nums', n, b, st[..c])
      && OnlyTouches(d, d', multiset(st[..c]) + FileNodes(d, nums, n, 1))
  {
    hide *;
    Values();
    var l, c := Level(n), FileNew(n);
    InsertTree(d, nums, n, b);
    LevelStep(n);
    TreeNeeds(n);
    TreeIs(d, nums, l, n, 1);
    FileParts(d, nums, l, n, 1);
    var rest, tree := Others(d, nums, l, n, 1), Tree(d, nums, l, n, 1);
    InDataParts(rest, tree);
    assert multiset(st) + (rest + tree) + others == multiset(st) + others + (rest + tree);
    UniqueSplit(multiset(st), others, rest, tree);
    InsertGrows(d, st, nums[DIRECT_BLOCK_LIMIT + l], l, n - Base(l), b);
    var (d', root) := Grow(d, nums[DIRECT_BLOCK_LIMIT + l], Digits(l, n - Base(l)), b);
    TreeGrowsParts(d, d', nums[DIRECT_BLOCK_LIMIT + l], root, st, l, n - Base(l), b);
    PrefixBag(st, c);
    assert forall x :: x in multiset(st[..c]) + tree ==> x in multiset(st) + tree;
    Untouched(d, d', multiset(st[..c]) + tree, rest);
    GrownFromTree(d, d', nums, root, n, b, st[..c]);
    TouchesMore(d, d', multiset(st[..c]) + tree, multiset(st[..c]) + (rest + tree));
  }

  lemma TreeGrowsParts(d: Store, d': Store, root: Word, root': Word, st: seq<Word>, l: nat, m: nat, add: Word)
    requires l <= 3 && m < Cap(l) && TreeGrows(d, d', root, root', st, l, m, add)
    ensures NewNodes(l, m) <= |st|
    ensures FreeList(d', st[NewNodes(l, m)..])
    ensures Grown(d, d', root, root', l, m, st[..NewNodes(l, m)], add)
    ensures OnlyTouches(d, d', multiset(st[..NewNodes(l, m)]) + Nodes(d, root, l, m, 1))
  {
  }

  lemma TouchesMore(d: Store, d': Store, a: multiset<Word>, b: multiset<Word>)
    requires OnlyTouches(d, d', a) && a <= b
    ensures OnlyTouches(d, d', b)
  {
  }

  lemma FirstBlock(d: Store, d1: Store, st: seq<Word>, nums: Slots, n: nat, others: multiset<Word>)
    requires n <= MAX_FILE_BLOCKS && Separate(d, st, nums, n, others) && st != []
    requires OnlyTouches(d, d1, multiset{}) && FreeList(d1, st[1..])
    ensures Separate(d1, st[1..], nums, n, multiset{st[0]} + others)
    ensures FileNodes(d1, nums, n, 1) == FileNodes(d, nums, n, 1)
    ensures SameBlocks(d, d1, nums, nums, n)
  {
    SeparateParts(d, st, nums, n, others);
    hide *;
    Values();
    Untouched(d, d1, multiset{}, FileNodes(d, nums, n, 1));
    FileFrame(d, d1, nums, n, 0);
    FileFrame(d, d1, nums, n, 1);
    FirstOut(d, d1, st, nums, n, others);
    SameBlocksFrame(d, d1, nums, n);
  }

  lemma FirstOut(d: Store, d1: Store, st: seq<Word>, nums: Slots, n: nat, others: multiset<Word>)
    requires n <= MAX_FILE_BLOCKS && Separate(d, st, nums, n, others) && st != []
    requires FileNodes(d1, nums, n, 0) == FileNodes(d, nums, n, 0) && FreeList(d1, st[1..])
    ensures Separate(d1, st[1..], nums, n, multiset{st[0]} + others)
  {
    hide FileNodes, FreeList;
    var own := FileNodes(d, nums, n, 0);
    FrontIsData(d, st);
    MoveFront(st, own, others);
    InDataJoin(own + others, multiset{st[0]});
    assert own + others + multiset{st[0]} == own + (multiset{st[0]} + others);
  }

  lemma FrontIsData(d: Store, st: seq<Word>)
    requires FreeList(d, st) && st != []
    ensures FIRST_DATA_BLOCK <= st[0] < NUM_OF_BLOCKS
  {
    hide IsChain;
  }

  lemma MoveFront(st: seq<Word>, own: multiset<Word>, others: multiset<Word>)
    requires st != []
    ensures multiset(st[1..]) + own + (multiset{st[0]} + others) == multiset(st) + own + others
  {
    assert st == [st[0]] + st[1..];
  }

  lemma SameBlocksFrame(d: Store, d1: Store, nums: Slots, n: nat)
    requires n <= MAX_FILE_BLOCKS && SameOn(d, d1, FileNodes(d, nums, n, 1))
    ensures SameBlocks(d, d1, nums, nums, n)
  {
    hide FileNodes, BlockAt, SameOn;
    forall k | 0 <= k < n
      ensures BlockAt(d1, nums, k) == BlockAt(d, nums, k)
    {
      BlockAtFrame(d, d1, nums, n, k);
    }
  }

  lemma GrownSeparate(d: Store, d': Store, b: Word, taken: seq<Word>, rest: seq<Word>, nums: Slots, nums': Slots,
                      n: nat, others: multiset<Word>)
    requires n < MAX_FILE_BLOCKS
    requires Separate(d, taken + rest, nums, n, multiset{b} + others)
    requires FreeList(d', rest) && FileGrown(d, d', nums, nums', n, b, taken)
    ensures Separate(d', rest, nums', n + 1, others)
  {
    hide *;
    Values();
    var own, own' := FileNodes(d, nums, n, 0), FileNodes(d', nums', n + 1, 0);
    SeparateWhole(d, taken + rest, nums, n, multiset{b} + others);
    GrownOwns(d, d', nums, nums', n, b, taken);
    TakenIsData(d, taken, rest);
    MoveBags(b, taken, rest, own, own', others);
    InDataJoin(own + (multiset{b} + others), multiset(taken));
    SeparateIs(d', rest, nums', n + 1, others);
  }

  lemma SeparateWhole(d: Store, st: seq<Word>, nums: Slots, n: nat, others: multiset<Word>)
    requires Separate(d, st, nums, n, others)
    ensures FreeList(d, st) && InData(FileNodes(d, nums, n, 0) + others)
    ensures Unique(multiset(st) + FileNodes(d, nums, n, 0) + others)
  {
  }

  lemma SeparateIs(d: Store, st: seq<Word>, nums: Slots, n: nat, others: multiset<Word>)
    requires FreeList(d, st) && InData(FileNodes(d, nums, n, 0) + others)
    requires Unique(multiset(st) + FileNodes(d, nums, n, 0) + others)
    ensures Separate(d, st, nums, n, others)
  {
  }

  lemma MoveBags(b: Word, taken: seq<Word>, rest: seq<Word>, own: multiset<Word>, own': multiset<Word>,
                 others: multiset<Word>)
    requires own' == own + multiset([b] + taken)
    ensures multiset(rest) + own' + others == multiset(taken + rest) + own + (multiset{b} + others)
    ensures own' + others == own + (multiset{b} + others) + multiset(taken)
  {
    assert multiset([b] + taken) == multiset{b} + multiset(taken);
  }

  lemma TakenIsData(d: Store, taken: seq<Word>, rest: seq<Word>)
    requires FreeList(d, taken + rest)
    ensures InData(multiset(taken))
  {
    hide IsChain;
    forall x | x in multiset(taken)
      ensures FIRST_DATA_BLOCK <= x < NUM_OF_BLOCKS
    {
      var i :| 0 <= i < |taken| && taken[i] == x;
      assert (taken + rest)[i] == x;
    }
  }

  // Allocating the block first changes nothing that the insertion sees.
  lemma AfterAlloc(d: Store, d1: Store, d': Store, nums: Slots, nums': Slots, n: nat, b: Word, taken: seq<Word>)
    requires n < MAX_FILE_BLOCKS && FileGrown(d1, d', nums, nums', n, b, taken)
    requires FileNodes(d1, nums, n, 1) == FileNodes(d, nums, n, 1) && SameBlocks(d, d1, nums, nums, n)
    ensures FileGrown(d, d', nums, nums', n, b, taken)
  {
    hide FileNodes, BlockAt, FileSpine;
  }

  // ---------- the theorem ----------

  // With enough free blocks, appending takes the data block and then the indirect blocks its
  // index is the first to need from the front of the free list, leads the new index to the
  // data block, and leaves every earlier index and every other block where it was.
  lemma AppendGrows(d: Store, b: Word, taken: seq<Word>, rest: seq<Word>, nums: Slots, n: nat, others: multiset<Word>)
    requires n < MAX_FILE_BLOCKS && |taken| == FileNew(n)
    requires Separate(d, [b] + taken + rest, nums, n, others)
    ensures var (d', nums', b') := AppendBlock(d, nums, n);
      && b' == b
      && FileGrown(d, d', nums, nums', n, b, taken)
      && Separate(d', rest, nums', n + 1, others)
      && OnlyTouches(d, d', multiset(taken) + FileNodes(d, nums, n, 1))
  {
    hide *;
    Values();
    assert [b] + taken + rest == [b] + (taken + rest);
    var d1 := TakeFirst(d, b, taken + rest, nums, n, others);
    InsertGrowsFile(d1, taken + rest, nums, n, multiset{b} + others, b);
    assert (taken + rest)[..|taken|] == taken && (taken + rest)[|taken|..] == rest;
    var (d', nums') := InsertBlock(d1, nums, n, b);
    GrownSeparate(d1, d', b, taken, rest, nums, nums', n, others);
    AfterAlloc(d, d1, d', nums, nums', n, b, taken);
    TouchesTwice(d, d1, d', multiset(taken) + FileNodes(d, nums, n, 1));
    AppendIs(d, nums, n);
  }

  lemma TouchesTwice(d: Store, d1: Store, d': Store, touched: multiset<Word>)
    requires OnlyTouches(d, d1, multiset{}) && OnlyTouches(d1, d', touched)
    ensures OnlyTouches(d, d', touched)
  {
  }

  lemma AppendIs(d: Store, nums: Slots, n: nat)
    requires n <= TRIPLE_INDIRECT_LIMIT
    ensures var (d1, b) := Alloc(d);
            var (d2, nums2) := InsertBlock(d1, nums, n, b);
            AppendBlock(d, nums, n) == (d2, nums2, b)
  {
    hide Alloc, InsertBlock;
  }

  lemma TakeFirst(d: Store, b: Word, st: seq<Word>, nums: Slots, n: nat, others: multiset<Word>) returns (d1: Store)
    requires n <= MAX_FILE_BLOCKS && Separate(d, [b] + st, nums, n, others)
    ensures Alloc(d) == (d1, b)
    ensures OnlyTouches(d, d1, multiset{})
    ensures Separate(d1, st, nums, n, multiset{b} + others)
    ensures FileNodes(d1, nums, n, 1) == FileNodes(d, nums, n, 1)
    ensures SameBlocks(d, d1, nums, nums, n)
  {
    d1 := Alloc(d).0;
    SeparateParts(d, [b] + st, nums, n, others);
    AllocPops(d, [b] + st);
    assert ([b] + st)[1..] == st;
    hide Alloc, FreeList, FileNodes, Separate;
    FirstBlock(d, d1, [b] + st, nums, n, others);
  }

  // An append changes, apart from the head of the free list, no word but those at the offsets of
  // the new block in its indirect blocks.
  lemma AppendKeepsWords(d: Store, nums: Slots, n: nat, x: nat, j: nat)
    requires n <= TRIPLE_INDIRECT_LIMIT && x < NUM_OF_BLOCKS && x != FREE_LIST_BLOCK && j < K && j !in PathOf(n).offs
    ensures AppendBlock(d, nums, n).0[x][j] == d[x][j]
  {
    PathIsValid(n);
    var (d1, b) := Alloc(d);
    assert d1[x] == d[x];
    hide Grow, Alloc, PathOf;
    var p := PathOf(n);
    if p.level > 0 {
      GrowKeepsWords(d1, nums[DIRECT_BLOCK_LIMIT + p.level], p.offs, b, x, j);
    }
  }
}
