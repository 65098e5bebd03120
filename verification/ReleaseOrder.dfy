/**
  In which order inodeBlocksFree of src/dsk/free.c gives the blocks of a file back.
 */
module ReleaseOrder {
  import opened Params
  import opened Disk
  import opened FreeChain
  import opened BlockPath
  import opened BlockTree
  import opened TreeRelease
  import opened FileMap
  import opened FileRelease

  // The blocks of a tree with m leaves: the children in order, each with its own blocks, then
  // the root.
  function Post(d: Store, root: Word, l: nat, m: nat): seq<Word>
    requires l <= 3 && m <= Cap(l)
    decreases l, 1, 0
  {
    if m == 0 then []
    else if l == 0 then [root]
    else PostKids(d, At(d, root), l, m, K) + [root]
  }

  function PostKids(d: Store, w: Block, l: nat, m: nat, i: nat): seq<Word>
    requires 1 <= l <= 3 && m <= Cap(l) && i <= K
    decreases l, 0, i
  {
    if i == 0 then [] else PostKids(d, w, l, m, i - 1) + Post(d, w[i - 1], l - 1, ChildSize(l, m, i - 1))
  }

  lemma {:induction false} PostFrame(d: Store, d': Store, root: Word, l: nat, m: nat)
    requires l <= 3 && m <= Cap(l) && SameOn(d, d', Nodes(d, root, l, m, 1))
    ensures Post(d', root, l, m) == Post(d, root, l, m)
    decreases l, 1, 0
  {
    if m > 0 && l > 0 {
      NodesParts(d, root, l, m, 1);
      RootSame(d, d', root, Below(d, At(d, root), l, m, 1));
      hide Nodes, Below, SameOn;
      PostKidsFrame(d, d', At(d, root), l, m, K);
    }
  }

  lemma RootSame(d: Store, d': Store, root: Word, below: multiset<Word>)
    requires SameOn(d, d', multiset{root} + below)
    ensures At(d', root) == At(d, root) && SameOn(d, d', below)
  {
    assert root in multiset{root} + below;
    hide At;
    SameOnPart(d, d', multiset{root} + below, below);
  }

  lemma {:induction false} PostKidsFrame(d: Store, d': Store, w: Block, l: nat, m: nat, i: nat)
    requires 1 <= l <= 3 && m <= Cap(l) && i <= K && SameOn(d, d', Below(d, w, l, m, 1))
    ensures PostKids(d', w, l, m, i) == PostKids(d, w, l, m, i)
    decreases l, 0, i
  {
    hide *;
    Values();
    PostKidsNone(d, w, l, m);
    PostKidsNone(d', w, l, m);
    if i > 0 {
      PostKidsStep(d, w, l, m, i);
      PostKidsStep(d', w, l, m, i);
      PostKidsFrame(d, d', w, l, m, i - 1);
      ChildNodes(d, w, l, m, i - 1);
      SameOnPart(d, d', Below(d, w, l, m, 1), Nodes(d, w[i - 1], l - 1, ChildSize(l, m, i - 1), 1));
      PostFrame(d, d', w[i - 1], l - 1, ChildSize(l, m, i - 1));
    }
  }

  lemma {:induction false} FreeAllConcat(d: Store, a: seq<Word>, b: seq<Word>)
    ensures FreeAll(d, a + b) == FreeAll(FreeAll(d, a), b)
    decreases |a|
  {
    hide Free;
    if a == [] {
      assert a + b == b;
    } else {
      assert (a + b)[1..] == a[1..] + b;
      FreeAllConcat(Free(d, a[0]), a[1..], b);
    }
  }

  lemma FreeAllLast(d: Store, a: seq<Word>, x: Word)
    ensures FreeAll(d, a + [x]) == Free(FreeAll(d, a), x)
  {
    FreeAllConcat(d, a, [x]);
    hide Free;
    assert [x][1..] == [];
  }

  // ---------- one tree ----------

  lemma {:induction false} TreeInOrder(d: Store, st: seq<Word>, root: Word, left: int, l: nat)
    requires l <= 3 && left > 0 && LeavesFor(l, left) <= Cap(l)
    requires Releasable(d, st, Nodes(d, root, l, LeavesFor(l, left), 0))
    ensures FreeTree(d, root, left, l).0 == FreeAll(d, Post(d, root, l, LeavesFor(l, left)))
    decreases l, 1, 0
  {
    if l == 0 {
      LeafOnly(d, root, left);
      FreeAllLast(d, [], root);
      assert [] + [root] == [root];
    } else {
      var w, m := At(d, root), LeavesFor(l, left);
      TreeParts(d, root, l, left);
      GoneAll(l, m, left);
      PostIs(d, root, l, m);
      FreeTreeUnfold(d, root, left, l);
      hide *;
      Values();
      var below := Below(d, w, l, m, 0);
      assert multiset{root} + below == below + multiset{root};
      ReleasablePart(d, st, below, multiset{root});
      KidsInOrder(d, st, w, K, left, l);
      FreeAllLast(d, PostKids(d, w, l, m, K), root);
    }
  }

  lemma PostIs(d: Store, root: Word, l: nat, m: nat)
    requires 1 <= l <= 3 && 0 < m <= Cap(l)
    ensures Post(d, root, l, m) == PostKids(d, At(d, root), l, m, K) + [root]
  {
  }

  lemma PostKidsStep(d: Store, w: Block, l: nat, m: nat, i: nat)
    requires 1 <= l <= 3 && m <= Cap(l) && 0 < i <= K
    ensures PostKids(d, w, l, m, i) == PostKids(d, w, l, m, i - 1) + Post(d, w[i - 1], l - 1, ChildSize(l, m, i - 1))
    ensures Post(d, w[i - 1], l - 1, 0) == []
  {
  }

  lemma PostKidsNone(d: Store, w: Block, l: nat, m: nat)
    requires 1 <= l <= 3 && m <= Cap(l)
    ensures PostKids(d, w, l, m, 0) == [] && FreeAll(d, []) == d
  {
  }

  // The leaves that child i takes of a release are those it has.
  lemma NextIsChild(l: nat, m: nat, i: nat, left: int)
    requires 1 <= l <= 3 && i < K && m == LeavesFor(l, left) && 0 < m <= Cap(l)
    ensures var left1 := left - 1024 * Gone(l, m, i);
            ChildSize(l, m, i) == if left1 > 0 then LeavesFor(l - 1, left1) else 0
  {
  }

  lemma {:induction false} KidsInOrder(d: Store, st: seq<Word>, w: Block, i: nat, left: int, l: nat)
    requires 1 <= l <= 3 && i <= K && left > 0 && LeavesFor(l, left) <= Cap(l)
    requires Gone(l, LeavesFor(l, left), i) <= Cap(l)
    requires Releasable(d, st, Below(d, w, l, Gone(l, LeavesFor(l, left), i), 0))
    ensures FreeKids(d, w, i, left, l).0 == FreeAll(d, PostKids(d, w, l, LeavesFor(l, left), i))
    decreases l, 0, i
  {
    hide *;
    Values();
    var m := LeavesFor(l, left);
    if i == 0 {
      NoneGone(d, w, l, m, left);
      PostKidsNone(d, w, l, m);
    } else {
      var n := Gone(l, m, i - 1);
      LeavesPositive(l, left);
      GoneNext(l, m, i - 1, left);
      KidsUnfold(d, w, i, left, l);
      NextIsChild(l, m, i - 1, left);
      PostKidsStep(d, w, l, m, i);
      KidsLeft(d, w, i - 1, left, l);
      if left - 1024 * n > 0 {
        var c := LeavesFor(l - 1, left - 1024 * n);
        LeavesFit(l - 1, left - 1024 * n);
        BelowNextChild(d, w, l, i - 1, c, 0);
        var done, child := Below(d, w, l, n, 0), Nodes(d, w[i - 1], l - 1, c, 0);
        ReleasablePart(d, st, done, child);
        KidsInOrder(d, st, w, i - 1, left, l);
        var s1 := FreeKidsReleases(d, st, w, i - 1, left, l);
        var d1 := FreeKids(d, w, i - 1, left, l).0;
        ReleasableRest(d, d1, st, s1, done, child);
        SameNodes(d, d1, w[i - 1], l - 1, c);
        TreeInOrder(d1, s1, w[i - 1], left - 1024 * n, l - 1);
        IndirectSame(d, d1, w[i - 1], l - 1, c);
        PostFrame(d, d1, w[i - 1], l - 1, c);
        FreeAllConcat(d, PostKids(d, w, l, m, i - 1), Post(d, w[i - 1], l - 1, c));
      } else {
        KidsInOrder(d, st, w, i - 1, left, l);
        assert PostKids(d, w, l, m, i - 1) + [] == PostKids(d, w, l, m, i - 1);
      }
    }
  }

  lemma IndirectSame(d: Store, d': Store, root: Word, l: nat, m: nat)
    requires l <= 3 && m <= Cap(l) && SameOn(d, d', Nodes(d, root, l, m, 0))
    ensures SameOn(d, d', Nodes(d, root, l, m, 1))
  {
    hide Nodes, SameOn, Cap;
    NodesSplit(d, root, l, m);
    SameOnPart(d, d', Nodes(d, root, l, m, 0), Nodes(d, root, l, m, 1));
  }

  // ---------- a whole file ----------

  // The blocks of a file of n blocks: the direct ones, then the trees in order.
  function Order(d: Store, nums: Slots, n: nat): seq<Word> {
    nums[..if n < 10 then n else 10]
    + Post(d, nums[10], 1, TreeSize(1, n)) + Post(d, nums[11], 2, TreeSize(2, n)) + Post(d, nums[12], 3, TreeSize(3, n))
  }

  lemma {:induction false} DirectInOrder(d: Store, nums: Slots, i: nat, size: nat)
    requires i <= DIRECT_BLOCK_LIMIT + 1
    ensures FreeDirect(d, nums, i, size).0 == FreeAll(d, nums[..DirectCount(i, BlockCount(size))])
  {
    hide *;
    Values();
    if i == 0 {
      NoDirect(d, nums, size);
      FreeNothing(d);
    } else {
      var n := BlockCount(size);
      var c1, c := DirectCount(i - 1, n), DirectCount(i, n);
      DirectUnfold(d, nums, i, size);
      DirectNext(i - 1, size);
      DirectClears(d, nums, i - 1, size, i - 1);
      DirectInOrder(d, nums, i - 1, size);
      if c1 < c {
        assert nums[..c] == nums[..c1] + [nums[i - 1]];
        FreeAllLast(d, nums[..c1], nums[i - 1]);
      }
    }
  }

  lemma FreeNothing(d: Store)
    ensures FreeAll(d, []) == d
  {
  }

  // The trees from level l on.
  function OrderFrom(d: Store, nums: Slots, l: nat, n: nat): seq<Word>
    requires 1 <= l
    decreases 4 - l
  {
    if l > 3 then [] else Post(d, nums[DIRECT_BLOCK_LIMIT + l], l, TreeSize(l, n)) + OrderFrom(d, nums, l + 1, n)
  }

  lemma OrderStep(d: Store, nums: Slots, l: nat, n: nat)
    requires 1 <= l
    ensures l > 3 ==> OrderFrom(d, nums, l, n) == []
    ensures l <= 3 ==>
              OrderFrom(d, nums, l, n)
              == Post(d, nums[DIRECT_BLOCK_LIMIT + l], l, TreeSize(l, n)) + OrderFrom(d, nums, l + 1, n)
  {
  }

  lemma {:induction false} OrderFrame(d: Store, d': Store, nums: Slots, nums': Slots, l: nat, n: nat)
    requires 1 <= l <= 4 && nums'[DIRECT_BLOCK_LIMIT + l..] == nums[DIRECT_BLOCK_LIMIT + l..]
    requires SameOn(d, d', TreesFrom(d, nums, l, n))
    ensures OrderFrom(d', nums', l, n) == OrderFrom(d, nums, l, n)
    decreases 4 - l
  {
    if l <= 3 {
      var i := DIRECT_BLOCK_LIMIT + l;
      assert nums'[i] == nums'[i..][0] == nums[i..][0] == nums[i];
      assert nums'[i..][1..] == nums'[i + 1..] && nums[i..][1..] == nums[i + 1..];
      hide Nodes, SameOn, TreeSize, Post;
      var tree, rest := Tree(d, nums, l, n, 0), TreesFrom(d, nums, l + 1, n);
      SameOnPart(d, d', tree + rest, tree);
      SameOnPart(d, d', tree + rest, rest);
      IndirectSame(d, d', nums[i], l, TreeSize(l, n));
      PostFrame(d, d', nums[i], l, TreeSize(l, n));
      OrderFrame(d, d', nums, nums', l + 1, n);
    }
  }

  lemma {:induction false} NoOrder(d: Store, nums: Slots, l: nat, size: nat, left: int)
    requires 1 <= l && left <= 0 && (l <= 3 ==> LeftAt(l, size, left))
    ensures OrderFrom(d, nums, l, BlockCount(size)) == []
    decreases 4 - l
  {
    if l <= 3 {
      LeftNext(l, size, left);
      hide LeftAt, TreeSize, Base, BlockCount;
      NoOrder(d, nums, l + 1, size, left);
    }
  }

  lemma {:induction false} LevelsInOrder(d: Store, st: seq<Word>, nums: Slots, l: nat, size: nat, left: int)
    requires 1 <= l && (l <= 3 ==> LeftAt(l, size, left))
    requires Releasable(d, st, TreesFrom(d, nums, l, BlockCount(size)))
    ensures FreeLevels(d, nums, l, left).0 == FreeAll(d, OrderFrom(d, nums, l, BlockCount(size)))
    decreases 4 - l
  {
    hide *;
    Values();
    var n := BlockCount(size);
    LevelsUnfold(d, nums, l, left);
    TreesUnfold(d, nums, l, n);
    OrderStep(d, nums, l, n);
    FreeNothing(d);
    if l > 3 || left <= 0 {
      if l <= 3 {
        NoOrder(d, nums, l, size, left);
      }
    } else {
      LeftNext(l, size, left);
      LeavesFit(l, left);
      var root, i := nums[DIRECT_BLOCK_LIMIT + l], DIRECT_BLOCK_LIMIT + l;
      var tree, rest := Nodes(d, root, l, LeavesFor(l, left), 0), TreesFrom(d, nums, l + 1, n);
      ReleasablePart(d, st, tree, rest);
      TreeInOrder(d, st, root, left, l);
      var s1 := FreeTreeReleases(d, st, root, left, l);
      var (d1, left1) := FreeTree(d, root, left, l);
      ReleasableRest(d, d1, st, s1, tree, rest);
      assert nums[i := 0][i + 1..] == nums[i + 1..];
      TreesFrame(d, d1, nums, nums[i := 0], l + 1, n);
      OrderFrame(d, d1, nums, nums[i := 0], l + 1, n);
      LevelsInOrder(d1, s1, nums[i := 0], l + 1, size, left1);
      FreeAllConcat(d, Post(d, root, l, TreeSize(l, n)), OrderFrom(d, nums, l + 1, n));
    }
  }

  lemma OrderIs(d: Store, nums: Slots, n: nat)
    ensures Order(d, nums, n) == nums[..DirectCount(DIRECT_BLOCK_LIMIT + 1, n)] + OrderFrom(d, nums, 1, n)
  {
    hide Post, TreeSize;
    OrderStep(d, nums, 1, n);
    OrderStep(d, nums, 2, n);
    OrderStep(d, nums, 3, n);
    OrderStep(d, nums, 4, n);
  }

  // inodeBlocksFree frees the direct blocks in order, then each tree from its first leaf on, an
  // indirect block after all that is below it.
  lemma ReleasesInOrder(d: Store, st: seq<Word>, nums: Slots, size: nat)
    requires Releasable(d, st, FileNodes(d, nums, BlockCount(size), 0))
    ensures ReleaseFile(d, nums, size).0 == FreeAll(d, Order(d, nums, BlockCount(size)))
  {
    hide *;
    Values();
    var n := BlockCount(size);
    var c := DirectCount(DIRECT_BLOCK_LIMIT + 1, n);
    FileIsParts(d, nums, n);
    OrderIs(d, nums, n);
    var direct, trees := multiset(nums[..c]), TreesFrom(d, nums, 1, n);
    ReleasablePart(d, st, direct, trees);
    DirectInOrder(d, nums, DIRECT_BLOCK_LIMIT + 1, size);
    var s1 := DirectReleases(d, st, nums, DIRECT_BLOCK_LIMIT + 1, size);
    var (d1, nums1, left) := FreeDirect(d, nums, DIRECT_BLOCK_LIMIT + 1, size);
    ReleasableRest(d, d1, st, s1, direct, trees);
    DirectLeaves(size);
    TreesFrame(d, d1, nums, nums1, 1, n);
    OrderFrame(d, d1, nums, nums1, 1, n);
    LevelsInOrder(d1, s1, nums1, 1, size, left);
    FreeAllConcat(d, nums[..c], OrderFrom(d, nums, 1, n));
    ReleaseIs(d, nums, size);
  }
}
