/**
  The releasing half of src/dsk/free.c, and freeNeededBlocks of
  src/incoreInodeOps/iNodeManager.c, on one tree of indirect blocks.
 */
module TreeRelease {
  import opened Params
  import opened Disk
  import opened Bags
  import opened FreeChain
  import opened BlockPath
  import opened BlockTree
  import opened TreeGrowth

  // ---------- the code, as functions ----------

  // blockFree of each block in turn.
  function FreeAll(d: Store, bs: seq<Word>): Store
    decreases |bs|
  {
    if bs == [] then d else FreeAll(Free(d, bs[0]), bs[1..])
  }

  // The loop of freeNeededBlocks: the blocks it notes down on its way along the offsets.
  function Collect(d: Store, cur: Word, offs: seq<nat>, buffer: Block): seq<Word>
    requires Offsets(offs)
    decreases |offs|
  {
    if offs == [] then []
    else
      var w := Fetch(d, cur, buffer);
      (if AllZero(offs) then [cur] else []) + Collect(d, w[offs[0]], offs[1..], w)
  }

  // diskBlockFree: the disk afterwards and what is left of the size.
  function FreeTree(d: Store, root: Word, left: int, l: nat): (Store, int)
    decreases l, 1, 0
  {
    if l == 0 then (Free(d, root), left - BLOCK_SIZE)
    else
      var (d1, left1) := FreeKids(d, At(d, root), K, left, l);
      (Free(d1, root), left1)
  }

  // Its loop, after i rounds.
  function FreeKids(d: Store, w: Block, i: nat, left: int, l: nat): (Store, int)
    requires i <= K && l > 0
    decreases l, 0, i
  {
    if i == 0 then (d, left)
    else
      var (d1, left1) := FreeKids(d, w, i - 1, left, l);
      if left1 > 0 then FreeTree(d1, w[i - 1], left1, l - 1) else (d1, left1)
  }

  // ---------- freeing disjoint blocks adds exactly them ----------

  // Disk d' is disk d after exactly the blocks `freed` went back to the free list.
  ghost predicate Freed(d: Store, d': Store, st: seq<Word>, st': seq<Word>, freed: multiset<Word>) {
    && FreeList(d', st')
    && CanFree(d')
    && multiset(st') == multiset(st) + freed
    && OnlyTouches(d, d', freed)
  }

  lemma FreedNothing(d: Store, st: seq<Word>)
    requires FreeList(d, st) && CanFree(d)
    ensures Freed(d, d, st, st, multiset{})
  {
  }

  lemma FreedTwice(d: Store, d1: Store, d2: Store, st: seq<Word>, s1: seq<Word>, s2: seq<Word>,
                   a: multiset<Word>, b: multiset<Word>)
    requires Freed(d, d1, st, s1, a) && Freed(d1, d2, s1, s2, b)
    ensures Freed(d, d2, st, s2, a + b)
  {
  }

  lemma FreeOne(d: Store, st: seq<Word>, b: Word) returns (st': seq<Word>)
    requires FreeList(d, st) && CanFree(d)
    requires FIRST_DATA_BLOCK <= b < NUM_OF_BLOCKS && Unique(multiset(st) + multiset{b})
    ensures Freed(d, Free(d, b), st, st', multiset{b})
  {
    assert (multiset(st) + multiset{b})[b] <= 1;
    FreePushes(d, st, b);
    GuardKept(d, b);
    st' := Inserted(st, Slot(d[FREE_LIST_BLOCK]), b);
    hide IsChain;
    forall x | 0 <= x < NUM_OF_BLOCKS && x != FREE_LIST_BLOCK && x !in multiset{b}
      ensures Free(d, b)[x] == d[x]
    {
      FreeFrame(d, b, x);
    }
  }

  lemma {:induction false} FreeEach(d: Store, st: seq<Word>, bs: seq<Word>) returns (st': seq<Word>)
    requires FreeList(d, st) && CanFree(d)
    requires InData(multiset(bs)) && Unique(multiset(st) + multiset(bs))
    ensures Freed(d, FreeAll(d, bs), st, st', multiset(bs))
    decreases |bs|
  {
    if bs == [] {
      st' := st;
    } else {
      hide FreeList, CanFree;
      assert bs == [bs[0]] + bs[1..];
      assert multiset(st) + multiset(bs) == multiset(st) + multiset{bs[0]} + multiset(bs[1..]);
      UniquePart(multiset(st) + multiset(bs), multiset(st) + multiset{bs[0]});
      InDataParts(multiset{bs[0]}, multiset(bs[1..]));
      assert bs[0] in multiset{bs[0]};
      var s1 := FreeOne(d, st, bs[0]);
      st' := FreeEach(Free(d, bs[0]), s1, bs[1..]);
      FreedTwice(d, Free(d, bs[0]), FreeAll(d, bs), st, s1, st', multiset{bs[0]}, multiset(bs[1..]));
    }
  }

  // ---------- diskBlockFree releases exactly the tree ----------

  // Leaves a release with `left` bytes to go takes from a tree of height l.
  function LeavesFor(l: nat, left: int): nat {
    if left <= 0 then 0 else if (left + 1023) / 1024 <= Cap(l) then (left + 1023) / 1024 else Cap(l)
  }

  // Leaves gone after i children.
  function Gone(l: nat, m: nat, i: nat): nat {
    if Times(l, i) < m then Times(l, i) else m
  }

  lemma GoneNext(l: nat, m: nat, i: nat, left: int)
    requires 1 <= l <= 3 && i < K && m == LeavesFor(l, left) && m > 0
    ensures var left1 := left - 1024 * Gone(l, m, i);
      && (left1 > 0 <==> Gone(l, m, i) < m)
      && (left1 > 0 ==> && Gone(l, m, i) == Times(l, i)
                        && 0 < LeavesFor(l - 1, left1)
                        && Gone(l, m, i + 1) == Gone(l, m, i) + LeavesFor(l - 1, left1))
      && (left1 <= 0 ==> Gone(l, m, i + 1) == Gone(l, m, i))
  {
  }

  // Children taken one after the other.
  lemma BelowNextChild(d: Store, w: Block, l: nat, i: nat, c: nat, low: nat)
    requires 1 <= l <= 3 && i < K && 0 < c <= Cap(l - 1) && low <= 1
    ensures Times(l, i) + c <= Cap(l)
    ensures Below(d, w, l, Times(l, i) + c, low)
            == Below(d, w, l, Times(l, i), low) + Nodes(d, w[i], l - 1, c, low)
  {
    hide *;
    ChildArith(l, i, c);
    BelowIs(d, w, l, Times(l, i), i, 0, low);
    if c < Cap(l - 1) {
      BelowIs(d, w, l, Times(l, i) + c, i, c, low);
    } else {
      BelowIs(d, w, l, Times(l, i) + c, i + 1, 0, low);
      FullNext(d, w, l, i, low);
    }
  }

  lemma ChildArith(l: nat, i: nat, c: nat)
    requires 1 <= l <= 3 && i < K && 0 < c <= Cap(l - 1)
    ensures Times(l, i) + c <= Cap(l)
    ensures Quot(l, Times(l, i)) == i && Rem(l, Times(l, i)) == 0
    ensures if c < Cap(l - 1) then Quot(l, Times(l, i) + c) == i && Rem(l, Times(l, i) + c) == c
            else Quot(l, Times(l, i) + c) == i + 1 && Rem(l, Times(l, i) + c) == 0
  {
  }

  // Blocks `owned` can be released: they are data blocks, none of them is free.
  ghost predicate Releasable(d: Store, st: seq<Word>, owned: multiset<Word>) {
    FreeList(d, st) && CanFree(d) && InData(owned) && Unique(multiset(st) + owned)
  }

  lemma ReleasablePart(d: Store, st: seq<Word>, a: multiset<Word>, b: multiset<Word>)
    requires Releasable(d, st, a + b)
    ensures Releasable(d, st, a)
  {
    InDataParts(a, b);
    UniquePart(multiset(st) + (a + b), multiset(st) + a);
  }

  // After a went back, b is still intact and can follow.
  lemma ReleasableRest(d: Store, d1: Store, st: seq<Word>, s1: seq<Word>, a: multiset<Word>, b: multiset<Word>)
    requires Releasable(d, st, a + b) && Freed(d, d1, st, s1, a)
    ensures Releasable(d1, s1, b) && SameOn(d, d1, b)
  {
    hide FreeList, CanFree;
    InDataParts(a, b);
    assert multiset(s1) + b == multiset(st) + (a + b);
    assert multiset(st) + multiset{} + (a + b) == multiset(st) + (a + b);
    UniqueSplit(multiset(st), multiset{}, a, b);
    Untouched(d, d1, a, b);
  }

  lemma {:induction false} FreeTreeReleases(d: Store, st: seq<Word>, root: Word, left: int, l: nat)
    returns (st': seq<Word>)
    requires l <= 3 && left > 0
    requires Releasable(d, st, Nodes(d, root, l, LeavesFor(l, left), 0))
    ensures var (d', left') := FreeTree(d, root, left, l);
      && Freed(d, d', st, st', Nodes(d, root, l, LeavesFor(l, left), 0))
      && left' == left - 1024 * LeavesFor(l, left)
    decreases l, 1, 0
  {
    if l == 0 {
      LeafOnly(d, root, left);
      st' := FreeOne(d, st, root);
    } else {
      var w, m := At(d, root), LeavesFor(l, left);
      TreeParts(d, root, l, left);
      GoneAll(l, m, left);
      hide *;
      var below := Below(d, w, l, m, 0);
      assert multiset{root} + below == below + multiset{root};
      ReleasablePart(d, st, below, multiset{root});
      var s1 := FreeKidsReleases(d, st, w, K, left, l);
      var d1 := FreeKids(d, w, K, left, l).0;
      ReleasableRest(d, d1, st, s1, below, multiset{root});
      st' := FreeRoot(d1, s1, root);
      FreedTwice(d, d1, Free(d1, root), st, s1, st', below, multiset{root});
      FreeTreeUnfold(d, root, left, l);
    }
  }

  // What a release leaves of the size does not depend on the disk.
  lemma {:induction false} TreeLeft(d: Store, root: Word, left: int, l: nat)
    requires l <= 3 && left > 0
    ensures FreeTree(d, root, left, l).1 == left - 1024 * LeavesFor(l, left)
    decreases l, 1, 0
  {
    if l == 0 {
      LeafOnly(d, root, left);
    } else {
      TreeParts(d, root, l, left);
      GoneAll(l, LeavesFor(l, left), left);
      FreeTreeUnfold(d, root, left, l);
      hide *;
      Values();
      KidsLeft(d, At(d, root), K, left, l);
    }
  }

  lemma {:induction false} KidsLeft(d: Store, w: Block, i: nat, left: int, l: nat)
    requires 1 <= l <= 3 && i <= K && left > 0
    ensures FreeKids(d, w, i, left, l).1 == left - 1024 * Gone(l, LeavesFor(l, left), i)
    decreases l, 0, i
  {
    hide *;
    Values();
    LeavesPositive(l, left);
    if i > 0 {
      GoneNext(l, LeavesFor(l, left), i - 1, left);
      KidsUnfold(d, w, i, left, l);
      KidsLeft(d, w, i - 1, left, l);
      var (d1, left1) := FreeKids(d, w, i - 1, left, l);
      if left1 > 0 {
        TreeLeft(d1, w[i - 1], left1, l - 1);
      }
    } else {
      NoneYet(d, w, left, l);
    }
  }

  lemma NoneYet(d: Store, w: Block, left: int, l: nat)
    requires 1 <= l <= 3 && left > 0
    ensures FreeKids(d, w, 0, left, l) == (d, left) && Gone(l, LeavesFor(l, left), 0) == 0
  {
  }

  lemma LeafOnly(d: Store, root: Word, left: int)
    requires left > 0
    ensures LeavesFor(0, left) == 1 && Nodes(d, root, 0, 1, 0) == multiset{root}
  {
  }

  lemma TreeParts(d: Store, root: Word, l: nat, left: int)
    requires 1 <= l <= 3 && left > 0
    ensures 0 < LeavesFor(l, left) <= Cap(l)
    ensures Nodes(d, root, l, LeavesFor(l, left), 0)
            == multiset{root} + Below(d, At(d, root), l, LeavesFor(l, left), 0)
  {
  }

  lemma GoneAll(l: nat, m: nat, left: int)
    requires 1 <= l <= 3 && m == LeavesFor(l, left) && m > 0
    ensures Gone(l, m, K) == m
  {
  }

  lemma FreeRoot(d: Store, st: seq<Word>, root: Word) returns (st': seq<Word>)
    requires Releasable(d, st, multiset{root})
    ensures Freed(d, Free(d, root), st, st', multiset{root})
  {
    assert root in multiset{root};
    st' := FreeOne(d, st, root);
  }

  lemma FreeTreeUnfold(d: Store, root: Word, left: int, l: nat)
    requires l > 0
    ensures var (d1, left1) := FreeKids(d, At(d, root), K, left, l);
            FreeTree(d, root, left, l) == (Free(d1, root), left1)
  {
  }

  lemma {:induction false} FreeKidsReleases(d: Store, st: seq<Word>, w: Block, i: nat, left: int, l: nat)
    returns (st': seq<Word>)
    requires 1 <= l <= 3 && i <= K && left > 0
    requires Gone(l, LeavesFor(l, left), i) <= Cap(l)
    requires Releasable(d, st, Below(d, w, l, Gone(l, LeavesFor(l, left), i), 0))
    ensures var (d', left') := FreeKids(d, w, i, left, l);
      && Freed(d, d', st, st', Below(d, w, l, Gone(l, LeavesFor(l, left), i), 0))
      && left' == left - 1024 * Gone(l, LeavesFor(l, left), i)
    decreases l, 0, i
  {
    hide *;
    var m := LeavesFor(l, left);
    if i == 0 {
      NoneGone(d, w, l, m, left);
      NothingReleased(d, st);
      st' := st;
    } else {
      var n := Gone(l, m, i - 1);
      LeavesPositive(l, left);
      GoneNext(l, m, i - 1, left);
      KidsUnfold(d, w, i, left, l);
      if left - 1024 * n > 0 {
        var c := LeavesFor(l - 1, left - 1024 * n);
        LeavesFit(l - 1, left - 1024 * n);
        BelowNextChild(d, w, l, i - 1, c, 0);
        var done, child := Below(d, w, l, n, 0), Nodes(d, w[i - 1], l - 1, c, 0);
        ReleasablePart(d, st, done, child);
        var s1 := FreeKidsReleases(d, st, w, i - 1, left, l);
        var d1 := FreeKids(d, w, i - 1, left, l).0;
        ReleasableRest(d, d1, st, s1, done, child);
        SameNodes(d, d1, w[i - 1], l - 1, c);
        var st2 := FreeTreeReleases(d1, s1, w[i - 1], left - 1024 * n, l - 1);
        FreedTwice(d, d1, FreeTree(d1, w[i - 1], left - 1024 * n, l - 1).0, st, s1, st2, done, child);
        st' := st2;
      } else {
        st' := FreeKidsReleases(d, st, w, i - 1, left, l);
      }
    }
  }

  lemma NothingReleased(d: Store, st: seq<Word>)
    requires Releasable(d, st, multiset{})
    ensures Freed(d, d, st, st, multiset{})
  {
    FreedNothing(d, st);
  }

  lemma NoneGone(d: Store, w: Block, l: nat, m: nat, left: int)
    requires 1 <= l <= 3
    ensures Gone(l, m, 0) == 0 && Below(d, w, l, 0, 0) == multiset{}
    ensures FreeKids(d, w, 0, left, l) == (d, left)
  {
    BelowNone(d, w, l, 0);
  }

  lemma LeavesPositive(l: nat, left: int)
    requires left > 0
    ensures LeavesFor(l, left) > 0
  {
  }

  lemma LeavesFit(l: nat, left: int)
    requires l <= 3
    ensures LeavesFor(l, left) <= Cap(l)
  {
  }

  lemma KidsUnfold(d: Store, w: Block, i: nat, left: int, l: nat)
    requires 0 < i <= K && l > 0
    ensures var (d1, left1) := FreeKids(d, w, i - 1, left, l);
            FreeKids(d, w, i, left, l)
            == if left1 > 0 then FreeTree(d1, w[i - 1], left1, l - 1) else (d1, left1)
  {
  }

  // A tree that is intact owns the same blocks.
  lemma SameNodes(d: Store, d': Store, root: Word, l: nat, m: nat)
    requires l <= 3 && m <= Cap(l) && SameOn(d, d', Nodes(d, root, l, m, 0))
    ensures Nodes(d', root, l, m, 0) == Nodes(d, root, l, m, 0)
  {
    hide Walk, Cap, Digits, SameOn, Spine, Nodes;
    NodesSplit(d, root, l, m);
    SameOnPart(d, d', Nodes(d, root, l, m, 0), Nodes(d, root, l, m, 1));
    NodesFrame(d, d', root, l, m, 0);
  }

  // ---------- freeNeededBlocks notes down exactly the spine ----------

  lemma CollectStep(d: Store, cur: Word, l: nat, m: nat, buffer: Block)
    requires 1 <= l <= 3 && m < Cap(l)
    ensures Quot(l, m) < K && Rem(l, m) < Cap(l - 1)
    ensures Offsets(Digits(l, m)) && Offsets(Digits(l - 1, Rem(l, m)))
    ensures var w := Fetch(d, cur, buffer);
            Collect(d, cur, Digits(l, m), buffer)
            == (if m == 0 then [cur] else []) + Collect(d, w[Quot(l, m)], Digits(l - 1, Rem(l, m)), w)
  {
    QuotRem(l, m);
    DigitsValid(l, m);
    DigitsValid(l - 1, Rem(l, m));
    ZeroDigits(l, m);
    hide Cap, Rem, Quot, Fetch;
    assert Digits(l, m)[1..] == Digits(l - 1, Rem(l, m));
  }

  // How many blocks it notes down depends on the offsets alone.
  lemma {:induction false} CollectLength(d: Store, cur: Word, l: nat, m: nat, buffer: Block)
    requires l <= 3 && m < Cap(l)
    ensures Offsets(Digits(l, m)) && |Collect(d, cur, Digits(l, m), buffer)| == NewNodes(l, m)
    decreases l
  {
    if l == 0 {
      assert Digits(0, m) == [];
    } else {
      hide Cap, Rem, Quot, Digits, Collect, Fetch;
      CollectStep(d, cur, l, m, buffer);
      var w := Fetch(d, cur, buffer);
      CollectLength(d, w[Quot(l, m)], l - 1, Rem(l, m), w);
    }
  }

  lemma {:induction false} CollectIsSpine(d: Store, root: Word, l: nat, m: nat, buffer: Block)
    requires l <= 3 && m < Cap(l) && InData(Nodes(d, root, l, m + 1, 1))
    ensures Offsets(Digits(l, m)) && Collect(d, root, Digits(l, m), buffer) == Spine(d, root, Digits(l, m))
    decreases l
  {
    hide *;
    Values();
    if l == 0 {
      NoOffsets(d, root, m, buffer);
    } else {
      CollectStep(d, root, l, m, buffer);
      WalkStep(d, root, l, m);
      NodesParts(d, root, l, m + 1, 1);
      BelowGrows(d, At(d, root), l, m, 1);
      var child := Nodes(d, At(d, root)[Quot(l, m)], l - 1, Rem(l, m) + 1, 1);
      InDataParts(multiset{root}, Below(d, At(d, root), l, m + 1, 1));
      InDataParts(Full(d, At(d, root), l, Quot(l, m), 1), child);
      RootFetched(d, root, buffer);
      CollectIsSpine(d, At(d, root)[Quot(l, m)], l - 1, Rem(l, m), At(d, root));
    }
  }

  lemma NoOffsets(d: Store, root: Word, m: nat, buffer: Block)
    ensures Digits(0, m) == [] && Offsets([])
    ensures Collect(d, root, Digits(0, m), buffer) == Spine(d, root, Digits(0, m))
  {
    assert Digits(0, m) == [];
  }

  lemma RootFetched(d: Store, root: Word, buffer: Block)
    requires InData(multiset{root})
    ensures Fetch(d, root, buffer) == At(d, root)
  {
    assert root in multiset{root};
  }
}
