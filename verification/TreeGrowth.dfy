/**
  allocateAllNeededBlocks of src/incoreInodeOps/iNodeManager.c: hanging a new data block into
  a tree, taking indirect blocks from the free list where the new leaf is the first to need
  them.
 */
module TreeGrowth {
  import opened Params
  import opened Disk
  import opened Bags
  import opened FreeChain
  import opened BlockPath
  import opened BlockTree

  // ---------- the code, as functions ----------

  function AllocateIfNeeded(d: Store, offs: seq<nat>): (Store, Word) {
    if AllZero(offs) then Alloc(d) else (d, 0)
  }

  // The loop, from the point where block `parent` is in the buffer as `w`.
  function GrowBelow(d: Store, parent: Word, w: Block, offs: seq<nat>, add: Word): Store
    requires Offsets(offs) && offs != []
    decreases |offs|
  {
    if |offs| == 1 then Put(d, parent, w[offs[0] := add])
    else
      var (d1, a) := AllocateIfNeeded(d, offs[1..]);
      if a != 0 then
        var w1 := w[offs[0] := a];
        var d2 := Put(d1, parent, w1);
        GrowBelow(d2, a, Fetch(d2, a, w1), offs[1..], add)
      else
        GrowBelow(d1, w[offs[0]], Fetch(d1, w[offs[0]], w), offs[1..], add)
  }

  // The whole function: the disk afterwards and the new value of the root slot.
  function Grow(d: Store, cur: Word, offs: seq<nat>, add: Word): (Store, Word)
    requires Offsets(offs) && offs != []
  {
    var (d1, a) := AllocateIfNeeded(d, offs);
    var root := if a != 0 then a else cur;
    (GrowBelow(d1, root, At(d1, root), offs, add), root)
  }

  // ---------- what it does to the tree ----------

  ghost predicate InData(m: multiset<Word>) {
    forall x :: x in m ==> FIRST_DATA_BLOCK <= x < NUM_OF_BLOCKS
  }

  // Nothing outside the list head and `touched` differs.
  ghost predicate OnlyTouches(d: Store, d': Store, touched: multiset<Word>) {
    forall x :: 0 <= x < NUM_OF_BLOCKS && x != FREE_LIST_BLOCK && x !in touched ==> d'[x] == d[x]
  }

  ghost predicate SameLeaf(d: Store, d': Store, c: Word, c': Word, l: nat, j: nat)
    requires l <= 3 && j < Cap(l)
  {
    DigitsValid(l, j);
    Walk(d', c', Digits(l, j)) == Walk(d, c, Digits(l, j))
  }

  // The tree at c in disk d has become the tree at c' in disk d' by gaining leaf m: its
  // first m leaves and their indirect blocks are as before, and exactly the blocks `taken`
  // joined it, as the spine of the new leaf.
  ghost predicate Grown(d: Store, d': Store, c: Word, c': Word, l: nat, m: nat, taken: seq<Word>, add: Word)
    requires l <= 3 && m < Cap(l)
  {
    DigitsValid(l, m);
    && Nodes(d', c', l, m, 1) == Nodes(d, c, l, m, 1)
    && Spine(d', c', Digits(l, m)) == taken
    && Walk(d', c', Digits(l, m)) == add
    && forall j :: 0 <= j < m ==> SameLeaf(d, d', c, c', l, j)
  }

  lemma GrownLeaf(d: Store, d': Store, c: Word, add: Word)
    ensures Grown(d, d', c, add, 0, 0, [], add)
  {
    assert Digits(0, 0) == [];
    NodesNone(d, c, 0, 0, 1);
    NodesNone(d', add, 0, 0, 1);
  }

  // Child q of a node gained a leaf and the children before it are untouched.
  ghost predicate ChildGrown(d: Store, d': Store, w: Block, w': Block, l: nat, m: nat, taken: seq<Word>, add: Word)
    requires 1 <= l <= 3 && m < Cap(l)
  {
    QuotRem(l, m);
    var q, r := Quot(l, m), Rem(l, m);
    && w'[..q] == w[..q]
    && SameOn(d, d', Full(d, w, l, q, 1))
    && Grown(d, d', w[q], w'[q], l - 1, r, taken, add)
  }

  lemma ChildLeafSame(d: Store, d': Store, w: Block, w': Block, l: nat, m: nat, taken: seq<Word>, add: Word, j: nat)
    requires 1 <= l <= 3 && j < m < Cap(l)
    requires ChildGrown(d, d', w, w', l, m, taken, add)
    ensures Quot(l, j) < K && Rem(l, j) < Cap(l - 1)
    ensures SameLeaf(d, d', w[Quot(l, j)], w'[Quot(l, j)], l - 1, Rem(l, j))
  {
    hide *;
    Values();
    QuotRem(l, m);
    QuotRem(l, j);
    QuotOrder(l, j, m);
    var q, i, r := Quot(l, m), Quot(l, j), Rem(l, j);
    ChildGrownIs(d, d', w, w', l, m, taken, add);
    if i < q {
      assert w[i] == w[..q][i] == w'[..q][i];
      FullLeafSame(d, d', w, l, q, i, r);
    } else {
      GrownSame(d, d', w[q], w'[q], l - 1, Rem(l, m), taken, add, r);
    }
  }

  lemma ChildGrownIs(d: Store, d': Store, w: Block, w': Block, l: nat, m: nat, taken: seq<Word>, add: Word)
    requires 1 <= l <= 3 && m < Cap(l)
    requires ChildGrown(d, d', w, w', l, m, taken, add)
    ensures Quot(l, m) < K && Rem(l, m) < Cap(l - 1)
    ensures w'[..Quot(l, m)] == w[..Quot(l, m)]
    ensures SameOn(d, d', Full(d, w, l, Quot(l, m), 1))
    ensures Grown(d, d', w[Quot(l, m)], w'[Quot(l, m)], l - 1, Rem(l, m), taken, add)
  {
    QuotRem(l, m);
    hide Quot, Rem, Full, Grown, SameOn;
  }

  lemma GrownSame(d: Store, d': Store, c: Word, c': Word, l: nat, m: nat, taken: seq<Word>, add: Word, j: nat)
    requires l <= 3 && j < m < Cap(l) && Grown(d, d', c, c', l, m, taken, add)
    ensures SameLeaf(d, d', c, c', l, j)
  {
    hide Walk, Nodes, Spine, Digits, SameLeaf;
  }

  lemma FullLeafSame(d: Store, d': Store, w: Block, l: nat, q: nat, i: nat, r: nat)
    requires 1 <= l <= 3 && i < q <= K && r < Cap(l - 1)
    requires SameOn(d, d', Full(d, w, l, q, 1))
    ensures SameLeaf(d, d', w[i], w[i], l - 1, r)
  {
    hide *;
    Values();
    if l > 1 {
      FullHasChild(d, w, l, q, i, 1);
      SameOnPart(d, d', Full(d, w, l, q, 1), Nodes(d, w[i], l - 1, Cap(l - 1), 1));
    } else {
      NodesNone(d, w[i], l - 1, Cap(l - 1), 1);
      SameOnNone(d, d');
    }
    WalkFrame(d, d', w[i], l - 1, Cap(l - 1), r);
    SameLeafIs(d, d', w[i], l - 1, r);
  }

  lemma SameLeafIs(d: Store, d': Store, c: Word, l: nat, j: nat)
    requires l <= 3 && j < Cap(l) && Offsets(Digits(l, j)) && Walk(d', c, Digits(l, j)) == Walk(d, c, Digits(l, j))
    ensures SameLeaf(d, d', c, c, l, j)
  {
  }

  lemma SameOnNone(d: Store, d': Store)
    ensures SameOn(d, d', multiset{})
  {
  }

  lemma QuotOrder(l: nat, j: nat, m: nat)
    requires 1 <= l <= 3 && j < m
    ensures Quot(l, j) < Quot(l, m) || (Quot(l, j) == Quot(l, m) && Rem(l, j) < Rem(l, m))
  {
  }

  // A child's growth is the node's growth.
  lemma GrownNode(d: Store, d': Store, c: Word, l: nat, m: nat, taken: seq<Word>, add: Word)
    requires 1 <= l <= 3 && m < Cap(l)
    requires ChildGrown(d, d', At(d, c), At(d', c), l, m, taken, add)
    ensures Grown(d, d', c, c, l, m, (if m == 0 then [c] else []) + taken, add)
  {
    var w, w' := At(d, c), At(d', c);
    QuotRem(l, m);
    SameIndirect(d, d', c, l, m, taken, add);
    forall j {:trigger SameLeaf(d, d', c, c, l, j)} | 0 <= j < m
      ensures SameLeaf(d, d', c, c, l, j)
    {
      ChildLeafSame(d, d', w, w', l, m, taken, add, j);
      WalkStep(d, c, l, j);
      WalkStep(d', c, l, j);
    }
    hide Nodes, Full, Walk, Cap, Quot, Rem, Digits, Spine, SameOn;
    WalkStep(d', c, l, m);
  }

  lemma SameIndirect(d: Store, d': Store, c: Word, l: nat, m: nat, taken: seq<Word>, add: Word)
    requires 1 <= l <= 3 && m < Cap(l)
    requires ChildGrown(d, d', At(d, c), At(d', c), l, m, taken, add)
    ensures Nodes(d', c, l, m, 1) == Nodes(d, c, l, m, 1)
  {
    var w, w' := At(d, c), At(d', c);
    hide Nodes, Full, Walk, Cap, Quot, Rem, Digits, Spine, SameOn, SameLeaf, Below;
    BelowGrows(d, w, l, m, 1);
    BelowGrows(d', w', l, m, 1);
    FullFrame(d, d', w, w', l, Quot(l, m), 1);
    if m == 0 {
      NodesNone(d, c, l, m, 1);
      NodesNone(d', c, l, m, 1);
    } else {
      NodesParts(d, c, l, m, 1);
      NodesParts(d', c, l, m, 1);
    }
  }

  // ---------- the loop grows the tree ----------

  // Node `c`, of height l and with m leaves, is on disk; it, its indirect blocks and the free
  // list `st` share no block.
  ghost predicate Apart(d: Store, st: seq<Word>, c: Word, l: nat, m: nat)
    requires 1 <= l <= 3 && m < Cap(l)
  {
    && FreeList(d, st)
    && InData(multiset{c} + Below(d, At(d, c), l, m, 1))
    && Unique(multiset(st) + multiset{c} + Below(d, At(d, c), l, m, 1))
  }

  ghost function BelowNew(l: nat, m: nat): nat
    requires 1 <= l
  {
    NewNodes(l - 1, Rem(l, m))
  }

  ghost predicate LoopGrows(d: Store, d': Store, st: seq<Word>, c: Word, l: nat, m: nat, add: Word)
    requires 1 <= l <= 3 && m < Cap(l)
  {
    var n := BelowNew(l, m);
    && n <= |st|
    && FreeList(d', st[n..])
    && ChildGrown(d, d', At(d, c), At(d', c), l, m, st[..n], add)
    && OnlyTouches(d, d', multiset(st[..n]) + multiset{c} + Below(d, At(d, c), l, m, 1))
  }

  lemma LoopLast(d: Store, st: seq<Word>, c: Word, m: nat, add: Word)
    requires m < Cap(1) && Apart(d, st, c, 1, m)
    ensures Offsets(Digits(1, m)) && Digits(1, m) == [m]
    ensures LoopGrows(d, GrowBelow(d, c, At(d, c), Digits(1, m), add), st, c, 1, m, add)
  {
    UnfoldDigits(1, m);
    var w := At(d, c);
    assert c in multiset{c} + Below(d, w, 1, m, 1);
    var w' := w[m := add];
    var d' := Put(d, c, w');
    assert BelowNew(1, m) == 0;
    assert st[..0] == [] && st[0..] == st;
    UniqueApart(multiset{c}, multiset(st), c) by {
      UniquePart(multiset(st) + multiset{c} + Below(d, w, 1, m, 1), multiset{c} + multiset(st));
    }
    FreeListFrame(d, d', st);
    GrownLeaf(d, d', w[m], add);
    assert Full(d, w, 1, m, 1) == multiset{};
  }

  lemma BelowParts(d: Store, w: Block, l: nat, m: nat)
    requires 2 <= l <= 3 && m < Cap(l)
    ensures Quot(l, m) < K && Rem(l, m) < Cap(l - 1)
    ensures var q, r := Quot(l, m), Rem(l, m);
      && (r == 0 ==> Below(d, w, l, m, 1) == Full(d, w, l, q, 1))
      && (r != 0 ==> Below(d, w, l, m, 1)
                     == Full(d, w, l, q, 1) + (multiset{w[q]} + Below(d, At(d, w[q]), l - 1, r, 1)))
  {
    hide Full, Cap, Quot, Rem;
    BelowGrows(d, w, l, m, 1);
    var q, r := Quot(l, m), Rem(l, m);
    if r == 0 {
      NodesNone(d, w[q], l - 1, 0, 1);
    } else {
      NodesParts(d, w[q], l - 1, r, 1);
    }
  }

  lemma UniqueSplit(a: multiset<Word>, b: multiset<Word>, c: multiset<Word>, e: multiset<Word>)
    requires Unique(a + b + (c + e))
    ensures Unique(a + e)
    ensures forall x :: x in a + b ==> x !in c + e
    ensures forall x :: x in c ==> x !in a + e
    ensures forall x :: x in b ==> x !in a + e
  {
    UniquePart(a + b + (c + e), a + e);
    forall x | x in a + b
      ensures x !in c + e
    {
      UniqueApart(a + b, c + e, x);
    }
    assert a + b + (c + e) == c + (a + e) + b == b + (a + e) + c;
    UniquePart(c + (a + e) + b, c + (a + e));
    UniquePart(b + (a + e) + c, b + (a + e));
    forall x | x in c
      ensures x !in a + e
    {
      UniqueApart(c, a + e, x);
    }
    forall x | x in b
      ensures x !in a + e
    {
      UniqueApart(b, a + e, x);
    }
  }

  lemma InDataParts(a: multiset<Word>, b: multiset<Word>)
    requires InData(a + b)
    ensures InData(a) && InData(b)
  {
    assert forall x :: x in a || x in b ==> x in a + b;
  }

  lemma InDataJoin(a: multiset<Word>, b: multiset<Word>)
    requires InData(a) && InData(b)
    ensures InData(a + b)
  {
  }

  // A block that is in no touched set still holds what it held.
  lemma Untouched(d: Store, d': Store, touched: multiset<Word>, kept: multiset<Word>)
    requires OnlyTouches(d, d', touched) && InData(kept)
    requires forall x :: x in kept ==> x !in touched
    ensures SameOn(d, d', kept)
  {
  }

  lemma ExistingReady(d: Store, st: seq<Word>, c: Word, l: nat, m: nat)
    requires 2 <= l <= 3 && m < Cap(l) && Rem(l, m) != 0 && Apart(d, st, c, l, m)
    ensures Quot(l, m) < K && Rem(l, m) < Cap(l - 1)
    ensures Apart(d, st, At(d, c)[Quot(l, m)], l - 1, Rem(l, m))
    ensures BelowNew(l, m) == BelowNew(l - 1, Rem(l, m))
  {
    assert BelowNew(l, m) == BelowNew(l - 1, Rem(l, m));
    ExistingApart(d, st, c, l, m);
  }

  lemma ExistingApart(d: Store, st: seq<Word>, c: Word, l: nat, m: nat)
    requires 2 <= l <= 3 && m < Cap(l) && Rem(l, m) != 0 && Apart(d, st, c, l, m)
    ensures Quot(l, m) < K && Rem(l, m) < Cap(l - 1)
    ensures Apart(d, st, At(d, c)[Quot(l, m)], l - 1, Rem(l, m))
  {
    hide *;
    Values();
    var w := At(d, c);
    QuotRem(l, m);
    var q, r := Quot(l, m), Rem(l, m);
    BelowParts(d, w, l, m);
    ApartParts(d, st, c, l, m);
    var rest, below := Full(d, w, l, q, 1), Below(d, At(d, w[q]), l - 1, r, 1);
    var child := multiset{w[q]} + below;
    assert multiset(st) + multiset{c} + (rest + child) == multiset(st) + multiset{c} + Below(d, w, l, m, 1);
    UniqueSplit(multiset(st), multiset{c}, rest, child);
    InDataParts(multiset{c}, rest + child);
    InDataParts(rest, child);
    assert multiset(st) + child == multiset(st) + multiset{w[q]} + below;
    ApartIs(d, st, w[q], l - 1, r);
  }

  lemma ApartParts(d: Store, st: seq<Word>, c: Word, l: nat, m: nat)
    requires 1 <= l <= 3 && m < Cap(l) && Apart(d, st, c, l, m)
    ensures FreeList(d, st)
    ensures InData(multiset{c} + Below(d, At(d, c), l, m, 1))
    ensures Unique(multiset(st) + multiset{c} + Below(d, At(d, c), l, m, 1))
  {
  }

  lemma ExistingGrows(d: Store, d': Store, st: seq<Word>, c: Word, l: nat, m: nat, add: Word)
    requires 2 <= l <= 3 && m < Cap(l) && Rem(l, m) != 0 && Apart(d, st, c, l, m)
    requires Quot(l, m) < K && Rem(l, m) < Cap(l - 1)
    requires LoopGrows(d, d', st, At(d, c)[Quot(l, m)], l - 1, Rem(l, m), add)
    ensures LoopGrows(d, d', st, c, l, m, add)
  {
    var w := At(d, c);
    var q, r, n := Quot(l, m), Rem(l, m), BelowNew(l, m);
    ExistingReady(d, st, c, l, m);
    BelowParts(d, w, l, m);
    hide Full, Cap, Quot, Rem, Nodes, Below, FreeList, BelowNew, Grown, Walk, Spine, Digits, SameOn, ChildGrown;
    var rest := Full(d, w, l, q, 1);
    var child := multiset{w[q]} + Below(d, At(d, w[q]), l - 1, r, 1);
    var touched := multiset(st[..n]) + multiset{w[q]} + Below(d, At(d, w[q]), l - 1, r, 1);
    assert multiset(st) + multiset{c} + Below(d, w, l, m, 1) == multiset(st) + multiset{c} + (rest + child);
    UniqueSplit(multiset(st), multiset{c}, rest, child);
    InDataParts(multiset{c}, Below(d, w, l, m, 1));
    InDataParts(rest, child);
    PrefixBag(st, n);
    assert forall x :: x in touched ==> x in multiset(st) + child;
    Untouched(d, d', touched, rest);
    Untouched(d, d', touched, multiset{c});
    assert At(d', c) == w by {
      assert c in multiset{c};
      SameOnRoot(d, d', c);
    }
    GrownNode(d, d', w[q], l - 1, r, st[..n], add);
    assert [] + st[..n] == st[..n];
    NodeGrows(d, d', w, w, l, m, st[..n], add);
  }

  lemma NodeGrows(d: Store, d': Store, w: Block, w': Block, l: nat, m: nat, taken: seq<Word>, add: Word)
    requires 1 <= l <= 3 && m < Cap(l) && Quot(l, m) < K && Rem(l, m) < Cap(l - 1)
    requires w'[..Quot(l, m)] == w[..Quot(l, m)]
    requires SameOn(d, d', Full(d, w, l, Quot(l, m), 1))
    requires Grown(d, d', w[Quot(l, m)], w'[Quot(l, m)], l - 1, Rem(l, m), taken, add)
    ensures ChildGrown(d, d', w, w', l, m, taken, add)
  {
  }

  lemma SameOnRoot(d: Store, d': Store, c: Word)
    requires SameOn(d, d', multiset{c})
    ensures At(d', c) == At(d, c)
  {
    assert c in multiset{c};
  }

  lemma PrefixBag(st: seq<Word>, n: nat)
    requires n <= |st|
    ensures multiset(st) == multiset(st[..n]) + multiset(st[n..])
  {
    assert st == st[..n] + st[n..];
  }

  // The disk after an indirect block `a` was taken for slot q of node c.
  function Linked(d: Store, c: Word, q: nat): Store
    requires q < K
  {
    var (d1, a) := Alloc(d);
    Put(d1, c, At(d, c)[q := a])
  }

  lemma FreshReady(d: Store, st: seq<Word>, c: Word, l: nat, m: nat)
    requires 2 <= l <= 3 && m < Cap(l) && Rem(l, m) == 0 && Apart(d, st, c, l, m) && st != []
    ensures Quot(l, m) < K && 0 < Cap(l - 1)
    ensures var d2 := Linked(d, c, Quot(l, m));
      && Alloc(d).1 == st[0]
      && Apart(d2, st[1..], st[0], l - 1, 0)
      && OnlyTouches(d, d2, multiset{c})
      && At(d2, c) == At(d, c)[Quot(l, m) := st[0]]
    ensures BelowNew(l, m) == 1 + BelowNew(l - 1, 0)
  {
    assert BelowNew(l, m) == 1 + BelowNew(l - 1, 0);
    QuotRem(l, m);
    var w := At(d, c);
    hide Full, Cap, Quot, Rem, Nodes, Below, BelowNew, Alloc, IsChain, Linked, Fetch;
    InDataParts(multiset{c}, Below(d, w, l, m, 1));
    assert c in multiset{c};
    UniquePart(multiset(st) + multiset{c} + Below(d, w, l, m, 1), multiset{c} + multiset(st));
    UniqueApart(multiset{c}, multiset(st), c);
    var d2 := Linked(d, c, Quot(l, m));
    LinkedFree(d, st, c, Quot(l, m));
    BelowNone(d2, At(d2, st[0]), l - 1, 1);
    FreshBag(st);
  }

  lemma LinkedFree(d: Store, st: seq<Word>, c: Word, q: nat)
    requires FreeList(d, st) && st != [] && FIRST_DATA_BLOCK <= c < NUM_OF_BLOCKS && c !in st && q < K
    ensures var d2 := Linked(d, c, q);
      && Alloc(d).1 == st[0] && st[0] != 0
      && FreeList(d2, st[1..])
      && OnlyTouches(d, d2, multiset{c})
      && At(d2, c) == At(d, c)[q := st[0]]
  {
    AllocPops(d, st);
    hide Alloc, IsChain;
    var d1, d2 := Alloc(d).0, Linked(d, c, q);
    assert forall i :: 0 <= i < |st[1..]| ==> st[1..][i] == st[i + 1];
    FreeListFrame(d1, d2, st[1..]);
  }

  lemma FreshBag(st: seq<Word>)
    requires st != [] && Unique(multiset(st)) && DataBlocks(st)
    ensures InData(multiset{st[0]} + multiset{})
    ensures Unique(multiset(st[1..]) + multiset{st[0]} + multiset{})
  {
    assert st == [st[0]] + st[1..];
    assert multiset(st[1..]) + multiset{st[0]} + multiset{} == multiset(st);
  }

  lemma LoopFrom(d: Store, d': Store, st: seq<Word>, c: Word, l: nat, m: nat, add: Word, n: nat)
    requires 1 <= l <= 3 && m < Cap(l) && n == BelowNew(l, m) <= |st| && FreeList(d', st[n..])
    requires ChildGrown(d, d', At(d, c), At(d', c), l, m, st[..n], add)
    requires OnlyTouches(d, d', multiset(st[..n]) + multiset{c} + Below(d, At(d, c), l, m, 1))
    ensures LoopGrows(d, d', st, c, l, m, add)
  {
    hide FreeList, Below, ChildGrown, BelowNew, OnlyTouches;
  }

  lemma FreshTouches(d: Store, d2: Store, d': Store, st: seq<Word>, n1: nat, c: Word)
    requires n1 < |st| && OnlyTouches(d, d2, multiset{c})
    requires OnlyTouches(d2, d', multiset(st[1..][..n1]) + multiset{st[0]} + multiset{})
    ensures OnlyTouches(d, d', multiset(st[..1 + n1]) + multiset{c})
  {
    TakeOne(st, n1);
  }

  lemma FreshRest(d: Store, d': Store, st: seq<Word>, n: nat, c: Word, rest: multiset<Word>)
    requires n <= |st| && OnlyTouches(d, d', multiset(st[..n]) + multiset{c}) && InData(multiset{c} + rest)
    requires Unique(multiset(st) + multiset{c} + rest)
    ensures SameOn(d, d', rest)
  {
    hide OnlyTouches, SameOn, InData, Unique;
    PrefixBag(st, n);
    assert multiset(st) + multiset{c} + rest == multiset(st) + multiset{c} + (rest + multiset{});
    UniqueSplit(multiset(st), multiset{c}, rest, multiset{});
    InDataParts(multiset{c}, rest);
    Untouched(d, d', multiset(st[..n]) + multiset{c}, rest);
  }

  lemma FreshRoot(d2: Store, d': Store, st: seq<Word>, n1: nat, c: Word, rest: multiset<Word>)
    requires n1 < |st| && OnlyTouches(d2, d', multiset(st[1..][..n1]) + multiset{st[0]} + multiset{})
    requires InData(multiset{c} + rest) && Unique(multiset(st) + multiset{c} + rest)
    ensures At(d', c) == At(d2, c)
  {
    TakeOne(st, n1);
    PrefixBag(st, 1 + n1);
    assert c in multiset{c} + rest;
    assert multiset(st) + multiset{c} + rest == multiset{c} + (multiset(st) + rest);
    assert c in multiset{c};
    UniqueApart(multiset{c}, multiset(st) + rest, c);
  }

  lemma FreshGrows(d: Store, d': Store, st: seq<Word>, c: Word, l: nat, m: nat, add: Word)
    requires 2 <= l <= 3 && m < Cap(l) && Rem(l, m) == 0 && Apart(d, st, c, l, m) && st != []
    requires Quot(l, m) < K && 0 < Cap(l - 1)
    requires LoopGrows(Linked(d, c, Quot(l, m)), d', st[1..], st[0], l - 1, 0, add)
    ensures LoopGrows(d, d', st, c, l, m, add)
  {
    hide *;
    Values();
    var w := At(d, c);
    var q, n1 := Quot(l, m), BelowNew(l - 1, 0);
    var d2, n := Linked(d, c, q), 1 + n1;
    var rest := Full(d, w, l, q, 1);
    FreshReady(d, st, c, l, m);
    BelowParts(d, w, l, m);
    BelowNone(d2, At(d2, st[0]), l - 1, 1);
    LoopGrowsIs(d2, d', st[1..], st[0], l - 1, 0, add);
    ApartParts(d, st, c, l, m);
    assert Below(d, w, l, m, 1) == rest by { assert rest + multiset{} == rest; }
    TakeOne(st, n1);
    FreshTouches(d, d2, d', st, n1, c);
    FreshRest(d, d', st, n, c, rest);
    FreshRoot(d2, d', st, n1, c, rest);
    GrownNode(d2, d', st[0], l - 1, 0, st[1..][..n1], add);
    FreshChild(d, d2, d', w[q], st[0], l - 1, st[..n], add);
    NodeGrows(d, d', w, w[q := st[0]], l, m, st[..n], add);
    TouchesMore(d, d', multiset(st[..n]) + multiset{c}, Below(d, w, l, m, 1));
    LoopFrom(d, d', st, c, l, m, add, n);
  }

  lemma TouchesMore(d: Store, d': Store, a: multiset<Word>, b: multiset<Word>)
    requires OnlyTouches(d, d', a)
    ensures OnlyTouches(d, d', a + b)
  {
  }

  lemma TakeOne(st: seq<Word>, n: nat)
    requires st != [] && n <= |st[1..]|
    ensures [st[0]] + st[1..][..n] == st[..1 + n]
    ensures st[1..][n..] == st[1 + n..]
    ensures multiset(st[1..][..n]) + multiset{st[0]} + multiset{} == multiset(st[..1 + n])
  {
    assert [st[0]] + st[1..][..n] == st[..1 + n];
  }

  // A subtree without leaves owns nothing, whatever its root slot used to hold.
  lemma FreshChild(d: Store, d2: Store, d': Store, stale: Word, a: Word, l: nat, taken: seq<Word>, add: Word)
    requires l <= 3 && Grown(d2, d', a, a, l, 0, taken, add)
    ensures Grown(d, d', stale, a, l, 0, taken, add)
  {
    NodesNone(d, stale, l, 0, 1);
    NodesNone(d2, a, l, 0, 1);
  }

  lemma GrowBelowExisting(d: Store, c: Word, l: nat, m: nat, add: Word)
    requires 2 <= l <= 3 && m < Cap(l) && Rem(l, m) != 0
    requires Quot(l, m) < K && Rem(l, m) < Cap(l - 1)
    requires At(d, c)[Quot(l, m)] < NUM_OF_BLOCKS
    ensures Offsets(Digits(l, m)) && Offsets(Digits(l - 1, Rem(l, m)))
    ensures var k := At(d, c)[Quot(l, m)];
            GrowBelow(d, c, At(d, c), Digits(l, m), add)
            == GrowBelow(d, k, At(d, k), Digits(l - 1, Rem(l, m)), add)
  {
    DigitsValid(l, m);
    DigitsValid(l - 1, Rem(l, m));
    ZeroDigits(l - 1, Rem(l, m));
    hide Cap, Rem, Quot, AllZero;
    assert Digits(l, m)[1..] == Digits(l - 1, Rem(l, m));
  }

  lemma GrowBelowFresh(d: Store, c: Word, l: nat, m: nat, add: Word)
    requires 2 <= l <= 3 && m < Cap(l) && Rem(l, m) == 0
    requires Quot(l, m) < K && 0 < Cap(l - 1)
    requires 0 < Alloc(d).1 < NUM_OF_BLOCKS
    ensures Offsets(Digits(l, m)) && Offsets(Digits(l - 1, 0))
    ensures var a, d2 := Alloc(d).1, Linked(d, c, Quot(l, m));
            GrowBelow(d, c, At(d, c), Digits(l, m), add) == GrowBelow(d2, a, At(d2, a), Digits(l - 1, 0), add)
  {
    DigitsValid(l, m);
    DigitsValid(l - 1, 0);
    ZeroDigits(l - 1, 0);
    hide Cap, Rem, Quot, AllZero, Alloc;
    assert Digits(l, m)[1..] == Digits(l - 1, 0);
  }

  lemma {:induction false} GrowBelowGrows(d: Store, st: seq<Word>, c: Word, l: nat, m: nat, add: Word)
    requires 1 <= l <= 3 && m < Cap(l) && Apart(d, st, c, l, m) && BelowNew(l, m) <= |st|
    ensures Offsets(Digits(l, m)) && Digits(l, m) != []
    ensures LoopGrows(d, GrowBelow(d, c, At(d, c), Digits(l, m), add), st, c, l, m, add)
    decreases l
  {
    if l == 1 {
      LoopLast(d, st, c, m, add);
    } else {
      QuotRem(l, m);
      hide Cap, Quot, Rem, BelowNew, Apart, LoopGrows, GrowBelow, Digits, Linked, Alloc;
      var k := At(d, c)[Quot(l, m)];
      if Rem(l, m) != 0 {
        ExistingReady(d, st, c, l, m);
        GrowBelowGrows(d, st, k, l - 1, Rem(l, m), add);
        NodeOnDisk(d, st, k, l - 1, Rem(l, m));
        GrowBelowExisting(d, c, l, m, add);
        ExistingGrows(d, GrowBelow(d, c, At(d, c), Digits(l, m), add), st, c, l, m, add);
      } else {
        NewNeedsBlock(l, m);
        FreshReady(d, st, c, l, m);
        var d2 := Linked(d, c, Quot(l, m));
        GrowBelowGrows(d2, st[1..], st[0], l - 1, 0, add);
        NodeOnDisk(d2, st[1..], st[0], l - 1, 0);
        GrowBelowFresh(d, c, l, m, add);
        FreshGrows(d, GrowBelow(d, c, At(d, c), Digits(l, m), add), st, c, l, m, add);
      }
    }
  }

  lemma NewNeedsBlock(l: nat, m: nat)
    requires 2 <= l && Rem(l, m) == 0
    ensures BelowNew(l, m) > 0
  {
  }

  lemma NodeOnDisk(d: Store, st: seq<Word>, c: Word, l: nat, m: nat)
    requires 1 <= l <= 3 && m < Cap(l) && Apart(d, st, c, l, m)
    ensures 0 < c < NUM_OF_BLOCKS
  {
    InDataParts(multiset{c}, Below(d, At(d, c), l, m, 1));
    assert c in multiset{c};
  }

  // ---------- the whole insertion ----------

  ghost predicate TreeGrows(d: Store, d': Store, root: Word, root': Word, st: seq<Word>, l: nat, m: nat, add: Word)
    requires l <= 3 && m < Cap(l)
  {
    var n := NewNodes(l, m);
    && n <= |st|
    && FreeList(d', st[n..])
    && Grown(d, d', root, root', l, m, st[..n], add)
    && OnlyTouches(d, d', multiset(st[..n]) + Nodes(d, root, l, m, 1))
    && (m > 0 ==> root' == root)
  }

  // Inserting leaf m takes exactly the indirect blocks it is the first to need from the front
  // of the free list and disturbs no other leaf.
  lemma InsertGrows(d: Store, st: seq<Word>, root: Word, l: nat, m: nat, add: Word)
    requires 1 <= l <= 3 && m < Cap(l) && NewNodes(l, m) <= |st|
    requires FreeList(d, st) && InData(Nodes(d, root, l, m, 1))
    requires Unique(multiset(st) + Nodes(d, root, l, m, 1))
    ensures Offsets(Digits(l, m)) && Digits(l, m) != []
    ensures var (d', root') := Grow(d, root, Digits(l, m), add);
            TreeGrows(d, d', root, root', st, l, m, add)
  {
    hide *;
    Values();
    GrowIs(d, root, l, m, add);
    if m == 0 {
      InsertFirst(d, st, root, l, add);
    } else {
      InsertNext(d, st, root, l, m, add);
    }
  }

  lemma GrowIs(d: Store, root: Word, l: nat, m: nat, add: Word)
    requires 1 <= l <= 3 && m < Cap(l)
    ensures Offsets(Digits(l, m)) && Digits(l, m) != []
    ensures NewNodes(l, m) == (if m == 0 then 1 else 0) + BelowNew(l, m)
    ensures m == 0 && Alloc(d).1 != 0 ==>
              var (d1, a) := Alloc(d);
              Grow(d, root, Digits(l, m), add) == (GrowBelow(d1, a, At(d1, a), Digits(l, m), add), a)
    ensures m > 0 ==>
              Grow(d, root, Digits(l, m), add) == (GrowBelow(d, root, At(d, root), Digits(l, m), add), root)
  {
    DigitsValid(l, m);
    ZeroDigits(l, m);
    hide Cap, Rem, Quot, AllZero, Alloc, GrowBelow, Digits, At;
  }

  lemma InsertFirst(d: Store, st: seq<Word>, root: Word, l: nat, add: Word)
    requires 1 <= l <= 3 && NewNodes(l, 0) <= |st| && FreeList(d, st)
    ensures Offsets(Digits(l, 0)) && Digits(l, 0) != []
    ensures var (d', root') := Grow(d, root, Digits(l, 0), add);
            TreeGrows(d, d', root, root', st, l, 0, add)
  {
    hide *;
    Values();
    var n := BelowNew(l, 0);
    GrowIs(d, root, l, 0, add);
    FirstReady(d, st, l);
    var (d1, a) := Alloc(d);
    GrowBelowGrows(d1, st[1..], a, l, 0, add);
    BelowNone(d1, At(d1, a), l, 1);
    var d' := GrowBelow(d1, a, At(d1, a), Digits(l, 0), add);
    LoopGrowsIs(d1, d', st[1..], a, l, 0, add);
    GrownNode(d1, d', a, l, 0, st[1..][..n], add);
    TakeOne(st, n);
    FreshChild(d, d1, d', root, a, l, st[..1 + n], add);
    NodesNone(d, root, l, 0, 1);
    TouchedInTurn(d, d1, d', multiset{}, multiset(st[..1 + n]));
    TreeGrowsIs(d, d', root, a, st, l, 0, add);
  }

  lemma InsertNext(d: Store, st: seq<Word>, root: Word, l: nat, m: nat, add: Word)
    requires 1 <= l <= 3 && 0 < m < Cap(l) && NewNodes(l, m) <= |st|
    requires FreeList(d, st) && InData(Nodes(d, root, l, m, 1))
    requires Unique(multiset(st) + Nodes(d, root, l, m, 1))
    ensures Offsets(Digits(l, m)) && Digits(l, m) != []
    ensures var (d', root') := Grow(d, root, Digits(l, m), add);
            TreeGrows(d, d', root, root', st, l, m, add)
  {
    hide *;
    Values();
    var n, below := BelowNew(l, m), Below(d, At(d, root), l, m, 1);
    GrowIs(d, root, l, m, add);
    NodesParts(d, root, l, m, 1);
    assert multiset(st) + (multiset{root} + below) == multiset(st) + multiset{root} + below;
    ApartIs(d, st, root, l, m);
    GrowBelowGrows(d, st, root, l, m, add);
    var d' := GrowBelow(d, root, At(d, root), Digits(l, m), add);
    LoopGrowsIs(d, d', st, root, l, m, add);
    GrownNode(d, d', root, l, m, st[..n], add);
    assert [] + st[..n] == st[..n];
    assert multiset(st[..n]) + multiset{root} + below == multiset(st[..n]) + (multiset{root} + below);
    TreeGrowsIs(d, d', root, root, st, l, m, add);
  }

  lemma ApartIs(d: Store, st: seq<Word>, c: Word, l: nat, m: nat)
    requires 1 <= l <= 3 && m < Cap(l) && FreeList(d, st)
    requires InData(multiset{c} + Below(d, At(d, c), l, m, 1))
    requires Unique(multiset(st) + multiset{c} + Below(d, At(d, c), l, m, 1))
    ensures Apart(d, st, c, l, m)
  {
  }

  lemma LoopGrowsIs(d: Store, d': Store, st: seq<Word>, c: Word, l: nat, m: nat, add: Word)
    requires 1 <= l <= 3 && m < Cap(l) && LoopGrows(d, d', st, c, l, m, add)
    ensures BelowNew(l, m) <= |st|
    ensures FreeList(d', st[BelowNew(l, m)..])
    ensures ChildGrown(d, d', At(d, c), At(d', c), l, m, st[..BelowNew(l, m)], add)
    ensures OnlyTouches(d, d', multiset(st[..BelowNew(l, m)]) + multiset{c} + Below(d, At(d, c), l, m, 1))
  {
  }

  lemma TreeGrowsIs(d: Store, d': Store, root: Word, root': Word, st: seq<Word>, l: nat, m: nat, add: Word)
    requires l <= 3 && m < Cap(l) && NewNodes(l, m) <= |st|
    requires FreeList(d', st[NewNodes(l, m)..])
    requires Grown(d, d', root, root', l, m, st[..NewNodes(l, m)], add)
    requires OnlyTouches(d, d', multiset(st[..NewNodes(l, m)]) + Nodes(d, root, l, m, 1))
    requires m > 0 ==> root' == root
    ensures TreeGrows(d, d', root, root', st, l, m, add)
  {
  }

  lemma TouchedInTurn(d: Store, d1: Store, d': Store, a: multiset<Word>, b: multiset<Word>)
    requires OnlyTouches(d, d1, a) && OnlyTouches(d1, d', b)
    ensures OnlyTouches(d, d', b + a)
  {
  }

  lemma FirstReady(d: Store, st: seq<Word>, l: nat)
    requires 1 <= l <= 3 && FreeList(d, st) && st != []
    ensures 0 < Cap(l)
    ensures var (d1, a) := Alloc(d);
      && a == st[0] && a != 0
      && Apart(d1, st[1..], a, l, 0)
      && OnlyTouches(d, d1, multiset{})
  {
    AllocPops(d, st);
    hide Alloc, IsChain, Below, Cap;
    var (d1, a) := Alloc(d);
    BelowNone(d1, At(d1, a), l, 1);
    FreshBag(st);
  }

  // ---------- what stays in the blocks ----------

  lemma AllocKeeps(d: Store, offs: seq<nat>, x: nat)
    requires x < NUM_OF_BLOCKS && x != FREE_LIST_BLOCK
    ensures AllocateIfNeeded(d, offs).0[x] == d[x]
  {
  }

  lemma {:induction false} BelowKeepsWords(d: Store, parent: Word, w: Block, offs: seq<nat>, add: Word, x: nat, j: nat)
    requires Offsets(offs) && offs != [] && (parent < NUM_OF_BLOCKS && parent != FREE_LIST_BLOCK ==> w == d[parent])
    requires x < NUM_OF_BLOCKS && x != FREE_LIST_BLOCK && j < K && j !in offs
    ensures GrowBelow(d, parent, w, offs, add)[x][j] == d[x][j]
    decreases |offs|
  {
    if |offs| > 1 {
      AllocKeeps(d, offs[1..], x);
      if parent < NUM_OF_BLOCKS && parent != FREE_LIST_BLOCK {
        AllocKeeps(d, offs[1..], parent);
      }
      var (d1, a) := AllocateIfNeeded(d, offs[1..]);
      hide AllocateIfNeeded;
      if a != 0 {
        var w1 := w[offs[0] := a];
        var d2 := Put(d1, parent, w1);
        BelowKeepsWords(d2, a, Fetch(d2, a, w1), offs[1..], add, x, j);
      } else {
        BelowKeepsWords(d1, w[offs[0]], Fetch(d1, w[offs[0]], w), offs[1..], add, x, j);
      }
    }
  }

  // Apart from the head of the free list, no word changes but those at the offsets of the path:
  // a new indirect block keeps what its block held.
  lemma GrowKeepsWords(d: Store, cur: Word, offs: seq<nat>, add: Word, x: nat, j: nat)
    requires Offsets(offs) && offs != []
    requires x < NUM_OF_BLOCKS && x != FREE_LIST_BLOCK && j < K && j !in offs
    ensures Grow(d, cur, offs, add).0[x][j] == d[x][j]
  {
    var (d1, a) := AllocateIfNeeded(d, offs);
    var root := if a != 0 then a else cur;
    AllocKeeps(d, offs, x);
    hide AllocateIfNeeded, GrowBelow;
    BelowKeepsWords(d1, root, At(d1, root), offs, add, x, j);
  }
}
