/**
  The trees of indirect blocks that hang off an inode, read from the disk: which blocks a
  tree owns and which block each leaf index leads to.

  A tree of height l with m leaves is always filled from the left, so m alone tells which
  slots of its indirect blocks mean anything; every other word on disk is left over.
 */
module BlockTree {
  import opened Params
  import opened Disk
  import opened BlockPath

  function At(d: Store, n: Word): Block {
    Fetch(d, n, ClearBlock())
  }

  // The blocks of height at least `low` in the tree rooted at block `root`: everything for
  // low == 0, the indirect blocks for low == 1.
  ghost function Nodes(d: Store, root: Word, l: nat, m: nat, low: nat): multiset<Word>
    requires l <= 3 && m <= Cap(l)
    decreases l, 2, 0
  {
    if m == 0 || l < low then multiset{} else multiset{root} + Below(d, At(d, root), l, m, low)
  }

  // The same for the children of an indirect block with contents `w`.
  ghost function Below(d: Store, w: Block, l: nat, m: nat, low: nat): multiset<Word>
    requires l <= 3 && m <= Cap(l)
    decreases l, 1, 0
  {
    if l == 0 then multiset{}
    else
      QuotRem(l, m);
      Full(d, w, l, Quot(l, m), low)
      + if Rem(l, m) == 0 then multiset{} else Nodes(d, w[Quot(l, m)], l - 1, Rem(l, m), low)
  }

  // The same for the first q children, all of them full.
  ghost function Full(d: Store, w: Block, l: nat, q: nat, low: nat): multiset<Word>
    requires 1 <= l <= 3 && q <= K
    decreases l, 0, q
  {
    if q == 0 || l <= low then multiset{}
    else Full(d, w, l, q - 1, low) + Nodes(d, w[q - 1], l - 1, Cap(l - 1), low)
  }

  predicate Offsets(offs: seq<nat>) {
    forall i :: 0 <= i < |offs| ==> offs[i] < K
  }

  // The block that the offsets lead to from block `root`.
  function Walk(d: Store, root: Word, offs: seq<nat>): Word
    requires Offsets(offs)
    decreases |offs|
  {
    if offs == [] then root else Walk(d, At(d, root)[offs[0]], offs[1..])
  }

  // The same walk as bmap's code makes it: a block it cannot fetch leaves the buffer as it was.
  function Descend(d: Store, root: Word, offs: seq<nat>, buffer: Block): Word
    requires Offsets(offs)
    decreases |offs|
  {
    if offs == [] then root
    else
      var w := Fetch(d, root, buffer);
      Descend(d, w[offs[0]], offs[1..], w)
  }

  // The indirect blocks on the way whose subtree starts with this leaf.
  function Spine(d: Store, root: Word, offs: seq<nat>): seq<Word>
    requires Offsets(offs)
    decreases |offs|
  {
    if offs == [] then []
    else (if AllZero(offs) then [root] else []) + Spine(d, At(d, root)[offs[0]], offs[1..])
  }

  ghost predicate SameOn(d: Store, d': Store, m: multiset<Word>) {
    forall x :: x in m && x < NUM_OF_BLOCKS ==> d[x] == d'[x]
  }

  lemma SameOnPart(d: Store, d': Store, whole: multiset<Word>, part: multiset<Word>)
    requires SameOn(d, d', whole) && part <= whole
    ensures SameOn(d, d', part)
  {
  }

  // ---------- frames: a tree only depends on its indirect blocks ----------

  lemma {:induction false} NodesFrame(d: Store, d': Store, root: Word, l: nat, m: nat, low: nat)
    requires l <= 3 && m <= Cap(l) && SameOn(d, d', Nodes(d, root, l, m, 1))
    ensures Nodes(d', root, l, m, low) == Nodes(d, root, l, m, low)
    decreases l, 2, 0
  {
    if m != 0 && l >= 1 {
      assert root in Nodes(d, root, l, m, 1);
      BelowFrame(d, d', At(d, root), l, m, low);
    }
  }

  lemma {:induction false} BelowFrame(d: Store, d': Store, w: Block, l: nat, m: nat, low: nat)
    requires l <= 3 && m <= Cap(l) && SameOn(d, d', Below(d, w, l, m, 1))
    ensures Below(d', w, l, m, low) == Below(d, w, l, m, low)
    decreases l, 1, 0
  {
    if l > 0 {
      QuotRem(l, m);
      FullFrame(d, d', w, w, l, Quot(l, m), low);
      if Rem(l, m) != 0 {
        NodesFrame(d, d', w[Quot(l, m)], l - 1, Rem(l, m), low);
      }
    }
  }

  lemma {:induction false} FullFrame(d: Store, d': Store, w: Block, w': Block, l: nat, q: nat, low: nat)
    requires 1 <= l <= 3 && q <= K && SameOn(d, d', Full(d, w, l, q, 1))
    requires w[..q] == w'[..q]
    ensures Full(d', w', l, q, low) == Full(d, w, l, q, low)
    decreases l, 0, q
  {
    hide Nodes, Below, SameOn, Cap;
    if q > 0 && l > low {
      assert w[q - 1] == w[..q][q - 1] == w'[..q][q - 1];
      assert w[..q - 1] == w[..q][..q - 1] == w'[..q][..q - 1];
      if l > 1 {
        var left, last := Full(d, w, l, q - 1, 1), Nodes(d, w[q - 1], l - 1, Cap(l - 1), 1);
        SameOnPart(d, d', left + last, left);
        SameOnPart(d, d', left + last, last);
        NodesFrame(d, d', w[q - 1], l - 1, Cap(l - 1), low);
      } else {
        NodesNone(d, w[q - 1], 0, 1, 1);
      }
      FullFrame(d, d', w, w', l, q - 1, low);
      if l == 1 {
        LeafFrame(d, d', w[q - 1], low);
      }
    }
  }

  lemma LeafFrame(d: Store, d': Store, leaf: Word, low: nat)
    ensures Nodes(d', leaf, 0, Cap(0), low) == Nodes(d, leaf, 0, Cap(0), low)
  {
  }

  // How many leaves child i of a height-l node with m leaves has.
  function ChildSize(l: nat, m: nat, i: nat): (c: nat)
    requires 1 <= l <= 3
    ensures c <= Cap(l - 1)
  {
    if i < Quot(l, m) then Cap(l - 1) else if i == Quot(l, m) then Rem(l, m) else 0
  }

  lemma ChildOfLeaf(l: nat, m: nat, j: nat)
    requires 1 <= l <= 3 && j < m <= Cap(l)
    ensures Quot(l, j) < K && Rem(l, j) < ChildSize(l, m, Quot(l, j))
  {
    QuotRem(l, j);
    QuotRem(l, m);
  }

  lemma {:induction false} FullHasChild(d: Store, w: Block, l: nat, q: nat, i: nat, low: nat)
    requires 1 <= l <= 3 && i < q <= K && l > low
    ensures Nodes(d, w[i], l - 1, Cap(l - 1), low) <= Full(d, w, l, q, low)
    decreases q
  {
    hide Nodes, Below, Cap;
    var left, last := Full(d, w, l, q - 1, low), Nodes(d, w[q - 1], l - 1, Cap(l - 1), low);
    assert Full(d, w, l, q, low) == left + last;
    if i < q - 1 {
      FullHasChild(d, w, l, q - 1, i, low);
    }
  }

  lemma BelowHasChild(d: Store, w: Block, l: nat, m: nat, i: nat, low: nat)
    requires 1 <= l <= 3 && m <= Cap(l) && i < K && l > low
    ensures Nodes(d, w[i], l - 1, ChildSize(l, m, i), low) <= Below(d, w, l, m, low)
  {
    QuotRem(l, m);
    if i < Quot(l, m) {
      FullHasChild(d, w, l, Quot(l, m), i, low);
    }
  }

  lemma WalkStep(d: Store, root: Word, l: nat, j: nat)
    requires 1 <= l <= 3 && j < Cap(l)
    ensures Quot(l, j) < K && Rem(l, j) < Cap(l - 1)
    ensures Offsets(Digits(l, j)) && Offsets(Digits(l - 1, Rem(l, j)))
    ensures Walk(d, root, Digits(l, j)) == Walk(d, At(d, root)[Quot(l, j)], Digits(l - 1, Rem(l, j)))
    ensures Spine(d, root, Digits(l, j))
            == (if j == 0 then [root] else []) + Spine(d, At(d, root)[Quot(l, j)], Digits(l - 1, Rem(l, j)))
  {
    QuotRem(l, j);
    DigitsValid(l, j);
    DigitsValid(l - 1, Rem(l, j));
    ZeroDigits(l, j);
    assert Digits(l, j)[1..] == Digits(l - 1, Rem(l, j));
  }

  lemma NodesParts(d: Store, root: Word, l: nat, m: nat, low: nat)
    requires 1 <= l <= 3 && 0 < m <= Cap(l) && low <= l
    ensures Nodes(d, root, l, m, low) == multiset{root} + Below(d, At(d, root), l, m, low)
  {
  }

  lemma {:induction false} WalkFrame(d: Store, d': Store, root: Word, l: nat, m: nat, j: nat)
    requires l <= 3 && j < m <= Cap(l) && SameOn(d, d', Nodes(d, root, l, m, 1))
    ensures Offsets(Digits(l, j))
    ensures Walk(d', root, Digits(l, j)) == Walk(d, root, Digits(l, j))
    ensures Spine(d', root, Digits(l, j)) == Spine(d, root, Digits(l, j))
    decreases l
  {
    if l > 0 {
      hide Nodes, Below, Walk, Cap, Quot, Rem, Digits, Spine, ChildSize, SameOn;
      WalkStep(d, root, l, j);
      WalkStep(d', root, l, j);
      var w, i := At(d, root), Quot(l, j);
      ChildOfLeaf(l, m, j);
      ChildNodes(d, w, l, m, i);
      NodesParts(d, root, l, m, 1);
      SameRoot(d, d', root, Below(d, w, l, m, 1));
      SameOnPart(d, d', Below(d, w, l, m, 1), Nodes(d, w[i], l - 1, ChildSize(l, m, i), 1));
      WalkFrame(d, d', w[i], l - 1, ChildSize(l, m, i), Rem(l, j));
    } else {
      assert Digits(0, j) == [];
    }
  }

  lemma SameRoot(d: Store, d': Store, root: Word, below: multiset<Word>)
    requires SameOn(d, d', multiset{root} + below)
    ensures At(d, root) == At(d', root) && SameOn(d, d', below)
  {
    SameOnPart(d, d', multiset{root} + below, below);
    assert root in multiset{root} + below;
  }

  lemma ChildNodes(d: Store, w: Block, l: nat, m: nat, i: nat)
    requires 1 <= l <= 3 && m <= Cap(l) && i < K
    ensures Nodes(d, w[i], l - 1, ChildSize(l, m, i), 1) <= Below(d, w, l, m, 1)
  {
    if l > 1 {
      BelowHasChild(d, w, l, m, i, 1);
    }
  }

  // ---------- one leaf more ----------

  ghost function OwnLeaf(low: nat, leaf: Word): multiset<Word> {
    if low == 0 then multiset{leaf} else multiset{}
  }

  // Leaf m adds itself and the indirect blocks on its spine.
  lemma {:induction false} NodesStep(d: Store, root: Word, l: nat, m: nat, low: nat)
    requires l <= 3 && m < Cap(l) && low <= 1
    ensures Offsets(Digits(l, m))
    ensures Nodes(d, root, l, m + 1, low)
            == Nodes(d, root, l, m, low) + multiset(Spine(d, root, Digits(l, m)))
               + OwnLeaf(low, Walk(d, root, Digits(l, m)))
    decreases l, 1
  {
    hide *;
    Values();
    if l == 0 {
      LeafStep(d, root, m, low);
    } else {
      WalkStep(d, root, l, m);
      BelowStep(d, At(d, root), l, m, low);
      NodesParts(d, root, l, m + 1, low);
      if m == 0 {
        NodesNone(d, root, l, 0, low);
        BelowNone(d, At(d, root), l, low);
      } else {
        NodesParts(d, root, l, m, low);
      }
    }
  }

  lemma LeafStep(d: Store, root: Word, m: nat, low: nat)
    requires m < Cap(0) && low <= 1
    ensures Offsets(Digits(0, m))
    ensures Nodes(d, root, 0, m + 1, low)
            == Nodes(d, root, 0, m, low) + multiset(Spine(d, root, Digits(0, m)))
               + OwnLeaf(low, Walk(d, root, Digits(0, m)))
  {
    assert Digits(0, m) == [];
  }

  lemma BelowNone(d: Store, w: Block, l: nat, low: nat)
    requires 1 <= l <= 3
    ensures Below(d, w, l, 0, low) == multiset{}
  {
  }

  lemma {:induction false} BelowStep(d: Store, w: Block, l: nat, m: nat, low: nat)
    requires 1 <= l <= 3 && m < Cap(l) && low <= 1
    ensures Quot(l, m) < K && Offsets(Digits(l - 1, Rem(l, m)))
    ensures var child, offs := w[Quot(l, m)], Digits(l - 1, Rem(l, m));
            Below(d, w, l, m + 1, low)
            == Below(d, w, l, m, low) + multiset(Spine(d, child, offs)) + OwnLeaf(low, Walk(d, child, offs))
    decreases l, 0
  {
    hide *;
    BelowGrows(d, w, l, m, low);
    NodesStep(d, w[Quot(l, m)], l - 1, Rem(l, m), low);
  }

  // The child that leaf m hangs from is the only one that changes.
  lemma BelowGrows(d: Store, w: Block, l: nat, m: nat, low: nat)
    requires 1 <= l <= 3 && m < Cap(l)
    ensures var q, r := Quot(l, m), Rem(l, m);
      && q < K && r < Cap(l - 1)
      && Below(d, w, l, m, low) == Full(d, w, l, q, low) + Nodes(d, w[q], l - 1, r, low)
      && Below(d, w, l, m + 1, low) == Full(d, w, l, q, low) + Nodes(d, w[q], l - 1, r + 1, low)
  {
    hide *;
    Values();
    QuotRem(l, m);
    QuotRem(l, m + 1);
    QuotNext(l, m);
    var q, r := Quot(l, m), Rem(l, m);
    NodesNone(d, w[q], l - 1, 0, low);
    BelowIs(d, w, l, m, q, r, low);
    if r + 1 < Cap(l - 1) {
      BelowIs(d, w, l, m + 1, q, r + 1, low);
    } else {
      BelowIs(d, w, l, m + 1, q + 1, 0, low);
      FullNext(d, w, l, q, low);
    }
  }

  lemma BelowIs(d: Store, w: Block, l: nat, m: nat, q: nat, r: nat, low: nat)
    requires 1 <= l <= 3 && m <= Cap(l) && q == Quot(l, m) <= K && r == Rem(l, m) <= Cap(l - 1)
    requires r > 0 ==> q < K
    ensures Below(d, w, l, m, low)
            == Full(d, w, l, q, low) + if r == 0 then multiset{} else Nodes(d, w[q], l - 1, r, low)
  {
  }

  lemma FullNext(d: Store, w: Block, l: nat, i: nat, low: nat)
    requires 1 <= l <= 3 && i < K
    ensures Full(d, w, l, i + 1, low) == Full(d, w, l, i, low) + Nodes(d, w[i], l - 1, Cap(l - 1), low)
  {
    hide Nodes, Cap;
    NodesNone(d, w[i], l - 1, Cap(l - 1), low);
  }

  lemma NodesNone(d: Store, root: Word, l: nat, m: nat, low: nat)
    requires l <= 3 && m <= Cap(l)
    ensures m == 0 || l < low ==> Nodes(d, root, l, m, low) == multiset{}
  {
  }

  // ---------- exact space cost ----------

  // How many indirect blocks leaf m is the first to need.
  function NewNodes(l: nat, m: nat): nat {
    if l == 0 then 0 else (if m == 0 then 1 else 0) + NewNodes(l - 1, Rem(l, m))
  }

  function Ceil(m: nat, c: nat): nat
    requires c > 0
  {
    (m + c - 1) / c
  }

  // How many indirect blocks a height-l tree with m leaves has.
  function MetaCount(l: nat, m: nat): nat {
    if m == 0 || l == 0 then 0
    else if l == 1 then 1
    else if l == 2 then 1 + Ceil(m, 128)
    else 1 + Ceil(m, 16384) + Ceil(m, 128)
  }

  lemma MetaStep(l: nat, m: nat)
    requires l <= 3 && m < Cap(l)
    ensures MetaCount(l, m + 1) == MetaCount(l, m) + NewNodes(l, m)
  {
    NewNodesAre(l, m);
    hide NewNodes;
    if l == 3 {
      CeilStep(m, 16384);
      CeilStep(m, 128);
    } else if l == 2 {
      CeilStep(m, 128);
    }
  }

  lemma NewNodesAre(l: nat, m: nat)
    requires l <= 3 && m < Cap(l)
    ensures l == 0 ==> NewNodes(l, m) == 0
    ensures l == 1 ==> NewNodes(l, m) == if m == 0 then 1 else 0
    ensures l == 2 ==> NewNodes(l, m) == (if m == 0 then 1 else 0) + if m % 128 == 0 then 1 else 0
    ensures l == 3 ==> NewNodes(l, m) == (if m == 0 then 1 else 0) + (if m % 16384 == 0 then 1 else 0)
                                         + if m % 128 == 0 then 1 else 0
  {
    if l == 3 {
      NewNodesAre(2, m % 16384);
      assert m % 16384 % 128 == m % 128;
    } else if l == 2 {
      NewNodesAre(1, m % 128);
    } else if l == 1 {
      NewNodesAre(0, 0);
    }
  }

  lemma CeilStep(m: nat, c: nat)
    requires c == 128 || c == 16384
    ensures Ceil(m + 1, c) == Ceil(m, c) + if m % c == 0 then 1 else 0
  {
  }

  lemma {:induction false} SpineLength(d: Store, root: Word, l: nat, m: nat)
    requires l <= 3 && m < Cap(l)
    ensures Offsets(Digits(l, m)) && |Spine(d, root, Digits(l, m))| == NewNodes(l, m)
    decreases l
  {
    if l == 0 {
      assert Digits(0, m) == [];
    } else {
      hide Walk, Cap, Quot, Rem, Digits, Spine;
      WalkStep(d, root, l, m);
      SpineLength(d, At(d, root)[Quot(l, m)], l - 1, Rem(l, m));
    }
  }

  lemma MetaNone(d: Store, root: Word, l: nat)
    requires l <= 3
    ensures Nodes(d, root, l, 0, 1) == multiset{} && MetaCount(l, 0) == 0
    ensures Nodes(d, root, l, 0, 0) == multiset{} && Leaves(d, root, l, 0) == []
  {
  }

  // ---------- leaves ----------

  // The data blocks of a tree, in file order.
  ghost function Leaves(d: Store, root: Word, l: nat, m: nat): (r: seq<Word>)
    requires l <= 3 && m <= Cap(l)
    ensures |r| == m
  {
    if m == 0 then []
    else
      DigitsValid(l, m - 1);
      Leaves(d, root, l, m - 1) + [Walk(d, root, Digits(l, m - 1))]
  }

  lemma LeavesStep(d: Store, root: Word, l: nat, m: nat)
    requires l <= 3 && 0 < m <= Cap(l)
    ensures Offsets(Digits(l, m - 1))
    ensures Leaves(d, root, l, m) == Leaves(d, root, l, m - 1) + [Walk(d, root, Digits(l, m - 1))]
  {
    DigitsValid(l, m - 1);
  }

  // A tree is its indirect blocks and its leaves.
  lemma {:induction false} NodesSplit(d: Store, root: Word, l: nat, m: nat)
    requires l <= 3 && m <= Cap(l)
    ensures Nodes(d, root, l, m, 0) == Nodes(d, root, l, m, 1) + multiset(Leaves(d, root, l, m))
    decreases m
  {
    hide Walk, Cap, Quot, Rem, Digits, Spine, Nodes, Leaves, AllZero, Offsets;
    if m == 0 {
      MetaNone(d, root, l);
    } else {
      LeavesStep(d, root, l, m);
      NodesSplit(d, root, l, m - 1);
      NodesStep(d, root, l, m - 1, 0);
      NodesStep(d, root, l, m - 1, 1);
    }
  }
}
