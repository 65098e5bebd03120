/**
  Shrinking from a block-aligned size whose next index starts an indirect block: the path then
  leads to a word that no block of the file stands for, and that word is freed.
 */
module StaleShrink {
  import opened Params
  import opened Disk
  import opened Bags
  import opened FreeChain
  import opened BlockPath
  import opened BlockTree
  import opened TreeRelease
  import opened FileMap
  import opened FileGrowth
  import opened FileRelease
  import opened BMap
  import opened FileShrink
  import opened Conservation

  // ---------- freeing what is free already ----------

  // A chain that leads to block x leads there still when only block x changed.
  lemma {:induction false} StillReaches(d: Store, d': Store, head: Block, st: seq<Word>, st': seq<Word>, x: Word)
    requires IsChain(d, head, st) && IsChain(d', head, st') && DataBlocks(st) && x in st
    requires forall y :: FIRST_DATA_BLOCK <= y < NUM_OF_BLOCKS && y != x ==> d'[y] == d[y]
    ensures x in st'
    decreases |st|
  {
    var own := NonZero(head);
    if x in own {
      assert x in st'[..|own|];
    } else {
      assert st == own + st[|own|..];
      NonZeroMembers(head, head[LAST]);
      assert head[LAST] in st;
      assert DataBlocks(st[|own|..]);
      StillReaches(d, d', d[head[LAST]], st[|own|..], st'[|own|..], x);
      assert x in st'[|own|..];
    }
  }

  // Freeing a block twice leaves no free list at all: the chain lists the block twice, or never
  // ends.
  lemma DoubleFree(d: Store, st: seq<Word>, x: Word, st': seq<Word>)
    requires FreeList(d, st) && CanFree(d) && x in st
    ensures !FreeList(Free(d, x), st')
  {
    if FreeList(Free(d, x), st') {
      var i :| 0 <= i < |st| && st[i] == x;
      if d[FREE_LIST_BLOCK][0] != 0 {
        ListedTwice(d, st, x, st');
        UniqueTail(st');
      } else {
        InsertedTwice(d, st, x, st');
      }
    }
  }

  lemma ListedTwice(d: Store, st: seq<Word>, x: Word, st': seq<Word>)
    requires FreeList(d, st) && x in st && FIRST_DATA_BLOCK <= x < NUM_OF_BLOCKS && d[FREE_LIST_BLOCK][0] != 0
    requires IsChain(Free(d, x), Free(d, x)[FREE_LIST_BLOCK], st')
    ensures st' != [] && st'[0] == x && x in st'[1..]
  {
    var head, d' := d[FREE_LIST_BLOCK], Free(d, x);
    FreshHeadHolds(x);
    assert IsChain(d', FreshHead(x), st');
    assert d'[x] == head && st'[0] == x;
    StillReaches(d, d', head, st, st'[1..], x);
  }

  lemma InsertedTwice(d: Store, st: seq<Word>, x: Word, st': seq<Word>)
    requires FreeList(d, st) && CanFree(d) && d[FREE_LIST_BLOCK][0] == 0 && x in st
    requires FIRST_DATA_BLOCK <= x < NUM_OF_BLOCKS
    requires IsChain(Free(d, x), Free(d, x)[FREE_LIST_BLOCK], st')
    ensures !Unique(multiset(st'))
  {
    FreeIntoGap(d, st, x);
    ChainUnique(Free(d, x), Free(d, x)[FREE_LIST_BLOCK], st', Inserted(st, Slot(d[FREE_LIST_BLOCK]), x));
    InsertedBag(st, Slot(d[FREE_LIST_BLOCK]), x);
    assert multiset(st)[x] > 0;
    assert multiset(st')[x] == multiset(st)[x] + 1;
  }

  // ---------- freeing word 0 ----------

  lemma FreeZero(d: Store)
    ensures d[FREE_LIST_BLOCK][0] == 0 ==> Free(d, 0) == d
    ensures d[FREE_LIST_BLOCK][0] != 0 ==> FreeList(Free(d, 0), [])
  {
    var head := d[FREE_LIST_BLOCK];
    if head[0] == 0 {
      assert LastClear(head) >= 0;
      assert head[LastClear(head) := 0] == head;
    } else {
      NonZeroClear(FreshHead(0));
      assert Free(d, 0)[FREE_LIST_BLOCK] == FreshHead(0);
    }
  }

  // ---------- one round on a stale path ----------

  // The words that the path of index n leads to once block b is freed.
  function StaleWords(d: Store, nums: Slots, b: Word, n: nat): seq<Word>
    requires n <= TRIPLE_INDIRECT_LIMIT
  {
    PathIsValid(n);
    Collected(d, nums, b, PathOf(n))
  }

  lemma StaleStep(s: State, i: nat, n: nat)
    requires i < |s.files| && s.files[i].blocks == n && 0 < n <= TRIPLE_INDIRECT_LIMIT
    ensures n * BLOCK_SIZE / BLOCK_SIZE == n && BlockCount(n * BLOCK_SIZE) == n
    ensures var f := s.files[i];
      var b := LookUp(s.disk, f.nums, n - 1);
      && |StaleWords(s.disk, f.nums, b, n)| == FileNew(n)
      && Step(s, Shrink(i, n * BLOCK_SIZE))
         == State(FreeAll(Free(s.disk, b), StaleWords(s.disk, f.nums, b, n)), s.files[i := File(f.nums, n - 1)])
  {
    AlignedSize(n);
    TakenIsValid(n);
    var f := s.files[i];
    var b := LookUp(s.disk, f.nums, n - 1);
    hide LookUp, RemoveBlock, Free, FreeAll, Collected, FileNew, TakenPath, PathOf;
    ShrinkStep(s, i, n * BLOCK_SIZE);
    CollectedCount(s.disk, f.nums, b, n);
    CollectedIs(s.disk, f.nums, b, PathOf(n));
  }

  // Freeing the last block alone is what the file should lose.
  lemma LastBlockAlone(s: State, st: seq<Word>, i: nat, n: nat) returns (s1: seq<Word>)
    requires Balanced(s, st) && i < |s.files| && s.files[i].blocks == n && 0 < n <= MAX_FILE_BLOCKS && CanFree(s.disk)
    requires FileNew(n - 1) == 0
    ensures var f := s.files[i];
      var d1 := Free(s.disk, LookUp(s.disk, f.nums, n - 1));
      Balanced(State(d1, s.files[i := File(f.nums, n - 1)]), s1) && CanFree(d1) && |s1| == |st| + 1
  {
    hide *;
    Values();
    var f, rest := s.files[i], Rest(s.disk, s.files, i);
    BalancedAt(s, st, i);
    SeparateParts(s.disk, st, f.nums, n, rest);
    LookUpFinds(s.disk, f.nums, n, n - 1);
    var b := BlockAt(s.disk, f.nums, n - 1);
    PathIsValid(n - 1);
    LastSpine(s.disk, st, f.nums, n - 1, rest);
    FileSpineLength(s.disk, f.nums, n - 1);
    CollectedIs(s.disk, f.nums, b, PathOf(n - 1));
    FreeAllNone(Free(s.disk, b), Collected(s.disk, f.nums, b, PathOf(n - 1)));
    s1 := RemoveLast(s.disk, st, f.nums, n - 1, rest);
    var d1 := Free(s.disk, b);
    FreedIs(s.disk, d1, st, s1, multiset{b} + multiset(FileSpine(s.disk, f.nums, n - 1)));
    RemovedParts(s.disk, f.nums, n - 1);
    OwnedIs(s.disk, f);
    OwnedIs(d1, File(f.nums, n - 1));
    SameOnPart(s.disk, d1, FileNodes(s.disk, f.nums, n - 1, 0) + rest, rest);
    Rebalanced(s, st, i, d1, File(f.nums, n - 1), s1);
    assert |multiset(s1)| == |multiset(st) + (multiset{b} + multiset(FileSpine(s.disk, f.nums, n - 1)))|;
  }

  // ---------- what freeing stale words leaves ----------

  // If the free list is well formed after block x was freed, it was before, one block shorter.
  lemma FreeBack(d: Store, x: Word, st': seq<Word>) returns (st: seq<Word>)
    requires CanFree(d) && FIRST_DATA_BLOCK <= x < NUM_OF_BLOCKS && FreeList(Free(d, x), st')
    ensures FreeList(d, st) && |st'| == |st| + 1
  {
    if d[FREE_LIST_BLOCK][0] != 0 {
      st := st'[1..];
      PoppedBack(d, x, st');
    } else {
      st := GapBack(d, x, st');
    }
  }

  lemma PoppedBack(d: Store, x: Word, st': seq<Word>)
    requires d[FREE_LIST_BLOCK][0] != 0 && FIRST_DATA_BLOCK <= x < NUM_OF_BLOCKS && FreeList(Free(d, x), st')
    ensures st' != [] && FreeList(d, st'[1..])
  {
    var d' := Free(d, x);
    FreshHeadHolds(x);
    assert IsChain(d', FreshHead(x), st');
    assert d'[x] == d[FREE_LIST_BLOCK] && st'[0] == x;
    UniqueTail(st');
    hide IsChain, Unique;
    ChainFrame(d', d, d[FREE_LIST_BLOCK], st'[1..]);
  }

  lemma GapBack(d: Store, x: Word, st': seq<Word>) returns (st: seq<Word>)
    requires CanFree(d) && d[FREE_LIST_BLOCK][0] == 0
    requires FIRST_DATA_BLOCK <= x < NUM_OF_BLOCKS && FreeList(Free(d, x), st')
    ensures FreeList(d, st) && |st'| == |st| + 1
  {
    var left, right, tail := GapParts(d, x, st');
    hide IsChain, CanFree, Free;
    st := left + right + tail;
    assert multiset(st') == multiset(st) + multiset{x};
    UniquePart(multiset(st'), multiset(st));
    DataPart(st', st);
  }

  lemma GapParts(d: Store, x: Word, st': seq<Word>) returns (left: seq<Word>, right: seq<Word>, tail: seq<Word>)
    requires CanFree(d) && d[FREE_LIST_BLOCK][0] == 0
    requires FIRST_DATA_BLOCK <= x < NUM_OF_BLOCKS && FreeList(Free(d, x), st')
    ensures st' == left + [x] + right + tail && IsChain(d, d[FREE_LIST_BLOCK], left + right + tail)
  {
    var z := GapAt(d, x);
    ChainOwn(Free(d, x), Free(d, x)[FREE_LIST_BLOCK], st');
    hide IsChain, NonZero, LastClear, CanFree, Free;
    var head := d[FREE_LIST_BLOCK];
    var next := head[z := x];
    left, right := NonZero(head[..z]), NonZero(head[z + 1..]);
    NonZeroSplit(head, z);
    NonZeroUpdate(head, z, x);
    ReplaceHead(Free(d, x), d, next, head, st');
    tail := st'[|NonZero(next)|..];
    assert st' == NonZero(next) + tail;
  }

  lemma GapAt(d: Store, x: Word) returns (z: nat)
    requires CanFree(d) && d[FREE_LIST_BLOCK][0] == 0
    ensures z < LAST && d[FREE_LIST_BLOCK][z] == 0
    ensures Free(d, x) == d[FREE_LIST_BLOCK := d[FREE_LIST_BLOCK][z := x]]
  {
    z := LastClear(d[FREE_LIST_BLOCK]);
  }

  lemma ChainOwn(d: Store, head: Block, st: seq<Word>)
    requires IsChain(d, head, st)
    ensures NonZero(head) <= st
  {
  }

  lemma DataPart(st': seq<Word>, st: seq<Word>)
    requires DataBlocks(st') && multiset(st) <= multiset(st')
    ensures DataBlocks(st)
  {
    forall i | 0 <= i < |st|
      ensures FIRST_DATA_BLOCK <= st[i] < NUM_OF_BLOCKS
    {
      assert st[i] in multiset(st');
    }
  }

  // No well-formed free list of at most `len` blocks, and none after further blocks are freed.
  ghost predicate Spoiled(d: Store, len: nat) {
    CanFree(d) && forall st: seq<Word> :: FreeList(d, st) ==> |st| > len
  }

  lemma SpoiledByOne(d: Store, st: seq<Word>, x: Word)
    requires FreeList(d, st) && CanFree(d) && FIRST_DATA_BLOCK <= x < NUM_OF_BLOCKS
    ensures Spoiled(Free(d, x), |st|)
  {
    GuardKept(d, x);
    hide CanFree, Free;
    forall st': seq<Word> | FreeList(Free(d, x), st')
      ensures |st'| > |st|
    {
      var s0 := FreeBack(d, x, st');
      ChainUnique(d, d[FREE_LIST_BLOCK], s0, st);
    }
  }

  lemma SpoiledStays(d: Store, len: nat, x: Word)
    requires Spoiled(d, len) && FIRST_DATA_BLOCK <= x < NUM_OF_BLOCKS
    ensures Spoiled(Free(d, x), len)
  {
    GuardKept(d, x);
    hide CanFree, Free, FreeList;
    forall st': seq<Word> | FreeList(Free(d, x), st')
      ensures |st'| > len
    {
      var s0 := FreeBack(d, x, st');
    }
  }

  // Each word is 0 or the number of a data block, and after a 0 come only zeros.
  predicate Settled(c: seq<Word>) {
    && (forall i :: 0 <= i < |c| ==> c[i] == 0 || FIRST_DATA_BLOCK <= c[i] < NUM_OF_BLOCKS)
    && (forall i, j :: 0 <= i < j < |c| && c[i] == 0 ==> c[j] == 0)
  }

  lemma SettledOne(x: Word)
    requires FIRST_DATA_BLOCK <= x < NUM_OF_BLOCKS
    ensures Settled([x])
  {
  }

  // Freeing zeros does nothing, or loses the whole free list.
  lemma {:induction false} FreeZeros(d: Store, c: seq<Word>)
    requires c != [] && forall i :: 0 <= i < |c| ==> c[i] == 0
    ensures d[FREE_LIST_BLOCK][0] == 0 ==> FreeAll(d, c) == d
    ensures d[FREE_LIST_BLOCK][0] != 0 ==> FreeList(FreeAll(d, c), [])
    decreases |c|
  {
    FreeZero(d);
    FreeStep(d, c);
    NoneLeft(Free(d, 0));
    if |c| > 1 {
      FreedZero(d);
      hide Free, FreeAll, FreeList;
      FreeZeros(Free(d, 0), c[1..]);
    }
  }

  lemma FreeStep(d: Store, c: seq<Word>)
    requires c != []
    ensures FreeAll(d, c) == FreeAll(Free(d, c[0]), c[1..])
  {
    hide Free;
  }

  lemma NoneLeft(d: Store)
    ensures FreeAll(d, []) == d
  {
  }

  lemma FreedZero(d: Store)
    ensures Free(d, 0)[FREE_LIST_BLOCK][0] == 0
  {
    assert d[FREE_LIST_BLOCK][0] == 0 ==> LastClear(d[FREE_LIST_BLOCK]) >= 0;
  }

  lemma {:induction false} SpoiledAll(d: Store, c: seq<Word>, len: nat, st: seq<Word>)
    requires Spoiled(d, len) && len > 0 && Settled(c) && FreeList(FreeAll(d, c), st)
    ensures |st| != len
    decreases |c|
  {
    hide Free, FreeAll, FreeList, CanFree;
    if c == [] {
      NoneLeft(d);
    } else if c[0] == 0 {
      FreeZeros(d, c);
      if d[FREE_LIST_BLOCK][0] != 0 {
        SameList(FreeAll(d, c), st, []);
      }
    } else {
      FreeStep(d, c);
      SpoiledStays(d, len, c[0]);
      hide Spoiled;
      SpoiledAll(Free(d, c[0]), c[1..], len, st);
    }
  }

  lemma SameList(d: Store, s1: seq<Word>, s2: seq<Word>)
    requires FreeList(d, s1) && FreeList(d, s2)
    ensures s1 == s2
  {
    ChainUnique(d, d[FREE_LIST_BLOCK], s1, s2);
  }

  // Freeing stale words of which the first is no 0 leaves no free list of the right length.
  lemma StaleSpoils(d: Store, s1: seq<Word>, c: seq<Word>, st: seq<Word>)
    requires FreeList(d, s1) && CanFree(d) && s1 != [] && Settled(c) && c != [] && c[0] != 0
    requires FreeList(FreeAll(d, c), st)
    ensures |st| != |s1|
  {
    hide Free, FreeAll, FreeList, CanFree;
    FreeStep(d, c);
    SpoiledByOne(d, s1, c[0]);
    hide Spoiled;
    SpoiledAll(Free(d, c[0]), c[1..], |s1|, st);
  }

  // A state whose every free list has the wrong length is not balanced.
  lemma WrongLength(t: State, s1: seq<Word>, u: State)
    requires Balanced(t, s1) && u.files == t.files
    requires forall s2: seq<Word> :: FreeList(u.disk, s2) ==> |s2| != |s1|
    ensures !Conserved(u)
  {
    forall st': seq<Word> | Balanced(u, st')
      ensures false
    {
      BalancedList(u, st');
      ConservedCount(t, s1, u, st');
    }
    hide Balanced;
    NotConserved(u);
  }

  // The disk once the last of n blocks is freed, and the words that are freed after it.
  function WithoutLast(d: Store, nums: Slots, n: nat): Store
    requires 0 < n <= TRIPLE_INDIRECT_LIMIT
  {
    Free(d, LookUp(d, nums, n - 1))
  }

  function StaleAt(d: Store, nums: Slots, n: nat): seq<Word>
    requires 0 < n <= TRIPLE_INDIRECT_LIMIT
  {
    StaleWords(d, nums, LookUp(d, nums, n - 1), n)
  }

  lemma StaleAtIs(d: Store, nums: Slots, n: nat)
    requires 0 < n <= TRIPLE_INDIRECT_LIMIT
    ensures WithoutLast(d, nums, n) == Free(d, LookUp(d, nums, n - 1))
    ensures StaleAt(d, nums, n) == StaleWords(d, nums, LookUp(d, nums, n - 1), n)
  {
    hide LookUp, StaleWords, Free;
  }

  // The round conserves blocks if and only if the stale words are 0 and freeing the last block
  // did not fill the head of the free list.
  lemma ShrinkStaleIff(s: State, i: nat, n: nat)
    requires Conserved(s) && i < |s.files| && CanFree(s.disk)
    requires s.files[i].blocks == n && Starts(n) && Settled(StaleAt(s.disk, s.files[i].nums, n))
    ensures BlockCount(n * BLOCK_SIZE) == n && StaleAt(s.disk, s.files[i].nums, n) != []
    ensures Conserved(Step(s, Shrink(i, n * BLOCK_SIZE)))
            <==> StaleAt(s.disk, s.files[i].nums, n)[0] == 0
                 && WithoutLast(s.disk, s.files[i].nums, n)[FREE_LIST_BLOCK][0] == 0
  {
    StartsIs(n);
    var st: seq<Word> :| Balanced(s, st);
    hide *;
    Values();
    StaleStep(s, i, n);
    StaleAtIs(s.disk, s.files[i].nums, n);
    var f := s.files[i];
    var d1, c := WithoutLast(s.disk, f.nums, n), StaleAt(s.disk, f.nums, n);
    var s1 := LastBlockAlone(s, st, i, n);
    var t := State(d1, s.files[i := File(f.nums, n - 1)]);
    RoundIff(t, s1, c);
  }

  lemma RoundIff(t: State, s1: seq<Word>, c: seq<Word>)
    requires Balanced(t, s1) && CanFree(t.disk) && s1 != [] && Settled(c) && c != []
    ensures Conserved(State(FreeAll(t.disk, c), t.files)) <==> c[0] == 0 && t.disk[FREE_LIST_BLOCK][0] == 0
  {
    hide Balanced, Conserved, FreeAll, FreeList, CanFree;
    var u := State(FreeAll(t.disk, c), t.files);
    BalancedList(t, s1);
    if c[0] == 0 {
      FreeZeros(t.disk, c);
      if t.disk[FREE_LIST_BLOCK][0] == 0 {
        IsConserved(t, s1);
        assert u == t;
      } else {
        forall s2: seq<Word> | FreeList(u.disk, s2)
          ensures |s2| != |s1|
        {
          SameList(u.disk, s2, []);
        }
        WrongLength(t, s1, u);
      }
    } else {
      forall s2: seq<Word> | FreeList(u.disk, s2)
        ensures |s2| != |s1|
      {
        StaleSpoils(t.disk, s1, c, s2);
      }
      WrongLength(t, s1, u);
    }
  }

  lemma StartsIs(n: nat)
    requires Starts(n)
    ensures 10 <= n <= TRIPLE_INDIRECT_LIMIT && n <= MAX_FILE_BLOCKS && FileNew(n - 1) == 0 && FileNew(n) > 0
  {
    FileNewZero(n - 1);
    FileNewZero(n);
  }

  lemma BalancedList(t: State, s1: seq<Word>)
    requires Balanced(t, s1)
    ensures FreeList(t.disk, s1)
  {
  }
}
