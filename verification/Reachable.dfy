/**
  The states in which the code goes wrong are reached from mkfs.
 */
module Reachable {
  import opened Params
  import opened Disk
  import opened FreeChain
  import opened Mkfs
  import opened BlockPath
  import opened BlockTree
  import opened TreeGrowth
  import opened FileMap
  import opened FileGrowth
  import opened FileRelease
  import opened BMap
  import opened FileShrink
  import opened StaleShrink
  import opened Conservation

  // ---------- an unguarded head ----------

  // A list block after its first r slots were handed out.
  function Taken(b: Block, r: nat): Block {
    seq(K, i requires 0 <= i < K => if i < r then 0 else b[i])
  }

  // The q-th link of the chain leads to the q-th list block.
  lemma {:induction false} LaidLink(d: Store, p: Word, start: Word, q: nat)
    requires p < start <= NUM_OF_BLOCKS && start + 128 * q + LAST < NUM_OF_BLOCKS
    ensures Laid(d, p, start)[start + 128 * q + LAST] == Filled(start + 128 * q + 128)
    decreases q
  {
    var d' := Put(d, p, Filled(start));
    assert Laid(d, p, start) == Laid(d', start + LAST, start + K);
    if q == 0 {
      LaidChain(d', start + LAST, start + K);
    } else {
      LaidLink(d', start + LAST, start + K, q - 1);
    }
  }

  lemma AllocTaken(d: Store, s: Word, r: nat)
    requires r < K && s > 0 && s + r < NUM_OF_BLOCKS && d[FREE_LIST_BLOCK] == Taken(Filled(s), r)
    ensures var d' := Alloc(d).0;
      d' == d[FREE_LIST_BLOCK := if r < LAST then Taken(Filled(s), r + 1) else d[s + LAST]]
  {
    var head := d[FREE_LIST_BLOCK];
    assert head[r] == s + r;
    FirstUsedAt(head, r);
    if r < LAST {
      assert head[r := 0] == Taken(Filled(s), r + 1);
    }
  }

  lemma NoneTaken(b: Block)
    ensures Taken(b, 0) == b
  {
  }

  // The disk after mkfs and n allocations.
  lemma {:induction false} DrainedHead(d: Store, n: nat, q: nat, r: nat)
    requires n == 128 * q + r && r < K && FIRST_DATA_BLOCK + 128 * q + r <= NUM_OF_BLOCKS
    ensures FIRST_DATA_BLOCK + 128 * q < WORD_LIMIT
    ensures var laid := Laid(d, FREE_LIST_BLOCK, FIRST_DATA_BLOCK);
            Drained(laid, n).0 == laid[FREE_LIST_BLOCK := Taken(Filled(FIRST_DATA_BLOCK + 128 * q), r)]
    decreases n
  {
    hide Laid, Taken, Filled, Alloc;
    var laid := Laid(d, FREE_LIST_BLOCK, FIRST_DATA_BLOCK);
    if n == 0 {
      LaidChain(d, FREE_LIST_BLOCK, FIRST_DATA_BLOCK);
      NoneTaken(Filled(FIRST_DATA_BLOCK));
    } else if r > 0 {
      DrainedHead(d, n - 1, q, r - 1);
      AllocTaken(Drained(laid, n - 1).0, FIRST_DATA_BLOCK + 128 * q, r - 1);
    } else {
      var s := FIRST_DATA_BLOCK + 128 * (q - 1);
      DrainedHead(d, n - 1, q - 1, LAST);
      AllocTaken(Drained(laid, n - 1).0, s, LAST);
      LaidLink(d, FREE_LIST_BLOCK, FIRST_DATA_BLOCK, q - 1);
      NoneTaken(Filled(s + 128));
    }
  }

  // After mkfs and 31440769 allocations 123 blocks are free and the guard fails, so the next
  // free goes wrong unless its block reads as zeros.
  lemma UnguardedReached(d: Store)
    ensures var d' := Drained(Laid(d, FREE_LIST_BLOCK, FIRST_DATA_BLOCK), 31440769).0;
      var st: seq<Word> := Range(FIRST_DATA_BLOCK)[31440769..];
      && |st| == 123 && FreeList(d', st) && !CanFree(d')
      && forall b: Word :: FIRST_DATA_BLOCK <= b < NUM_OF_BLOCKS && b !in st && NonZero(d'[b]) != [] ==>
           forall st': seq<Word> :: FreeList(Free(d', b), st') ==> multiset(st') != multiset(st) + multiset{b}
  {
    var laid := Laid(d, FREE_LIST_BLOCK, FIRST_DATA_BLOCK);
    var d' := Drained(laid, 31440769).0;
    MkfsFreesAll(d, FIRST_DATA_BLOCK);
    DrainInOrder(laid, Range(FIRST_DATA_BLOCK), 31440769);
    DrainedHead(d, 31440769, 245631, 1);
    HeadOpen();
    hide Laid, Drained, Filled, Taken, FreeList, Free, NonZero, CanFree;
    var st: seq<Word> := Range(FIRST_DATA_BLOCK)[31440769..];
    forall b: Word | FIRST_DATA_BLOCK <= b < NUM_OF_BLOCKS && b !in st && NonZero(d'[b]) != []
      ensures forall st': seq<Word> :: FreeList(Free(d', b), st') ==> multiset(st') != multiset(st) + multiset{b}
    {
      FreeIffGuard(d', st, b);
    }
  }

  lemma HeadOpen()
    ensures var head := Taken(Filled(FIRST_DATA_BLOCK + 128 * 245631), 1); head[0] == 0 && head[LAST] == 0
  {
  }

  // ---------- a leak ----------

  function Appends(k: nat): (ops: seq<Op>)
    ensures |ops| == k
  {
    seq(k, _ => Append(0))
  }

  lemma FewIndirect(n: nat)
    requires n < MAX_FILE_BLOCKS
    ensures FileNew(n) <= 3
  {
    if Level(n) > 0 {
      NewNodesAre(Level(n), n - Base(Level(n)));
      hide NewNodes;
    }
  }

  // k appends to a file, with enough blocks free.
  lemma {:induction false} AppendRun(s: State, st: seq<Word>, k: nat) returns (t: State, st': seq<Word>)
    requires Balanced(s, st) && |s.files| > 0 && s.files[0].blocks + k < MAX_FILE_BLOCKS && 4 * k <= |st|
    ensures Runs(s, Appends(k), t) && Balanced(t, st')
    ensures |t.files| == |s.files| && t.files[0].blocks == s.files[0].blocks + k && |st'| >= |st| - 4 * k
    decreases k
  {
    hide *;
    Values();
    if k == 0 {
      t, st' := s, st;
      NoRun(s);
    } else {
      var n := s.files[0].blocks;
      FewIndirect(n);
      AppendBalanced(s, st, 0);
      AppendGrowsFile(s);
      t, st' := AppendRun(Step(s, Append(0)), st[1 + FileNew(n)..], k - 1);
      FirstAppend(s, st, k, t);
    }
  }

  lemma NoRun(s: State)
    ensures Runs(s, Appends(0), s)
  {
  }

  lemma AppendGrowsFile(s: State)
    requires |s.files| > 0 && s.files[0].blocks < MAX_FILE_BLOCKS
    ensures var t := Step(s, Append(0)); |t.files| == |s.files| && t.files[0].blocks == s.files[0].blocks + 1
  {
    AppendStep(s, 0);
    hide Step;
  }

  lemma FirstAppend(s: State, st: seq<Word>, k: nat, t: State)
    requires Balanced(s, st) && |s.files| > 0 && s.files[0].blocks < MAX_FILE_BLOCKS && 4 <= |st| && k > 0
    requires FileNew(s.files[0].blocks) <= 3 && Runs(Step(s, Append(0)), Appends(k - 1), t)
    ensures Runs(s, Appends(k), t)
  {
    EnoughHere(s, st, 0);
    assert Appends(k)[0] == Append(0) && Appends(k)[1..] == Appends(k - 1);
    hide Balanced, FileNew, Step, Enough, Appends;
  }

  lemma ManyFree()
    ensures |Range(FIRST_DATA_BLOCK)| == 31440892
  {
  }

  // Eleven blocks of the first file, with most of the disk free.
  lemma ElevenReached(d: Store, nums: seq<Slots>) returns (t: State, st: seq<Word>)
    requires |nums| > 0
    ensures Runs(Formatted(d, nums), Appends(11), t) && Balanced(t, st) && |st| >= 128
    ensures |t.files| > 0 && t.files[0].blocks == 11
  {
    var s := Formatted(d, nums);
    FormatBalanced(d, nums);
    ManyFree();
    hide Formatted, Balanced, Range, CanFree, FreeList, Runs, Step;
    t, st := AppendRun(s, Range(FIRST_DATA_BLOCK), 11);
  }

  // From mkfs, eleven appends to a file lead to a state in which dropping its last block, at its
  // block-aligned size, loses its indirect block.
  lemma LeakReached(d: Store, nums: seq<Slots>) returns (t: State)
    requires |nums| > 0
    ensures Runs(Formatted(d, nums), Appends(11), t) && Conserved(t) && CanFree(t.disk)
    ensures |t.files| > 0 && t.files[0].blocks == 11 && !Conserved(Step(t, Shrink(0, 11 * BLOCK_SIZE)))
  {
    var st: seq<Word>;
    t, st := ElevenReached(d, nums);
    hide Formatted, Balanced, CanFree, Runs, Step;
    BalancedGuard(t, st);
    ShrinkLeaks(t, 0, 11);
  }

  lemma FormatBalanced(d: Store, nums: seq<Slots>)
    ensures var s := Formatted(d, nums);
      && Balanced(s, Range(FIRST_DATA_BLOCK)) && |s.files| == |nums|
      && forall i :: 0 <= i < |nums| ==> s.files[i].blocks == 0
  {
    var s := Formatted(d, nums);
    MkfsFreesAll(d, FIRST_DATA_BLOCK);
    hide FreeList, Laid, Range;
    EmptyTotal(s.disk, s.files);
    assert multiset(Range(FIRST_DATA_BLOCK)) + multiset{} == DataArea();
  }

  lemma BalancedGuard(t: State, st: seq<Word>)
    requires Balanced(t, st) && |st| >= 128
    ensures Conserved(t) && CanFree(t.disk)
  {
    GuardHolds(t.disk, st);
  }

  // ---------- a block freed twice ----------

  lemma {:induction false} OneMoreStep(s: State, ops: seq<Op>, t: State, op: Op)
    requires Runs(s, ops, t) && Enabled(t, op)
    ensures Runs(s, ops + [op], Step(t, op))
    decreases |ops|
  {
    hide Step, Enough, CanFree, SizePathSafe, NothingStale, NothingLost;
    if ops == [] {
      assert ([] + [op])[1..] == [];
      LastStep(s, op);
    } else {
      OneMoreStep(Step(s, ops[0]), ops[1..], t, op);
      assert (ops + [op])[1..] == ops[1..] + [op];
    }
  }

  lemma LastStep(s: State, op: Op)
    requires Enabled(s, op)
    ensures Runs(s, [op], Step(s, op)) && [] + [op] == [op]
  {
    hide Enabled, Step;
    assert [op][1..] == [];
  }

  // Index 10 starts the first indirect block, and a stale path leads there.
  lemma FirstIndirect(d: Store, nums: Slots, b: Word)
    ensures Starts(10) && FileNew(10) == 1
    ensures StaleWords(d, nums, b, 10) == [nums[10]] && FileSpine(d, nums, 10) == [nums[10]]
  {
    PathIsValid(10);
    FileNewZero(10);
    assert PathOf(10).level == 1 && PathOf(10).offs == [0];
    hide Free, Fetch, At;
    assert AllZero([0]) && [0][1..] == [];
  }

  // A file of eleven blocks owns the indirect block in slot 10.
  lemma OwnsIndirect(t: State, st: seq<Word>)
    requires Balanced(t, st) && |t.files| > 0 && t.files[0].blocks == 11
    ensures FIRST_DATA_BLOCK <= t.files[0].nums[10] < NUM_OF_BLOCKS
  {
    hide *;
    Values();
    var f := t.files[0];
    BalancedAt(t, st, 0);
    SeparateParts(t.disk, st, f.nums, 11, Rest(t.disk, t.files, 0));
    RemovedParts(t.disk, f.nums, 10);
    FirstIndirect(t.disk, f.nums, 0);
    DataBlock(FileNodes(t.disk, f.nums, 11, 1), multiset([f.nums[10]]), f.nums[10]);
  }

  lemma DataBlock(m: multiset<Word>, part: multiset<Word>, x: Word)
    requires InData(m) && part <= m && x in part
    ensures FIRST_DATA_BLOCK <= x < NUM_OF_BLOCKS
  {
  }

  lemma UnalignedEnabled(t: State)
    requires |t.files| > 0 && t.files[0].blocks == 11 && CanFree(t.disk)
    ensures Enabled(t, Shrink(0, 10 * BLOCK_SIZE + 1))
    ensures var u := Step(t, Shrink(0, 10 * BLOCK_SIZE + 1));
            u.files == t.files[0 := File(t.files[0].nums, 10)]
  {
    hide CanFree, LookUp, RemoveBlock, Enough;
    ShrinkStep(t, 0, 10 * BLOCK_SIZE + 1);
  }

  // Dropping the eleventh block gives two blocks back.
  lemma TwoMore(t: State, st: seq<Word>, u: State)
    requires Balanced(t, st) && |t.files| > 0 && t.files[0].blocks == 11
    requires Conserved(u) && u.files == t.files[0 := File(t.files[0].nums, 10)]
    ensures |st| >= 128 ==> CanFree(u.disk)
  {
    hide Balanced, TotalCost, CanFree;
    var st': seq<Word> :| Balanced(u, st');
    ConservedCount(t, st, u, st');
    CostUpdate(t.files, 0, File(t.files[0].nums, 10));
    if |st| >= 128 {
      BalancedGuard(u, st');
    }
  }

  // From mkfs, eleven appends and a shrink that conserves every block lead to a state in which
  // dropping the tenth block, at its block-aligned size, frees the old indirect block again.
  lemma StaleReached(d: Store, nums: seq<Slots>) returns (u: State)
    requires |nums| > 0
    ensures Runs(Formatted(d, nums), Appends(11) + [Shrink(0, 10 * BLOCK_SIZE + 1)], u)
    ensures Conserved(u) && CanFree(u.disk)
    ensures |u.files| > 0 && u.files[0].blocks == 10 && !Conserved(Step(u, Shrink(0, 10 * BLOCK_SIZE)))
  {
    var op := Shrink(0, 10 * BLOCK_SIZE + 1);
    var t, st := ElevenReached(d, nums);
    hide *;
    Values();
    BalancedGuard(t, st);
    UnalignedEnabled(t);
    OneMoreStep(Formatted(d, nums), Appends(11), t, op);
    StepConserves(t, op);
    u := Step(t, op);
    TwoMore(t, st, u);
    OwnsIndirect(t, st);
    FirstIndirect(u.disk, u.files[0].nums, LookUp(u.disk, u.files[0].nums, 9));
    SettledOne(t.files[0].nums[10]);
    StaleAtIs(u.disk, u.files[0].nums, 10);
    ShrinkStaleIff(u, 0, 10);
  }
}
