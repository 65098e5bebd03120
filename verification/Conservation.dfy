/**
  Whole runs of the block layer: in every state reached from mkfs the free list and the
  files' blocks partition the data area.
 */
module Conservation {
  import opened Params
  import opened Disk
  import opened Bags
  import opened FreeChain
  import opened BlockPath
  import opened BlockTree
  import opened TreeGrowth
  import opened TreeRelease
  import opened FileMap
  import opened FileGrowth
  import opened FileRelease
  import opened FileContent
  import opened BMap
  import opened FileWrite
  import opened FileTruncate
  import opened FileShrink
  import opened Mkfs

  // An inode's block map and how many blocks its size covers.
  datatype File = File(nums: Slots, blocks: nat)

  datatype State = State(disk: Store, files: seq<File>)

  datatype Op =
    | Append(i: nat)                          // bmap appends a block to file i
    | Shrink(i: nat, size: nat)               // freeDataBlockInINode drops the last block of file i, of `size` bytes
    | Truncate(i: nat, size: nat, left: nat)  // decreaseFileSizeBy drops `left` bytes of file i, of `size` bytes
    | Release(i: nat, size: nat)              // inodeBlocksFree on file i, of `size` bytes
    | WriteBlock(i: nat, k: nat, data: Block) // new contents for block k of file i

  ghost function Owned(d: Store, f: File): multiset<Word> {
    FileNodes(d, f.nums, f.blocks, 0)
  }

  // Every block that some file owns, with multiplicity.
  ghost function Total(d: Store, files: seq<File>): multiset<Word> {
    if files == [] then multiset{} else Total(d, files[..|files| - 1]) + Owned(d, files[|files| - 1])
  }

  ghost function DataArea(): multiset<Word> {
    multiset(Range(FIRST_DATA_BLOCK))
  }

  ghost predicate Balanced(s: State, st: seq<Word>) {
    && FreeList(s.disk, st)
    && (forall i :: 0 <= i < |s.files| ==> s.files[i].blocks <= MAX_FILE_BLOCKS)
    && multiset(st) + Total(s.disk, s.files) == DataArea()
  }

  // Each data block is free or owned, and no block is both or owned twice.
  ghost predicate Conserved(s: State) {
    exists st: seq<Word> :: Balanced(s, st)
  }

  // ---------- steps ----------

  ghost predicate Enough(s: State, i: nat)
    requires i < |s.files|
  {
    exists st: seq<Word> :: FreeList(s.disk, st) && 1 + FileNew(s.files[i].blocks) <= |st|
  }

  ghost predicate Enabled(s: State, op: Op) {
    && op.i < |s.files|
    && var n := s.files[op.i].blocks;
       match op
       case Append(i) => n < MAX_FILE_BLOCKS && Enough(s, i)
       case Shrink(i, size) => 0 < size <= MAX_FILE_SIZE && n == BlockCount(size) && CanFree(s.disk)
           && SizePathSafe(size)
       case Truncate(i, size, left) =>
         && left <= size <= MAX_FILE_SIZE && n == BlockCount(size) && CanFree(s.disk)
         && NothingStale(size, left) && NothingLost(size, left)
       case Release(i, size) => n == BlockCount(size) && CanFree(s.disk)
       case WriteBlock(i, k, data) => k < n <= MAX_FILE_BLOCKS
  }

  function Step(s: State, op: Op): State
    requires op.i < |s.files|
    requires op.Truncate? ==> op.left <= op.size <= MAX_FILE_SIZE
    requires op.Append? ==> s.files[op.i].blocks <= TRIPLE_INDIRECT_LIMIT
    requires op.Shrink? ==> 0 < s.files[op.i].blocks <= MAX_FILE_BLOCKS
    requires op.WriteBlock? ==> op.k <= TRIPLE_INDIRECT_LIMIT
  {
    var f := s.files[op.i];
    match op
    case Append(i) =>
      var (d, nums, b) := AppendBlock(s.disk, f.nums, f.blocks);
      State(d, s.files[i := File(nums, f.blocks + 1)])
    case Shrink(i, size) =>
      SizePathIs(size);
      var b := LookUp(s.disk, f.nums, f.blocks - 1);
      State(RemoveBlock(s.disk, f.nums, b, SizePath(size)), s.files[i := File(f.nums, f.blocks - 1)])
    case Truncate(i, size, left) =>
      State(ShrinkLoop(s.disk, f.nums, size, left).0, s.files[i := File(f.nums, BlockCount(size - left))])
    case Release(i, size) =>
      var (d, nums) := ReleaseFile(s.disk, f.nums, size);
      State(d, s.files[i := File(nums, 0)])
    case WriteBlock(i, k, data) =>
      State(Put(s.disk, LookUp(s.disk, f.nums, k), data), s.files)
  }

  // ---------- sums over files ----------

  lemma {:induction false} TotalConcat(d: Store, a: seq<File>, b: seq<File>)
    ensures Total(d, a + b) == Total(d, a) + Total(d, b)
    decreases |b|
  {
    hide Owned;
    if b == [] {
      assert a + b == a;
    } else {
      var front := b[..|b| - 1];
      assert (a + b)[..|a + b| - 1] == a + front;
      TotalConcat(d, a, front);
    }
  }

  // What all files but file i own.
  ghost function Rest(d: Store, files: seq<File>, i: nat): multiset<Word>
    requires i < |files|
  {
    Total(d, files[..i]) + Total(d, files[i + 1..])
  }

  lemma TotalSplit(d: Store, files: seq<File>, i: nat)
    requires i < |files|
    ensures Total(d, files) == Owned(d, files[i]) + Rest(d, files, i)
  {
    hide Owned;
    assert files == files[..i] + ([files[i]] + files[i + 1..]);
    TotalConcat(d, files[..i], [files[i]] + files[i + 1..]);
    TotalConcat(d, [files[i]], files[i + 1..]);
    TotalOne(d, files[i]);
  }

  lemma TotalOne(d: Store, f: File)
    ensures Total(d, [f]) == Owned(d, f)
  {
    hide Owned;
    assert [f][..0] == [];
  }

  lemma RestUpdate(d: Store, files: seq<File>, i: nat, f: File)
    requires i < |files|
    ensures Rest(d, files[i := f], i) == Rest(d, files, i)
  {
    hide Total;
    assert files[i := f][..i] == files[..i] && files[i := f][i + 1..] == files[i + 1..];
  }

  lemma OwnedFrame(d: Store, d': Store, f: File)
    requires f.blocks <= MAX_FILE_BLOCKS && SameOn(d, d', Owned(d, f))
    ensures Owned(d', f) == Owned(d, f)
  {
    hide FileNodes, SameOn;
    FileNodesSplit(d, f.nums, f.blocks);
    SameOnPart(d, d', Owned(d, f), FileNodes(d, f.nums, f.blocks, 1));
    FileFrame(d, d', f.nums, f.blocks, 0);
  }

  lemma {:induction false} TotalFrame(d: Store, d': Store, files: seq<File>)
    requires forall i :: 0 <= i < |files| ==> files[i].blocks <= MAX_FILE_BLOCKS
    requires SameOn(d, d', Total(d, files))
    ensures Total(d', files) == Total(d, files)
  {
    hide Owned, SameOn;
    if files != [] {
      var front, last := files[..|files| - 1], files[|files| - 1];
      SameOnPart(d, d', Total(d, files), Total(d, front));
      SameOnPart(d, d', Total(d, files), Owned(d, last));
      TotalFrame(d, d', front);
      OwnedFrame(d, d', last);
    }
  }

  lemma RestFrame(d: Store, d': Store, files: seq<File>, i: nat)
    requires forall j :: 0 <= j < |files| ==> files[j].blocks <= MAX_FILE_BLOCKS
    requires i < |files| && SameOn(d, d', Rest(d, files, i))
    ensures Rest(d', files, i) == Rest(d, files, i)
  {
    hide Total, SameOn;
    SameOnPart(d, d', Rest(d, files, i), Total(d, files[..i]));
    SameOnPart(d, d', Rest(d, files, i), Total(d, files[i + 1..]));
    TotalFrame(d, d', files[..i]);
    TotalFrame(d, d', files[i + 1..]);
  }

  // ---------- one step ----------

  lemma AreaFacts()
    ensures InData(DataArea()) && Unique(DataArea())
  {
    RangeUnique(FIRST_DATA_BLOCK);
    forall x | x in DataArea()
      ensures FIRST_DATA_BLOCK <= x < NUM_OF_BLOCKS
    {
      var i :| 0 <= i < |Range(FIRST_DATA_BLOCK)| && Range(FIRST_DATA_BLOCK)[i] == x;
    }
  }

  ghost predicate Bounded(files: seq<File>) {
    forall i :: 0 <= i < |files| ==> files[i].blocks <= MAX_FILE_BLOCKS
  }

  lemma BalancedAt(s: State, st: seq<Word>, i: nat)
    requires Balanced(s, st) && i < |s.files|
    ensures var f := s.files[i];
      && f.blocks <= MAX_FILE_BLOCKS && Bounded(s.files) && FreeList(s.disk, st)
      && multiset(st) + FileNodes(s.disk, f.nums, f.blocks, 0) + Rest(s.disk, s.files, i) == DataArea()
      && Separate(s.disk, st, f.nums, f.blocks, Rest(s.disk, s.files, i))
  {
    hide Total, FileNodes, FreeList, Rest, DataArea;
    var f, rest := s.files[i], Rest(s.disk, s.files, i);
    TotalSplit(s.disk, s.files, i);
    var own := FileNodes(s.disk, f.nums, f.blocks, 0);
    assert multiset(st) + (own + rest) == multiset(st) + own + rest;
    AreaFacts();
    InDataPart(DataArea(), own + rest);
  }

  // A step on file i that keeps the sum of free blocks and the file's own blocks, and leaves
  // every other file alone, keeps the balance.
  lemma Rebalanced(s: State, st: seq<Word>, i: nat, d': Store, f': File, st': seq<Word>)
    requires Balanced(s, st) && i < |s.files| && FreeList(d', st') && f'.blocks <= MAX_FILE_BLOCKS
    requires multiset(st') + Owned(d', f') == multiset(st) + Owned(s.disk, s.files[i])
    requires SameOn(s.disk, d', Rest(s.disk, s.files, i))
    ensures Balanced(State(d', s.files[i := f']), st')
  {
    hide Total, Owned, FreeList, Rest, SameOn, DataArea;
    var files' := s.files[i := f'];
    RestFrame(s.disk, d', s.files, i);
    RestUpdate(d', s.files, i, f');
    TotalSplit(s.disk, s.files, i);
    TotalSplit(d', files', i);
    var rest := Rest(s.disk, s.files, i);
    assert multiset(st') + (Owned(d', f') + rest) == multiset(st') + Owned(d', f') + rest;
    assert multiset(st) + (Owned(s.disk, s.files[i]) + rest) == multiset(st) + Owned(s.disk, s.files[i]) + rest;
  }

  lemma SeparateApart(d: Store, st: seq<Word>, nums: Slots, n: nat, others: multiset<Word>)
    requires Separate(d, st, nums, n, others)
    ensures forall x :: x in others ==> x !in multiset(st) + FileNodes(d, nums, n, 0)
    ensures InData(others)
  {
    hide FileNodes, FreeList;
    InDataParts(FileNodes(d, nums, n, 0), others);
    forall x | x in others
      ensures x !in multiset(st) + FileNodes(d, nums, n, 0)
    {
      assert others + (multiset(st) + FileNodes(d, nums, n, 0)) == multiset(st) + FileNodes(d, nums, n, 0) + others;
      UniqueApart(others, multiset(st) + FileNodes(d, nums, n, 0), x);
    }
  }

  lemma AppendBalanced(s: State, st: seq<Word>, i: nat)
    requires Balanced(s, st) && i < |s.files| && s.files[i].blocks < MAX_FILE_BLOCKS
    requires 1 + FileNew(s.files[i].blocks) <= |st|
    ensures Balanced(Step(s, Append(i)), st[1 + FileNew(s.files[i].blocks)..])
  {
    hide *;
    Values();
    var f, c := s.files[i], FileNew(s.files[i].blocks);
    var n, rest := f.blocks, Rest(s.disk, s.files, i);
    BalancedAt(s, st, i);
    var b, taken, st' := st[0], st[1..1 + c], st[1 + c..];
    assert st == [b] + taken + st';
    AppendGrows(s.disk, b, taken, st', f.nums, n, rest);
    var (d', nums', b') := AppendBlock(s.disk, f.nums, n);
    GrownOwns(s.disk, d', f.nums, nums', n, b, taken);
    FileNodesSplit(s.disk, f.nums, n);
    SeparateApart(s.disk, st, f.nums, n, rest);
    assert multiset(st) == multiset([b] + taken) + multiset(st');
    assert forall x :: x in multiset(taken) + FileNodes(s.disk, f.nums, n, 1) ==>
                         x in multiset(st) + FileNodes(s.disk, f.nums, n, 0);
    Untouched(s.disk, d', multiset(taken) + FileNodes(s.disk, f.nums, n, 1), rest);
    SeparateParts(d', st', nums', n + 1, rest);
    OwnedIs(s.disk, f);
    OwnedIs(d', File(nums', n + 1));
    Rebalanced(s, st, i, d', File(nums', n + 1), st');
    AppendStep(s, i);
  }

  lemma OwnedIs(d: Store, f: File)
    ensures Owned(d, f) == FileNodes(d, f.nums, f.blocks, 0)
  {
  }

  lemma AppendStep(s: State, i: nat)
    requires i < |s.files| && s.files[i].blocks <= TRIPLE_INDIRECT_LIMIT
    ensures var (d', nums', b') := AppendBlock(s.disk, s.files[i].nums, s.files[i].blocks);
            Step(s, Append(i)) == State(d', s.files[i := File(nums', s.files[i].blocks + 1)])
  {
    hide AppendBlock;
  }

  lemma ShrinkBalanced(s: State, st: seq<Word>, i: nat, size: nat) returns (st': seq<Word>)
    requires Balanced(s, st) && Enabled(s, Shrink(i, size))
    ensures Balanced(Step(s, Shrink(i, size)), st')
  {
    hide *;
    Values();
    ShrinkEnabled(s, i, size);
    var f, k := s.files[i], s.files[i].blocks - 1;
    var rest := Rest(s.disk, s.files, i);
    BalancedAt(s, st, i);
    SeparateParts(s.disk, st, f.nums, k + 1, rest);
    LookUpFinds(s.disk, f.nums, k + 1, k);
    st' := ShrinkMoves(s.disk, st, f.nums, size, rest);
    var d' := RemoveBlock(s.disk, f.nums, BlockAt(s.disk, f.nums, k), SizePath(size));
    SeparateParts(d', st', f.nums, k, rest);
    OwnedIs(s.disk, f);
    OwnedIs(d', File(f.nums, k));
    SameOnPart(s.disk, d', FileNodes(s.disk, f.nums, k, 0) + rest, rest);
    Rebalanced(s, st, i, d', File(f.nums, k), st');
    ShrinkStep(s, i, size);
  }

  lemma ShrinkEnabled(s: State, i: nat, size: nat)
    requires Enabled(s, Shrink(i, size))
    ensures i < |s.files| && CanFree(s.disk) && SizePathSafe(size)
    ensures 0 < size <= MAX_FILE_SIZE
    ensures 0 < s.files[i].blocks == BlockCount(size) <= MAX_FILE_BLOCKS
  {
    SizeFacts(size);
  }

  lemma ShrinkStep(s: State, i: nat, size: nat)
    requires i < |s.files| && 0 < s.files[i].blocks <= MAX_FILE_BLOCKS
    ensures Valid(SizePath(size))
    ensures var f := s.files[i];
            var b := LookUp(s.disk, f.nums, f.blocks - 1);
            Step(s, Shrink(i, size))
            == State(RemoveBlock(s.disk, f.nums, b, SizePath(size)), s.files[i := File(f.nums, f.blocks - 1)])
  {
    SizePathIs(size);
    hide RemoveBlock, LookUp;
  }

  // What any truncation that meets no stale path does.
  lemma TruncateFrees(s: State, st: seq<Word>, i: nat, size: nat, left: nat) returns (st': seq<Word>)
    requires Balanced(s, st) && i < |s.files| && left <= size <= MAX_FILE_SIZE && s.files[i].blocks == BlockCount(size)
    requires CanFree(s.disk) && NothingStale(size, left)
    ensures var t := Step(s, Truncate(i, size, left));
      && FreeList(t.disk, st')
      && BlockCount(size - left) <= MAX_FILE_BLOCKS
      && |st'| + |Lost(t.disk, s.files[i].nums, size, left)| == |st| + Need(size - left, size)
      && (NothingLost(size, left) ==> Balanced(t, st'))
  {
    hide *;
    Values();
    var f, rest := s.files[i], Rest(s.disk, s.files, i);
    BalancedAt(s, st, i);
    GoodFrom(s.disk, st, f.nums, size, rest);
    st' := ShrinkExact(s.disk, st, f.nums, size, left, rest);
    var (d', size') := ShrinkLoop(s.disk, f.nums, size, left);
    var lost := Lost(d', f.nums, size, left);
    LostIff(d', f.nums, size, left);
    NothingLostIs(size, left);
    FileIsGood(d', st', f.nums, size', rest + lost, Content(s.disk, f.nums, size)[..size']);
    GoodIs(d', st', f.nums, size', rest + lost);
    SeparateParts(d', st', f.nums, BlockCount(size'), rest + lost);
    MovedCount(s.disk, d', st, st', f.nums, size, size', lost);
    TruncateStep(s, i, size, left);
    if NothingLost(size, left) {
      MovedButIs(s.disk, d', st, st', f.nums, size, size', lost);
      OwnedIs(s.disk, f);
      OwnedIs(d', File(f.nums, BlockCount(size')));
      Rebalanced(s, st, i, d', File(f.nums, BlockCount(size')), st');
    }
  }

  lemma TruncateBalanced(s: State, st: seq<Word>, i: nat, size: nat, left: nat) returns (st': seq<Word>)
    requires Balanced(s, st) && Enabled(s, Truncate(i, size, left))
    ensures left <= size <= MAX_FILE_SIZE && i < |s.files| && Balanced(Step(s, Truncate(i, size, left)), st')
  {
    hide Balanced, Step, CanFree, NothingStale, NothingLost, BlockCount;
    st' := TruncateFrees(s, st, i, size, left);
  }

  lemma TruncateStep(s: State, i: nat, size: nat, left: nat)
    requires i < |s.files| && left <= size <= MAX_FILE_SIZE
    ensures Step(s, Truncate(i, size, left))
            == State(ShrinkLoop(s.disk, s.files[i].nums, size, left).0,
                     s.files[i := File(s.files[i].nums, BlockCount(size - left))])
  {
    hide ShrinkLoop, BlockCount;
  }

  lemma ReleaseBalanced(s: State, st: seq<Word>, i: nat, size: nat) returns (st': seq<Word>)
    requires Balanced(s, st) && Enabled(s, Release(i, size))
    ensures Balanced(Step(s, Release(i, size)), st')
  {
    hide *;
    Values();
    ReleaseEnabled(s, i, size);
    var f, rest := s.files[i], Rest(s.disk, s.files, i);
    var own := FileNodes(s.disk, f.nums, f.blocks, 0);
    BalancedAt(s, st, i);
    SeparateWhole(s.disk, st, f.nums, f.blocks, rest);
    assert multiset(st) + (own + rest) == multiset(st) + own + rest;
    ReleasableIs(s.disk, st, own + rest);
    ReleasablePart(s.disk, st, own, rest);
    st' := ReleaseFrees(s.disk, st, f.nums, size);
    var (d', nums') := ReleaseFile(s.disk, f.nums, size);
    ReleasableRest(s.disk, d', st, st', own, rest);
    FreedIs(s.disk, d', st, st', own);
    OwnedIs(s.disk, f);
    OwnedIs(d', File(nums', 0));
    NoFile(d', nums', 0);
    Rebalanced(s, st, i, d', File(nums', 0), st');
    ReleaseStep(s, i, size);
  }

  lemma ReleaseEnabled(s: State, i: nat, size: nat)
    requires Enabled(s, Release(i, size))
    ensures i < |s.files| && CanFree(s.disk) && s.files[i].blocks == BlockCount(size)
  {
    hide Enough, CanFree, NothingStale, NothingLost, BlockCount;
  }

  lemma ReleaseStep(s: State, i: nat, size: nat)
    requires i < |s.files|
    ensures var (d', nums') := ReleaseFile(s.disk, s.files[i].nums, size);
            Step(s, Release(i, size)) == State(d', s.files[i := File(nums', 0)])
  {
    hide ReleaseFile;
  }

  lemma WriteBalanced(s: State, st: seq<Word>, i: nat, k: nat, data: Block)
    requires Balanced(s, st) && Enabled(s, WriteBlock(i, k, data))
    ensures Balanced(Step(s, WriteBlock(i, k, data)), st)
  {
    hide *;
    Values();
    WriteEnabled(s, i, k, data);
    var f, rest := s.files[i], Rest(s.disk, s.files, i);
    BalancedAt(s, st, i);
    SeparateParts(s.disk, st, f.nums, f.blocks, rest);
    LookUpFinds(s.disk, f.nums, f.blocks, k);
    PutBlock(s.disk, st, f.nums, f.blocks, rest, k, data);
    var d' := Put(s.disk, BlockAt(s.disk, f.nums, k), data);
    SeparateParts(d', st, f.nums, f.blocks, rest);
    SameOwned(s.disk, d', st, f, rest);
    Rebalanced(s, st, i, d', f, st);
    assert s.files[i := f] == s.files;
    WriteStep(s, i, k, data);
  }

  lemma WriteEnabled(s: State, i: nat, k: nat, data: Block)
    requires Enabled(s, WriteBlock(i, k, data))
    ensures i < |s.files| && k < s.files[i].blocks <= MAX_FILE_BLOCKS
  {
    hide Enough, CanFree, NothingStale, NothingLost;
  }

  lemma SameOwned(d: Store, d': Store, st: seq<Word>, f: File, rest: multiset<Word>)
    requires f.blocks <= MAX_FILE_BLOCKS && SameOn(d, d', FileNodes(d, f.nums, f.blocks, 1))
    ensures Owned(d', f) == Owned(d, f)
  {
    hide FileNodes, SameOn;
    FileFrame(d, d', f.nums, f.blocks, 0);
  }

  lemma WriteStep(s: State, i: nat, k: nat, data: Block)
    requires i < |s.files| && k <= TRIPLE_INDIRECT_LIMIT
    ensures Step(s, WriteBlock(i, k, data)) == State(Put(s.disk, LookUp(s.disk, s.files[i].nums, k), data), s.files)
  {
    hide LookUp, Put;
  }

  // ---------- runs ----------

  lemma StepConserves(s: State, op: Op)
    requires Conserved(s) && Enabled(s, op)
    ensures Conserved(Step(s, op))
  {
    var st: seq<Word> :| Balanced(s, st);
    hide Balanced, Step;
    match op
    case Append(i) =>
      EnoughHere(s, st, i);
      AppendBalanced(s, st, i);
    case Shrink(i, size) =>
      var st' := ShrinkBalanced(s, st, i, size);
    case Truncate(i, size, left) =>
      var st' := TruncateBalanced(s, st, i, size, left);
    case Release(i, size) =>
      var st' := ReleaseBalanced(s, st, i, size);
    case WriteBlock(i, k, data) =>
      WriteBalanced(s, st, i, k, data);
  }

  lemma EnoughHere(s: State, st: seq<Word>, i: nat)
    requires Balanced(s, st) && i < |s.files|
    ensures Enough(s, i) <==> 1 + FileNew(s.files[i].blocks) <= |st|
  {
    assert FreeList(s.disk, st);
    forall t: seq<Word> | FreeList(s.disk, t)
      ensures t == st
    {
      ChainUnique(s.disk, s.disk[FREE_LIST_BLOCK], t, st);
    }
    hide FreeList, FileNew, Total;
  }

  // `ops` takes state s to state t, every step being enabled.
  ghost predicate Runs(s: State, ops: seq<Op>, t: State)
    decreases |ops|
  {
    if ops == [] then t == s else Enabled(s, ops[0]) && Runs(Step(s, ops[0]), ops[1..], t)
  }

  // The state mkfs leaves: every data block on the free list, no file has a block.
  function Formatted(d: Store, nums: seq<Slots>): State {
    State(Laid(d, FREE_LIST_BLOCK, FIRST_DATA_BLOCK), seq(|nums|, i requires 0 <= i < |nums| => File(nums[i], 0)))
  }

  lemma FormatConserves(d: Store, nums: seq<Slots>)
    ensures Conserved(Formatted(d, nums))
  {
    var s := Formatted(d, nums);
    MkfsFreesAll(d, FIRST_DATA_BLOCK);
    hide FreeList, Laid, Range;
    EmptyTotal(s.disk, s.files);
    assert multiset(Range(FIRST_DATA_BLOCK)) + multiset{} == DataArea();
    assert Balanced(s, Range(FIRST_DATA_BLOCK));
  }

  lemma {:induction false} EmptyTotal(d: Store, files: seq<File>)
    requires forall i :: 0 <= i < |files| ==> files[i].blocks == 0
    ensures Total(d, files) == multiset{}
  {
    if files != [] {
      EmptyTotal(d, files[..|files| - 1]);
      NoFile(d, files[|files| - 1].nums, 0);
      hide FileNodes;
    }
  }

  // Conservation: whatever the disk held before mkfs and whatever the inodes' slots hold, no
  // run of enabled steps loses or duplicates a block.
  lemma {:induction false} RunConserves(d: Store, nums: seq<Slots>, ops: seq<Op>, t: State)
    requires Runs(Formatted(d, nums), ops, t)
    ensures Conserved(t)
  {
    FormatConserves(d, nums);
    RunKeeps(Formatted(d, nums), ops, t);
  }

  lemma {:induction false} RunKeeps(s: State, ops: seq<Op>, t: State)
    requires Conserved(s) && Runs(s, ops, t)
    ensures Conserved(t)
    decreases |ops|
  {
    hide Conserved, Step, Enough, CanFree, SizePathSafe, NothingStale, NothingLost;
    if ops != [] {
      StepConserves(s, ops[0]);
      RunKeeps(Step(s, ops[0]), ops[1..], t);
    }
  }

  // What conservation says of one block: it is free or it belongs to exactly one file, once.
  lemma Partition(s: State, st: seq<Word>, x: Word)
    requires Balanced(s, st) && FIRST_DATA_BLOCK <= x < NUM_OF_BLOCKS
    ensures multiset(st)[x] + Total(s.disk, s.files)[x] == 1
    ensures x in st <==> forall i :: 0 <= i < |s.files| ==> x !in Owned(s.disk, s.files[i])
    ensures forall i, j :: 0 <= i < j < |s.files| && x in Owned(s.disk, s.files[i]) ==> x !in Owned(s.disk, s.files[j])
  {
    InArea(x);
    SomeOwner(s.disk, s.files, x);
    hide FreeList, Owned, DataArea, Total;
    assert (multiset(st) + Total(s.disk, s.files))[x] == 1;
    forall i, j | 0 <= i < j < |s.files| && x in Owned(s.disk, s.files[i])
      ensures x !in Owned(s.disk, s.files[j])
    {
      TwoOwners(s.disk, s.files, i, j, x);
    }
    forall i | 0 <= i < |s.files|
      ensures Owned(s.disk, s.files[i])[x] <= Total(s.disk, s.files)[x]
    {
      OneOwner(s.disk, s.files, i, x);
    }
  }

  lemma InArea(x: Word)
    requires FIRST_DATA_BLOCK <= x < NUM_OF_BLOCKS
    ensures DataArea()[x] == 1
  {
    assert Range(FIRST_DATA_BLOCK)[x - FIRST_DATA_BLOCK] == x;
    RangeUnique(FIRST_DATA_BLOCK);
    assert x in DataArea() && DataArea()[x] <= 1;
  }

  lemma OneOwner(d: Store, files: seq<File>, i: nat, x: Word)
    requires i < |files|
    ensures Owned(d, files[i])[x] <= Total(d, files)[x]
  {
    hide Owned, Total;
    TotalSplit(d, files, i);
  }

  lemma TwoOwners(d: Store, files: seq<File>, i: nat, j: nat, x: Word)
    requires i < j < |files|
    ensures Owned(d, files[i])[x] + Owned(d, files[j])[x] <= Total(d, files)[x]
  {
    hide Owned;
    TotalSplit(d, files, j);
    TotalSplit(d, files[..j], i);
  }

  lemma {:induction false} SomeOwner(d: Store, files: seq<File>, x: Word)
    ensures x in Total(d, files) ==> exists i :: 0 <= i < |files| && x in Owned(d, files[i])
  {
    hide Owned;
    if x in Total(d, files) && x !in Owned(d, files[|files| - 1]) {
      var front := files[..|files| - 1];
      SomeOwner(d, front, x);
      var i :| 0 <= i < |front| && x in Owned(d, front[i]);
      assert x in Owned(d, files[i]);
    }
  }

  // ---------- exactly when ----------

  function Cost(n: nat): nat {
    n + Meta(n)
  }

  function TotalCost(files: seq<File>): nat {
    if files == [] then 0 else TotalCost(files[..|files| - 1]) + Cost(files[|files| - 1].blocks)
  }

  // The number of owned blocks depends on the file sizes alone.
  lemma {:induction false} TotalIsCost(d: Store, files: seq<File>)
    requires Bounded(files)
    ensures |Total(d, files)| == TotalCost(files)
  {
    hide FileNodes, Meta;
    if files != [] {
      TotalIsCost(d, files[..|files| - 1]);
      FileCost(d, files[|files| - 1].nums, files[|files| - 1].blocks);
    }
  }

  lemma {:induction false} CostUpdate(files: seq<File>, i: nat, f: File)
    requires i < |files|
    ensures TotalCost(files[i := f]) + Cost(files[i].blocks) == TotalCost(files) + Cost(f.blocks)
  {
    hide Cost;
    var front := files[..|files| - 1];
    if i < |files| - 1 {
      CostUpdate(front, i, f);
      assert files[i := f][..|files| - 1] == front[i := f];
    } else {
      assert files[i := f][..|files| - 1] == front;
    }
  }

  // Two conserved states of one disk size differ in free blocks by what the files gained.
  lemma ConservedCount(s: State, st: seq<Word>, t: State, st': seq<Word>)
    requires Balanced(s, st) && Balanced(t, st')
    ensures |st| + TotalCost(s.files) == |st'| + TotalCost(t.files)
  {
    TotalIsCost(s.disk, s.files);
    TotalIsCost(t.disk, t.files);
    hide Total, FreeList, TotalCost;
    assert |multiset(st) + Total(s.disk, s.files)| == |multiset(st') + Total(t.disk, t.files)|;
  }

  // An append keeps the partition if and only if the free list holds the block and the
  // indirect blocks it needs. The code does not check.
  lemma AppendConservesIff(s: State, i: nat)
    requires Conserved(s) && i < |s.files| && s.files[i].blocks < MAX_FILE_BLOCKS
    ensures Conserved(Step(s, Append(i))) <==> Enough(s, i)
  {
    hide Balanced, Step, FileNew, Meta, Enough, AppendBlock, TotalCost;
    var n := s.files[i].blocks;
    var st: seq<Word> :| Balanced(s, st);
    EnoughHere(s, st, i);
    if Enough(s, i) {
      AppendBalanced(s, st, i);
    }
    var t := Step(s, Append(i));
    AppendStep(s, i);
    FileNewStep(n);
    CostUpdate(s.files, i, t.files[i]);
    forall st': seq<Word> | Balanced(t, st')
      ensures Enough(s, i)
    {
      ConservedCount(s, st, t, st');
    }
  }

  // A truncation that meets no stale path keeps the partition if and only if it loses nothing.
  lemma TruncateConservesIff(s: State, i: nat, size: nat, left: nat)
    requires Conserved(s) && i < |s.files| && left <= size <= MAX_FILE_SIZE && s.files[i].blocks == BlockCount(size)
    requires CanFree(s.disk) && NothingStale(size, left)
    ensures Conserved(Step(s, Truncate(i, size, left))) <==> NothingLost(size, left)
  {
    var st: seq<Word> :| Balanced(s, st);
    hide *;
    Values();
    var st' := TruncateFrees(s, st, i, size, left);
    var t := Step(s, Truncate(i, size, left));
    if NothingLost(size, left) {
      IsConserved(t, st');
    } else {
      var f := s.files[i];
      var d' := ShrinkLoop(s.disk, f.nums, size, left).0;
      TruncateStep(s, i, size, left);
      NothingLostIs(size, left);
      LostIff(d', f.nums, size, left);
      SizeZero(Lost(d', f.nums, size, left));
      CostIs(BlockCount(size));
      CostIs(BlockCount(size - left));
      NeedIs(size - left, size);
      CostUpdate(s.files, i, File(f.nums, BlockCount(size - left)));
      forall u: seq<Word> | Balanced(t, u)
        ensures false
      {
        ConservedCount(s, st, t, u);
        OneFreeList(t, st', u);
      }
      NotConserved(t);
    }
  }

  lemma IsConserved(t: State, st: seq<Word>)
    requires Balanced(t, st)
    ensures Conserved(t)
  {
  }

  lemma OneFreeList(t: State, s1: seq<Word>, st': seq<Word>)
    requires FreeList(t.disk, s1) && Balanced(t, st')
    ensures s1 == st'
  {
    ChainUnique(t.disk, t.disk[FREE_LIST_BLOCK], s1, st');
  }

  lemma LeakyShrink(s: State, st: seq<Word>, i: nat, size: nat) returns (s1: seq<Word>)
    requires Balanced(s, st) && i < |s.files| && CanFree(s.disk)
    requires 0 < size <= MAX_FILE_SIZE && 0 < s.files[i].blocks == BlockCount(size) <= MAX_FILE_BLOCKS
    requires size / BLOCK_SIZE <= TRIPLE_INDIRECT_LIMIT && FileNew(size / BLOCK_SIZE) == 0
    ensures FreeList(Step(s, Shrink(i, size)).disk, s1) && |s1| == |st| + 1
  {
    hide *;
    Values();
    var f, k := s.files[i], s.files[i].blocks - 1;
    var rest := Rest(s.disk, s.files, i);
    BalancedAt(s, st, i);
    SeparateParts(s.disk, st, f.nums, k + 1, rest);
    LookUpFinds(s.disk, f.nums, k + 1, k);
    var b := BlockAt(s.disk, f.nums, k);
    SizePathIs(size);
    CollectedCount(s.disk, f.nums, b, size / BLOCK_SIZE);
    CollectedIs(s.disk, f.nums, b, SizePath(size));
    FreeAllNone(Free(s.disk, b), Collected(s.disk, f.nums, b, SizePath(size)));
    DataBlockApart(s.disk, st, f.nums, k + 1, rest, k);
    OneMore(s.disk, st, b);
    s1 := FreeOne(s.disk, st, b);
    FreedIs(s.disk, Free(s.disk, b), st, s1, multiset{b});
    assert |multiset(s1)| == |s1| && |multiset(st) + multiset{b}| == |st| + 1;
    ShrinkStep(s, i, size);
  }

  lemma FreeAllNone(d: Store, bs: seq<Word>)
    requires |bs| == 0
    ensures FreeAll(d, bs) == d
  {
  }

  lemma OneMore(d: Store, st: seq<Word>, b: Word)
    requires FreeList(d, st) && b !in st
    ensures Unique(multiset(st) + multiset{b})
  {
    hide IsChain;
  }

  // Dropping the first block under an indirect block from a block-aligned size frees the data
  // block alone: the indirect block is neither free nor owned afterwards.
  lemma ShrinkLeaks(s: State, i: nat, n: nat)
    requires Conserved(s) && i < |s.files| && CanFree(s.disk)
    requires s.files[i].blocks == n && 10 < n < MAX_FILE_BLOCKS && (n - 10) % 128 == 1
    ensures BlockCount(n * BLOCK_SIZE) == n && n * BLOCK_SIZE / BLOCK_SIZE == n
    ensures !Conserved(Step(s, Shrink(i, n * BLOCK_SIZE)))
  {
    LeakSize(n);
    var st: seq<Word> :| Balanced(s, st);
    hide *;
    Values();
    var size := n * BLOCK_SIZE;
    ShrinkStep(s, i, size);
    var s1 := LeakyShrink(s, st, i, size);
    CountsDiffer(s, st, i, Step(s, Shrink(i, size)), s1);
  }

  lemma LeakSize(n: nat)
    requires 10 < n < MAX_FILE_BLOCKS && (n - 10) % 128 == 1
    ensures BlockCount(n * BLOCK_SIZE) == n && n * BLOCK_SIZE / BLOCK_SIZE == n
    ensures FileNew(n) == 0 && FileNew(n - 1) > 0
  {
    FileNewZero(n);
    FileNewZero(n - 1);
    hide FileNew;
  }

  lemma CountsDiffer(s: State, st: seq<Word>, i: nat, t: State, s1: seq<Word>)
    requires Balanced(s, st) && i < |s.files| && 0 < s.files[i].blocks <= MAX_FILE_BLOCKS
    requires t.files == s.files[i := File(s.files[i].nums, s.files[i].blocks - 1)]
    requires FreeList(t.disk, s1) && |s1| == |st| + 1 && FileNew(s.files[i].blocks - 1) > 0
    ensures !Conserved(t)
  {
    hide *;
    Values();
    var n := s.files[i].blocks;
    FileNewStep(n - 1);
    CostIs(n);
    CostIs(n - 1);
    CostUpdate(s.files, i, File(s.files[i].nums, n - 1));
    forall st': seq<Word> | Balanced(t, st')
      ensures false
    {
      ConservedCount(s, st, t, st');
      OneFreeList(t, s1, st');
    }
    NotConserved(t);
  }

  lemma CostIs(n: nat)
    ensures Cost(n) == n + Meta(n)
  {
  }

  lemma NotConserved(t: State)
    requires forall st': seq<Word> :: !Balanced(t, st')
    ensures !Conserved(t)
  {
  }
}
