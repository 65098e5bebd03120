/**
  All directories of a volume on one disk: what an operation on one of them does to the disk
  leaves the entries of every other one as they are.
 */
module DirectoryTree {
  import opened Params
  import opened Disk
  import opened Bags
  import opened FreeChain
  import opened BlockTree
  import opened TreeGrowth
  import opened TreeRelease
  import opened FileMap
  import opened FileGrowth
  import opened FileRelease
  import opened FileContent
  import opened BMap
  import opened FileWrite
  import opened FileOutcome
  import opened FileTruncate
  import opened FileShrink
  import opened Conservation
  import opened Mkfs
  import opened INode
  import opened DirectoryEntry
  import opened Directory
  import opened DirectoryContent
  import opened CacheModel
  import opened Links
  import opened VolumeSteps

  function FileOf(ino: DiskINode): File {
    File(ino.dataBlockNums, BlockCount(ino.size))
  }

  function FilesOf(inos: seq<DiskINode>): (files: seq<File>)
    ensures |files| == |inos|
  {
    seq(|inos|, i requires 0 <= i < |inos| => FileOf(inos[i]))
  }

  // The free list and the blocks of all inodes share nothing.
  ghost predicate Apart(d: Store, st: seq<Word>, files: seq<File>) {
    && FreeList(d, st) && Bounded(files) && InData(Total(d, files))
    && Unique(multiset(st) + Total(d, files))
  }

  // The disk holds, apart from each other, the blocks of all inodes, and the entries `dirs` in
  // those that are directories.
  ghost predicate Joined(d: Store, st: seq<Word>, inos: seq<DiskINode>, dirs: seq<seq<Entry>>) {
    && |dirs| == |inos|
    && Apart(d, st, FilesOf(inos))
    && (forall n :: 0 <= n < |inos| ==> inos[n].size <= MAX_FILE_SIZE)
    && (forall n :: 0 <= n < |inos| && IsDirectory(inos[n].fileMode) ==> Holds(d, inos[n], dirs[n]))
  }

  ghost predicate Holds(d: Store, ino: DiskINode, es: seq<Entry>) {
    && ino.size == 64 * |es| <= MAX_FILE_SIZE
    && Entries(Content(d, ino.dataBlockNums, ino.size)) == es
  }

  // ---------- one inode and the rest ----------

  lemma ApartAt(d: Store, st: seq<Word>, files: seq<File>, i: nat)
    requires Apart(d, st, files) && i < |files|
    ensures files[i].blocks <= MAX_FILE_BLOCKS && Bounded(files)
    ensures Separate(d, st, files[i].nums, files[i].blocks, Rest(d, files, i))
  {
    hide Total, FileNodes, FreeList, Rest;
    var f, rest := files[i], Rest(d, files, i);
    TotalSplit(d, files, i);
    assert multiset(st) + (FileNodes(d, f.nums, f.blocks, 0) + rest)
        == multiset(st) + FileNodes(d, f.nums, f.blocks, 0) + rest;
  }

  lemma ApartUpdate(d: Store, st: seq<Word>, files: seq<File>, i: nat, d': Store, st': seq<Word>, f': File)
    requires Apart(d, st, files) && i < |files| && f'.blocks <= MAX_FILE_BLOCKS && SameOn(d, d', Rest(d, files, i))
    requires Separate(d', st', f'.nums, f'.blocks, Rest(d, files, i))
    ensures Apart(d', st', files[i := f'])
  {
    hide Total, FileNodes, FreeList, Rest, SameOn;
    var files' := files[i := f'];
    RestFrame(d, d', files, i);
    RestUpdate(d', files, i, f');
    TotalSplit(d', files', i);
    var own, rest := FileNodes(d', f'.nums, f'.blocks, 0), Rest(d, files, i);
    assert multiset(st') + (own + rest) == multiset(st') + own + rest;
  }

  lemma {:induction false} PartOfTotal(d: Store, files: seq<File>, j: nat)
    requires j < |files|
    ensures Owned(d, files[j]) <= Total(d, files)
  {
    hide Owned;
    if j < |files| - 1 {
      PartOfTotal(d, files[..|files| - 1], j);
    }
  }

  lemma PartOfRest(d: Store, files: seq<File>, i: nat, j: nat)
    requires i < |files| && j < |files| && i != j
    ensures FileNodes(d, files[j].nums, files[j].blocks, 0) <= Rest(d, files, i)
  {
    hide Owned, Total, FileNodes;
    OwnedIs(d, files[j]);
    var before, after := files[..i], files[i + 1..];
    if j < i {
      PartOfTotal(d, before, j);
    } else {
      PartOfTotal(d, after, j - i - 1);
    }
    PartOfSum(Owned(d, files[j]), Total(d, before), Total(d, after));
  }

  lemma PartOfSum(m: multiset<Word>, a: multiset<Word>, b: multiset<Word>)
    requires m <= a || m <= b
    ensures m <= a + b
  {
  }

  // A file whose blocks are left alone keeps its bytes.
  lemma SameBytes(d: Store, d': Store, st': seq<Word>, nums: Slots, size: nat, others: multiset<Word>)
    requires size <= MAX_FILE_SIZE && Separate(d', st', nums, BlockCount(size), others)
    requires SameOn(d, d', FileNodes(d, nums, BlockCount(size), 0))
    ensures Content(d', nums, size) == Content(d, nums, size)
  {
    hide *;
    Values();
    var n := BlockCount(size);
    WholeBlocks(size);
    FileNodesSplit(d, nums, n);
    SameOnPart(d, d', FileNodes(d, nums, n, 0), FileNodes(d, nums, n, 1));
    SameBlocksFrame(d, d', nums, n);
    KeptPrefix(d, d', st', nums, n, n * BLOCK_SIZE, others);
    FirstBytes(d, nums, size, n * BLOCK_SIZE);
    FirstBytes(d', nums, size, n * BLOCK_SIZE);
    assert Content(d, nums, n * BLOCK_SIZE)[..n * BLOCK_SIZE] == Content(d, nums, n * BLOCK_SIZE);
  }

  lemma WholeBlocks(size: nat)
    requires size <= MAX_FILE_SIZE
    ensures size <= BlockCount(size) * BLOCK_SIZE <= MAX_FILE_SIZE && BlockCount(size) <= MAX_FILE_BLOCKS
  {
  }

  lemma FirstBytes(d: Store, nums: Slots, size: nat, size': nat)
    requires size <= size' <= MAX_FILE_SIZE
    ensures Content(d, nums, size) == Content(d, nums, size')[..size]
  {
    hide ContentAt;
  }

  lemma FilesUpdate(inos: seq<DiskINode>, i: nat, ino: DiskINode)
    requires i < |inos|
    ensures FilesOf(inos[i := ino]) == FilesOf(inos)[i := FileOf(ino)]
  {
    hide BlockCount;
  }

  // A directory of the volume, apart from everything else.
  lemma JoinedAt(d: Store, st: seq<Word>, inos: seq<DiskINode>, dirs: seq<seq<Entry>>, n: nat)
    requires Joined(d, st, inos, dirs) && n < |inos| == |dirs|
    ensures inos[n].size <= MAX_FILE_SIZE
    ensures Good(d, st, inos[n].dataBlockNums, inos[n].size, Rest(d, FilesOf(inos), n))
    ensures IsDirectory(inos[n].fileMode) ==>
              DirIs(d, st, inos[n].dataBlockNums, inos[n].size, Rest(d, FilesOf(inos), n), dirs[n])
  {
    hide Separate, FreeList, Total, Rest, Content, Entries, IsDirectory, Apart;
    ApartAt(d, st, FilesOf(inos), n);
  }

  // An operation on inode p that leaves every block of the others alone keeps the others.
  lemma JoinedUpdate(d: Store, st: seq<Word>, inos: seq<DiskINode>, dirs: seq<seq<Entry>>, p: nat, d': Store,
                     st': seq<Word>,
                     ino: DiskINode, es: seq<Entry>)
    requires Joined(d, st, inos, dirs) && p < |inos| == |dirs|
    requires SameOn(d, d', Rest(d, FilesOf(inos), p))
    requires Good(d', st', ino.dataBlockNums, ino.size, Rest(d, FilesOf(inos), p))
    requires IsDirectory(ino.fileMode) ==> Holds(d', ino, es)
    ensures Joined(d', st', inos[p := ino], dirs[p := es])
  {
    hide Separate, FreeList, Total, Rest, Content, Entries, IsDirectory, Apart, Holds, BlockCount, SameOn;
    var inos', dirs' := inos[p := ino], dirs[p := es];
    FilesUpdate(inos, p, ino);
    WholeBlocks(ino.size);
    ApartUpdate(d, st, FilesOf(inos), p, d', st', FileOf(ino));
    forall n | 0 <= n < |inos| && IsDirectory(inos'[n].fileMode)
      ensures Holds(d', inos'[n], dirs'[n])
    {
      if n != p {
        OtherHolds(d, st, inos, dirs, p, d', st', ino, n);
      }
    }
  }

  lemma OtherHolds(d: Store, st: seq<Word>, inos: seq<DiskINode>, dirs: seq<seq<Entry>>, p: nat, d': Store,
                   st': seq<Word>,
                   ino: DiskINode, n: nat)
    requires Joined(d, st, inos, dirs) && p < |inos| == |dirs| && n < |inos| && n != p && IsDirectory(inos[n].fileMode)
    requires SameOn(d, d', Rest(d, FilesOf(inos), p)) && Apart(d', st', FilesOf(inos[p := ino]))
    ensures Holds(d', inos[n], dirs[n])
  {
    hide Separate, FreeList, Total, Rest, Content, Entries, IsDirectory, Apart, BlockCount, SameOn, FileNodes;
    var files := FilesOf(inos);
    ApartAt(d', st', FilesOf(inos[p := ino]), n);
    PartOfRest(d, files, p, n);
    SameOnPart(d, d', Rest(d, files, p), FileNodes(d, inos[n].dataBlockNums, BlockCount(inos[n].size), 0));
    SameBytes(d, d', st', inos[n].dataBlockNums, inos[n].size, Rest(d', FilesOf(inos[p := ino]), n));
  }

  // ---------- the operations ----------

  lemma DirHolds(d: Store, st: seq<Word>, ino: DiskINode, others: multiset<Word>, es: seq<Entry>)
    requires DirIs(d, st, ino.dataBlockNums, ino.size, others, es)
    ensures Good(d, st, ino.dataBlockNums, ino.size, others) && Holds(d, ino, es)
  {
    hide Separate, Content, Entries;
  }

  // Adding an entry to directory p.
  lemma JoinedAdd(d: Store, st: seq<Word>, inos: seq<DiskINode>, dirs: seq<seq<Entry>>, p: nat, e: Entry, need: nat)
    requires Joined(d, st, inos, dirs) && p < |inos| == |dirs| && IsDirectory(inos[p].fileMode)
    requires inos[p].size + 64 <= MAX_FILE_SIZE && need == Need(inos[p].size, inos[p].size + 64) && need <= |st|
    ensures var w := WriteLoop(d, inos[p].dataBlockNums, inos[p].size, inos[p].size, EntryBytes(e), 0);
      Joined(w.disk, st[need..], inos[p := inos[p].(dataBlockNums := w.nums, size := w.size)], dirs[p := dirs[p] + [e]])
  {
    hide *;
    Values();
    JoinedAt(d, st, inos, dirs, p);
    var ino, rest := inos[p], Rest(d, FilesOf(inos), p);
    CreateAdds(d, st, ino.dataBlockNums, ino.size, rest, dirs[p], e, need);
    var w := WriteLoop(d, ino.dataBlockNums, ino.size, ino.size, EntryBytes(e), 0);
    var ino' := ino.(dataBlockNums := w.nums, size := w.size);
    DirHolds(w.disk, st[need..], ino', rest, dirs[p] + [e]);
    JoinedUpdate(d, st, inos, dirs, p, w.disk, st[need..], ino', dirs[p] + [e]);
  }

  // The last entry over entry f of directory p, unless the marker keeps it.
  lemma JoinedSwap(d: Store, st: seq<Word>, inos: seq<DiskINode>, dirs: seq<seq<Entry>>, p: nat, f: nat, spot: Spot)
    requires Joined(d, st, inos, dirs) && p < |inos| == |dirs| && IsDirectory(inos[p].fileMode) && f < |dirs[p]|
    requires f / 16 < MAX_FILE_BLOCKS && spot == Spot(LookUp(d, inos[p].dataBlockNums, f / 16), 64 * (f % 16))
    ensures 64 <= inos[p].size <= MAX_FILE_SIZE && inos[p].size % 64 == 0
    ensures var d' := SwapOut(d, inos[p].dataBlockNums, inos[p].size, spot);
      && Joined(d', st, inos, dirs[p := Swapped(inos[p].size, dirs[p], f)])
      && (CanFree(d) ==> CanFree(d'))
  {
    hide *;
    Values();
    JoinedAt(d, st, inos, dirs, p);
    var ino, rest := inos[p], Rest(d, FilesOf(inos), p);
    SwapSets(d, st, ino.dataBlockNums, ino.size, rest, dirs[p], f);
    var d', es := SwapOut(d, ino.dataBlockNums, ino.size, spot), Swapped(ino.size, dirs[p], f);
    DirHolds(d', st, ino, rest, es);
    JoinedUpdate(d, st, inos, dirs, p, d', st, ino, es);
    assert inos[p := ino] == inos;
  }

  // The last entry of directory p dropped.
  lemma JoinedDrop(d: Store, st: seq<Word>, inos: seq<DiskINode>, dirs: seq<seq<Entry>>, p: nat)
    returns (st': seq<Word>)
    requires Joined(d, st, inos, dirs) && p < |inos| == |dirs| && IsDirectory(inos[p].fileMode) && dirs[p] != []
    requires CanFree(d)
    ensures 64 <= inos[p].size <= MAX_FILE_SIZE
    ensures var (d', size') := ShrinkLoop(d, inos[p].dataBlockNums, inos[p].size, 64);
      && size' == inos[p].size - 64 && CanFree(d') && |st'| == |st| + Need(size', inos[p].size)
      && Joined(d', st', inos[p := inos[p].(size := size')], dirs[p := dirs[p][..|dirs[p]| - 1]])
  {
    hide *;
    Values();
    JoinedAt(d, st, inos, dirs, p);
    var ino, rest, es := inos[p], Rest(d, FilesOf(inos), p), dirs[p];
    st' := DropEntry(d, st, ino.dataBlockNums, ino.size, rest, es);
    var (d', size') := ShrinkLoop(d, ino.dataBlockNums, ino.size, 64);
    var ino' := ino.(size := size');
    DirHolds(d', st', ino', rest, es[..|es| - 1]);
    JoinedUpdate(d, st, inos, dirs, p, d', st', ino', es[..|es| - 1]);
  }

  // Taking entry f of directory p away while its inode stays.
  lemma JoinedRemove(d: Store, st: seq<Word>, inos: seq<DiskINode>, dirs: seq<seq<Entry>>, p: nat, f: nat, spot: Spot)
    returns (st': seq<Word>)
    requires Joined(d, st, inos, dirs) && p < |inos| == |dirs| && IsDirectory(inos[p].fileMode) && f < |dirs[p]|
    requires CanFree(d)
    requires f / 16 < MAX_FILE_BLOCKS && spot == Spot(LookUp(d, inos[p].dataBlockNums, f / 16), 64 * (f % 16))
    ensures 64 <= inos[p].size <= MAX_FILE_SIZE && inos[p].size % 64 == 0
    ensures var (d', size') := ShrinkLoop(SwapOut(d, inos[p].dataBlockNums, inos[p].size, spot), inos[p].dataBlockNums,
            inos[p].size, 64);
      && size' == inos[p].size - 64 && CanFree(d') && |st'| == |st| + Need(size', inos[p].size)
      && Joined(d', st', inos[p := inos[p].(size := size')], dirs[p := Removed(dirs[p], f)])
  {
    hide *;
    Values();
    JoinedSwap(d, st, inos, dirs, p, f, spot);
    JoinedAt(d, st, inos, dirs, p);
    DirParts(d, st, inos[p].dataBlockNums, inos[p].size, Rest(d, FilesOf(inos), p), dirs[p]);
    SwapThenDrop(inos[p].size, dirs[p], f);
    var dirs1 := dirs[p := Swapped(inos[p].size, dirs[p], f)];
    st' := JoinedDrop(SwapOut(d, inos[p].dataBlockNums, inos[p].size, spot), st, inos, dirs1, p);
    assert dirs1[p := Removed(dirs[p], f)] == dirs[p := Removed(dirs[p], f)];
  }

  lemma SwapThenDrop(size: nat, es: seq<Entry>, f: nat)
    requires size == 64 * |es| && f < |es|
    ensures |Swapped(size, es, f)| == |es| && Swapped(size, es, f)[..|es| - 1] == Removed(es, f)
  {
    hide MarkerStays;
  }

  // The blocks of inode n released and the inode reclaimed.
  lemma JoinedRelease(d: Store, st: seq<Word>, inos: seq<DiskINode>, dirs: seq<seq<Entry>>, n: nat)
    returns (st': seq<Word>)
    requires Joined(d, st, inos, dirs) && n < |inos| == |dirs| && CanFree(d)
    ensures var d' := ReleaseFile(d, inos[n].dataBlockNums, inos[n].size).0;
      && CanFree(d') && |st'| == |st| + Cost(BlockCount(inos[n].size))
      && SameOn(d, d', Rest(d, FilesOf(inos), n))
      && Joined(d', st', inos[n := Reclaimed(inos[n])], dirs[n := []])
  {
    hide *;
    Values();
    JoinedAt(d, st, inos, dirs, n);
    var ino, rest := inos[n], Rest(d, FilesOf(inos), n);
    var own := FileNodes(d, ino.dataBlockNums, BlockCount(ino.size), 0);
    GoodIs(d, st, ino.dataBlockNums, ino.size, rest);
    SeparateWhole(d, st, ino.dataBlockNums, BlockCount(ino.size), rest);
    assert multiset(st) + (own + rest) == multiset(st) + own + rest;
    ReleasableIs(d, st, own + rest);
    ReleasablePart(d, st, own, rest);
    st' := ReleaseFrees(d, st, ino.dataBlockNums, ino.size);
    var d' := ReleaseFile(d, ino.dataBlockNums, ino.size).0;
    ReleasableRest(d, d', st, st', own, rest);
    FreedIs(d, d', st, st', own);
    FileCost(d, ino.dataBlockNums, BlockCount(ino.size));
    CostIs(BlockCount(ino.size));
    assert |multiset(st')| == |multiset(st) + own|;
    NothingLeft(d', st', ino, rest);
    JoinedUpdate(d, st, inos, dirs, n, d', st', Reclaimed(ino), []);
  }

  lemma NothingLeft(d: Store, st: seq<Word>, ino: DiskINode, rest: multiset<Word>)
    requires Releasable(d, st, rest)
    ensures Good(d, st, Reclaimed(ino).dataBlockNums, Reclaimed(ino).size, rest)
    ensures !IsDirectory(Reclaimed(ino).fileMode)
  {
    NoFile(d, ino.dataBlockNums, 0);
    hide FileNodes, FreeList;
    assert multiset{} + rest == rest;
    ReleasableSeparate(d, st, ino.dataBlockNums, 0, rest);
  }

  // Unlinking the last name of a file that nobody holds, on the disk of the whole volume: the
  // entry goes, the blocks of the file and those the shorter directory no longer needs are free,
  // and every other directory keeps its entries.
  lemma JoinedUnlink(d: Store, st: seq<Word>, inos: seq<DiskINode>, dirs: seq<seq<Entry>>, p: nat, f: nat, n: nat,
                     spot: Spot)
    returns (st': seq<Word>)
    requires Joined(d, st, inos, dirs) && p < |inos| == |dirs| && IsDirectory(inos[p].fileMode) && f < |dirs[p]|
    requires CanFree(d)
    requires n < |inos| && n != p && dirs[p][f].number == n && dirs[n] == []
    requires f / 16 < MAX_FILE_BLOCKS && spot == Spot(LookUp(d, inos[p].dataBlockNums, f / 16), 64 * (f % 16))
    ensures 64 <= inos[p].size <= MAX_FILE_SIZE && inos[p].size % 64 == 0
    ensures var d1 := SwapOut(d, inos[p].dataBlockNums, inos[p].size, spot);
      var d2 := ReleaseFile(d1, inos[n].dataBlockNums, inos[n].size).0;
      var (d', size') := ShrinkLoop(d2, inos[p].dataBlockNums, inos[p].size, 64);
      && size' == inos[p].size - 64 && CanFree(d')
      && |st'| == |st| + Cost(BlockCount(inos[n].size)) + Need(size', inos[p].size)
      && Joined(d', st', inos[n := Reclaimed(inos[n])][p := inos[p].(size := size')], dirs[p := Removed(dirs[p], f)])
  {
    hide *;
    Values();
    JoinedSwap(d, st, inos, dirs, p, f, spot);
    JoinedAt(d, st, inos, dirs, p);
    DirParts(d, st, inos[p].dataBlockNums, inos[p].size, Rest(d, FilesOf(inos), p), dirs[p]);
    SwapThenDrop(inos[p].size, dirs[p], f);
    var d1, dirs1 := SwapOut(d, inos[p].dataBlockNums, inos[p].size, spot),
        dirs[p := Swapped(inos[p].size, dirs[p], f)];
    var s2 := JoinedRelease(d1, st, inos, dirs1, n);
    assert dirs1[n := []] == dirs1;
    var d2 := ReleaseFile(d1, inos[n].dataBlockNums, inos[n].size).0;
    st' := JoinedDrop(d2, s2, inos[n := Reclaimed(inos[n])], dirs1, p);
    assert dirs1[p := Removed(dirs[p], f)] == dirs[p := Removed(dirs[p], f)];
  }

  // Bytes written to a regular file where the write does what it should.
  lemma JoinedWrite(d: Store, st: seq<Word>, inos: seq<DiskINode>, dirs: seq<seq<Entry>>, n: nat, offset: nat,
                    buf: seq<Byte>)
    returns (st': seq<Word>)
    requires Joined(d, st, inos, dirs) && n < |inos| == |dirs| && !IsDirectory(inos[n].fileMode)
    requires offset <= inos[n].size && offset + |buf| <= MAX_FILE_SIZE && WriteSafe(inos[n].size, offset, |buf|)
    requires Need(0, Max(inos[n].size, offset + |buf|)) <= |st|
    ensures var w := WriteLoop(d, inos[n].dataBlockNums, inos[n].size, offset, buf, 0);
      && w.size == Max(inos[n].size, offset + |buf|)
      && Content(w.disk, w.nums, w.size) == Merge(Content(d, inos[n].dataBlockNums, inos[n].size), offset, buf)
      && Joined(w.disk, st', inos[n := inos[n].(dataBlockNums := w.nums, size := w.size)], dirs)
  {
    hide *;
    Values();
    JoinedAt(d, st, inos, dirs, n);
    var ino, rest := inos[n], Rest(d, FilesOf(inos), n);
    WriteExact(d, st, ino.dataBlockNums, ino.size, rest, offset, buf);
    var w := WriteLoop(d, ino.dataBlockNums, ino.size, offset, buf, 0);
    st' := MergedIs(d, st, ino.dataBlockNums, ino.size, rest, offset, buf, w);
    JoinedUpdate(d, st, inos, dirs, n, w.disk, st', ino.(dataBlockNums := w.nums, size := w.size), dirs[n]);
    assert dirs[n := dirs[n]] == dirs;
  }

  lemma MergedIs(d: Store, st: seq<Word>, nums: Slots, size: nat, others: multiset<Word>, offset: nat, buf: seq<Byte>,
                w: Written)
    returns (st': seq<Word>)
    requires offset <= size <= MAX_FILE_SIZE && WroteRight(d, st, nums, size, others, offset, buf, w)
    ensures w.size == Max(size, offset + |buf|) && Good(w.disk, st', w.nums, w.size, others)
    ensures SameOn(d, w.disk, others)
    ensures Content(w.disk, w.nums, w.size) == Merge(Content(d, nums, size), offset, buf)
  {
    hide Separate, Content, Merge, SameOn, Need;
    st' := st[Need(size, Max(size, offset + |buf|))..];
  }

  // The disk mkfs leaves.
  lemma JoinedFresh(d: Store, b: Word)
    ensures Joined(Laid(d, FREE_LIST_BLOCK, FIRST_DATA_BLOCK), Range(FIRST_DATA_BLOCK), MkfsTable(b),
            NoEntries(NUM_OF_INODES))
  {
    var d' := Laid(d, FREE_LIST_BLOCK, FIRST_DATA_BLOCK);
    MkfsFreesAll(d, FIRST_DATA_BLOCK);
    var inos := MkfsTable(b);
    hide FreeList, Laid, Range;
    forall i | 0 <= i < |inos|
      ensures FilesOf(inos)[i].blocks == 0
    {
      NoBytes(b, i);
    }
    EmptyTotal(d', FilesOf(inos));
    assert multiset(Range(FIRST_DATA_BLOCK)) + multiset{} == multiset(Range(FIRST_DATA_BLOCK));
    RangeUnique(FIRST_DATA_BLOCK);
  }
}
