/**
  Exactly which writes of src/interface/write.c do what they should, and byte for byte what all
  the others and the reads of src/interface/read.c come to.
 */
module FileOutcome {
  import opened Params
  import opened Disk
  import opened Bytes
  import opened FreeChain
  import opened BlockTree
  import opened FileMap
  import opened FileGrowth
  import opened FileRelease
  import opened FileContent
  import opened BMap
  import opened FileWrite
  import opened FileRead

  // ---------- from inside the file, with more bytes than the file has ----------

  // The bytes of `buf` that go to the block of byte `offset`.
  function FirstPart(offset: nat, buf: seq<Byte>): (n: nat)
    ensures n <= |buf| && (buf != [] ==> n > 0)
    ensures n == |buf| || offset % 1024 + n == 1024
    ensures offset % 1024 + n <= 1024
  {
    if |buf| <= 1024 - offset % 1024 then |buf| else 1024 - offset % 1024
  }

  lemma InsideUnfold(d: Store, nums: Slots, size: nat, k: nat, off: nat, buf: seq<Byte>)
    requires off < BLOCK_SIZE && 0 < k * BLOCK_SIZE + off < size < |buf|
    requires k * BLOCK_SIZE + off + |buf| <= MAX_FILE_SIZE
    ensures k < MAX_FILE_BLOCKS
    ensures var n := FirstPart(k * BLOCK_SIZE + off, buf);
      && off + n <= BLOCK_SIZE
      && WriteLoop(d, nums, size, k * BLOCK_SIZE + off, buf, 0)
         == Written(Overwritten(d, LookUp(d, nums, k), off, buf[..n]), nums, n, n)
  {
    var offset := k * BLOCK_SIZE + off;
    assert offset / BLOCK_SIZE == k && offset % BLOCK_SIZE == off;
    var n := FirstPart(offset, buf);
    assert buf[0..n] == buf[..n];
    hide AppendBlock, Overwritten, LookUp;
    StopsPastEnd(Overwritten(d, LookUp(d, nums, k), off, buf[..n]), nums, n, offset + n, buf, n);
  }

  // The blocks that a file keeps of its tree when it is cut to m blocks without freeing any.
  ghost function Lost(d: Store, nums: Slots, m: nat, n: nat): multiset<Word> {
    FileNodes(d, nums, n, 0) - FileNodes(d, nums, m, 0)
  }

  lemma LostCount(d: Store, nums: Slots, m: nat, n: nat)
    requires m <= n <= MAX_FILE_BLOCKS
    ensures |Lost(d, nums, m, n)| == n + Meta(n) - m - Meta(m)
  {
    hide *;
    Values();
    NodesGrow(d, nums, m, n);
    FileCost(d, nums, m);
    FileCost(d, nums, n);
    Difference(FileNodes(d, nums, n, 0), FileNodes(d, nums, m, 0));
    LostIs(d, nums, m, n);
  }

  lemma LostIs(d: Store, nums: Slots, m: nat, n: nat)
    ensures Lost(d, nums, m, n) == FileNodes(d, nums, n, 0) - FileNodes(d, nums, m, 0)
  {
  }

  lemma Difference(whole: multiset<Word>, part: multiset<Word>)
    requires part <= whole
    ensures |whole - part| == |whole| - |part|
  {
    assert whole == part + (whole - part);
  }

  // The file is cut, or grown, to the length of the first part: what is before the offset stays,
  // the part follows. Nothing is taken or freed; every block past the first is lost.
  lemma WriteInside(d: Store, st: seq<Word>, nums: Slots, size: nat, others: multiset<Word>, offset: nat,
                    buf: seq<Byte>)
    requires 0 < offset < size < |buf| && offset + |buf| <= MAX_FILE_SIZE && Good(d, st, nums, size, others)
    ensures var r := WriteLoop(d, nums, size, offset, buf, 0);
      var n := if |buf| <= 1024 - offset % 1024 then |buf| else 1024 - offset % 1024;
      && r.bytes == n && r.size == n && r.nums == nums && offset <= size <= MAX_FILE_SIZE
      && |Lost(r.disk, nums, 1, BlockCount(size))| == BlockCount(size) + Meta(BlockCount(size)) - 1
      && FileIs(r.disk, st, nums, n, Lost(r.disk, nums, 1, BlockCount(size)) + others,
                (Content(d, nums, size)[..offset] + buf)[..n])
      && SameOn(d, r.disk, others)
  {
    hide *;
    Values();
    var k, off := PlaceInFile(offset);
    FirstPartIs(offset, buf);
    var n, m := FirstPart(offset, buf), BlockCount(size);
    InsideUnfold(d, nums, size, k, off, buf);
    BlocksCover(size, k, off);
    GoodIs(d, st, nums, size, others);
    FoundBlock(d, st, nums, m, others, k);
    ChunkGood(d, st, nums, m, others, k, off, buf[..n]);
    var d' := Overwritten(d, BlockAt(d, nums, k), off, buf[..n]);
    var others2 := Trim(d', st, nums, 1, m, others);
    OneBlock(n);
    LostIs(d', nums, 1, m);
    LostCount(d', nums, 1, m);
    OneMeta();
    GoodFrom(d', st, nums, n, others2);
    InsideContent(d, st, nums, size, m, k, off, others, buf, n);
    FileIsFrom(d', st, nums, n, others2, (Content(d, nums, size)[..offset] + buf)[..n]);
  }

  lemma FirstPartIs(offset: nat, buf: seq<Byte>)
    requires buf != []
    ensures FirstPart(offset, buf) == if |buf| <= 1024 - offset % 1024 then |buf| else 1024 - offset % 1024
    ensures 0 < FirstPart(offset, buf) <= |buf| && FirstPart(offset, buf) <= 1024
    ensures FirstPart(offset, buf) == |buf| || offset % 1024 + FirstPart(offset, buf) == 1024
  {
  }

  lemma OneBlock(n: nat)
    requires 0 < n <= 1024
    ensures BlockCount(n) == 1
  {
  }

  lemma OneMeta()
    ensures Meta(1) == 0
  {
  }

  lemma InsideContent(d: Store, st: seq<Word>, nums: Slots, size: nat, m: nat, k: nat, off: nat, others: multiset<Word>,
                      buf: seq<Byte>, n: nat)
    requires off < BLOCK_SIZE && k * BLOCK_SIZE + off < size <= MAX_FILE_SIZE && k < m <= MAX_FILE_BLOCKS
    requires 0 < n <= |buf| && off + n <= BLOCK_SIZE && Separate(d, st, nums, m, others)
    ensures Content(Overwritten(d, BlockAt(d, nums, k), off, buf[..n]), nums, n)
            == (Content(d, nums, size)[..k * BLOCK_SIZE + off] + buf)[..n]
  {
    var d' := Overwritten(d, BlockAt(d, nums, k), off, buf[..n]);
    var start := k * BLOCK_SIZE + off;
    var bytes := (Content(d, nums, size)[..start] + buf)[..n];
    hide Separate, ContentAt, BlockAt, Overwritten;
    forall p | 0 <= p < n
      ensures ContentAt(d', nums, p) == bytes[p]
    {
      ChunkContent(d, st, nums, m, others, k, off, buf[..n], p);
    }
    ContentIs(d', nums, bytes);
  }

  // ---------- past an end inside a block ----------

  // The last chunk of a write that ends past the end of the file.
  lemma LastCut(d: Store, st: seq<Word>, nums: Slots, size: nat, k: nat, off: nat, others: multiset<Word>,
                chunk: seq<Byte>)
    requires off + |chunk| <= BLOCK_SIZE && k * BLOCK_SIZE + off < size <= k * BLOCK_SIZE + off + |chunk|
    requires Good(d, st, nums, size, others)
    ensures k < MAX_FILE_BLOCKS && size <= MAX_FILE_SIZE
    ensures var d', start := Overwritten(d, LookUp(d, nums, k), off, chunk), k * BLOCK_SIZE + off;
      && FileIs(d', st, nums, size, others, Content(d, nums, size)[..start] + chunk[..size - start])
      && SameOn(d, d', others)
  {
    hide *;
    Values();
    GoodIs(d, st, nums, size, others);
    BlocksCover(size, k, off);
    var m := BlockCount(size);
    FoundBlock(d, st, nums, m, others, k);
    ChunkGood(d, st, nums, m, others, k, off, chunk);
    var d', start := Overwritten(d, BlockAt(d, nums, k), off, chunk), k * BLOCK_SIZE + off;
    GoodFrom(d', st, nums, size, others);
    CutContent(d, st, nums, size, m, k, off, others, chunk);
    FileIsFrom(d', st, nums, size, others, Content(d, nums, size)[..start] + chunk[..size - start]);
  }

  lemma CutContent(d: Store, st: seq<Word>, nums: Slots, size: nat, m: nat, k: nat, off: nat, others: multiset<Word>,
                   chunk: seq<Byte>)
    requires off + |chunk| <= BLOCK_SIZE && k * BLOCK_SIZE + off < size <= k * BLOCK_SIZE + off + |chunk|
    requires k < m <= MAX_FILE_BLOCKS && size <= m * BLOCK_SIZE && size <= MAX_FILE_SIZE
    requires Separate(d, st, nums, m, others)
    ensures var start := k * BLOCK_SIZE + off;
            Content(Overwritten(d, BlockAt(d, nums, k), off, chunk), nums, size)
            == Content(d, nums, size)[..start] + chunk[..size - start]
  {
    var d', start := Overwritten(d, BlockAt(d, nums, k), off, chunk), k * BLOCK_SIZE + off;
    var bytes := Content(d, nums, size)[..start] + chunk[..size - start];
    hide Separate, ContentAt, BlockAt, Overwritten;
    forall p | 0 <= p < size
      ensures ContentAt(d', nums, p) == bytes[p]
    {
      ChunkContent(d, st, nums, m, others, k, off, chunk, p);
    }
    ContentIs(d', nums, bytes);
  }

  // Bytes up to the end of the file are written and so are those up to the end of its last
  // block, but the size stays.
  lemma {:induction false} CutLoop(d: Store, st: seq<Word>, nums: Slots, size: nat, k: nat, off: nat,
                                   others: multiset<Word>, buf: seq<Byte>, written: nat)
    requires off < BLOCK_SIZE && written < |buf| <= size <= MAX_FILE_SIZE && size % BLOCK_SIZE != 0
    requires k * BLOCK_SIZE + off < size < k * BLOCK_SIZE + off + (|buf| - written) <= MAX_FILE_SIZE
    requires Good(d, st, nums, size, others)
    ensures var r, start := WriteLoop(d, nums, size, k * BLOCK_SIZE + off, buf, written), k * BLOCK_SIZE + off;
      && r.bytes == Min(|buf|, written + (BlockCount(size) * 1024 - start)) && r.size == size && r.nums == nums
      && start <= size <= MAX_FILE_SIZE && written + (size - start) <= |buf|
      && FileIs(r.disk, st, nums, size, others,
                Content(d, nums, size)[..start] + buf[written..written + (size - start)])
      && SameOn(d, r.disk, others)
    decreases |buf| - written
  {
    hide *;
    Values();
    var start := k * BLOCK_SIZE + off;
    var n := Min(BLOCK_SIZE - off, |buf| - written);
    MinIs(BLOCK_SIZE - off, |buf| - written);
    TailStep(size, k, off, |buf| - written);
    InsideLoopStep(d, nums, size, k, off, buf, written);
    var chunk := buf[written..written + n];
    var d2 := Overwritten(d, LookUp(d, nums, k), off, chunk);
    if start + n < size {
      OverwriteChunk(d, st, nums, size, k, off, others, chunk);
      FileIsGood(d2, st, nums, size, others, Merge(Content(d, nums, size), start, chunk));
      CutLoop(d2, st, nums, size, k + 1, 0, others, buf, written + n);
      MergedFront(Content(d, nums, size), start, chunk);
      JoinParts(Content(d, nums, size)[..start], buf, written, n, size - start);
      SameOnTwice(d, d2, WriteLoop(d, nums, size, start, buf, written).disk, others);
    } else {
      StopsPastEnd(d2, nums, size, start + n, buf, written + n);
      LastCut(d, st, nums, size, k, off, others, chunk);
      LastRound(size, k, off, n, |buf|, written);
      assert chunk[..size - start] == buf[written..written + (size - start)];
    }
  }

  lemma LastRound(size: nat, k: nat, off: nat, n: nat, len: nat, written: nat)
    requires off < BLOCK_SIZE && k * BLOCK_SIZE + off < size < k * BLOCK_SIZE + off + n
    requires written < len && n == Min(BLOCK_SIZE - off, len - written)
    ensures written + n == Min(len, written + (BlockCount(size) * 1024 - (k * BLOCK_SIZE + off)))
    ensures k * BLOCK_SIZE + off <= BlockCount(size) * 1024
  {
    assert BlockCount(size) == k + 1;
  }

  lemma MergedFront(bytes: seq<Byte>, start: nat, chunk: seq<Byte>)
    requires start + |chunk| <= |bytes|
    ensures |Merge(bytes, start, chunk)| == |bytes|
    ensures Merge(bytes, start, chunk)[..start + |chunk|] == bytes[..start] + chunk
  {
  }

  lemma JoinParts(front: seq<Byte>, buf: seq<Byte>, written: nat, n: nat, m: nat)
    requires n <= m && written + m <= |buf|
    ensures front + buf[written..written + n] + buf[written + n..written + m] == front + buf[written..written + m]
  {
  }

  lemma WriteCut(d: Store, st: seq<Word>, nums: Slots, size: nat, others: multiset<Word>, offset: nat, buf: seq<Byte>)
    requires offset < size < offset + |buf| <= MAX_FILE_SIZE && |buf| <= size && size % 1024 != 0
    requires Good(d, st, nums, size, others)
    ensures var r := WriteLoop(d, nums, size, offset, buf, 0);
      && offset <= BlockCount(size) * 1024
      && r.bytes == (if offset + |buf| <= BlockCount(size) * 1024 then |buf| else BlockCount(size) * 1024 - offset)
      && r.size == size && r.nums == nums && offset <= size <= MAX_FILE_SIZE
      && FileIs(r.disk, st, nums, size, others, Content(d, nums, size)[..offset] + buf[..size - offset])
      && SameOn(d, r.disk, others)
  {
    hide *;
    Values();
    var k, off := PlaceInFile(offset);
    BlocksCover(size, k, off);
    CutLoop(d, st, nums, size, k, off, others, buf, 0);
    MinIs(|buf|, BlockCount(size) * 1024 - offset);
    assert buf[0..0 + (size - offset)] == buf[..size - offset];
  }

  // ---------- from the start of a file of several blocks ----------

  // The file is replaced by the bytes written, and every block past its first is lost.
  lemma WriteOver(d: Store, st: seq<Word>, nums: Slots, size: nat, others: multiset<Word>, buf: seq<Byte>)
    requires 1024 < size < |buf| <= MAX_FILE_SIZE && Good(d, st, nums, size, others)
    requires |st| >= BlockCount(|buf|) + Meta(BlockCount(|buf|)) - 1
    ensures var r, lost := WriteLoop(d, nums, size, 0, buf, 0), Lost(d, nums, 1, BlockCount(size));
      var need := BlockCount(|buf|) + Meta(BlockCount(|buf|)) - 1;
      && r.bytes == |buf| && r.size == |buf| && 0 <= need
      && |lost| == BlockCount(size) + Meta(BlockCount(size)) - 1
      && FileIs(r.disk, st[need..], r.nums, |buf|, lost + others, buf)
      && SameOn(d, r.disk, lost + others)
  {
    hide *;
    Values();
    FirstNeeds(|buf|);
    var need := Need(BLOCK_SIZE, |buf|);
    FallsBack(d, nums, size, buf);
    BlocksCover(size, 0, 0);
    GoodIs(d, st, nums, size, others);
    var others2 := Trim(d, st, nums, 1, BlockCount(size), others);
    LostIs(d, nums, 1, BlockCount(size));
    LostCount(d, nums, 1, BlockCount(size));
    OneMeta();
    ShortBlocks(BLOCK_SIZE, BLOCK_SIZE);
    GoodFrom(d, st, nums, BLOCK_SIZE, others2);
    OverwriteChunk(d, st, nums, BLOCK_SIZE, 0, 0, others2, buf[..BLOCK_SIZE]);
    var d2 := Overwritten(d, LookUp(d, nums, 0), 0, buf[..BLOCK_SIZE]);
    FileIsGood(d2, st, nums, BLOCK_SIZE, others2, Merge(Content(d, nums, BLOCK_SIZE), 0, buf[..BLOCK_SIZE]));
    AppendWrites(d2, st, nums, 1, 0, others2, buf, BLOCK_SIZE, need);
    var r := WriteLoop(d, nums, size, 0, buf, 0);
    MergedWhole(Content(d, nums, BLOCK_SIZE), buf[..BLOCK_SIZE]);
    assert buf[..BLOCK_SIZE] + buf[BLOCK_SIZE..] == buf;
    WroteIs(d2, r, st[need..], |buf|, others2, buf, |buf|);
    SameOnTwice(d, d2, r.disk, others2);
  }

  lemma FirstNeeds(len: nat)
    requires 1024 < len <= MAX_FILE_SIZE
    ensures Need(BLOCK_SIZE, len) == BlockCount(len) + Meta(BlockCount(len)) - 1 >= 0
  {
    NeedPositive(BLOCK_SIZE, len);
    assert BlockCount(BLOCK_SIZE) == 1 && Meta(1) == 0;
    hide Meta;
  }

  lemma MergedWhole(bytes: seq<Byte>, data: seq<Byte>)
    requires |data| == |bytes|
    ensures Merge(bytes, 0, data) == data
  {
    assert bytes[|data|..] == [];
  }

  // ---------- exactly when ----------

  predicate WriteSafe(size: nat, offset: nat, len: nat) {
    || offset == size
    || offset + len <= size
    || (offset == 0 && size <= BLOCK_SIZE)
    || (len <= size && size % BLOCK_SIZE == 0)
  }

  // The write did what it should: all bytes laid over the file, the size grown to hold them,
  // exactly the needed blocks taken from the free list, every other block as before.
  ghost predicate WroteRight(d: Store, st: seq<Word>, nums: Slots, size: nat, others: multiset<Word>, offset: nat,
                             buf: seq<Byte>, r: Written)
    requires offset <= size <= MAX_FILE_SIZE
  {
    var size' := Max(size, offset + |buf|);
    && 0 <= Need(size, size') <= |st|
    && WroteAll(d, r, st[Need(size, size')..], size', others, Merge(Content(d, nums, size), offset, buf), |buf|)
  }

  // With room for the whole file, a write at or before the end of the file does what it
  // should if and only if it is WriteSafe.
  lemma WriteExact(d: Store, st: seq<Word>, nums: Slots, size: nat, others: multiset<Word>, offset: nat, buf: seq<Byte>)
    requires offset <= size && offset + |buf| <= MAX_FILE_SIZE
    requires Good(d, st, nums, size, others) && Need(0, Max(size, offset + |buf|)) <= |st|
    ensures size <= MAX_FILE_SIZE
    ensures WroteRight(d, st, nums, size, others, offset, buf, WriteLoop(d, nums, size, offset, buf, 0))
            <==> WriteSafe(size, offset, |buf|)
  {
    hide *;
    Values();
    GoodIs(d, st, nums, size, others);
    if WriteSafe(size, offset, |buf|) {
      SafeIsRight(d, st, nums, size, others, offset, buf);
    } else {
      UnsafeIsWrong(d, st, nums, size, others, offset, buf);
    }
  }

  lemma RoomEnough(size: nat, size': nat, room: nat)
    requires size <= size' <= MAX_FILE_SIZE && Need(0, size') <= room
    ensures 0 <= Need(size, size') <= room
  {
    NeedPositive(size, size');
    hide Meta;
    assert BlockCount(0) == 0 && Meta(0) == 0 by { NoMeta(); }
  }

  lemma NoMeta()
    ensures BlockCount(0) == 0 && Meta(0) == 0
  {
  }

  lemma SafeCases(size: nat, offset: nat, len: nat)
    requires offset <= size && WriteSafe(size, offset, len)
    ensures Reaches(size, offset, len, len)
            || (offset == 0 && 0 < size <= BLOCK_SIZE && size < len && Max(size, offset + len) == len)
  {
  }

  lemma SafeIsRight(d: Store, st: seq<Word>, nums: Slots, size: nat, others: multiset<Word>, offset: nat,
                    buf: seq<Byte>)
    requires offset <= size <= MAX_FILE_SIZE && offset + |buf| <= MAX_FILE_SIZE && WriteSafe(size, offset, |buf|)
    requires Good(d, st, nums, size, others) && Need(0, Max(size, offset + |buf|)) <= |st|
    ensures WroteRight(d, st, nums, size, others, offset, buf, WriteLoop(d, nums, size, offset, buf, 0))
  {
    hide *;
    Values();
    var size', len := Max(size, offset + |buf|), |buf|;
    MaxIs(size, offset + len);
    SafeCases(size, offset, len);
    RoomEnough(size, size', |st|);
    var need := Need(size, size');
    var r := WriteLoop(d, nums, size, offset, buf, 0);
    assert buf[0..] == buf;
    if Reaches(size, offset, len, len) {
      var k, off := PlaceInFile(offset);
      OverWrites(d, st, nums, size, k, off, others, buf, 0, need);
    } else {
      ShortWrites(d, st, nums, size, others, buf, need);
      MergeOver(Content(d, nums, size), buf);
    }
    RightIs(d, st, nums, size, others, offset, buf, r);
  }

  lemma MergeOver(bytes: seq<Byte>, data: seq<Byte>)
    requires |bytes| < |data|
    ensures Merge(bytes, 0, data) == data
  {
    assert bytes[..0] == [];
  }

  lemma RightIs(d: Store, st: seq<Word>, nums: Slots, size: nat, others: multiset<Word>, offset: nat, buf: seq<Byte>,
                r: Written)
    requires offset <= size <= MAX_FILE_SIZE
    requires 0 <= Need(size, Max(size, offset + |buf|)) <= |st|
    requires WroteAll(d, r, st[Need(size, Max(size, offset + |buf|))..], Max(size, offset + |buf|), others,
                      Merge(Content(d, nums, size), offset, buf), |buf|)
    ensures WroteRight(d, st, nums, size, others, offset, buf, r)
  {
    hide WroteAll, Need, Max, Merge, Content;
  }

  lemma UnsafeCases(size: nat, offset: nat, len: nat)
    requires offset <= size && !WriteSafe(size, offset, len)
    ensures offset < size < offset + len == Max(size, offset + len) && 0 < len
    ensures offset == 0 ==> BLOCK_SIZE < size < len
    ensures offset > 0 && len <= size ==> size % BLOCK_SIZE != 0
  {
  }

  lemma UnsafeIsWrong(d: Store, st: seq<Word>, nums: Slots, size: nat, others: multiset<Word>, offset: nat,
                      buf: seq<Byte>)
    requires offset <= size <= MAX_FILE_SIZE && offset + |buf| <= MAX_FILE_SIZE && !WriteSafe(size, offset, |buf|)
    requires Good(d, st, nums, size, others) && Need(0, Max(size, offset + |buf|)) <= |st|
    ensures !WroteRight(d, st, nums, size, others, offset, buf, WriteLoop(d, nums, size, offset, buf, 0))
  {
    hide *;
    Values();
    var r := WriteLoop(d, nums, size, offset, buf, 0);
    UnsafeCases(size, offset, |buf|);
    if WroteRight(d, st, nums, size, others, offset, buf, r) {
      RightParts(d, st, nums, size, others, offset, buf, r);
      if offset == 0 {
        RoomEnough(BLOCK_SIZE, |buf|, |st|);
        FirstNeeds(|buf|);
        NeedTrimmed(size, |buf|);
        WriteOver(d, st, nums, size, others, buf);
        var need := Need(BLOCK_SIZE, |buf|);
        FileFree(r.disk, st[need..], r.nums, |buf|, Lost(d, nums, 1, BlockCount(size)) + others, buf);
        TwoFreeLists(r.disk, st, Need(size, |buf|), need);
      } else if |buf| <= size {
        WriteCut(d, st, nums, size, others, offset, buf);
      } else {
        WriteInside(d, st, nums, size, others, offset, buf);
      }
    }
  }

  lemma RightParts(d: Store, st: seq<Word>, nums: Slots, size: nat, others: multiset<Word>, offset: nat, buf: seq<Byte>,
                   r: Written)
    requires offset <= size <= MAX_FILE_SIZE && WroteRight(d, st, nums, size, others, offset, buf, r)
    ensures r.bytes == |buf| && r.size == Max(size, offset + |buf|)
    ensures 0 <= Need(size, Max(size, offset + |buf|)) <= |st|
    ensures FreeList(r.disk, st[Need(size, Max(size, offset + |buf|))..])
  {
    hide Need, Max, Merge, Content, FileNodes, FreeList;
  }

  lemma TwoFreeLists(d: Store, st: seq<Word>, a: int, b: int)
    requires 0 <= a < b <= |st|
    ensures !(FreeList(d, st[a..]) && FreeList(d, st[b..]))
  {
    assert |st[a..]| == |st| - a && |st[b..]| == |st| - b;
    if FreeList(d, st[a..]) && FreeList(d, st[b..]) {
      ChainUnique(d, d[FREE_LIST_BLOCK], st[a..], st[b..]);
    }
  }

  lemma NeedTrimmed(size: nat, size': nat)
    requires BLOCK_SIZE < size <= MAX_FILE_SIZE
    ensures Need(size, size') < Need(BLOCK_SIZE, size')
  {
    assert BlockCount(BLOCK_SIZE) == 1 && 1 < BlockCount(size) <= MAX_FILE_BLOCKS;
    MetaGrows(1, BlockCount(size));
    hide Meta;
  }

  lemma FileFree(d: Store, st: seq<Word>, nums: Slots, size: nat, others: multiset<Word>, bytes: seq<Byte>)
    requires FileIs(d, st, nums, size, others, bytes)
    ensures FreeList(d, st)
  {
    hide FileNodes, FreeList, Content;
  }

  // The three lemmas are all the writes that are not safe.
  lemma UnsafeIsOne(size: nat, offset: nat, len: nat)
    requires offset <= size
    ensures !WriteSafe(size, offset, len)
            <==> || 0 < offset < size < len
                 || (offset < size < offset + len && len <= size && size % 1024 != 0)
                 || (offset == 0 && 1024 < size < len)
  {
  }

  // ---------- reads ----------

  // Raw bytes of the blocks of a file, past its end included.
  lemma RawSlice(d: Store, st: seq<Word>, nums: Slots, size: nat, others: multiset<Word>, k: nat, off: nat, n: nat,
                 i: nat)
    requires off + n <= BLOCK_SIZE && i < n && k * BLOCK_SIZE + off < size && Good(d, st, nums, size, others)
    ensures k < MAX_FILE_BLOCKS && k * BLOCK_SIZE + off + i < MAX_FILE_SIZE
    ensures AllBytes(At(d, LookUp(d, nums, k)))[off..off + n][i] == ContentAt(d, nums, k * BLOCK_SIZE + off + i)
  {
    GoodIs(d, st, nums, size, others);
    BlocksCover(size, k, off);
    FoundBlock(d, st, nums, BlockCount(size), others, k);
    SameByte(d, nums, k, off + i);
    hide BlockAt, LookUp, At, BlockByte, ContentAt, Separate, Good, BlockCount;
    assert k * BLOCK_SIZE + (off + i) == k * BLOCK_SIZE + off + i;
  }

  // Where a read that should end at `end` does end: at the end of that block, or as far past the
  // end as it started past the start of the file.
  function Stop(offset: nat, end: nat): (stop: nat)
    ensures end <= stop
  {
    if (end + 1023) / 1024 * 1024 <= offset + end then (end + 1023) / 1024 * 1024 else offset + end
  }

  lemma StopStep(start: nat, end: nat, k: nat, off: nat, got: nat)
    requires off < BLOCK_SIZE && k * BLOCK_SIZE + off == start + got < end
    ensures var n := Min(BLOCK_SIZE - off, end - got);
      && 0 < n
      && (start + got + n < end ==> n == BLOCK_SIZE - off && (k + 1) * BLOCK_SIZE + 0 == start + got + n)
      && (start + got + n >= end ==> start + got + n == Stop(start, end))
  {
  }

  lemma {:induction false} RawRead(d: Store, st: seq<Word>, nums: Slots, size: nat, others: multiset<Word>,
                                   start: nat, end: nat, k: nat, off: nat, got: seq<Byte>)
    requires Good(d, st, nums, size, others) && start <= end <= size <= MAX_FILE_SIZE && off < BLOCK_SIZE
    requires k * BLOCK_SIZE + off == start + |got| < end
    requires forall i :: 0 <= i < |got| ==> got[i] == ContentAt(d, nums, start + i)
    ensures Stop(start, end) <= MAX_FILE_SIZE
    ensures var r := ReadLoop(d, nums, size, end, end - start - |got|, k * BLOCK_SIZE + off, got);
            start + |r| == Stop(start, end) && forall i :: 0 <= i < |r| ==> r[i] == ContentAt(d, nums, start + i)
    decreases end - start - |got|
  {
    hide *;
    Values();
    StopFits(start, end);
    StopStep(start, end, k, off, |got|);
    ReadLoopStep(d, nums, size, end, end - start - |got|, k, off, got);
    var n := Min(BLOCK_SIZE - off, end - |got|);
    MinIs(BLOCK_SIZE - off, end - |got|);
    var part := AllBytes(At(d, LookUp(d, nums, k)))[off..off + n];
    var more := got + part;
    forall i | 0 <= i < |more|
      ensures more[i] == ContentAt(d, nums, start + i)
    {
      if i >= |got| {
        RawSlice(d, st, nums, size, others, k, off, n, i - |got|);
        assert k * BLOCK_SIZE + off + (i - |got|) == start + i;
      }
    }
    if start + |got| + n < end {
      RawRead(d, st, nums, size, others, start, end, k + 1, 0, more);
    } else {
      ReadStops(d, nums, size, end, end - start - |got| - n, k * BLOCK_SIZE + off + n, more);
    }
  }

  lemma StopFits(start: nat, end: nat)
    requires end <= MAX_FILE_SIZE
    ensures Stop(start, end) <= MAX_FILE_SIZE
  {
  }

  // Every read: nothing from the end of the file on; otherwise the bytes from the offset to the
  // end of the last block touched, or as many past the end as the offset is, whichever is less.
  lemma ReadReturns(d: Store, st: seq<Word>, nums: Slots, size: nat, others: multiset<Word>, offset: nat, len: nat)
    requires Good(d, st, nums, size, others)
    ensures size <= MAX_FILE_SIZE
    ensures offset >= size || len == 0 ==> Read(d, nums, size, offset, len) == []
    ensures offset < size && len > 0 ==>
              var r := Read(d, nums, size, offset, len);
              var end := if offset + len <= size then offset + len else size;
              var block := (end + 1023) / 1024 * 1024;
              && offset + |r| == (if block <= offset + end then block else offset + end) <= MAX_FILE_SIZE
              && forall i :: 0 <= i < |r| ==> r[i] == ContentAt(d, nums, offset + i)
  {
    hide *;
    Values();
    GoodIs(d, st, nums, size, others);
    ReadCases(size, offset, len);
    if offset >= size || len == 0 {
      NothingToRead(d, nums, size, offset, len);
    } else {
      var k, off := PlaceInFile(offset);
      ReadIs(d, nums, size, offset, len);
      EndIs(size, offset, len);
      StopIs(offset, EndOf(size, offset, len));
      RawRead(d, st, nums, size, others, offset, EndOf(size, offset, len), k, off, []);
    }
  }

  lemma EndIs(size: nat, offset: nat, len: nat)
    ensures EndOf(size, offset, len) == if offset + len <= size then offset + len else size
  {
  }

  lemma StopIs(offset: nat, end: nat)
    ensures Stop(offset, end)
            == if (end + 1023) / 1024 * 1024 <= offset + end then (end + 1023) / 1024 * 1024 else offset + end
  {
  }
}
