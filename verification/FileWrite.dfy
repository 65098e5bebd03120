/**
  writeToFile of src/interface/write.c as a function, and the growing half of
  src/interface/truncate.c: what they do to the file as a sequence of bytes.
 */
module FileWrite {
  import opened Params
  import opened Disk
  import opened Bags
  import opened Bytes
  import opened BlockTree
  import opened TreeGrowth
  import opened FileMap
  import opened FileGrowth
  import opened FileRelease
  import opened FileContent
  import opened BMap

  // ---------- the code, as functions ----------

  function Min(a: nat, b: nat): nat {
    if a <= b then a else b
  }

  // What bmap gives in append mode: the disk, the slots, the block and the offset in it.
  function MapForWrite(d: Store, nums: Slots, size: nat, offset: nat): (Store, Slots, Word, nat)
    requires offset <= size <= MAX_FILE_SIZE && offset < MAX_FILE_SIZE
  {
    if Appends(size, offset, AppendMode) then
      var (d1, nums1, b) := AppendBlock(d, nums, size / BLOCK_SIZE);
      (d1, nums1, b, 0)
    else (d, nums, LookUp(d, nums, offset / BLOCK_SIZE), offset % BLOCK_SIZE)
  }

  // writeToBlock: fetch, memcpy, write back.
  function Overwritten(d: Store, b: Word, off: nat, chunk: seq<Byte>): Store
    requires off + |chunk| <= BLOCK_SIZE
  {
    Put(d, b, Splice(At(d, b), off, chunk))
  }

  // size_t subtraction.
  function SizeT(x: int): int {
    if x < 0 then x + WORD_LIMIT else x
  }

  // inode->size after a chunk of n bytes at `offset`.
  function NewSize(size: nat, offset: nat, len: nat, written: nat, n: nat): nat {
    if offset == size then size + n
    else if SizeT(size - written) < SizeT(len - written) then n
    else size
  }

  datatype Written = Written(disk: Store, nums: Slots, size: nat, bytes: nat)

  // The write loop with `written` of the bytes of `buf` done.
  function WriteLoop(d: Store, nums: Slots, size: nat, offset: nat, buf: seq<Byte>, written: nat): Written
    requires written <= |buf| && size <= MAX_FILE_SIZE && offset + (|buf| - written) <= MAX_FILE_SIZE
    decreases |buf| - written
  {
    if written == |buf| || offset > size then Written(d, nums, size, written)
    else
      var (d1, nums1, b, off) := MapForWrite(d, nums, size, offset);
      var n := Min(BLOCK_SIZE - off, |buf| - written);
      var d2 := Overwritten(d1, b, off, buf[written..written + n]);
      WriteLoop(d2, nums1, NewSize(size, offset, |buf|, written, n), offset + n, buf, written + n)
  }

  // ---------- one chunk ----------

  // Overwriting part of data block k changes exactly those bytes of the file.
  lemma ChunkContent(d: Store, st: seq<Word>, nums: Slots, n: nat, others: multiset<Word>, k: nat, off: nat,
                     chunk: seq<Byte>, p: nat)
    requires k < n <= MAX_FILE_BLOCKS && Separate(d, st, nums, n, others)
    requires off + |chunk| <= BLOCK_SIZE && p < n * BLOCK_SIZE
    ensures p < MAX_FILE_SIZE
    ensures var d' := Overwritten(d, BlockAt(d, nums, k), off, chunk);
            var start := k * BLOCK_SIZE + off;
            ContentAt(d', nums, p) == if start <= p < start + |chunk| then chunk[p - start] else ContentAt(d, nums, p)
  {
    var j, q := p / BLOCK_SIZE, p % BLOCK_SIZE;
    var b := BlockAt(d, nums, k);
    var x := Splice(At(d, b), off, chunk);
    assert j < n;
    hide Separate, BlockAt, Splice, BlockByte, At, Put;
    PutContent(d, st, nums, n, others, k, x, j);
    SpliceHolds(At(d, b), off, chunk, q);
  }

  lemma ChunkGood(d: Store, st: seq<Word>, nums: Slots, n: nat, others: multiset<Word>, k: nat, off: nat,
                  chunk: seq<Byte>)
    requires k < n <= MAX_FILE_BLOCKS && Separate(d, st, nums, n, others) && off + |chunk| <= BLOCK_SIZE
    ensures var d' := Overwritten(d, BlockAt(d, nums, k), off, chunk);
            Separate(d', st, nums, n, others) && SameOn(d, d', others)
  {
    hide Separate, SameOn, BlockAt, Splice, At, Put, SameBlocks;
    PutBlock(d, st, nums, n, others, k, Splice(At(d, BlockAt(d, nums, k)), off, chunk));
  }

  // A block appended by bmap changes no byte the file had.
  lemma AppendContent(d: Store, b: Word, taken: seq<Word>, rest: seq<Word>, nums: Slots, n: nat, others: multiset<Word>,
                      p: nat)
    requires n < MAX_FILE_BLOCKS && |taken| == FileNew(n) && p < n * BLOCK_SIZE
    requires Separate(d, [b] + taken + rest, nums, n, others)
    ensures p < MAX_FILE_SIZE
    ensures var (d', nums', b') := AppendBlock(d, nums, n);
            ContentAt(d', nums', p) == ContentAt(d, nums, p)
  {
    var j := p / BLOCK_SIZE;
    assert j < n;
    hide Separate, BlockAt, BlockByte, At, AppendBlock, FileNew, FileGrown, OnlyTouches;
    AppendGrows(d, b, taken, rest, nums, n, others);
    var (d', nums', b') := AppendBlock(d, nums, n);
    FileGrownAt(d, d', nums, nums', n, b, taken, j);
    UntouchedData(d, d', b, taken, rest, nums, n, others, j);
  }

  lemma UntouchedData(d: Store, d': Store, b: Word, taken: seq<Word>, rest: seq<Word>, nums: Slots, n: nat,
                      others: multiset<Word>, j: nat)
    requires j < n <= MAX_FILE_BLOCKS && Separate(d, [b] + taken + rest, nums, n, others)
    requires OnlyTouches(d, d', multiset(taken) + FileNodes(d, nums, n, 1))
    ensures At(d', BlockAt(d, nums, j)) == At(d, BlockAt(d, nums, j))
  {
    hide *;
    Values();
    var c := BlockAt(d, nums, j);
    DataBlockApart(d, [b] + taken + rest, nums, n, others, j);
    NotTaken(d, d', b, taken, rest, FileNodes(d, nums, n, 1), others, c);
  }

  lemma NotTaken(d: Store, d': Store, b: Word, taken: seq<Word>, rest: seq<Word>, meta: multiset<Word>,
                 others: multiset<Word>, c: Word)
    requires OnlyTouches(d, d', multiset(taken) + meta) && FIRST_DATA_BLOCK <= c < NUM_OF_BLOCKS
    requires c !in [b] + taken + rest && forall x :: x in meta + others ==> x !in multiset{c}
    ensures At(d', c) == At(d, c)
  {
    assert forall x :: x in meta ==> x in meta + others;
    assert c in multiset{c};
    assert c !in taken;
  }

  // ---------- appending ----------

  // Free blocks that growing a file from `size` to `size'` bytes takes.
  function Need(size: nat, size': nat): int {
    BlockCount(size') + Meta(BlockCount(size')) - BlockCount(size) - Meta(BlockCount(size))
  }

  ghost predicate FileIs(d: Store, st: seq<Word>, nums: Slots, size: nat, others: multiset<Word>, bytes: seq<Byte>) {
    && Good(d, st, nums, size, others)
    && Content(d, nums, size) == bytes
  }

  lemma AlignedStep(k: nat, n: nat)
    requires 0 < n <= BLOCK_SIZE && k * BLOCK_SIZE + n <= MAX_FILE_SIZE
    ensures k < MAX_FILE_BLOCKS && BlockCount(k * BLOCK_SIZE) == k && BlockCount(k * BLOCK_SIZE + n) == k + 1
  {
  }

  // Appending to a file that ends at a block boundary.
  lemma AppendNewBlock(d: Store, b: Word, taken: seq<Word>, rest: seq<Word>, nums: Slots, k: nat,
                       others: multiset<Word>, chunk: seq<Byte>)
    requires 0 < |chunk| <= BLOCK_SIZE && k * BLOCK_SIZE + |chunk| <= MAX_FILE_SIZE && |taken| == FileNew(k)
    requires Good(d, [b] + taken + rest, nums, k * BLOCK_SIZE, others)
    ensures k < MAX_FILE_BLOCKS
    ensures var (d1, nums', b') := AppendBlock(d, nums, k);
      var d' := Overwritten(d1, b', 0, chunk);
      && FileIs(d', rest, nums', k * BLOCK_SIZE + |chunk|, others, Content(d, nums, k * BLOCK_SIZE) + chunk)
      && SameOn(d, d', others)
  {
    hide *;
    Values();
    AlignedStep(k, |chunk|);
    var size := k * BLOCK_SIZE;
    var (d1, nums', b') := AppendBlock(d, nums, k);
    var d' := Overwritten(d1, b', 0, chunk);
    GoodIs(d, [b] + taken + rest, nums, size, others);
    AppendedGood(d, b, taken, rest, nums, k, others, chunk);
    AppendedContent(d, b, taken, rest, nums, k, others, chunk);
    GoodFrom(d', rest, nums', size + |chunk|, others);
    FileIsFrom(d', rest, nums', size + |chunk|, others, Content(d, nums, size) + chunk);
  }

  lemma AppendedGood(d: Store, b: Word, taken: seq<Word>, rest: seq<Word>, nums: Slots, k: nat, others: multiset<Word>,
                     chunk: seq<Byte>)
    requires |chunk| <= BLOCK_SIZE && k < MAX_FILE_BLOCKS && |taken| == FileNew(k)
    requires Separate(d, [b] + taken + rest, nums, k, others)
    ensures var (d1, nums', b') := AppendBlock(d, nums, k);
      var d' := Overwritten(d1, b', 0, chunk);
      && Separate(d', rest, nums', k + 1, others)
      && SameOn(d, d', others)
  {
    hide Separate, FileNew, AppendBlock, Overwritten, OnlyTouches, FileGrown, SameOn;
    AppendGrows(d, b, taken, rest, nums, k, others);
    var (d1, nums1, b') := AppendBlock(d, nums, k);
    AppendOthers(d, d1, b, taken, rest, nums, k, others);
    FileGrownAt(d, d1, nums, nums1, k, b, taken, k);
    ChunkGood(d1, rest, nums1, k + 1, others, k, 0, chunk);
    SameOnTwice(d, d1, Overwritten(d1, b, 0, chunk), others);
  }

  lemma AppendedContent(d: Store, b: Word, taken: seq<Word>, rest: seq<Word>, nums: Slots, k: nat,
                        others: multiset<Word>, chunk: seq<Byte>)
    requires 0 < |chunk| <= BLOCK_SIZE && k * BLOCK_SIZE + |chunk| <= MAX_FILE_SIZE
    requires k < MAX_FILE_BLOCKS && |taken| == FileNew(k)
    requires Separate(d, [b] + taken + rest, nums, k, others)
    ensures var (d1, nums', b') := AppendBlock(d, nums, k);
      var d' := Overwritten(d1, b', 0, chunk);
      Content(d', nums', k * BLOCK_SIZE + |chunk|) == Content(d, nums, k * BLOCK_SIZE) + chunk
  {
    hide *;
    Values();
    var (d1, nums', b') := AppendBlock(d, nums, k);
    var d' := Overwritten(d1, b', 0, chunk);
    var bytes := Content(d, nums, k * BLOCK_SIZE) + chunk;
    forall p | 0 <= p < |bytes|
      ensures ContentAt(d', nums', p) == bytes[p]
    {
      AppendedByte(d, b, taken, rest, nums, k, others, chunk, p);
      if p < k * BLOCK_SIZE {
        ContentByte(d, nums, k * BLOCK_SIZE, p);
      }
    }
    ContentIs(d', nums', bytes);
  }

  lemma AppendedByte(d: Store, b: Word, taken: seq<Word>, rest: seq<Word>, nums: Slots, k: nat, others: multiset<Word>,
                     chunk: seq<Byte>, p: nat)
    requires |chunk| <= BLOCK_SIZE && p < k * BLOCK_SIZE + |chunk| <= MAX_FILE_SIZE
    requires k < MAX_FILE_BLOCKS && |taken| == FileNew(k)
    requires Separate(d, [b] + taken + rest, nums, k, others)
    ensures var (d1, nums', b') := AppendBlock(d, nums, k);
      var d' := Overwritten(d1, b', 0, chunk);
      ContentAt(d', nums', p) == if p < k * BLOCK_SIZE then ContentAt(d, nums, p) else chunk[p - k * BLOCK_SIZE]
  {
    hide Separate, FileNew, ContentAt, AppendBlock, Overwritten, OnlyTouches, FileGrown;
    AppendGrows(d, b, taken, rest, nums, k, others);
    var (d1, nums1, b') := AppendBlock(d, nums, k);
    FileGrownAt(d, d1, nums, nums1, k, b, taken, k);
    ChunkContent(d1, rest, nums1, k + 1, others, k, 0, chunk, p);
    if p < k * BLOCK_SIZE {
      AppendContent(d, b, taken, rest, nums, k, others, p);
    }
  }

  lemma GoodIs(d: Store, st: seq<Word>, nums: Slots, size: nat, others: multiset<Word>)
    requires Good(d, st, nums, size, others)
    ensures size <= MAX_FILE_SIZE && BlockCount(size) <= MAX_FILE_BLOCKS
    ensures Separate(d, st, nums, BlockCount(size), others)
  {
    hide Separate;
  }

  lemma GoodFrom(d: Store, st: seq<Word>, nums: Slots, size: nat, others: multiset<Word>)
    requires size <= MAX_FILE_SIZE && Separate(d, st, nums, BlockCount(size), others)
    ensures Good(d, st, nums, size, others)
  {
    hide Separate;
  }

  lemma FileIsFrom(d: Store, st: seq<Word>, nums: Slots, size: nat, others: multiset<Word>, bytes: seq<Byte>)
    requires Good(d, st, nums, size, others) && size <= MAX_FILE_SIZE && Content(d, nums, size) == bytes
    ensures FileIs(d, st, nums, size, others, bytes)
  {
    hide Good, Content;
  }

  lemma ContentByte(d: Store, nums: Slots, size: nat, p: nat)
    requires p < size <= MAX_FILE_SIZE
    ensures Content(d, nums, size)[p] == ContentAt(d, nums, p)
  {
    hide ContentAt;
  }

  lemma ContentIs(d: Store, nums: Slots, bytes: seq<Byte>)
    requires |bytes| <= MAX_FILE_SIZE
    requires forall p :: 0 <= p < |bytes| ==> ContentAt(d, nums, p) == bytes[p]
    ensures Content(d, nums, |bytes|) == bytes
  {
    hide ContentAt;
  }

  // Blocks that belong to no one here are left alone by an append.
  lemma AppendOthers(d: Store, d': Store, b: Word, taken: seq<Word>, rest: seq<Word>, nums: Slots, n: nat,
                     others: multiset<Word>)
    requires n <= MAX_FILE_BLOCKS && Separate(d, [b] + taken + rest, nums, n, others)
    requires OnlyTouches(d, d', multiset(taken) + FileNodes(d, nums, n, 1))
    ensures SameOn(d, d', others)
  {
    hide *;
    Values();
    SeparateParts(d, [b] + taken + rest, nums, n, others);
    OthersApart(d, d', b, taken, rest, FileNodes(d, nums, n, 1), others);
  }

  lemma OthersApart(d: Store, d': Store, b: Word, taken: seq<Word>, rest: seq<Word>, meta: multiset<Word>,
                    others: multiset<Word>)
    requires OnlyTouches(d, d', multiset(taken) + meta) && InData(others)
    requires Unique(multiset([b] + taken + rest) + meta + others)
    ensures SameOn(d, d', others)
  {
    var touched := multiset(taken) + meta;
    assert multiset([b] + taken + rest) == multiset{b} + multiset(taken) + multiset(rest);
    assert multiset([b] + taken + rest) + meta + others == others + touched + (multiset{b} + multiset(rest));
    UniquePart(multiset([b] + taken + rest) + meta + others, others + touched);
    forall x | x in others
      ensures x !in touched
    {
      UniqueApart(others, touched, x);
    }
    Untouched(d, d', touched, others);
  }

  lemma InsideStep(k: nat, off: nat, n: nat)
    requires 0 < off && off + n <= BLOCK_SIZE && k * BLOCK_SIZE + off + n <= MAX_FILE_SIZE
    ensures k < MAX_FILE_BLOCKS
    ensures BlockCount(k * BLOCK_SIZE + off) == k + 1 && BlockCount(k * BLOCK_SIZE + off + n) == k + 1
  {
  }

  // Appending inside the last block of a file.
  lemma AppendToLast(d: Store, st: seq<Word>, nums: Slots, k: nat, off: nat, others: multiset<Word>, chunk: seq<Byte>)
    requires 0 < off && off + |chunk| <= BLOCK_SIZE && k * BLOCK_SIZE + off + |chunk| <= MAX_FILE_SIZE
    requires Good(d, st, nums, k * BLOCK_SIZE + off, others)
    ensures k < MAX_FILE_BLOCKS
    ensures var size := k * BLOCK_SIZE + off;
      var d' := Overwritten(d, LookUp(d, nums, k), off, chunk);
      && FileIs(d', st, nums, size + |chunk|, others, Content(d, nums, size) + chunk)
      && SameOn(d, d', others)
  {
    hide *;
    Values();
    InsideStep(k, off, |chunk|);
    var size := k * BLOCK_SIZE + off;
    GoodIs(d, st, nums, size, others);
    FoundBlock(d, st, nums, k + 1, others, k);
    var d' := Overwritten(d, BlockAt(d, nums, k), off, chunk);
    ChunkGood(d, st, nums, k + 1, others, k, off, chunk);
    GoodFrom(d', st, nums, size + |chunk|, others);
    LastContent(d, st, nums, k, off, others, chunk);
    FileIsFrom(d', st, nums, size + |chunk|, others, Content(d, nums, size) + chunk);
  }

  lemma FoundBlock(d: Store, st: seq<Word>, nums: Slots, n: nat, others: multiset<Word>, k: nat)
    requires k < n <= MAX_FILE_BLOCKS && Separate(d, st, nums, n, others)
    ensures LookUp(d, nums, k) == BlockAt(d, nums, k)
  {
    hide *;
    Values();
    SeparateParts(d, st, nums, n, others);
    LookUpFinds(d, nums, n, k);
  }

  lemma LastContent(d: Store, st: seq<Word>, nums: Slots, k: nat, off: nat, others: multiset<Word>, chunk: seq<Byte>)
    requires off + |chunk| <= BLOCK_SIZE && k * BLOCK_SIZE + off + |chunk| <= MAX_FILE_SIZE && k < MAX_FILE_BLOCKS
    requires Separate(d, st, nums, k + 1, others)
    ensures var size := k * BLOCK_SIZE + off;
      var d' := Overwritten(d, BlockAt(d, nums, k), off, chunk);
      Content(d', nums, size + |chunk|) == Content(d, nums, size) + chunk
  {
    var d' := Overwritten(d, BlockAt(d, nums, k), off, chunk);
    var bytes := Content(d, nums, k * BLOCK_SIZE + off) + chunk;
    hide Separate, ContentAt, BlockAt, Overwritten;
    forall p | 0 <= p < |bytes|
      ensures ContentAt(d', nums, p) == bytes[p]
    {
      ChunkContent(d, st, nums, k + 1, others, k, off, chunk, p);
    }
    ContentIs(d', nums, bytes);
  }

  // ---------- the append loop ----------

  lemma AppendLoopStep(d: Store, nums: Slots, k: nat, off: nat, buf: seq<Byte>, written: nat)
    requires off < BLOCK_SIZE && written < |buf| && k * BLOCK_SIZE + off + (|buf| - written) <= MAX_FILE_SIZE
    ensures k < MAX_FILE_BLOCKS
    ensures var size := k * BLOCK_SIZE + off;
      var n := Min(BLOCK_SIZE - off, |buf| - written);
      var chunk := buf[written..written + n];
      && 0 < n == |chunk| && off + |chunk| <= BLOCK_SIZE
      && (off == 0 ==>
            var (d1, nums1, b) := AppendBlock(d, nums, k);
            WriteLoop(d, nums, size, size, buf, written)
            == WriteLoop(Overwritten(d1, b, 0, chunk), nums1, size + n, size + n, buf, written + n))
      && (off > 0 ==>
            WriteLoop(d, nums, size, size, buf, written)
            == WriteLoop(Overwritten(d, LookUp(d, nums, k), off, chunk), nums, size + n, size + n, buf, written + n))
  {
    hide AppendBlock, Overwritten, LookUp;
  }

  lemma {:induction false} MetaGrows(m: nat, n: nat)
    requires m <= n <= MAX_FILE_BLOCKS
    ensures Meta(m) <= Meta(n)
    decreases n - m
  {
    hide Meta, FileNew;
    if m < n {
      FileNewStep(m);
      MetaGrows(m + 1, n);
    }
  }

  lemma NeedPositive(size: nat, size': nat)
    requires size <= size' <= MAX_FILE_SIZE
    ensures Need(size, size') >= 0
  {
    MetaGrows(BlockCount(size), BlockCount(size'));
    hide Meta;
  }

  // What the first chunk of an append takes.
  function ChunkNeed(k: nat, off: nat): nat {
    if off == 0 then 1 + FileNew(k) else 0
  }

  lemma NeedSplit(k: nat, off: nat, n: nat, size': nat)
    requires 0 < n && off + n <= BLOCK_SIZE && k * BLOCK_SIZE + off + n <= size' <= MAX_FILE_SIZE
    ensures var size := k * BLOCK_SIZE + off;
            Need(size, size') == ChunkNeed(k, off) + Need(size + n, size') && Need(size + n, size') >= 0
  {
    hide Meta, FileNew;
    var size := k * BLOCK_SIZE + off;
    NeedPositive(size + n, size');
    if off == 0 {
      AlignedStep(k, n);
      FileNewStep(k);
    } else {
      InsideStep(k, off, n);
    }
    hide Meta, FileNew, BlockCount;
  }

  // The first chunk of an append, whatever the offset in the block.
  ghost predicate ChunkAppended(d: Store, d2: Store, st: seq<Word>, nums: Slots, nums2: Slots, size: nat, c: nat,
                                others: multiset<Word>, chunk: seq<Byte>)
    requires size <= MAX_FILE_SIZE
  {
    && c <= |st|
    && FileIs(d2, st[c..], nums2, size + |chunk|, others, Content(d, nums, size) + chunk)
    && SameOn(d, d2, others)
  }

  lemma FirstChunk(d: Store, st: seq<Word>, nums: Slots, k: nat, off: nat, others: multiset<Word>, buf: seq<Byte>,
                   written: nat)
    returns (d2: Store, nums2: Slots, n: nat)
    requires off < BLOCK_SIZE && written < |buf| && k * BLOCK_SIZE + off + (|buf| - written) <= MAX_FILE_SIZE
    requires Good(d, st, nums, k * BLOCK_SIZE + off, others) && ChunkNeed(k, off) <= |st|
    ensures 0 < n <= |buf| - written && off + n <= BLOCK_SIZE && (n == |buf| - written || off + n == BLOCK_SIZE)
    ensures var size := k * BLOCK_SIZE + off;
      && WriteLoop(d, nums, size, size, buf, written) == WriteLoop(d2, nums2, size + n, size + n, buf, written + n)
      && ChunkAppended(d, d2, st, nums, nums2, size, ChunkNeed(k, off), others, buf[written..written + n])
  {
    hide *;
    Values();
    AppendLoopStep(d, nums, k, off, buf, written);
    MinIs(BLOCK_SIZE - off, |buf| - written);
    n := Min(BLOCK_SIZE - off, |buf| - written);
    var size, chunk := k * BLOCK_SIZE + off, buf[written..written + n];
    if off == 0 {
      NeedOfNew(k);
      var b, taken, rest := st[0], st[1..1 + FileNew(k)], st[1 + FileNew(k)..];
      assert st == [b] + taken + rest;
      AppendNewBlock(d, b, taken, rest, nums, k, others, chunk);
      var (d1, nums1, b') := AppendBlock(d, nums, k);
      d2, nums2 := Overwritten(d1, b', 0, chunk), nums1;
    } else {
      NeedOfLast(k, off);
      AppendToLast(d, st, nums, k, off, others, chunk);
      d2, nums2 := Overwritten(d, LookUp(d, nums, k), off, chunk), nums;
      assert st[0..] == st;
    }
    ChunkAppendedIs(d, d2, st, nums, nums2, size, ChunkNeed(k, off), others, chunk);
  }

  lemma MinIs(a: nat, b: nat)
    ensures Min(a, b) <= a && Min(a, b) <= b && (Min(a, b) == a || Min(a, b) == b)
  {
  }

  lemma NeedOfNew(k: nat)
    ensures ChunkNeed(k, 0) == 1 + FileNew(k)
  {
  }

  lemma NeedOfLast(k: nat, off: nat)
    requires off > 0
    ensures ChunkNeed(k, off) == 0
  {
  }

  lemma ChunkAppendedIs(d: Store, d2: Store, st: seq<Word>, nums: Slots, nums2: Slots, size: nat, c: nat,
                        others: multiset<Word>, chunk: seq<Byte>)
    requires size <= MAX_FILE_SIZE && c <= |st| && SameOn(d, d2, others)
    requires FileIs(d2, st[c..], nums2, size + |chunk|, others, Content(d, nums, size) + chunk)
    ensures ChunkAppended(d, d2, st, nums, nums2, size, c, others, chunk)
  {
  }

  ghost predicate WroteAll(d: Store, r: Written, st': seq<Word>, size: nat, others: multiset<Word>, bytes: seq<Byte>,
                           len: nat) {
    && r.bytes == len
    && r.size == size
    && FileIs(r.disk, st', r.nums, size, others, bytes)
    && SameOn(d, r.disk, others)
  }

  // A write at the end of the file appends the bytes, taking exactly the blocks it needs
  // from the front of the free list.
  lemma {:induction false} AppendWrites(d: Store, st: seq<Word>, nums: Slots, k: nat, off: nat, others: multiset<Word>,
                                        buf: seq<Byte>, written: nat, need: nat)
    requires off < BLOCK_SIZE && written <= |buf| && k * BLOCK_SIZE + off + (|buf| - written) <= MAX_FILE_SIZE
    requires need == Need(k * BLOCK_SIZE + off, k * BLOCK_SIZE + off + (|buf| - written)) && need <= |st|
    requires Good(d, st, nums, k * BLOCK_SIZE + off, others)
    ensures var size := k * BLOCK_SIZE + off;
      WroteAll(d, WriteLoop(d, nums, size, size, buf, written), st[need..], size + (|buf| - written), others,
               Content(d, nums, size) + buf[written..], |buf|)
    decreases |buf| - written
  {
    hide *;
    Values();
    var size := k * BLOCK_SIZE + off;
    var size' := size + (|buf| - written);
    if written == |buf| {
      NothingLeft(d, st, nums, size, others, buf);
    } else {
      var c := ChunkNeed(k, off);
      FirstNeed(k, off, |buf| - written);
      var d2, nums2, n := FirstChunk(d, st, nums, k, off, others, buf, written);
      NeedSplit(k, off, n, size');
      ChunkIs(d, d2, st, nums, nums2, size, c, others, buf[written..written + n]);
      if off + n == BLOCK_SIZE {
        assert (k + 1) * BLOCK_SIZE + 0 == size + n;
        AppendWrites(d2, st[c..], nums2, k + 1, 0, others, buf, written + n, need - c);
      } else {
        assert k * BLOCK_SIZE + (off + n) == size + n;
        AppendWrites(d2, st[c..], nums2, k, off + n, others, buf, written + n, need - c);
      }
      DropDrop(st, c, need - c);
      JoinChunks(Content(d, nums, size), buf, written, n);
      WroteOn(d, d2, WriteLoop(d, nums, size, size, buf, written), st[need..], size', others,
              Content(d, nums, size) + buf[written..], |buf|);
    }
  }

  lemma DropDrop(st: seq<Word>, c: nat, m: nat)
    requires c + m <= |st|
    ensures st[c..][m..] == st[c + m..]
  {
  }

  lemma JoinChunks(bytes: seq<Byte>, buf: seq<Byte>, written: nat, n: nat)
    requires written + n <= |buf|
    ensures bytes + buf[written..written + n] + buf[written + n..] == bytes + buf[written..]
  {
    assert buf[written..] == buf[written..written + n] + buf[written + n..];
  }

  lemma NothingLeft(d: Store, st: seq<Word>, nums: Slots, size: nat, others: multiset<Word>, buf: seq<Byte>)
    requires Good(d, st, nums, size, others) && size <= MAX_FILE_SIZE
    ensures Need(size, size) == 0
    ensures WroteAll(d, WriteLoop(d, nums, size, size, buf, |buf|), st[0..], size, others,
                     Content(d, nums, size) + buf[|buf|..], |buf|)
  {
    hide Good, Content, Meta;
    assert st[0..] == st;
    assert Content(d, nums, size) + buf[|buf|..] == Content(d, nums, size);
  }

  lemma FirstNeed(k: nat, off: nat, left: nat)
    requires off < BLOCK_SIZE && 0 < left && k * BLOCK_SIZE + off + left <= MAX_FILE_SIZE
    ensures ChunkNeed(k, off) <= Need(k * BLOCK_SIZE + off, k * BLOCK_SIZE + off + left)
  {
    NeedSplit(k, off, Min(BLOCK_SIZE - off, left), k * BLOCK_SIZE + off + left);
    hide Need, ChunkNeed;
  }

  lemma ChunkIs(d: Store, d2: Store, st: seq<Word>, nums: Slots, nums2: Slots, size: nat, c: nat,
                others: multiset<Word>, chunk: seq<Byte>)
    requires size <= MAX_FILE_SIZE && ChunkAppended(d, d2, st, nums, nums2, size, c, others, chunk)
    ensures c <= |st| && SameOn(d, d2, others) && size + |chunk| <= MAX_FILE_SIZE
    ensures Good(d2, st[c..], nums2, size + |chunk|, others)
    ensures Content(d2, nums2, size + |chunk|) == Content(d, nums, size) + chunk
  {
    hide Separate, Content, SameOn;
  }

  lemma WroteOn(d: Store, d2: Store, r: Written, st': seq<Word>, size: nat, others: multiset<Word>, bytes: seq<Byte>,
                len: nat)
    requires WroteAll(d2, r, st', size, others, bytes, len) && SameOn(d, d2, others)
    ensures WroteAll(d, r, st', size, others, bytes, len)
  {
    hide FileIs;
  }

  // ---------- overwriting ----------

  // `data` laid over `bytes` from `offset` on, past the end if need be.
  function Merge(bytes: seq<Byte>, offset: nat, data: seq<Byte>): seq<Byte>
    requires offset <= |bytes|
  {
    bytes[..offset] + data + if offset + |data| <= |bytes| then bytes[offset + |data|..] else []
  }

  lemma MergeAt(bytes: seq<Byte>, offset: nat, data: seq<Byte>, p: nat)
    requires offset + |data| <= |bytes| && p < |bytes|
    ensures |Merge(bytes, offset, data)| == |bytes|
    ensures Merge(bytes, offset, data)[p] == if offset <= p < offset + |data| then data[p - offset] else bytes[p]
  {
  }

  lemma MergeLength(bytes: seq<Byte>, offset: nat, data: seq<Byte>)
    requires offset + |data| <= |bytes|
    ensures |Merge(bytes, offset, data)| == |bytes|
  {
  }

  lemma MergeTwice(bytes: seq<Byte>, offset: nat, buf: seq<Byte>, written: nat, n: nat)
    requires written + n <= |buf| && offset + n <= |bytes|
    ensures |Merge(bytes, offset, buf[written..written + n])| == |bytes|
    ensures Merge(Merge(bytes, offset, buf[written..written + n]), offset + n, buf[written + n..])
            == Merge(bytes, offset, buf[written..])
  {
    var a, b := buf[written..written + n], buf[written + n..];
    assert buf[written..] == a + b;
    var m := Merge(bytes, offset, a);
    assert m[..offset + n] == bytes[..offset] + a;
    if offset + n + |b| <= |bytes| {
      assert m[offset + n + |b|..] == bytes[offset + n + |b|..];
    }
  }

  lemma MergeNone(bytes: seq<Byte>, offset: nat)
    requires offset <= |bytes|
    ensures Merge(bytes, offset, []) == bytes
  {
    assert bytes == bytes[..offset] + bytes[offset..];
  }

  lemma MergeEnd(bytes: seq<Byte>, data: seq<Byte>)
    ensures Merge(bytes, |bytes|, data) == bytes + data
  {
    if |data| == 0 {
      assert bytes[|bytes| + |data|..] == [];
    }
    assert bytes[..|bytes|] == bytes;
  }

  lemma BlocksCover(size: nat, k: nat, off: nat)
    requires k * BLOCK_SIZE + off < size <= MAX_FILE_SIZE
    ensures k < BlockCount(size) <= MAX_FILE_BLOCKS && size <= BlockCount(size) * BLOCK_SIZE
  {
  }

  // Overwriting inside the file replaces exactly that slice.
  lemma OverwriteChunk(d: Store, st: seq<Word>, nums: Slots, size: nat, k: nat, off: nat, others: multiset<Word>,
                       chunk: seq<Byte>)
    requires |chunk| > 0 && off + |chunk| <= BLOCK_SIZE && k * BLOCK_SIZE + off + |chunk| <= size <= MAX_FILE_SIZE
    requires Good(d, st, nums, size, others)
    ensures k < MAX_FILE_BLOCKS
    ensures var d' := Overwritten(d, LookUp(d, nums, k), off, chunk);
      && FileIs(d', st, nums, size, others, Merge(Content(d, nums, size), k * BLOCK_SIZE + off, chunk))
      && SameOn(d, d', others)
  {
    hide *;
    Values();
    BlocksCover(size, k, off);
    var n := BlockCount(size);
    GoodIs(d, st, nums, size, others);
    FoundBlock(d, st, nums, n, others, k);
    ChunkGood(d, st, nums, n, others, k, off, chunk);
    var d' := Overwritten(d, BlockAt(d, nums, k), off, chunk);
    GoodFrom(d', st, nums, size, others);
    OverwrittenContent(d, st, nums, n, size, k, off, others, chunk);
    FileIsFrom(d', st, nums, size, others, Merge(Content(d, nums, size), k * BLOCK_SIZE + off, chunk));
  }

  lemma OverwrittenContent(d: Store, st: seq<Word>, nums: Slots, n: nat, size: nat, k: nat, off: nat,
                           others: multiset<Word>, chunk: seq<Byte>)
    requires k < n <= MAX_FILE_BLOCKS && size <= n * BLOCK_SIZE && size <= MAX_FILE_SIZE
    requires off + |chunk| <= BLOCK_SIZE && k * BLOCK_SIZE + off + |chunk| <= size
    requires Separate(d, st, nums, n, others)
    ensures Content(Overwritten(d, BlockAt(d, nums, k), off, chunk), nums, size)
            == Merge(Content(d, nums, size), k * BLOCK_SIZE + off, chunk)
  {
    var d' := Overwritten(d, BlockAt(d, nums, k), off, chunk);
    var before := Content(d, nums, size);
    var start := k * BLOCK_SIZE + off;
    var bytes := Merge(before, start, chunk);
    hide Separate, ContentAt, BlockAt, Overwritten, Merge;
    MergeLength(before, start, chunk);
    forall p | 0 <= p < size
      ensures ContentAt(d', nums, p) == bytes[p]
    {
      MergeAt(before, start, chunk, p);
      ChunkContent(d, st, nums, n, others, k, off, chunk, p);
    }
    ContentIs(d', nums, bytes);
  }

  function Max(a: nat, b: nat): nat {
    if a <= b then b else a
  }

  // When the loop's size test never fires before the write reaches the end of the file: the
  // write ends inside the file, or the file ends at a block boundary.
  predicate Reaches(size: nat, offset: nat, left: nat, len: nat) {
    offset == size || (offset < size && len <= size && (offset + left <= size || size % BLOCK_SIZE == 0))
  }

  lemma InsideLoopStep(d: Store, nums: Slots, size: nat, k: nat, off: nat, buf: seq<Byte>, written: nat)
    requires off < BLOCK_SIZE && written < |buf| <= size <= MAX_FILE_SIZE
    requires k * BLOCK_SIZE + off < size && k * BLOCK_SIZE + off + (|buf| - written) <= MAX_FILE_SIZE
    ensures k < MAX_FILE_BLOCKS
    ensures var n := Min(BLOCK_SIZE - off, |buf| - written);
      var chunk := buf[written..written + n];
      var offset := k * BLOCK_SIZE + off;
      && 0 < n == |chunk| && off + |chunk| <= BLOCK_SIZE
      && WriteLoop(d, nums, size, offset, buf, written)
         == WriteLoop(Overwritten(d, LookUp(d, nums, k), off, chunk), nums, size, offset + n, buf, written + n)
  {
    hide AppendBlock, Overwritten, LookUp;
  }

  lemma ReachesOn(size: nat, k: nat, off: nat, left: nat, len: nat)
    requires off < BLOCK_SIZE && 0 < left && k * BLOCK_SIZE + off < size
    requires Reaches(size, k * BLOCK_SIZE + off, left, len)
    ensures len <= size
    ensures var offset, n := k * BLOCK_SIZE + off, Min(BLOCK_SIZE - off, left);
      && n <= left && offset + n <= size
      && Reaches(size, offset + n, left - n, len)
      && Max(size, offset + left) == Max(size, offset + n + (left - n))
  {
  }

  lemma MaxIs(a: nat, b: nat)
    ensures Max(a, b) >= a && Max(a, b) >= b && (Max(a, b) == a || Max(a, b) == b)
  {
  }

  // A write that starts inside the file or at its end, and reaches the end only at a block
  // boundary, lays the bytes over the file and appends the rest.
  lemma {:induction false} OverWrites(d: Store, st: seq<Word>, nums: Slots, size: nat, k: nat, off: nat,
                                      others: multiset<Word>,
                                      buf: seq<Byte>, written: nat, need: nat)
    requires off < BLOCK_SIZE && written <= |buf| && k * BLOCK_SIZE + off + (|buf| - written) <= MAX_FILE_SIZE
    requires size <= MAX_FILE_SIZE && k * BLOCK_SIZE + off <= size
    requires Reaches(size, k * BLOCK_SIZE + off, |buf| - written, |buf|)
    requires need == Need(size, Max(size, k * BLOCK_SIZE + off + (|buf| - written))) && need <= |st|
    requires Good(d, st, nums, size, others)
    ensures var offset := k * BLOCK_SIZE + off;
      WroteAll(d, WriteLoop(d, nums, size, offset, buf, written), st[need..], Max(size, offset + (|buf| - written)),
          others,
               Merge(Content(d, nums, size), offset, buf[written..]), |buf|)
    decreases |buf| - written
  {
    hide *;
    Values();
    var offset := k * BLOCK_SIZE + off;
    MaxIs(size, offset + (|buf| - written));
    if written == |buf| {
      NothingMore(d, st, nums, size, offset, others, buf);
    } else if offset == size {
      AppendWrites(d, st, nums, k, off, others, buf, written, need);
      MergeEnd(Content(d, nums, size), buf[written..]);
    } else {
      ReachesOn(size, k, off, |buf| - written, |buf|);
      InsideLoopStep(d, nums, size, k, off, buf, written);
      var n := Min(BLOCK_SIZE - off, |buf| - written);
      MinIs(BLOCK_SIZE - off, |buf| - written);
      var chunk := buf[written..written + n];
      OverwriteChunk(d, st, nums, size, k, off, others, chunk);
      var d2 := Overwritten(d, LookUp(d, nums, k), off, chunk);
      FileIsGood(d2, st, nums, size, others, Merge(Content(d, nums, size), offset, chunk));
      if off + n == BLOCK_SIZE {
        assert (k + 1) * BLOCK_SIZE + 0 == offset + n;
        OverWrites(d2, st, nums, size, k + 1, 0, others, buf, written + n, need);
      } else {
        assert k * BLOCK_SIZE + (off + n) == offset + n;
        OverWrites(d2, st, nums, size, k, off + n, others, buf, written + n, need);
      }
      MergeTwice(Content(d, nums, size), offset, buf, written, n);
      WroteOn(d, d2, WriteLoop(d, nums, size, offset, buf, written), st[need..], Max(size, offset + (|buf| - written)),
          others,
              Merge(Content(d, nums, size), offset, buf[written..]), |buf|);
    }
  }

  lemma FileIsGood(d: Store, st: seq<Word>, nums: Slots, size: nat, others: multiset<Word>, bytes: seq<Byte>)
    requires FileIs(d, st, nums, size, others, bytes)
    ensures size <= MAX_FILE_SIZE && Good(d, st, nums, size, others) && Content(d, nums, size) == bytes
  {
    hide Separate, Content;
  }

  lemma NothingMore(d: Store, st: seq<Word>, nums: Slots, size: nat, offset: nat, others: multiset<Word>,
                    buf: seq<Byte>)
    requires Good(d, st, nums, size, others) && offset <= size <= MAX_FILE_SIZE
    ensures Need(size, size) == 0 && Max(size, offset + (|buf| - |buf|)) == size
    ensures WroteAll(d, WriteLoop(d, nums, size, offset, buf, |buf|), st[0..], size, others,
                     Merge(Content(d, nums, size), offset, buf[|buf|..]), |buf|)
  {
    hide Good, Content, Meta;
    assert st[0..] == st;
    assert buf[|buf|..] == [];
    MergeNone(Content(d, nums, size), offset);
  }

  // ---------- rewriting a file of at most one block ----------

  lemma ShortLoopStep(d: Store, nums: Slots, size: nat, buf: seq<Byte>)
    requires 0 < size < |buf| <= MAX_FILE_SIZE
    ensures var n := Min(BLOCK_SIZE, |buf|);
      && 0 < n == |buf[..n]|
      && WriteLoop(d, nums, size, 0, buf, 0)
         == WriteLoop(Overwritten(d, LookUp(d, nums, 0), 0, buf[..n]), nums, n, n, buf, n)
  {
    var n := Min(BLOCK_SIZE, |buf|);
    assert buf[0..n] == buf[..n];
    hide AppendBlock, Overwritten, LookUp;
  }

  lemma ShortBlocks(size: nat, n: nat)
    requires 0 < size <= BLOCK_SIZE && 0 < n <= BLOCK_SIZE
    ensures BlockCount(size) == BlockCount(n) == 1
    ensures forall size' :: Need(size, size') == Need(n, size')
  {
    hide Meta;
  }

  lemma ShortFirst(d: Store, st: seq<Word>, nums: Slots, size: nat, others: multiset<Word>, chunk: seq<Byte>)
    requires 0 < size <= BLOCK_SIZE && 0 < |chunk| <= BLOCK_SIZE && Good(d, st, nums, size, others)
    ensures var d' := Overwritten(d, LookUp(d, nums, 0), 0, chunk);
            FileIs(d', st, nums, |chunk|, others, chunk) && SameOn(d, d', others)
  {
    hide *;
    Values();
    ShortBlocks(size, |chunk|);
    GoodIs(d, st, nums, size, others);
    FoundBlock(d, st, nums, 1, others, 0);
    ChunkGood(d, st, nums, 1, others, 0, 0, chunk);
    var d' := Overwritten(d, BlockAt(d, nums, 0), 0, chunk);
    GoodFrom(d', st, nums, |chunk|, others);
    LastContent(d, st, nums, 0, 0, others, chunk);
    NoContent(d, nums);
    assert [] + chunk == chunk;
    FileIsFrom(d', st, nums, |chunk|, others, chunk);
  }

  lemma NoContent(d: Store, nums: Slots)
    ensures Content(d, nums, 0) == []
  {
  }

  lemma ShortWrites(d: Store, st: seq<Word>, nums: Slots, size: nat, others: multiset<Word>, buf: seq<Byte>, need: nat)
    requires 0 < size <= BLOCK_SIZE && size < |buf| <= MAX_FILE_SIZE
    requires need == Need(size, |buf|) && need <= |st| && Good(d, st, nums, size, others)
    ensures WroteAll(d, WriteLoop(d, nums, size, 0, buf, 0), st[need..], |buf|, others, buf, |buf|)
  {
    hide *;
    Values();
    var n := Min(BLOCK_SIZE, |buf|);
    MinIs(BLOCK_SIZE, |buf|);
    ShortLoopStep(d, nums, size, buf);
    ShortFirst(d, st, nums, size, others, buf[..n]);
    var d2 := Overwritten(d, LookUp(d, nums, 0), 0, buf[..n]);
    FileIsGood(d2, st, nums, n, others, buf[..n]);
    ShortBlocks(size, n);
    if n == BLOCK_SIZE {
      AppendWrites(d2, st, nums, 1, 0, others, buf, n, need);
    } else {
      AppendWrites(d2, st, nums, 0, n, others, buf, n, need);
    }
    assert buf[..n] + buf[n..] == buf;
    WroteOn(d, d2, WriteLoop(d, nums, size, 0, buf, 0), st[need..], |buf|, others, buf, |buf|);
  }

  // ---------- writes that go wrong ----------

  lemma StopsPastEnd(d: Store, nums: Slots, size: nat, offset: nat, buf: seq<Byte>, written: nat)
    requires written <= |buf| && size < offset && offset + (|buf| - written) <= MAX_FILE_SIZE
    ensures WriteLoop(d, nums, size, offset, buf, written) == Written(d, nums, size, written)
  {
  }

  lemma TailStep(size: nat, k: nat, off: nat, left: nat)
    requires off < BLOCK_SIZE && 0 < left && size % BLOCK_SIZE != 0
    requires k * BLOCK_SIZE + off < size < k * BLOCK_SIZE + off + left
    ensures var offset, n := k * BLOCK_SIZE + off, Min(BLOCK_SIZE - off, left);
      && n <= left && offset + n != size
      && (offset + n < size ==> n == BLOCK_SIZE - off && (k + 1) * BLOCK_SIZE + 0 == offset + n && n < left)
  {
  }

  lemma FallsBack(d: Store, nums: Slots, size: nat, buf: seq<Byte>)
    requires BLOCK_SIZE < size < |buf| <= MAX_FILE_SIZE
    ensures WriteLoop(d, nums, size, 0, buf, 0)
            == WriteLoop(Overwritten(d, LookUp(d, nums, 0), 0, buf[..BLOCK_SIZE]), nums, BLOCK_SIZE, BLOCK_SIZE, buf,
                BLOCK_SIZE)
  {
    assert buf[0..BLOCK_SIZE] == buf[..BLOCK_SIZE];
    hide AppendBlock, Overwritten, LookUp;
  }

  // The first m blocks of a file, the rest counted among the others.
  lemma Trim(d: Store, st: seq<Word>, nums: Slots, m: nat, n: nat, others: multiset<Word>)
    returns (others2: multiset<Word>)
    requires m <= n <= MAX_FILE_BLOCKS && Separate(d, st, nums, n, others)
    ensures Separate(d, st, nums, m, others2)
    ensures others2 == (FileNodes(d, nums, n, 0) - FileNodes(d, nums, m, 0)) + others
    ensures FileNodes(d, nums, m, 0) <= FileNodes(d, nums, n, 0)
  {
    hide *;
    Values();
    var part, whole := FileNodes(d, nums, m, 0), FileNodes(d, nums, n, 0);
    NodesGrow(d, nums, m, n);
    SeparateWhole(d, st, nums, n, others);
    others2 := (whole - part) + others;
    assert part + others2 == whole + others;
    assert multiset(st) + part + others2 == multiset(st) + whole + others;
    SeparateIs(d, st, nums, m, others2);
  }

  lemma {:induction false} NodesGrow(d: Store, nums: Slots, m: nat, n: nat)
    requires m <= n <= MAX_FILE_BLOCKS
    ensures FileNodes(d, nums, m, 0) <= FileNodes(d, nums, n, 0)
    decreases n - m
  {
    hide *;
    Values();
    if m < n {
      FileStep(d, nums, n - 1, 0);
      NodesGrow(d, nums, m, n - 1);
    }
  }

  lemma WroteIs(d: Store, r: Written, st': seq<Word>, size: nat, others: multiset<Word>, bytes: seq<Byte>, len: nat)
    requires WroteAll(d, r, st', size, others, bytes, len)
    ensures r.bytes == len && r.size == size && FileIs(r.disk, st', r.nums, size, others, bytes)
    ensures SameOn(d, r.disk, others)
  {
    hide FileIs, SameOn;
  }

  lemma PlaceInFile(offset: nat) returns (k: nat, off: nat)
    ensures off < BLOCK_SIZE && k * BLOCK_SIZE + off == offset
  {
    k, off := offset / BLOCK_SIZE, offset % BLOCK_SIZE;
  }
}
