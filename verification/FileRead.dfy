/**
  readBytes of src/interface/read.c as a function, and exactly when it returns the bytes
  asked for.
 */
module FileRead {
  import opened Params
  import opened Disk
  import opened Bytes
  import opened BlockTree
  import opened FileMap
  import opened FileGrowth
  import opened FileRelease
  import opened FileContent
  import opened BMap
  import opened FileWrite

  // ---------- the code, as a function ----------

  // The read loop, with `got` in the buffer. `lastByte` is the end of the read in the file.
  function ReadLoop(d: Store, nums: Slots, size: nat, lastByte: nat, bytesLeft: int, offset: nat, got: seq<Byte>)
    : seq<Byte>
    requires size <= MAX_FILE_SIZE && bytesLeft <= lastByte - |got|
    decreases bytesLeft
  {
    if bytesLeft <= 0 || Refused(size, offset, ReadMode) then got
    else
      var b, off := LookUp(d, nums, offset / BLOCK_SIZE), offset % BLOCK_SIZE;
      var n := Min(BLOCK_SIZE - off, lastByte - |got|);
      ReadLoop(d, nums, size, lastByte, bytesLeft - n, offset + n, got + AllBytes(At(d, b))[off..off + n])
  }

  // Where a read of len bytes at offset ends.
  function EndOf(size: nat, offset: nat, len: nat): nat {
    Min(size, len + offset)
  }

  function BytesLeft(size: nat, offset: nat, len: nat): int {
    if size - offset <= len then size - offset else len
  }

  function Read(d: Store, nums: Slots, size: nat, offset: nat, len: nat): seq<Byte>
    requires size <= MAX_FILE_SIZE
  {
    ReadLoop(d, nums, size, EndOf(size, offset, len), BytesLeft(size, offset, len), offset, [])
  }

  // ---------- what it returns ----------

  function Wanted(bytes: seq<Byte>, offset: nat, len: nat): seq<Byte> {
    if offset >= |bytes| then [] else bytes[offset..EndOf(|bytes|, offset, len)]
  }

  predicate ReadSafe(size: nat, offset: nat, len: nat) {
    offset == 0 || offset >= size || len == 0 || EndOf(size, offset, len) % BLOCK_SIZE == 0
  }

  lemma BlockSlice(d: Store, st: seq<Word>, nums: Slots, size: nat, others: multiset<Word>, k: nat, off: nat, n: nat)
    requires off + n <= BLOCK_SIZE && 0 < n && k * BLOCK_SIZE + off + n <= size <= MAX_FILE_SIZE
    requires Good(d, st, nums, size, others)
    ensures k < MAX_FILE_BLOCKS
    ensures AllBytes(At(d, LookUp(d, nums, k)))[off..off + n]
            == Content(d, nums, size)[k * BLOCK_SIZE + off..k * BLOCK_SIZE + off + n]
  {
    hide Separate, Descend, Walk, BlockAt, LookUp, At, BlockByte, Good, BlockCount;
    BlocksCover(size, k, off);
    GoodIs(d, st, nums, size, others);
    FoundBlock(d, st, nums, BlockCount(size), others, k);
    var b := At(d, BlockAt(d, nums, k));
    var start := k * BLOCK_SIZE + off;
    var got, wanted := AllBytes(b)[off..off + n], Content(d, nums, size)[start..start + n];
    forall i | 0 <= i < n
      ensures got[i] == wanted[i]
    {
      SameByte(d, nums, k, off + i);
    }
  }

  lemma SameByte(d: Store, nums: Slots, k: nat, q: nat)
    requires q < BLOCK_SIZE && k < MAX_FILE_BLOCKS
    ensures k * BLOCK_SIZE + q < MAX_FILE_SIZE
    ensures ContentAt(d, nums, k * BLOCK_SIZE + q) == BlockByte(At(d, BlockAt(d, nums, k)), q)
  {
    assert (k * BLOCK_SIZE + q) / BLOCK_SIZE == k && (k * BLOCK_SIZE + q) % BLOCK_SIZE == q;
  }

  lemma ReadLoopIs(d: Store, nums: Slots, size: nat, lastByte: nat, bytesLeft: int, offset: nat, got: seq<Byte>)
    requires size <= MAX_FILE_SIZE && 0 < bytesLeft <= lastByte - |got|
    ensures Refused(size, offset, ReadMode) ==> ReadLoop(d, nums, size, lastByte, bytesLeft, offset, got) == got
    ensures !Refused(size, offset, ReadMode) ==>
              && offset / BLOCK_SIZE <= TRIPLE_INDIRECT_LIMIT
              && var b, off := LookUp(d, nums, offset / BLOCK_SIZE), offset % BLOCK_SIZE;
                 var n := Min(BLOCK_SIZE - off, lastByte - |got|);
              && 0 < n && off + n <= BLOCK_SIZE
              && ReadLoop(d, nums, size, lastByte, bytesLeft, offset, got)
                 == ReadLoop(d, nums, size, lastByte, bytesLeft - n, offset + n, got + AllBytes(At(d, b))[off..off + n])
  {
    hide LookUp, AllBytes, At;
  }

  lemma PlaceBack(k: nat, off: nat)
    requires off < BLOCK_SIZE
    ensures (k * BLOCK_SIZE + off) / BLOCK_SIZE == k && (k * BLOCK_SIZE + off) % BLOCK_SIZE == off
  {
  }

  lemma InsideFile(size: nat, k: nat, off: nat)
    requires k * BLOCK_SIZE + off < size <= MAX_FILE_SIZE
    ensures k < MAX_FILE_BLOCKS && !Refused(size, k * BLOCK_SIZE + off, ReadMode)
  {
  }

  lemma ReadLoopStep(d: Store, nums: Slots, size: nat, lastByte: nat, bytesLeft: int, k: nat, off: nat, got: seq<Byte>)
    requires size <= MAX_FILE_SIZE && 0 < bytesLeft <= lastByte - |got| && off < BLOCK_SIZE
    requires k * BLOCK_SIZE + off < size
    ensures k < MAX_FILE_BLOCKS
    ensures var n := Min(BLOCK_SIZE - off, lastByte - |got|);
      && 0 < n && off + n <= BLOCK_SIZE
      && ReadLoop(d, nums, size, lastByte, bytesLeft, k * BLOCK_SIZE + off, got)
         == ReadLoop(d, nums, size, lastByte, bytesLeft - n, k * BLOCK_SIZE + off + n,
                     got + AllBytes(At(d, LookUp(d, nums, k)))[off..off + n])
  {
    hide *;
    Values();
    PlaceBack(k, off);
    InsideFile(size, k, off);
    ReadLoopIs(d, nums, size, lastByte, bytesLeft, k * BLOCK_SIZE + off, got);
  }

  lemma ChunkFits(start: nat, end: nat, k: nat, off: nat, got: nat)
    requires off < BLOCK_SIZE && k * BLOCK_SIZE + off == start + got < end
    ensures var n := Min(BLOCK_SIZE - off, end - got);
      && 0 < n
      && (start == 0 || end % BLOCK_SIZE == 0 ==> start + got + n <= end)
      && (start > 0 && end % BLOCK_SIZE != 0 && start + got + n >= end ==> start + got + n > end)
      && (start + got + n < end ==> n == BLOCK_SIZE - off && (k + 1) * BLOCK_SIZE + 0 == start + got + n)
  {
  }

  // A read from the start of the file, or ending at a block boundary, returns exactly the
  // bytes of the file.
  lemma {:induction false} SafeRead(d: Store, st: seq<Word>, nums: Slots, size: nat, others: multiset<Word>,
                                    start: nat, end: nat, k: nat, off: nat, got: seq<Byte>)
    requires Good(d, st, nums, size, others) && start <= end <= size <= MAX_FILE_SIZE && off < BLOCK_SIZE
    requires start == 0 || end % BLOCK_SIZE == 0
    requires k * BLOCK_SIZE + off == start + |got| < end
    requires got == Content(d, nums, size)[start..start + |got|]
    ensures ReadLoop(d, nums, size, end, end - start - |got|, k * BLOCK_SIZE + off, got)
            == Content(d, nums, size)[start..end]
    decreases end - start - |got|
  {
    hide *;
    Values();
    ChunkFits(start, end, k, off, |got|);
    ReadLoopStep(d, nums, size, end, end - start - |got|, k, off, got);
    var n := Min(BLOCK_SIZE - off, end - |got|);
    BlockSlice(d, st, nums, size, others, k, off, n);
    var more := got + AllBytes(At(d, LookUp(d, nums, k)))[off..off + n];
    JoinSlices(Content(d, nums, size), start, start + |got|, start + |got| + n);
    if start + |got| + n < end {
      SafeRead(d, st, nums, size, others, start, end, k + 1, 0, more);
    } else {
      ReadStops(d, nums, size, end, end - start - |got| - n, k * BLOCK_SIZE + off + n, more);
    }
  }

  lemma JoinSlices(bytes: seq<Byte>, a: nat, b: nat, c: nat)
    requires a <= b <= c <= |bytes|
    ensures bytes[a..b] + bytes[b..c] == bytes[a..c] && |bytes[a..c]| == c - a
  {
  }

  lemma ReadStops(d: Store, nums: Slots, size: nat, lastByte: nat, bytesLeft: int, offset: nat, got: seq<Byte>)
    requires size <= MAX_FILE_SIZE && bytesLeft <= lastByte - |got| && bytesLeft <= 0
    ensures ReadLoop(d, nums, size, lastByte, bytesLeft, offset, got) == got
  {
  }

  // Otherwise the last chunk runs past the end of the read.
  lemma {:induction false} LongRead(d: Store, nums: Slots, size: nat, start: nat, end: nat, k: nat, off: nat,
                                    got: seq<Byte>)
    requires 0 < start <= end <= size <= MAX_FILE_SIZE && off < BLOCK_SIZE && end % BLOCK_SIZE != 0
    requires k * BLOCK_SIZE + off == start + |got| < end
    ensures |ReadLoop(d, nums, size, end, end - start - |got|, k * BLOCK_SIZE + off, got)| > end - start
    decreases end - start - |got|
  {
    hide *;
    Values();
    ChunkFits(start, end, k, off, |got|);
    ReadLoopStep(d, nums, size, end, end - start - |got|, k, off, got);
    var n := Min(BLOCK_SIZE - off, end - |got|);
    var more := got + AllBytes(At(d, LookUp(d, nums, k)))[off..off + n];
    if start + |got| + n < end {
      LongRead(d, nums, size, start, end, k + 1, 0, more);
    } else {
      ReadStops(d, nums, size, end, end - start - |got| - n, k * BLOCK_SIZE + off + n, more);
    }
  }

  lemma ReadCases(size: nat, offset: nat, len: nat)
    ensures offset >= size || len == 0 ==> BytesLeft(size, offset, len) <= 0
    ensures offset < size && len > 0 ==>
              var end := EndOf(size, offset, len);
              offset < end <= size && BytesLeft(size, offset, len) == end - offset
  {
  }

  lemma NothingToRead(d: Store, nums: Slots, size: nat, offset: nat, len: nat)
    requires size <= MAX_FILE_SIZE && (offset >= size || len == 0)
    ensures Read(d, nums, size, offset, len) == [] == Wanted(Content(d, nums, size), offset, len)
  {
    hide Content, LookUp;
  }

  // readBytes returns exactly the bytes of the file that were asked for if and only if the
  // read is ReadSafe; it returns too many otherwise.
  lemma ReadExact(d: Store, st: seq<Word>, nums: Slots, size: nat, others: multiset<Word>, offset: nat, len: nat)
    requires Good(d, st, nums, size, others)
    ensures size <= MAX_FILE_SIZE
    ensures Read(d, nums, size, offset, len) == Wanted(Content(d, nums, size), offset, len)
            <==> ReadSafe(size, offset, len)
  {
    hide *;
    Values();
    GoodIs(d, st, nums, size, others);
    ReadCases(size, offset, len);
    SafeIs(size, offset, len);
    if offset >= size || len == 0 {
      NothingToRead(d, nums, size, offset, len);
    } else {
      var end := EndOf(size, offset, len);
      var k, off := PlaceInFile(offset);
      ReadIs(d, nums, size, offset, len);
      WantedIs(Content(d, nums, size), offset, len);
      if ReadSafe(size, offset, len) {
        assert Content(d, nums, size)[offset..offset] == [];
        SafeRead(d, st, nums, size, others, offset, end, k, off, []);
      } else {
        LongRead(d, nums, size, offset, end, k, off, []);
      }
    }
  }

  lemma SafeIs(size: nat, offset: nat, len: nat)
    ensures ReadSafe(size, offset, len)
            <==> offset == 0 || offset >= size || len == 0 || EndOf(size, offset, len) % BLOCK_SIZE == 0
  {
  }

  lemma ReadIs(d: Store, nums: Slots, size: nat, offset: nat, len: nat)
    requires size <= MAX_FILE_SIZE
    ensures BytesLeft(size, offset, len) <= EndOf(size, offset, len)
    ensures Read(d, nums, size, offset, len)
            == ReadLoop(d, nums, size, EndOf(size, offset, len), BytesLeft(size, offset, len), offset, [])
  {
    hide ReadLoop;
  }

  lemma WantedIs(bytes: seq<Byte>, offset: nat, len: nat)
    requires offset < |bytes|
    ensures offset <= EndOf(|bytes|, offset, len) <= |bytes|
    ensures Wanted(bytes, offset, len) == bytes[offset..EndOf(|bytes|, offset, len)]
    ensures |Wanted(bytes, offset, len)| == EndOf(|bytes|, offset, len) - offset
  {
  }
}
