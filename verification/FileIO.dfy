/**
  src/interface/write.c, read.c and truncate.c, step by step on an in-core inode and the
  disk. The file table lookup is not part of this model.
 */
module FileIO {
  import opened Params
  import opened Disk
  import opened Bytes
  import opened BlockPath
  import opened BlockTree
  import opened FileMap
  import opened FileGrowth
  import opened FileRelease
  import opened FileContent
  import opened INode
  import opened INodeManager
  import opened BMap
  import opened FileWrite
  import opened FileRead
  import opened FileTruncate

  class FileTableEntry {
    const inode: InCoreINode
    var offset: nat

    constructor (inode: InCoreINode)
      ensures this.inode == inode && offset == 0
    {
      this.inode := inode;
      offset := 0;
    }
  }

  method WriteToBlock(disk: Device, response: Response, data: seq<Byte>)
    requires response.Mapped? && response.byteOffsetInBlock + |data| <= BLOCK_SIZE
    modifies disk
    ensures disk.blocks == Overwritten(old(disk.blocks), response.blockNumber, response.byteOffsetInBlock, data)
  {
    var block := disk.GetDiskBlock(response.blockNumber, ClearBlock());
    block := Splice(block, response.byteOffsetInBlock, data);
    disk.WriteDiskBlock(response.blockNumber, block);
  }

  // One round of the write loop.
  method WriteChunk(disk: Device, inode: InCoreINode, at: nat, buf: seq<Byte>, bytesWritten: nat)
    returns (bytesToWrite: nat)
    requires bytesWritten < |buf| && at <= inode.size <= MAX_FILE_SIZE && at + (|buf| - bytesWritten) <= MAX_FILE_SIZE
    modifies disk, inode`dataBlockNums, inode`size, inode`linksCount, inode`inodeChanged, inode`fileDataChanged
    ensures 0 < bytesToWrite <= |buf| - bytesWritten && inode.size <= MAX_FILE_SIZE
    ensures WriteLoop(disk.blocks, inode.dataBlockNums, inode.size, at + bytesToWrite, buf, bytesWritten + bytesToWrite)
            == WriteLoop(old(disk.blocks), old(inode.dataBlockNums), old(inode.size), at, buf, bytesWritten)
    ensures inode.AsDisk() == old(inode.AsDisk()).(dataBlockNums := inode.dataBlockNums, size := inode.size)
    ensures inode.inodeChanged || (!old(inode.inodeChanged) && inode.AsDisk() == old(inode.AsDisk()))
  {
    hide WriteLoop, AppendBlock, LookUp, Overwritten;
    ghost var d, nums, size := disk.blocks, inode.dataBlockNums, inode.size;
    var response := MapBlock(disk, inode, at, AppendMode);
    WriteLoopIs(d, nums, size, at, buf, bytesWritten);
    bytesToWrite := Min(response.bytesLeftInBlock, |buf| - bytesWritten);
    WriteToBlock(disk, response, buf[bytesWritten..bytesWritten + bytesToWrite]);
    if at == inode.size {
      inode.UpdateMetadata(bytesToWrite, inode.linksCount);
    } else if SizeT(inode.size - bytesWritten) < SizeT(|buf| - bytesWritten) {
      inode.UpdateMetadata(bytesToWrite - inode.size, inode.linksCount);
    }
  }

  // -1 past the end of the file; otherwise the number of bytes written.
  method WriteToFile(disk: Device, file: FileTableEntry, buf: seq<Byte>, offset: nat) returns (result: int)
    requires file.inode.size <= MAX_FILE_SIZE && offset + |buf| <= MAX_FILE_SIZE
    modifies disk, file`offset, file.inode`dataBlockNums, file.inode`size, file.inode`linksCount
    modifies file.inode`inodeChanged, file.inode`fileDataChanged
    ensures offset > old(file.inode.size) ==>
              result == -1 && disk.blocks == old(disk.blocks) && file.inode.AsDisk() == old(file.inode.AsDisk())
    ensures offset <= old(file.inode.size) ==>
              var w := WriteLoop(old(disk.blocks), old(file.inode.dataBlockNums), old(file.inode.size), offset, buf, 0);
              && result == w.bytes && disk.blocks == w.disk
              && file.inode.AsDisk() == old(file.inode.AsDisk()).(dataBlockNums := w.nums, size := w.size)
              && file.offset == old(file.offset) + w.bytes
    ensures file.inode.inodeChanged || file.inode.AsDisk() == old(file.inode.AsDisk())
  {
    var inode := file.inode;
    if offset > inode.size {
      return -1;
    }
    result := WriteBytes(disk, inode, buf, offset);
    file.offset := file.offset + result;
  }

  // The write loop.
  method WriteBytes(disk: Device, inode: InCoreINode, buf: seq<Byte>, offset: nat) returns (bytesWritten: nat)
    requires offset <= inode.size <= MAX_FILE_SIZE && offset + |buf| <= MAX_FILE_SIZE
    modifies disk, inode`dataBlockNums, inode`size, inode`linksCount, inode`inodeChanged, inode`fileDataChanged
    ensures var w := WriteLoop(old(disk.blocks), old(inode.dataBlockNums), old(inode.size), offset, buf, 0);
      && bytesWritten == w.bytes && disk.blocks == w.disk
      && inode.AsDisk() == old(inode.AsDisk()).(dataBlockNums := w.nums, size := w.size)
    ensures inode.inodeChanged || inode.AsDisk() == old(inode.AsDisk())
  {
    hide WriteLoop;
    ghost var goal := WriteLoop(disk.blocks, inode.dataBlockNums, inode.size, offset, buf, 0);
    ghost var before := inode.AsDisk();
    bytesWritten := 0;
    var at := offset;
    while bytesWritten < |buf|
      invariant bytesWritten <= |buf| && at == offset + bytesWritten && inode.size <= MAX_FILE_SIZE
      invariant WriteLoop(disk.blocks, inode.dataBlockNums, inode.size, at, buf, bytesWritten) == goal
      invariant inode.AsDisk() == before.(dataBlockNums := inode.dataBlockNums, size := inode.size)
      invariant inode.inodeChanged || inode.AsDisk() == before
    {
      if at > inode.size {
        break;  // bmap fails
      }
      var bytesToWrite := WriteChunk(disk, inode, at, buf, bytesWritten);
      bytesWritten := bytesWritten + bytesToWrite;
      at := at + bytesToWrite;
    }
    WriteLoopEnds(disk.blocks, inode.dataBlockNums, inode.size, at, buf, bytesWritten);
  }

  lemma WriteLoopEnds(d: Store, nums: Slots, size: nat, offset: nat, buf: seq<Byte>, written: nat)
    requires written <= |buf| && size <= MAX_FILE_SIZE && offset + (|buf| - written) <= MAX_FILE_SIZE
    requires written == |buf| || offset > size
    ensures WriteLoop(d, nums, size, offset, buf, written) == Written(d, nums, size, written)
  {
  }

  lemma WriteLoopIs(d: Store, nums: Slots, size: nat, offset: nat, buf: seq<Byte>, written: nat)
    requires written < |buf| && offset <= size <= MAX_FILE_SIZE && offset + (|buf| - written) <= MAX_FILE_SIZE
    ensures var (d1, nums1, b, off) := MapForWrite(d, nums, size, offset);
      var n := Min(BLOCK_SIZE - off, |buf| - written);
      && 0 < n <= BLOCK_SIZE - off
      && WriteLoop(d, nums, size, offset, buf, written)
         == WriteLoop(Overwritten(d1, b, off, buf[written..written + n]), nums1,
             NewSize(size, offset, |buf|, written, n),
                      offset + n, buf, written + n)
  {
    hide AppendBlock, LookUp, Overwritten;
  }

  // ---------- src/interface/read.c ----------

  method ReadInBlock(disk: Device, response: Response, n: nat) returns (bytes: seq<Byte>)
    requires response.Mapped? && response.byteOffsetInBlock + n <= BLOCK_SIZE
    ensures bytes == AllBytes(At(disk.blocks,
            response.blockNumber))[response.byteOffsetInBlock..response.byteOffsetInBlock + n]
  {
    var block := disk.GetDiskBlock(response.blockNumber, ClearBlock());
    bytes := AllBytes(block)[response.byteOffsetInBlock..response.byteOffsetInBlock + n];
  }

  method ReadBytes(disk: Device, file: FileTableEntry, size: nat, offset: nat) returns (buf: seq<Byte>)
    requires file.inode.size <= MAX_FILE_SIZE
    modifies disk, file`offset, file.inode`dataBlockNums, file.inode`inodeChanged
    ensures disk.blocks == old(disk.blocks) && file.inode.AsDisk() == old(file.inode.AsDisk())
    ensures buf == Read(disk.blocks, file.inode.dataBlockNums, file.inode.size, offset, size)
    ensures file.offset == old(file.offset) + |buf|
  {
    var inode := file.inode;
    var fileSize := inode.size;
    var bytesLeft: int := BytesLeft(fileSize, offset, size);
    var lastByte := Min(fileSize, size + offset);
    buf := ReadRest(disk, inode, lastByte, bytesLeft, offset);
    file.offset := file.offset + |buf|;
  }

  // The read loop.
  method ReadRest(disk: Device, inode: InCoreINode, lastByte: nat, left: int, offset: nat) returns (buf: seq<Byte>)
    requires inode.size <= MAX_FILE_SIZE && left <= lastByte
    modifies disk, inode`dataBlockNums, inode`inodeChanged
    ensures disk.blocks == old(disk.blocks) && inode.AsDisk() == old(inode.AsDisk())
    ensures inode.inodeChanged == old(inode.inodeChanged)
    ensures buf == ReadLoop(disk.blocks, inode.dataBlockNums, inode.size, lastByte, left, offset, [])
  {
    hide ReadLoop, LookUp, AppendBlock, AllBytes;
    ghost var goal := ReadLoop(disk.blocks, inode.dataBlockNums, inode.size, lastByte, left, offset, []);
    ghost var before := inode.AsDisk();
    buf := [];
    var bytesLeft, at := left, offset;
    while bytesLeft > 0
      invariant bytesLeft <= lastByte - |buf| && inode.AsDisk() == before && disk.blocks == old(disk.blocks)
      invariant inode.inodeChanged == old(inode.inodeChanged)
      invariant ReadLoop(disk.blocks, inode.dataBlockNums, inode.size, lastByte, bytesLeft, at, buf) == goal
    {
      ReadLoopIs(disk.blocks, inode.dataBlockNums, inode.size, lastByte, bytesLeft, at, buf);
      var response := MapBlock(disk, inode, at, ReadMode);
      if response.Failed? {
        break;
      }
      var n := Min(response.bytesLeftInBlock, lastByte - |buf|);
      var bytes := ReadInBlock(disk, response, n);
      buf := buf + bytes;
      bytesLeft := bytesLeft - n;
      at := at + n;
    }
    if bytesLeft <= 0 {
      ReadStops(disk.blocks, inode.dataBlockNums, inode.size, lastByte, bytesLeft, at, buf);
    }
  }

  // ---------- src/interface/truncate.c ----------

  function Zeros(n: nat): (s: seq<Byte>)
    ensures |s| == n && forall i :: 0 <= i < n ==> s[i] == 0
  {
    seq(n, _ => 0)
  }

  // A file that was grown: the bytes it had, then zeros, in exactly the blocks it needs.
  ghost predicate Extended(d: Store, d': Store, st: seq<Word>, nums: Slots, nums': Slots, size: nat, size': nat,
                           others: multiset<Word>)
    requires size <= size' <= MAX_FILE_SIZE
  {
    && 0 <= Need(size, size') <= |st|
    && Good(d', st[Need(size, size')..], nums', size', others)
    && SameOn(d, d', others)
    && (forall p :: 0 <= p < size ==> ContentAt(d', nums', p) == ContentAt(d, nums, p))
    && (forall p :: size <= p < size' ==> ContentAt(d', nums', p) == 0)
  }

  lemma ZerosExtend(d: Store, st: seq<Word>, nums: Slots, size: nat, size': nat, others: multiset<Word>)
    requires Good(d, st, nums, size, others) && size <= size' <= MAX_FILE_SIZE && Need(size, size') <= |st|
    ensures var w := WriteLoop(d, nums, size, size, Zeros(size' - size), 0);
            w.size == size' && Extended(d, w.disk, st, nums, w.nums, size, size', others)
  {
    hide *;
    Values();
    var k, off := PlaceInFile(size);
    var zs := Zeros(size' - size);
    NeedPositive(size, size');
    AppendWrites(d, st, nums, k, off, others, zs, 0, Need(size, size'));
    var w := WriteLoop(d, nums, size, size, zs, 0);
    assert zs[0..] == zs;
    WroteIs(d, w, st[Need(size, size')..], size', others, Content(d, nums, size) + zs, |zs|);
    ExtendedIs(d, w.disk, st, nums, w.nums, size, size', others, zs);
  }

  // Whatever list and other blocks the file is apart from.
  lemma ZerosExtendAll(d: Store, nums: Slots, size: nat, size': nat)
    requires size <= size' <= MAX_FILE_SIZE
    ensures var w := WriteLoop(d, nums, size, size, Zeros(size' - size), 0);
            forall st: seq<Word>, others: multiset<Word> ::
              Good(d, st, nums, size, others) && Need(size, size') <= |st| ==>
                w.size == size' && Extended(d, w.disk, st, nums, w.nums, size, size', others)
  {
    hide WriteLoop, Zeros, Good, Extended, Need;
    forall st: seq<Word>, others: multiset<Word> | Good(d, st, nums, size, others) && Need(size, size') <= |st|
      ensures var w := WriteLoop(d, nums, size, size, Zeros(size' - size), 0);
              w.size == size' && Extended(d, w.disk, st, nums, w.nums, size, size', others)
    {
      ZerosExtend(d, st, nums, size, size', others);
    }
  }

  lemma ExtendedIs(d: Store, d': Store, st: seq<Word>, nums: Slots, nums': Slots, size: nat, size': nat,
                   others: multiset<Word>, zs: seq<Byte>)
    requires size <= size' <= MAX_FILE_SIZE && |zs| == size' - size && forall i :: 0 <= i < |zs| ==> zs[i] == 0
    requires 0 <= Need(size, size') <= |st| && SameOn(d, d', others)
    requires FileIs(d', st[Need(size, size')..], nums', size', others, Content(d, nums, size) + zs)
    ensures Extended(d, d', st, nums, nums', size, size', others)
  {
    hide Need, ContentAt, Separate, SameOn, BlockCount;
    forall p | 0 <= p < size'
      ensures ContentAt(d', nums', p) == if p < size then ContentAt(d, nums, p) else 0
    {
      assert Content(d', nums', size')[p] == (Content(d, nums, size) + zs)[p];
    }
  }

  method WriteNullBytes(disk: Device, blockNumber: Word, offset: nat, bytesToWrite: nat)
    requires offset + bytesToWrite <= BLOCK_SIZE
    modifies disk
    ensures disk.blocks == Overwritten(old(disk.blocks), blockNumber, offset, Zeros(bytesToWrite))
    ensures blockNumber < NUM_OF_BLOCKS ==>
              forall j :: 0 <= j < BLOCK_SIZE ==>
                BlockByte(disk.blocks[blockNumber], j)
                == if offset <= j < offset + bytesToWrite then 0 else BlockByte(old(disk.blocks)[blockNumber], j)
  {
    var block := disk.GetDiskBlock(blockNumber, ClearBlock());
    ghost var before := block;
    block := Splice(block, offset, Zeros(bytesToWrite));
    disk.WriteDiskBlock(blockNumber, block);
    hide Splice, BlockByte;
    forall j | 0 <= j < BLOCK_SIZE
      ensures BlockByte(block, j) == if offset <= j < offset + bytesToWrite then 0 else BlockByte(before, j)
    {
      SpliceHolds(before, offset, Zeros(bytesToWrite), j);
    }
  }

  // Growing a file writes zeros at its end.
  method IncreaseFileSizeBy(disk: Device, inode: InCoreINode, size: nat)
    requires inode.size + size <= MAX_FILE_SIZE
    modifies disk, inode`dataBlockNums, inode`size, inode`linksCount, inode`inodeChanged, inode`fileDataChanged
    ensures var w :=
            WriteLoop(old(disk.blocks), old(inode.dataBlockNums), old(inode.size), old(inode.size), Zeros(size), 0);
      && disk.blocks == w.disk
      && inode.AsDisk() == old(inode.AsDisk()).(dataBlockNums := w.nums, size := w.size)
    ensures forall st: seq<Word>, others: multiset<Word> ::
              Good(old(disk.blocks), st, old(inode.dataBlockNums), old(inode.size), others)
              && Need(old(inode.size), old(inode.size) + size) <= |st| ==>
                inode.size == old(inode.size) + size
                && Extended(old(disk.blocks), disk.blocks, st, old(inode.dataBlockNums), inode.dataBlockNums,
                            old(inode.size), old(inode.size) + size, others)
    ensures inode.inodeChanged || inode.AsDisk() == old(inode.AsDisk())
  {
    hide WriteLoop, Zeros, Good, Extended, Need;
    ZerosExtendAll(disk.blocks, inode.dataBlockNums, inode.size, inode.size + size);
    ghost var goal := WriteLoop(disk.blocks, inode.dataBlockNums, inode.size, inode.size, Zeros(size), 0);
    ghost var before := inode.AsDisk();
    var bytesWritten := 0;
    while bytesWritten < size
      invariant bytesWritten <= size && inode.size + (size - bytesWritten) <= MAX_FILE_SIZE
      invariant WriteLoop(disk.blocks, inode.dataBlockNums, inode.size, inode.size, Zeros(size), bytesWritten) == goal
      invariant inode.AsDisk() == before.(dataBlockNums := inode.dataBlockNums, size := inode.size)
      invariant inode.inodeChanged || inode.AsDisk() == before
    {
      var bytesToWrite := GrowChunk(disk, inode, size, bytesWritten);
      bytesWritten := bytesWritten + bytesToWrite;
    }
    WriteLoopEnds(disk.blocks, inode.dataBlockNums, inode.size, inode.size, Zeros(size), bytesWritten);
  }

  // One round of the growing loop.
  method GrowChunk(disk: Device, inode: InCoreINode, size: nat, bytesWritten: nat) returns (bytesToWrite: nat)
    requires bytesWritten < size && inode.size + (size - bytesWritten) <= MAX_FILE_SIZE
    modifies disk, inode`dataBlockNums, inode`size, inode`linksCount, inode`inodeChanged, inode`fileDataChanged
    ensures 0 < bytesToWrite <= size - bytesWritten && inode.size == old(inode.size) + bytesToWrite
    ensures WriteLoop(disk.blocks, inode.dataBlockNums, inode.size, inode.size, Zeros(size),
            bytesWritten + bytesToWrite)
            == WriteLoop(old(disk.blocks), old(inode.dataBlockNums), old(inode.size), old(inode.size), Zeros(size),
                bytesWritten)
    ensures inode.AsDisk() == old(inode.AsDisk()).(dataBlockNums := inode.dataBlockNums, size := inode.size)
    ensures inode.inodeChanged
  {
    hide WriteLoop, AppendBlock, LookUp, Overwritten;
    ghost var d, nums, offset := disk.blocks, inode.dataBlockNums, inode.size;
    var response := MapBlock(disk, inode, inode.size, AppendMode);
    WriteLoopIs(d, nums, offset, offset, Zeros(size), bytesWritten);
    bytesToWrite := Min(response.bytesLeftInBlock, size - bytesWritten);
    WriteNullBytes(disk, response.blockNumber, response.byteOffsetInBlock, bytesToWrite);
    assert Zeros(size)[bytesWritten..bytesWritten + bytesToWrite] == Zeros(bytesToWrite);
    inode.UpdateMetadata(bytesToWrite, inode.linksCount);
  }

  method DecreaseFileSizeBy(disk: Device, inode: InCoreINode, size: nat)
    requires size <= inode.size <= MAX_FILE_SIZE
    modifies disk, inode`dataBlockNums, inode`size, inode`linksCount, inode`inodeChanged, inode`fileDataChanged
    ensures (disk.blocks, inode.size) == ShrinkLoop(old(disk.blocks), old(inode.dataBlockNums), old(inode.size), size)
    ensures inode.AsDisk() == old(inode.AsDisk()).(size := inode.size)
    ensures inode.inodeChanged || inode.AsDisk() == old(inode.AsDisk())
  {
    hide ShrinkLoop;
    ghost var goal := ShrinkLoop(disk.blocks, inode.dataBlockNums, inode.size, size);
    ghost var before := inode.AsDisk();
    var bytesReduced := 0;
    var offset: int := inode.size - 1;
    while bytesReduced < size
      invariant bytesReduced <= size && offset == inode.size - 1 && size - bytesReduced <= inode.size <= MAX_FILE_SIZE
      invariant ShrinkLoop(disk.blocks, inode.dataBlockNums, inode.size, size - bytesReduced) == goal
      invariant inode.AsDisk() == before.(size := inode.size)
      invariant inode.inodeChanged || inode.AsDisk() == before
    {
      var dropped := ShrinkChunk(disk, inode, offset, size - bytesReduced);
      offset := offset - dropped;
      bytesReduced := bytesReduced + dropped;
    }
    ShrinkEnds(disk.blocks, inode.dataBlockNums, inode.size);
  }

  // One round of the shrinking loop: a whole last block, or the bytes that remain to drop.
  method ShrinkChunk(disk: Device, inode: InCoreINode, offset: nat, left: nat) returns (dropped: nat)
    requires 0 < left <= inode.size <= MAX_FILE_SIZE && offset == inode.size - 1
    modifies disk, inode`dataBlockNums, inode`size, inode`linksCount, inode`inodeChanged, inode`fileDataChanged
    ensures 0 < dropped <= left && inode.size == old(inode.size) - dropped
    ensures ShrinkLoop(disk.blocks, inode.dataBlockNums, inode.size, left - dropped)
            == ShrinkLoop(old(disk.blocks), old(inode.dataBlockNums), old(inode.size), left)
    ensures inode.AsDisk() == old(inode.AsDisk()).(size := inode.size)
    ensures inode.inodeChanged
  {
    hide ShrinkLoop, LookUp, AppendBlock, RemoveBlock;
    ShrinkLoopIs(disk.blocks, inode.dataBlockNums, inode.size, left);
    var response := MapBlock(disk, inode, offset, ReadMode);
    if left < response.byteOffsetInBlock + 1 {
      dropped := left;
      inode.UpdateMetadata(0 - left, inode.linksCount);
      return;
    }
    FreeDataBlockInINode(disk, inode, response.blockNumber);
    dropped := response.byteOffsetInBlock + 1;
    inode.UpdateMetadata(0 - dropped, inode.linksCount);
  }

  lemma ShrinkLoopIs(d: Store, nums: Slots, size: nat, left: nat)
    requires 0 < left <= size <= MAX_FILE_SIZE
    ensures ShrinkLoop(d, nums, size - left, 0) == (d, size - left)
    ensures left < Tail(size) ==> ShrinkLoop(d, nums, size, left) == (d, size - left)
    ensures left >= Tail(size) ==>
              && Tail(size) <= size && (size - 1) / BLOCK_SIZE <= TRIPLE_INDIRECT_LIMIT && Valid(SizePath(size))
              && var d1 := RemoveBlock(d, nums, LookUp(d, nums, (size - 1) / BLOCK_SIZE), SizePath(size));
                 ShrinkLoop(d, nums, size, left) == ShrinkLoop(d1, nums, size - Tail(size), left - Tail(size))
  {
    SizePathIs(size);
    hide RemoveBlock, LookUp, PathOf;
  }

  lemma ShrinkEnds(d: Store, nums: Slots, size: nat)
    requires size <= MAX_FILE_SIZE
    ensures ShrinkLoop(d, nums, size, 0) == (d, size)
  {
  }

  method TruncateINode(disk: Device, inode: InCoreINode, size: nat)
    requires inode.size <= MAX_FILE_SIZE && size <= MAX_FILE_SIZE
    modifies disk, inode`dataBlockNums, inode`size, inode`linksCount, inode`inodeChanged, inode`fileDataChanged
    ensures size < old(inode.size) ==>
              && disk.blocks == ShrinkLoop(old(disk.blocks), old(inode.dataBlockNums), old(inode.size),
                 old(inode.size) - size).0
              && inode.AsDisk() == old(inode.AsDisk()).(size := size)
    ensures size >= old(inode.size) ==>
              var w := WriteLoop(old(disk.blocks), old(inode.dataBlockNums), old(inode.size), old(inode.size),
                                 Zeros(size - old(inode.size)), 0);
              disk.blocks == w.disk && inode.AsDisk() == old(inode.AsDisk()).(dataBlockNums := w.nums, size := w.size)
    ensures size >= old(inode.size) ==>
              forall st: seq<Word>, others: multiset<Word> ::
                Good(old(disk.blocks), st, old(inode.dataBlockNums), old(inode.size), others)
                && Need(old(inode.size), size) <= |st| ==>
                  inode.size == size
                  && Extended(old(disk.blocks), disk.blocks, st, old(inode.dataBlockNums), inode.dataBlockNums,
                              old(inode.size), size, others)
    ensures inode.inodeChanged || inode.AsDisk() == old(inode.AsDisk())
  {
    hide WriteLoop, ShrinkLoop, Zeros, Good, Extended, Need;
    if inode.size == size {
      ZerosExtendAll(disk.blocks, inode.dataBlockNums, size, size);
      WriteLoopEnds(disk.blocks, inode.dataBlockNums, size, size, Zeros(0), 0);
      return;
    }
    if inode.size > size {
      ShrinkLoopSize(disk.blocks, inode.dataBlockNums, inode.size, inode.size - size);
      DecreaseFileSizeBy(disk, inode, inode.size - size);
    } else {
      IncreaseFileSizeBy(disk, inode, size - inode.size);
    }
  }

  lemma {:induction false} ShrinkLoopSize(d: Store, nums: Slots, size: nat, left: nat)
    requires left <= size <= MAX_FILE_SIZE
    ensures ShrinkLoop(d, nums, size, left).1 == size - left
    decreases left
  {
    if left == 0 {
      ShrinkEnds(d, nums, size);
    } else {
      ShrinkLoopIs(d, nums, size, left);
      hide ShrinkLoop, RemoveBlock, LookUp;
      if left >= Tail(size) {
        var d1 := RemoveBlock(d, nums, LookUp(d, nums, (size - 1) / BLOCK_SIZE), SizePath(size));
        ShrinkLoopSize(d1, nums, size - Tail(size), left - Tail(size));
      }
    }
  }
}
