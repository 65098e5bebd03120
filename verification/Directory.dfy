/**
  Directories on disk: src/trav/directory.c and fillDirectoryEntries of src/interface/read.c.
 */
module Directory {
  import opened Params
  import opened Disk
  import opened Bytes
  import opened BlockTree
  import opened FileMap
  import opened FileGrowth
  import opened INode
  import opened BMap
  import opened FileWrite
  import opened DirectoryEntry

  // ---------- the code, as functions ----------

  // Where a search stopped: nowhere, or at byte `off` of a block.
  datatype Spot = Absent | Spot(block: Word, off: nat)

  // What getLastEntry filled in, with iNodeNum as a signed word.
  datatype LastEntry = NoEntry | LastEntry(field: Field, iNodeNum: int)

  // S_ISDIR; the second half of the test of validateSearch is always zero.
  predicate IsDirectory(fileMode: nat) {
    fileMode / 0x1000 % 16 == 4
  }

  // The file type is the four bits above the twelve of the permissions.
  lemma TypeBits(high: nat, kind: nat, permissions: nat)
    requires kind < 16 && permissions < 0x1000
    ensures IsDirectory(0x10000 * high + 0x1000 * kind + permissions) <==> kind == 4
  {
  }

  // The first of the entries i..n at byte `off` of a block that carries `name`, n if none.
  function Scan(bytes: seq<Byte>, off: nat, i: nat, n: nat, name: Name): (k: nat)
    requires i <= n && off + 64 * n <= |bytes|
    ensures i <= k <= n && (k < n ==> StrEq(bytes, off + 64 * k, name))
    ensures forall j :: i <= j < k ==> !StrEq(bytes, off + 64 * j, name)
    decreases n - i
  {
    if i == n || StrEq(bytes, off + 64 * i, name) then i else Scan(bytes, off, i + 1, n, name)
  }

  // Entries to look at in the block of byte `offset`.
  function EntriesInBlock(size: nat, offset: nat): (n: nat)
    requires offset < size
    ensures offset % BLOCK_SIZE + 64 * n <= BLOCK_SIZE
  {
    var left := BLOCK_SIZE - offset % BLOCK_SIZE;
    if left > size - offset then (size - offset) / DIRECTORY_ENTRY_SIZE else left / DIRECTORY_ENTRY_SIZE
  }

  function Locate(d: Store, nums: Slots, size: nat, name: Name, offset: nat): (s: Spot)
    requires size <= MAX_FILE_SIZE
    ensures s.Spot? ==> s.off + 64 <= BLOCK_SIZE
    decreases size - offset
  {
    if Refused(size, offset, ReadMode) then Absent
    else
      var b, off, n := LookUp(d, nums, offset / BLOCK_SIZE), offset % BLOCK_SIZE, EntriesInBlock(size, offset);
      var s := SpotIn(d, b, off, n, name);
      if s.Spot? then s
      else Locate(d, nums, size, name, offset + DIRECTORY_ENTRIES_IN_BLOCK * DIRECTORY_ENTRY_SIZE)
  }

  function SpotIn(d: Store, b: Word, off: nat, n: nat, name: Name): (s: Spot)
    requires off + 64 * n <= BLOCK_SIZE
    ensures s.Spot? ==> s.off + 64 <= BLOCK_SIZE
  {
    var i := Scan(AllBytes(At(d, b)), off, 0, n, name);
    if i < n then Spot(b, off + 64 * i) else Absent
  }

  // The last entry of a directory. In an empty one bmap fails, and what is read is the start of
  // the block that its cleared response names.
  function LastOf(d: Store, nums: Slots, size: nat): Entry
    requires size <= MAX_FILE_SIZE && size % 64 == 0
  {
    if size == 0 then EntryOf(AllBytes(At(d, 0)), 0)
    else EntryOf(AllBytes(At(d, LookUp(d, nums, (size - 64) / BLOCK_SIZE))), (size - 64) % BLOCK_SIZE)
  }

  // The marker -1 of getLastEntry survives its memcpy of two bytes.
  predicate MarkerStays(size: nat, last: Entry) {
    size <= 2 * DIRECTORY_ENTRY_SIZE && last.number == 65535
  }

  // The last entry overwrites the one found.
  function SwapOut(d: Store, nums: Slots, size: nat, spot: Spot): Store
    requires size <= MAX_FILE_SIZE && size % 64 == 0
    requires spot.Spot? ==> spot.off + 64 <= BLOCK_SIZE
  {
    var last := LastOf(d, nums, size);
    if spot.Absent? || MarkerStays(size, last) then d else Overwritten(d, spot.block, spot.off, EntryBytes(last))
  }

  function BlockEntries(bytes: seq<Byte>, off: nat, n: nat): (es: seq<Entry>)
    requires off + 64 * n <= |bytes|
    ensures |es| == n
  {
    seq(n, i requires 0 <= i < n => EntryOf(bytes, off + 64 * i))
  }

  // The collecting loop; `num` is looked at only between blocks.
  function Gathered(d: Store, nums: Slots, size: nat, offset: nat, num: nat, got: seq<Entry>): seq<Entry>
    requires size <= MAX_FILE_SIZE
    decreases size - offset
  {
    if |got| >= num || Refused(size, offset, ReadMode) then got
    else
      var b, off, n := LookUp(d, nums, offset / BLOCK_SIZE), offset % BLOCK_SIZE, EntriesInBlock(size, offset);
      Gathered(d, nums, size, offset + DIRECTORY_ENTRIES_IN_BLOCK * DIRECTORY_ENTRY_SIZE, num,
                got + BlockEntries(AllBytes(At(d, b)), off, n))
  }

  // ---------- the code, step by step ----------

  // Looks for `entryName`; when it is found and there is a last entry to move, writes that over it.
  method SearchBlockDirectoryEntries(block: Block, entryName: Name, offset: nat, numOfEntries: nat,
                                     lastEntry: LastEntry)
    returns (found: nat, entry: Entry, changed: Block)
    requires offset + 64 * numOfEntries <= BLOCK_SIZE
    ensures var i := Scan(AllBytes(block), offset, 0, numOfEntries, entryName);
      && (i == numOfEntries ==> found == 0 && changed == block)
      && (i < numOfEntries ==>
            && found == 1 && entry == EntryOf(AllBytes(block), offset + 64 * i)
            && changed == if lastEntry.LastEntry? && lastEntry.iNodeNum != -1
                          then Splice(block, offset + 64 * i,
                              EntryBytes(Entry(lastEntry.field, lastEntry.iNodeNum % 65536)))
                          else block)
  {
    hide StrEq, Splice, EntryOf, EntryBytes;
    var bytes := AllBytes(block);
    entry := Entry(seq(FILENAME_SIZE, _ => 0), 0);
    var counter := 0;
    while counter < numOfEntries
      invariant counter <= numOfEntries
      invariant Scan(bytes, offset, counter, numOfEntries, entryName) == Scan(bytes, offset, 0, numOfEntries, entryName)
    {
      var ptrIntoBlock := offset + 64 * counter;
      if StrEq(bytes, ptrIntoBlock, entryName) {
        entry := EntryOf(bytes, ptrIntoBlock);
        if lastEntry.LastEntry? && lastEntry.iNodeNum != -1 {
          return 1, entry, Splice(block, ptrIntoBlock, EntryBytes(Entry(lastEntry.field, lastEntry.iNodeNum % 65536)));
        }
        return 1, entry, block;
      }
      counter := counter + 1;
    }
    return 0, entry, block;
  }

  method EntriesToCheck(tillEndOfFile: nat, response: Response) returns (entriesInBlock: nat)
    requires response.Mapped?
    ensures entriesInBlock == if response.bytesLeftInBlock > tillEndOfFile then tillEndOfFile / 64
            else response.bytesLeftInBlock / 64
  {
    entriesInBlock := response.bytesLeftInBlock / DIRECTORY_ENTRY_SIZE;
    if response.bytesLeftInBlock > tillEndOfFile {
      entriesInBlock := tillEndOfFile / DIRECTORY_ENTRY_SIZE;
    }
  }

  method CheckInBlock(disk: Device, tillEndOfFile: nat, response: Response, entryName: Name, lastEntry: LastEntry)
    returns (found: nat, entry: Entry)
    requires response.Mapped? && response.byteOffsetInBlock + response.bytesLeftInBlock == BLOCK_SIZE
    modifies disk
    ensures var n := if response.bytesLeftInBlock > tillEndOfFile then tillEndOfFile / 64
            else response.bytesLeftInBlock / 64;
      && response.byteOffsetInBlock + 64 * n <= BLOCK_SIZE
      && Hit(old(disk.blocks), disk.blocks, lastEntry, found, entry,
             SpotIn(old(disk.blocks), response.blockNumber, response.byteOffsetInBlock, n, entryName))
  {
    hide Splice, EntryOf, EntryBytes, Scan;
    var block := disk.GetDiskBlock(response.blockNumber, ClearBlock());
    var entriesInBlock := EntriesToCheck(tillEndOfFile, response);
    var changed;
    found, entry, changed :=
      SearchBlockDirectoryEntries(block, entryName, response.byteOffsetInBlock, entriesInBlock, lastEntry);
    if lastEntry.LastEntry? && lastEntry.iNodeNum != -1 && found == 1 {
      disk.WriteDiskBlock(response.blockNumber, changed);
    }
  }

  method GetLastEntry(disk: Device, iNode: InCoreINode) returns (entry: LastEntry)
    requires iNode.size <= MAX_FILE_SIZE && iNode.size % 64 == 0
    modifies disk, iNode`dataBlockNums, iNode`inodeChanged
    ensures disk.blocks == old(disk.blocks) && iNode.AsDisk() == old(iNode.AsDisk())
    ensures iNode.inodeChanged == old(iNode.inodeChanged)
    ensures var last := LastOf(disk.blocks, iNode.dataBlockNums, iNode.size);
      && entry.LastEntry? && Entry(entry.field, entry.iNodeNum % 65536) == last
      && (entry.iNodeNum == -1 <==> MarkerStays(iNode.size, last))
      && (entry.iNodeNum == -1 <==> iNode.size <= 128 && last.number == 65535)
  {
    hide AppendBlock, LookUp, AllBytes, EntryOf;
    if iNode.size > 0 {
      LastFits(iNode.size);
    }
    // The bytes of iNodeNum above the two that are copied.
    var high := 0;
    if iNode.size <= 2 * DIRECTORY_ENTRY_SIZE {
      high := -65536;
    }
    var response := MapBlock(disk, iNode, SizeT(iNode.size - DIRECTORY_ENTRY_SIZE), ReadMode);
    if response.Failed? {
      response := Mapped(0, 0, 0);
    }
    var block := disk.GetDiskBlock(response.blockNumber, ClearBlock());
    var last := EntryOf(AllBytes(block), response.byteOffsetInBlock);
    entry := LastEntry(last.field, high + last.number);
    LowBytes(last.number);
  }

  lemma LastFits(size: nat)
    requires 64 <= size <= MAX_FILE_SIZE && size % 64 == 0
    ensures (size - 64) % BLOCK_SIZE + 64 <= BLOCK_SIZE && (size - 64) / BLOCK_SIZE <= TRIPLE_INDIRECT_LIMIT
    ensures !Refused(size, size - 64, ReadMode) && !Appends(size, size - 64, ReadMode)
  {
  }

  lemma LowBytes(n: Number)
    ensures n % 65536 == n && (-65536 + n) % 65536 == n
  {
  }

  // The searching mode of searchINodeDirectoryEntries: -1 if `iNode` is no directory, else the
  // number of entries found. For an unlink the last entry takes the place of the one found.
  method SearchINodeDirectoryEntries(disk: Device, iNode: InCoreINode, entryName: Name, forUnlink: bool)
    returns (count: int, entry: Entry)
    requires iNode.size <= MAX_FILE_SIZE
    requires forUnlink && IsDirectory(iNode.fileMode) ==> iNode.size % 64 == 0
    modifies disk, iNode`dataBlockNums, iNode`inodeChanged
    ensures iNode.AsDisk() == old(iNode.AsDisk()) && iNode.inodeChanged == old(iNode.inodeChanged)
    ensures !IsDirectory(iNode.fileMode) ==> count == -1 && disk.blocks == old(disk.blocks)
    ensures IsDirectory(iNode.fileMode) ==>
              var spot := Locate(old(disk.blocks), iNode.dataBlockNums, iNode.size, entryName, 0);
              && count == (if spot.Spot? then 1 else 0)
              && (spot.Spot? ==> entry == EntryOf(AllBytes(At(old(disk.blocks), spot.block)), spot.off))
              && disk.blocks == if forUnlink then SwapOut(old(disk.blocks), iNode.dataBlockNums, iNode.size, spot)
                                else old(disk.blocks)
  {
    hide AppendBlock, LookUp, AllBytes, Scan, EntryOf, EntryBytes, Overwritten, LastOf, MarkerStays, Locate;
    hide IsDirectory;
    entry := Entry(seq(FILENAME_SIZE, _ => 0), 0);
    if !IsDirectory(iNode.fileMode) {
      return -1, entry;
    }
    var lastEntry := NoEntry;
    if forUnlink {
      lastEntry := GetLastEntry(disk, iNode);
    }
    var found;
    found, entry := SearchBlocks(disk, iNode, entryName, lastEntry);
    count := found;
  }

  // The search through the blocks, one after the other.
  method SearchBlocks(disk: Device, iNode: InCoreINode, entryName: Name, lastEntry: LastEntry)
    returns (found: nat, entry: Entry)
    requires iNode.size <= MAX_FILE_SIZE
    modifies disk, iNode`dataBlockNums, iNode`inodeChanged
    ensures iNode.AsDisk() == old(iNode.AsDisk()) && iNode.inodeChanged == old(iNode.inodeChanged)
    ensures Hit(old(disk.blocks), disk.blocks, lastEntry, found, entry,
                Locate(old(disk.blocks), iNode.dataBlockNums, iNode.size, entryName, 0))
  {
    hide Locate, Hit;
    found, entry := 0, Entry(seq(FILENAME_SIZE, _ => 0), 0);
    ghost var before := iNode.AsDisk();
    ghost var goal := Locate(disk.blocks, iNode.dataBlockNums, iNode.size, entryName, 0);
    var directoryOffset := 0;
    while true
      invariant disk.blocks == old(disk.blocks) && iNode.AsDisk() == before
      invariant iNode.inodeChanged == old(iNode.inodeChanged)
      invariant Locate(disk.blocks, iNode.dataBlockNums, iNode.size, entryName, directoryOffset) == goal
      decreases iNode.size - directoryOffset
    {
      var mapped;
      mapped, found, entry := SearchNextBlock(disk, iNode, directoryOffset, entryName, lastEntry);
      if !mapped || found == 1 {
        break;
      }
      directoryOffset := directoryOffset + DIRECTORY_ENTRIES_IN_BLOCK * DIRECTORY_ENTRY_SIZE;
    }
  }

  // A search of disk d that ended at `spot` and left disk d'.
  ghost predicate Hit(d: Store, d': Store, lastEntry: LastEntry, found: nat, entry: Entry, spot: Spot) {
    && found == (if spot.Spot? then 1 else 0)
    && (spot.Absent? ==> d' == d)
    && (spot.Spot? ==>
          && spot.off + 64 <= BLOCK_SIZE
          && entry == EntryOf(AllBytes(At(d, spot.block)), spot.off)
          && d' == if lastEntry.LastEntry? && lastEntry.iNodeNum != -1
                   then Overwritten(d, spot.block, spot.off,
                       EntryBytes(Entry(lastEntry.field, lastEntry.iNodeNum % 65536)))
                   else d)
  }

  // One round of the search loop; `mapped` is false at the end of the directory.
  method SearchNextBlock(disk: Device, iNode: InCoreINode, directoryOffset: nat, entryName: Name, lastEntry: LastEntry)
    returns (mapped: bool, found: nat, entry: Entry)
    requires iNode.size <= MAX_FILE_SIZE
    modifies disk, iNode`dataBlockNums, iNode`inodeChanged
    ensures iNode.AsDisk() == old(iNode.AsDisk()) && iNode.inodeChanged == old(iNode.inodeChanged)
    ensures var spot := Locate(old(disk.blocks), iNode.dataBlockNums, iNode.size, entryName, directoryOffset);
      && (!mapped || found == 1 ==> Hit(old(disk.blocks), disk.blocks, lastEntry, found, entry, spot))
      && (mapped && found != 1 ==>
            && directoryOffset < iNode.size && disk.blocks == old(disk.blocks)
            && Locate(disk.blocks, iNode.dataBlockNums, iNode.size, entryName, directoryOffset + 1024) == spot)
  {
    hide AppendBlock, LookUp, SpotIn, Locate, Hit;
    LocateStep(disk.blocks, iNode.dataBlockNums, iNode.size, entryName, directoryOffset);
    var response := MapBlock(disk, iNode, directoryOffset, ReadMode);
    entry := Entry(seq(FILENAME_SIZE, _ => 0), 0);
    if response.Failed? {
      NoHit(disk.blocks, lastEntry, entry);
      return false, 0, entry;
    }
    mapped := true;
    ghost var d := disk.blocks;
    found, entry := CheckInBlock(disk, iNode.size - directoryOffset, response, entryName, lastEntry);
    HitSays(d, disk.blocks, lastEntry, found, entry,
            SpotIn(d, response.blockNumber, response.byteOffsetInBlock, EntriesInBlock(iNode.size, directoryOffset),
                entryName));
  }

  lemma NoHit(d: Store, lastEntry: LastEntry, entry: Entry)
    ensures Hit(d, d, lastEntry, 0, entry, Absent)
  {
  }

  lemma HitSays(d: Store, d': Store, lastEntry: LastEntry, found: nat, entry: Entry, spot: Spot)
    requires Hit(d, d', lastEntry, found, entry, spot)
    ensures found == (if spot.Spot? then 1 else 0) && (spot.Absent? ==> d' == d)
  {
  }

  lemma LocateStep(d: Store, nums: Slots, size: nat, name: Name, offset: nat)
    requires size <= MAX_FILE_SIZE
    ensures Refused(size, offset, ReadMode) ==> Locate(d, nums, size, name, offset) == Absent
    ensures !Refused(size, offset, ReadMode) ==>
      && offset < size && offset / BLOCK_SIZE <= TRIPLE_INDIRECT_LIMIT
      && var b, off, n := LookUp(d, nums, offset / BLOCK_SIZE), offset % BLOCK_SIZE, EntriesInBlock(size, offset);
         var s := SpotIn(d, b, off, n, name);
      && Locate(d, nums, size, name, offset) == if s.Spot? then s else Locate(d, nums, size, name, offset + 1024)
  {
    hide LookUp, SpotIn;
  }

  method AddDirectoryEntry(disk: Device, blockNum: Word, blockOffset: nat, filename: seq<Byte>, iNodeNum: Number)
    requires blockOffset + DIRECTORY_ENTRY_SIZE <= BLOCK_SIZE && |filename| >= FILENAME_SIZE
    modifies disk
    ensures disk.blocks == Overwritten(old(disk.blocks), blockNum, blockOffset,
            EntryBytes(Entry(filename[..FILENAME_SIZE], iNodeNum)))
    ensures blockNum < NUM_OF_BLOCKS ==>
              forall j :: 0 <= j < BLOCK_SIZE ==>
                BlockByte(disk.blocks[blockNum], j)
                == if blockOffset <= j < blockOffset + 62 then filename[j - blockOffset]
                   else if j == blockOffset + 62 then iNodeNum % 256
                   else if j == blockOffset + 63 then iNodeNum / 256
                   else BlockByte(old(disk.blocks)[blockNum], j)
  {
    var block := disk.GetDiskBlock(blockNum, ClearBlock());
    ghost var before, bytes := block, EntryBytes(Entry(filename[..FILENAME_SIZE], iNodeNum));
    block := Splice(block, blockOffset, EntryBytes(Entry(filename[..FILENAME_SIZE], iNodeNum)));
    disk.WriteDiskBlock(blockNum, block);
    hide Splice, BlockByte;
    forall j | 0 <= j < BLOCK_SIZE
      ensures BlockByte(block, j)
              == if blockOffset <= j < blockOffset + 64 then bytes[j - blockOffset] else BlockByte(before, j)
    {
      SpliceHolds(before, blockOffset, bytes, j);
    }
  }

  // Adds an entry at the end; `filename` is the memory the name starts.
  method GetAndUpdateDirectoryTable(disk: Device, parentINode: InCoreINode, newInodeNumber: Number, filename: seq<Byte>)
    returns (status: int)
    requires parentINode.size + 64 <= MAX_FILE_SIZE && parentINode.size % 64 == 0 && |filename| >= FILENAME_SIZE
    modifies disk, parentINode
    ensures !IsDirectory(parentINode.fileMode) ==>
              status == -1 && disk.blocks == old(disk.blocks) && parentINode.AsDisk() == old(parentINode.AsDisk())
    ensures IsDirectory(parentINode.fileMode) ==>
              var e := Entry(filename[..FILENAME_SIZE], newInodeNumber);
              var w := WriteLoop(old(disk.blocks), old(parentINode.dataBlockNums), old(parentINode.size),
                                 old(parentINode.size), EntryBytes(e), 0);
              && status == 0 && disk.blocks == w.disk && parentINode.inodeChanged
              && parentINode.AsDisk() == old(parentINode.AsDisk()).(dataBlockNums := w.nums, size := w.size)
    ensures parentINode.referenceCount == old(parentINode.referenceCount)
  {
    hide WriteLoop, AppendBlock, LookUp, Overwritten, EntryBytes, IsDirectory;
    if !IsDirectory(parentINode.fileMode) {
      return -1;
    }
    ghost var e := Entry(filename[..FILENAME_SIZE], newInodeNumber);
    EntryFits(disk.blocks, parentINode.dataBlockNums, parentINode.size, EntryBytes(e));
    var response := MapBlock(disk, parentINode, parentINode.size, AppendMode);
    AddDirectoryEntry(disk, response.blockNumber, response.byteOffsetInBlock, filename, newInodeNumber);
    parentINode.UpdateMetadata(DIRECTORY_ENTRY_SIZE, parentINode.linksCount);
    status := 0;
  }

  // An entry at the end of a directory goes into one block.
  lemma EntryFits(d: Store, nums: Slots, size: nat, data: seq<Byte>)
    requires size + 64 <= MAX_FILE_SIZE && size % 64 == 0 && |data| == 64
    ensures var (d1, nums1, b, off) := MapForWrite(d, nums, size, size);
      && off + 64 <= BLOCK_SIZE
      && WriteLoop(d, nums, size, size, data, 0) == Written(Overwritten(d1, b, off, data), nums1, size + 64, 64)
  {
    var (d1, nums1, b, off) := MapForWrite(d, nums, size, size);
    assert size % BLOCK_SIZE + 64 <= BLOCK_SIZE;
    hide AppendBlock, LookUp, Overwritten;
    assert data[0..64] == data;
    var d2 := Overwritten(d1, b, off, data);
    assert WriteLoop(d2, nums1, size + 64, size + 64, data, 64) == Written(d2, nums1, size + 64, 64);
  }

  // The entries of a new directory: itself under `.` and its parent under `..`. The rest of their
  // fields is what follows the two literals in memory.
  method UpdateNewDirMetaData(disk: Device, iNode: InCoreINode, parentINodeNumber: Number, behindDot: seq<Byte>,
                              behindDots: seq<Byte>)
    requires |behindDot| == 60 && |behindDots| == 59
    requires iNode.size % BLOCK_SIZE + 128 <= BLOCK_SIZE && iNode.size + 128 <= MAX_FILE_SIZE
    requires iNode.inodeNumber < NUM_OF_INODES
    modifies disk, iNode
    ensures var (d1, nums1, b, off) :=
            MapForWrite(old(disk.blocks), old(iNode.dataBlockNums), old(iNode.size), old(iNode.size));
      && off + 128 <= BLOCK_SIZE
      && disk.blocks
         == Overwritten(Overwritten(d1, b, off, EntryBytes(Entry([46, 0] + behindDot, old(iNode.inodeNumber)))), b,
                        off + 64, EntryBytes(Entry([46, 46, 0] + behindDots, parentINodeNumber)))
      && iNode.AsDisk() == old(iNode.AsDisk()).(dataBlockNums := nums1, size := old(iNode.size) + 128, linksCount := 2)
    ensures iNode.inodeChanged && iNode.referenceCount == old(iNode.referenceCount)
  {
    hide AppendBlock, LookUp, Overwritten, EntryBytes;
    var dot: Field, dotDot: Field := [46, 0] + behindDot, [46, 46, 0] + behindDots;
    var response := MapBlock(disk, iNode, iNode.size, AppendMode);
    AddDirectoryEntry(disk, response.blockNumber, response.byteOffsetInBlock, dot, iNode.inodeNumber);
    AddDirectoryEntry(disk, response.blockNumber, response.byteOffsetInBlock + DIRECTORY_ENTRY_SIZE, dotDot,
        parentINodeNumber);
    assert dot[..FILENAME_SIZE] == dot && dotDot[..FILENAME_SIZE] == dotDot;
    iNode.UpdateMetadata(2 * DIRECTORY_ENTRY_SIZE, 2);
  }

  // ---------- collecting ----------

  lemma {:induction false} GatheredGrows(d: Store, nums: Slots, size: nat, offset: nat, num: nat, got: seq<Entry>)
    requires size <= MAX_FILE_SIZE
    ensures |got| <= |Gathered(d, nums, size, offset, num, got)|
    decreases size - offset
  {
    hide BlockEntries, EntriesInBlock, LookUp, AllBytes;
    if |got| < num && !Refused(size, offset, ReadMode) {
      GatheredStep(d, nums, size, offset, num, got);
      hide Gathered;
      var b, off, n := LookUp(d, nums, offset / BLOCK_SIZE), offset % BLOCK_SIZE, EntriesInBlock(size, offset);
      GatheredGrows(d, nums, size, offset + 1024, num, got + BlockEntries(AllBytes(At(d, b)), off, n));
    }
  }

  lemma GatheredStep(d: Store, nums: Slots, size: nat, offset: nat, num: nat, got: seq<Entry>)
    requires size <= MAX_FILE_SIZE
    ensures |got| >= num || Refused(size, offset, ReadMode) ==> Gathered(d, nums, size, offset, num, got) == got
    ensures |got| < num && !Refused(size, offset, ReadMode) ==>
      && offset < size && offset / BLOCK_SIZE <= TRIPLE_INDIRECT_LIMIT
      && var b, off, n := LookUp(d, nums, offset / BLOCK_SIZE), offset % BLOCK_SIZE, EntriesInBlock(size, offset);
         Gathered(d, nums, size, offset, num, got)
         == Gathered(d, nums, size, offset + 1024, num, got + BlockEntries(AllBytes(At(d, b)), off, n))
  {
    hide LookUp, AllBytes, BlockEntries;
  }

  lemma SomeEntry(size: nat, i: nat)
    requires size <= MAX_FILE_SIZE && i < size / DIRECTORY_ENTRY_SIZE
    ensures var offset := i * DIRECTORY_ENTRY_SIZE;
      && !Refused(size, offset, ReadMode) && offset < size && offset / BLOCK_SIZE <= TRIPLE_INDIRECT_LIMIT
      && EntriesInBlock(size, offset) > 0
  {
  }

  // An entry that lies in the directory is read.
  lemma CollectsSome(d: Store, nums: Slots, size: nat, i: nat)
    requires size <= MAX_FILE_SIZE && i < size / DIRECTORY_ENTRY_SIZE
    ensures |Gathered(d, nums, size, i * DIRECTORY_ENTRY_SIZE, 16, [])| > 0
  {
    hide Gathered, LookUp, BlockEntries, AllBytes, At, EntriesInBlock, Refused;
    var offset := i * DIRECTORY_ENTRY_SIZE;
    SomeEntry(size, i);
    GatheredStep(d, nums, size, offset, 16, []);
    var b, off, n := LookUp(d, nums, offset / BLOCK_SIZE), offset % BLOCK_SIZE, EntriesInBlock(size, offset);
    GatheredGrows(d, nums, size, offset + 1024, 16, [] + BlockEntries(AllBytes(At(d, b)), off, n));
  }

  function NamesOf(es: seq<Entry>): (names: seq<Name>)
    ensures |names| == |es|
  {
    seq(|es|, i requires 0 <= i < |es| => NameOf(es[i]))
  }

  // The names a listing gives from entry i on.
  function Listed(d: Store, nums: Slots, size: nat, i: nat): seq<Name>
    requires size <= MAX_FILE_SIZE
    decreases size / DIRECTORY_ENTRY_SIZE - i
  {
    if i >= size / DIRECTORY_ENTRY_SIZE then []
    else
      CollectsSome(d, nums, size, i);
      var es := Gathered(d, nums, size, i * DIRECTORY_ENTRY_SIZE, DIRECTORY_ENTRIES_IN_BLOCK, []);
      NamesOf(es) + Listed(d, nums, size, i + |es|)
  }

  // searchBlockDirectoryEntries with no name to look for.
  method CollectBlockEntries(disk: Device, tillEndOfFile: nat, response: Response) returns (es: seq<Entry>)
    requires response.Mapped? && response.byteOffsetInBlock + response.bytesLeftInBlock == BLOCK_SIZE
    ensures var n := if response.bytesLeftInBlock > tillEndOfFile then tillEndOfFile / 64
            else response.bytesLeftInBlock / 64;
      && response.byteOffsetInBlock + 64 * n <= BLOCK_SIZE
      && es == BlockEntries(AllBytes(At(disk.blocks, response.blockNumber)), response.byteOffsetInBlock, n)
  {
    hide EntryOf;
    var block := disk.GetDiskBlock(response.blockNumber, ClearBlock());
    var bytes := AllBytes(block);
    var numOfEntries := EntriesToCheck(tillEndOfFile, response);
    es := [];
    var counter := 0;
    while counter < numOfEntries
      invariant counter <= numOfEntries && es == BlockEntries(bytes, response.byteOffsetInBlock, counter)
    {
      es := es + [EntryOf(bytes, response.byteOffsetInBlock + 64 * counter)];
      counter := counter + 1;
    }
  }

  // The collecting mode of searchINodeDirectoryEntries.
  method CollectINodeDirectoryEntries(disk: Device, iNode: InCoreINode, offset: nat, numOfEntries: nat)
    returns (count: int, es: seq<Entry>)
    requires iNode.size <= MAX_FILE_SIZE
    modifies disk, iNode`dataBlockNums, iNode`inodeChanged
    ensures disk.blocks == old(disk.blocks) && iNode.AsDisk() == old(iNode.AsDisk())
    ensures !IsDirectory(iNode.fileMode) ==> count == -1
    ensures IsDirectory(iNode.fileMode) ==>
              && es == Gathered(disk.blocks, iNode.dataBlockNums, iNode.size, offset * DIRECTORY_ENTRY_SIZE,
                 numOfEntries, [])
              && count == |es|
  {
    hide AppendBlock, LookUp, AllBytes, BlockEntries, Gathered, IsDirectory;
    if !IsDirectory(iNode.fileMode) {
      return -1, [];
    }
    ghost var before := iNode.AsDisk();
    var directoryOffset := offset * DIRECTORY_ENTRY_SIZE;
    ghost var goal := Gathered(disk.blocks, iNode.dataBlockNums, iNode.size, directoryOffset, numOfEntries, []);
    es := [];
    while |es| < numOfEntries
      invariant disk.blocks == old(disk.blocks) && iNode.AsDisk() == before
      invariant Gathered(disk.blocks, iNode.dataBlockNums, iNode.size, directoryOffset, numOfEntries, es) == goal
      decreases iNode.size - directoryOffset
    {
      GatheredStep(disk.blocks, iNode.dataBlockNums, iNode.size, directoryOffset, numOfEntries, es);
      var response := MapBlock(disk, iNode, directoryOffset, ReadMode);
      if response.Failed? {
        return |es|, es;
      }
      var read := CollectBlockEntries(disk, iNode.size - directoryOffset, response);
      es := es + read;
      directoryOffset := directoryOffset + DIRECTORY_ENTRIES_IN_BLOCK * DIRECTORY_ENTRY_SIZE;
    }
    GatheredStep(disk.blocks, iNode.dataBlockNums, iNode.size, directoryOffset, numOfEntries, es);
    count := |es|;
  }

  method FillDirectoryEntries(disk: Device, iNode: InCoreINode) returns (names: seq<Name>)
    requires iNode.size <= MAX_FILE_SIZE && IsDirectory(iNode.fileMode)
    modifies disk, iNode`dataBlockNums, iNode`inodeChanged
    ensures disk.blocks == old(disk.blocks) && iNode.AsDisk() == old(iNode.AsDisk())
    ensures names == Listed(disk.blocks, iNode.dataBlockNums, iNode.size, 0)
  {
    hide Gathered, IsDirectory, NameOf;
    ghost var before := iNode.AsDisk();
    ghost var goal := Listed(disk.blocks, iNode.dataBlockNums, iNode.size, 0);
    var entriesInDirectory := iNode.size / DIRECTORY_ENTRY_SIZE;
    var entriesOffset := 0;
    names := [];
    while entriesOffset < entriesInDirectory
      invariant disk.blocks == old(disk.blocks) && iNode.AsDisk() == before
      invariant names + Listed(disk.blocks, iNode.dataBlockNums, iNode.size, entriesOffset) == goal
    {
      CollectsSome(disk.blocks, iNode.dataBlockNums, iNode.size, entriesOffset);
      var entriesRead, es := CollectINodeDirectoryEntries(disk, iNode, entriesOffset, DIRECTORY_ENTRIES_IN_BLOCK);
      ghost var rest := Listed(disk.blocks, iNode.dataBlockNums, iNode.size, entriesOffset + |es|);
      assert names + (NamesOf(es) + rest) == names + NamesOf(es) + rest;
      var counter := 0;
      ghost var listed := names;
      while counter < entriesRead
        invariant counter <= entriesRead && names == listed + NamesOf(es)[..counter]
      {
        names := names + [NameOf(es[counter])];
        counter := counter + 1;
      }
      assert NamesOf(es)[..counter] == NamesOf(es);
      entriesOffset := entriesOffset + entriesRead;
    }
    assert names + [] == names;
  }
}
