/**
  src/incoreInodeOps/bmap.c: from a byte offset of a file to a disk block.
 */
module BMap {
  import opened Params
  import opened Disk
  import opened Allocator
  import opened BlockPath
  import opened BlockTree
  import opened TreeGrowth
  import opened TreeRelease
  import opened FileMap
  import opened FileGrowth
  import opened FileRelease
  import opened INode
  import opened INodeManager

  datatype Mode = ReadMode | AppendMode

  datatype Response =
    | Failed
    | Mapped(blockNumber: Word, byteOffsetInBlock: nat, bytesLeftInBlock: nat)

  // ---------- the code, as functions ----------

  // The block the code reads for index k.
  function LookUp(d: Store, nums: Slots, k: nat): Word
    requires k <= TRIPLE_INDIRECT_LIMIT
  {
    PathIsValid(k);
    var p := PathOf(k);
    if p.level == 0 then nums[k]
    else Descend(d, nums[DIRECT_BLOCK_LIMIT + p.level], p.offs, ClearBlock())
  }

  predicate Refused(size: nat, offset: nat, mode: Mode) {
    offset >= size && (mode == ReadMode || offset > size)
  }

  predicate Appends(size: nat, offset: nat, mode: Mode) {
    offset == size && offset % BLOCK_SIZE == 0 && mode == AppendMode
  }

  function CreateResponse(b: Word, offset: nat): Response
    requires offset <= BLOCK_SIZE
  {
    Mapped(b, offset, BLOCK_SIZE - offset)
  }

  // ---------- the code, step by step ----------

  method ProcessAndGetDiskBlock(disk: Device, offs: seq<nat>, startBlockNum: Word) returns (indirectBlockIndex: Word)
    requires Offsets(offs)
    ensures indirectBlockIndex == Descend(disk.blocks, startBlockNum, offs, ClearBlock())
  {
    indirectBlockIndex := startBlockNum;
    var workingData := ClearBlock();
    var counter := 0;
    assert offs[0..] == offs;
    while counter < |offs|
      invariant counter <= |offs| && Offsets(offs[counter..])
      invariant Descend(disk.blocks, indirectBlockIndex, offs[counter..], workingData)
                == Descend(disk.blocks, startBlockNum, offs, ClearBlock())
    {
      workingData := disk.GetDiskBlock(indirectBlockIndex, workingData);
      indirectBlockIndex := workingData[offs[counter]];
      assert offs[counter..][1..] == offs[counter + 1..];
      counter := counter + 1;
    }
  }

  method MapBlock(disk: Device, iNode: InCoreINode, offset: nat, mode: Mode) returns (response: Response)
    requires iNode.size <= MAX_FILE_BLOCKS * BLOCK_SIZE
    requires Appends(iNode.size, offset, mode) ==> iNode.size < MAX_FILE_BLOCKS * BLOCK_SIZE
    modifies disk, iNode`dataBlockNums, iNode`inodeChanged
    ensures response == Failed <==> offset > iNode.size || (offset == iNode.size && mode == ReadMode)
    ensures response.Mapped? ==>
              response.byteOffsetInBlock == offset % 1024 && response.bytesLeftInBlock == 1024 - offset % 1024
    ensures offset != iNode.size || offset % 1024 != 0 || mode == ReadMode ==>
              disk.blocks == old(disk.blocks) && iNode.dataBlockNums == old(iNode.dataBlockNums)
    ensures Refused(iNode.size, offset, mode) ==> response == Failed
    ensures Appends(iNode.size, offset, mode) ==>
              && response.Mapped?
              && (disk.blocks, iNode.dataBlockNums, response.blockNumber)
                 == AppendBlock(old(disk.blocks), old(iNode.dataBlockNums), iNode.size / BLOCK_SIZE)
              && response == CreateResponse(response.blockNumber, 0)
    ensures !Appends(iNode.size, offset, mode) ==>
              disk.blocks == old(disk.blocks) && iNode.dataBlockNums == old(iNode.dataBlockNums)
              && iNode.inodeChanged == old(iNode.inodeChanged)
    ensures !Refused(iNode.size, offset, mode) && !Appends(iNode.size, offset, mode) ==>
              && offset / BLOCK_SIZE <= TRIPLE_INDIRECT_LIMIT
              && response == CreateResponse(LookUp(disk.blocks, iNode.dataBlockNums, offset / BLOCK_SIZE),
                 offset % BLOCK_SIZE)
  {
    var fileSize := iNode.size;
    if offset >= fileSize {
      if mode == ReadMode || offset > fileSize {
        return Failed;
      }
    }
    if offset == fileSize && offset % BLOCK_SIZE == 0 && mode == AppendMode {
      var newBlock := BlockAlloc(disk);
      InsertDataBlockInINode(disk, iNode, newBlock);
      return CreateResponse(newBlock, 0);
    }
    var indirectionOffsets := CalculateOffset(offset, BlkTreeOffset([], 0));
    var k := offset / BLOCK_SIZE;
    StructParts(k);
    var dataBlockNum;
    if indirectionOffsets.offsetIndirection == 0 {
      dataBlockNum := iNode.dataBlockNums[indirectionOffsets.offsets[0]];
    } else {
      var level := indirectionOffsets.offsetIndirection;
      var offs: seq<nat> := indirectionOffsets.offsets[1..1 + level];
      dataBlockNum := ProcessAndGetDiskBlock(disk, offs, iNode.dataBlockNums[DIRECT_BLOCK_LIMIT + level]);
    }
    return CreateResponse(dataBlockNum, offset % BLOCK_SIZE);
  }

  // ---------- what it finds ----------

  lemma DescendStep(d: Store, root: Word, l: nat, j: nat, buffer: Block)
    requires 1 <= l <= 3 && j < Cap(l)
    ensures Quot(l, j) < K && Rem(l, j) < Cap(l - 1)
    ensures Offsets(Digits(l, j)) && Offsets(Digits(l - 1, Rem(l, j)))
    ensures var w := Fetch(d, root, buffer);
            Descend(d, root, Digits(l, j), buffer) == Descend(d, w[Quot(l, j)], Digits(l - 1, Rem(l, j)), w)
  {
    QuotRem(l, j);
    DigitsValid(l, j);
    DigitsValid(l - 1, Rem(l, j));
    hide Cap, Rem, Quot, Fetch;
    assert Digits(l, j)[1..] == Digits(l - 1, Rem(l, j));
  }

  lemma {:induction false} DescendIsWalk(d: Store, root: Word, l: nat, m: nat, j: nat, buffer: Block)
    requires l <= 3 && j < m <= Cap(l) && InData(Nodes(d, root, l, m, 1))
    ensures Offsets(Digits(l, j)) && Descend(d, root, Digits(l, j), buffer) == Walk(d, root, Digits(l, j))
    decreases l
  {
    hide *;
    Values();
    if l == 0 {
      NoDescent(d, root, j, buffer);
    } else {
      DescendStep(d, root, l, j, buffer);
      WalkStep(d, root, l, j);
      NodesParts(d, root, l, m, 1);
      ChildOfLeaf(l, m, j);
      var w, i := At(d, root), Quot(l, j);
      ChildNodes(d, w, l, m, i);
      InDataParts(multiset{root}, Below(d, w, l, m, 1));
      InDataPart(Below(d, w, l, m, 1), Nodes(d, w[i], l - 1, ChildSize(l, m, i), 1));
      RootFetched(d, root, buffer);
      DescendIsWalk(d, w[i], l - 1, ChildSize(l, m, i), Rem(l, j), w);
    }
  }

  lemma NoDescent(d: Store, root: Word, j: nat, buffer: Block)
    ensures Digits(0, j) == [] && Offsets([])
    ensures Descend(d, root, Digits(0, j), buffer) == root == Walk(d, root, Digits(0, j))
  {
    assert Digits(0, j) == [];
  }

  // On a well-formed file the code's walk finds the block of the index.
  lemma LookUpFinds(d: Store, nums: Slots, n: nat, k: nat)
    requires k < n <= MAX_FILE_BLOCKS && InData(FileNodes(d, nums, n, 1))
    ensures LookUp(d, nums, k) == BlockAt(d, nums, k)
  {
    hide *;
    Values();
    PathIsValid(k);
    PathIs(k);
    PlaceOf(d, nums, k);
    LookUpIs(d, nums, k);
    if Level(k) > 0 {
      var l := Level(k);
      LevelSizeOf(k, n);
      TreeInData(d, nums, l, n);
      DescendIsWalk(d, nums[DIRECT_BLOCK_LIMIT + l], l, TreeSize(l, n), k - Base(l), ClearBlock());
    }
  }

  lemma LookUpIs(d: Store, nums: Slots, k: nat)
    requires k <= TRIPLE_INDIRECT_LIMIT
    ensures Level(k) == 0 ==> LookUp(d, nums, k) == nums[k]
    ensures Level(k) > 0 ==>
              var l := Level(k);
              && l <= 3 && Base(l) <= k && Offsets(Digits(l, k - Base(l)))
              && LookUp(d, nums, k) == Descend(d, nums[DIRECT_BLOCK_LIMIT + l], Digits(l, k - Base(l)), ClearBlock())
  {
    PathIsValid(k);
    hide Descend, Digits;
  }

  // Appending leads bmap to the new block for the new index and where it led before for
  // every earlier one.
  lemma AppendLookUp(d: Store, b: Word, taken: seq<Word>, rest: seq<Word>, nums: Slots, n: nat, others: multiset<Word>,
                     k: nat)
    requires k <= n < MAX_FILE_BLOCKS && |taken| == FileNew(n)
    requires Separate(d, [b] + taken + rest, nums, n, others)
    ensures var (d', nums', b') := AppendBlock(d, nums, n);
            LookUp(d', nums', k) == if k == n then b else LookUp(d, nums, k)
  {
    hide *;
    Values();
    AppendGrows(d, b, taken, rest, nums, n, others);
    var (d', nums', b') := AppendBlock(d, nums, n);
    SeparateParts(d, [b] + taken + rest, nums, n, others);
    SeparateParts(d', rest, nums', n + 1, others);
    LookUpFinds(d', nums', n + 1, k);
    FileGrownAt(d, d', nums, nums', n, b, taken, k);
    if k < n {
      LookUpFinds(d, nums, n, k);
    }
  }

  lemma FileGrownAt(d: Store, d': Store, nums: Slots, nums': Slots, n: nat, b: Word, taken: seq<Word>, k: nat)
    requires k <= n < MAX_FILE_BLOCKS && FileGrown(d, d', nums, nums', n, b, taken)
    ensures BlockAt(d', nums', k) == if k == n then b else BlockAt(d, nums, k)
  {
    hide BlockAt, FileNodes, FileSpine;
  }
}
