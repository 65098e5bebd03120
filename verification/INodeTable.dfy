/**
  Where inodes live on disk: src/mandsk/params.c and accessINodeAndItsBlock of
  src/mkfs/iNodeManager.c. An inode is the bytes of its struct.
 */
module INodeTable {
  import opened Params
  import opened Disk
  import opened Bytes

  // ---------- src/mandsk/params.c ----------

  predicate PowerOfTwo(n: nat) {
    n == 1 || (n > 0 && n % 2 == 0 && PowerOfTwo(n / 2))
  }

  // The halving loop yields the least power of two strictly above the struct size.
  method InitializeINodeParams(structSize: nat) returns (inodeSize: nat, inodesPerBlock: nat, numOfINodeBlocks: nat)
    ensures PowerOfTwo(inodeSize) && structSize < inodeSize && inodeSize / 2 <= structSize
    ensures inodesPerBlock == BLOCK_SIZE / inodeSize
    ensures numOfINodeBlocks == inodeSize * NUM_OF_INODES / BLOCK_SIZE
  {
    hide PowerOfTwo;
    OneIsPower();
    var left := structSize;
    inodeSize := 1;
    while left != 0
      invariant PowerOfTwo(inodeSize) && inodeSize > 0
      invariant left * inodeSize <= structSize < (left + 1) * inodeSize
      invariant left == 0 ==> inodeSize / 2 <= structSize
      decreases left
    {
      HalfStep(left, inodeSize, structSize);
      TwiceIsPower(inodeSize);
      inodeSize := inodeSize * 2;
      left := left / 2;
    }
    inodesPerBlock := BLOCK_SIZE / inodeSize;
    numOfINodeBlocks := inodeSize * NUM_OF_INODES / BLOCK_SIZE;
  }

  lemma OneIsPower()
    ensures PowerOfTwo(1)
  {
  }

  lemma TwiceIsPower(n: nat)
    requires PowerOfTwo(n)
    ensures PowerOfTwo(n * 2)
  {
    assert n * 2 / 2 == n;
  }

  lemma HalfStep(left: nat, size: nat, structSize: nat)
    requires left > 0 && size > 0 && left * size <= structSize < (left + 1) * size
    ensures left / 2 * (size * 2) <= structSize < (left / 2 + 1) * (size * 2)
    ensures size <= structSize
    ensures size * 2 % 2 == 0 && size * 2 / 2 == size
  {
    var h := left / 2;
    assert left == 2 * h || left == 2 * h + 1;
    assert h * (size * 2) == 2 * h * size;
    assert (h + 1) * (size * 2) == 2 * h * size + 2 * size;
    if left == 2 * h {
      assert left * size == 2 * h * size;
      assert (left + 1) * size == 2 * h * size + size;
    } else {
      assert left * size == 2 * h * size + size;
      assert (left + 1) * size == 2 * h * size + 2 * size;
    }
    assert left * size >= size;
  }

  // No smaller power of two is above the struct size.
  lemma {:induction false} LeastPower(p: nat, q: nat, structSize: nat)
    requires PowerOfTwo(p) && PowerOfTwo(q) && p / 2 <= structSize < q
    ensures p <= q
    decreases p
  {
    if p > 1 && q > 1 {
      LeastPower(p / 2, q / 2, structSize / 2);
    }
  }

  // ---------- addressing ----------

  // Block and byte offset of inode i, for inodes of `size` bytes.
  function BlockOf(size: nat, i: nat): nat
    requires 0 < size <= BLOCK_SIZE
  {
    i / (BLOCK_SIZE / size) + INODE_BLOCKS_HEAD
  }

  function OffsetOf(size: nat, i: nat): nat
    requires 0 < size <= BLOCK_SIZE
  {
    i % (BLOCK_SIZE / size) * size
  }

  lemma SmallPowerHalf(p: nat)
    requires 1 < p <= 1024 && PowerOfTwo(p)
    ensures p in {2, 4, 8, 16, 32, 64, 128, 256, 512, 1024}
    decreases p
  {
    if p > 2 {
      SmallPowerHalf(p / 2);
    }
  }

  // Inodes lie whole inside the inode blocks, and no two overlap.
  lemma Disjoint(structSize: nat, size: nat, i: nat, j: nat)
    requires 0 < structSize < size <= BLOCK_SIZE && PowerOfTwo(size)
    requires i < NUM_OF_INODES && j < NUM_OF_INODES && i != j
    ensures INODE_BLOCKS_HEAD <= BlockOf(size, i) < INODE_BLOCKS_HEAD + size * NUM_OF_INODES / BLOCK_SIZE
    ensures OffsetOf(size, i) + size <= BLOCK_SIZE
    ensures BlockOf(size, i) != BlockOf(size, j)
            || OffsetOf(size, i) + size <= OffsetOf(size, j)
            || OffsetOf(size, j) + size <= OffsetOf(size, i)
  {
    hide *;
    WholeBlock(size);
    SlotInBlock(size, i);
    if BlockOf(size, i) == BlockOf(size, j) {
      SlotsApart(size, i, j);
    }
  }

  lemma SlotsApart(size: nat, i: nat, j: nat)
    requires 0 < size <= BLOCK_SIZE && BLOCK_SIZE / size > 0 && i != j && BlockOf(size, i) == BlockOf(size, j)
    ensures OffsetOf(size, i) + size <= OffsetOf(size, j) || OffsetOf(size, j) + size <= OffsetOf(size, i)
  {
    var per := BLOCK_SIZE / size;
    SameQuotient(i, j, per);
    if i % per < j % per {
      Apart(size, i % per, j % per);
    } else {
      Apart(size, j % per, i % per);
    }
  }

  lemma WholeBlock(size: nat)
    requires 1 < size <= BLOCK_SIZE && PowerOfTwo(size)
    ensures BLOCK_SIZE / size > 0 && size * (BLOCK_SIZE / size) == BLOCK_SIZE
  {
    SmallPowerHalf(size);
    hide PowerOfTwo;
  }

  lemma SameQuotient(i: nat, j: nat, per: nat)
    requires per > 0 && i != j && i / per == j / per
    ensures i % per != j % per
  {
    assert i == per * (i / per) + i % per && j == per * (j / per) + j % per;
  }

  lemma {:induction false} Apart(size: nat, a: nat, b: nat)
    requires a < b
    ensures a * size + size <= b * size
    decreases b
  {
    assert b * size == (b - 1) * size + size;
    if a < b - 1 {
      Apart(size, a, b - 1);
    }
  }

  lemma SlotInBlock(size: nat, i: nat)
    requires 0 < size <= BLOCK_SIZE && size * (BLOCK_SIZE / size) == BLOCK_SIZE && BLOCK_SIZE / size > 0
    requires i < NUM_OF_INODES
    ensures OffsetOf(size, i) + size <= BLOCK_SIZE
    ensures INODE_BLOCKS_HEAD <= BlockOf(size, i) < INODE_BLOCKS_HEAD + size * NUM_OF_INODES / BLOCK_SIZE
  {
    hide *;
    PlaceIs(size, i);
    SlotBounds(size, BLOCK_SIZE / size, i);
  }

  lemma PlaceIs(size: nat, i: nat)
    requires 0 < size <= BLOCK_SIZE && BLOCK_SIZE / size > 0
    ensures OffsetOf(size, i) == i % (BLOCK_SIZE / size) * size
    ensures BlockOf(size, i) == i / (BLOCK_SIZE / size) + INODE_BLOCKS_HEAD
    ensures BLOCK_SIZE == 1024 && NUM_OF_INODES == 65536 && size * NUM_OF_INODES / BLOCK_SIZE == size * 64
  {
  }

  lemma SlotBounds(size: nat, per: nat, i: nat)
    requires per > 0 && size * per == 1024 && i < 65536
    ensures i % per * size + size <= 1024 && i / per < size * 64
  {
    Apart(size, i % per, per);
    assert per * (size * 64) == size * per * 64;
    QuotientBound(i, per, size * 64);
  }

  lemma QuotientBound(i: nat, per: nat, c: nat)
    requires per > 0 && i < per * c
    ensures i / per < c
  {
  }

  // ---------- the table on disk ----------

  type INodeBytes = s: seq<Byte> | |s| == INODE_STRUCT_SIZE witness seq(INODE_STRUCT_SIZE, _ => 0)

  predicate Numbered(i: nat) {
    i < NUM_OF_INODES
  }

  function ReadINode(d: Store, i: nat): INodeBytes
    requires Numbered(i)
  {
    var off := i % INODES_PER_BLOCK * INODE_SIZE;
    AllBytes(d[i / INODES_PER_BLOCK + INODE_BLOCKS_HEAD])[off..off + INODE_STRUCT_SIZE]
  }

  // memset of the slot, then memcpy of the struct.
  function Slot(inode: INodeBytes): (s: seq<Byte>)
    ensures |s| == INODE_SIZE
  {
    inode + seq(INODE_SIZE - INODE_STRUCT_SIZE, _ => 0)
  }

  function WriteINode(d: Store, i: nat, inode: INodeBytes): Store
    requires Numbered(i)
  {
    var n, off := i / INODES_PER_BLOCK + INODE_BLOCKS_HEAD, i % INODES_PER_BLOCK * INODE_SIZE;
    d[n := Splice(d[n], off, Slot(inode))]
  }

  datatype Access = ReadAccess | WriteAccess

  // -1 for a number outside the table; otherwise the inode read or written.
  method AccessINode(disk: Device, i: nat, inode: INodeBytes, access: Access) returns (result: int, r: INodeBytes)
    modifies disk
    ensures !Numbered(i) ==> result == -1 && r == inode && disk.blocks == old(disk.blocks)
    ensures Numbered(i) && access == ReadAccess ==>
              result == 0 && r == ReadINode(disk.blocks, i) && disk.blocks == old(disk.blocks)
    ensures i < 65536 && access == ReadAccess ==>
              r == AllBytes(disk.blocks[4 + i / 4])[256 * (i % 4)..256 * (i % 4) + 176]
    ensures Numbered(i) && access == WriteAccess ==>
              result == 0 && r == inode && disk.blocks == WriteINode(old(disk.blocks), i, inode)
  {
    r := inode;
    if i >= NUM_OF_INODES {
      return -1, r;
    }
    var blockNum := i / INODES_PER_BLOCK + INODE_BLOCKS_HEAD;
    var metaBlock := disk.GetDiskBlock(blockNum, ClearBlock());
    var index := i % INODES_PER_BLOCK;
    if access == ReadAccess {
      r := AllBytes(metaBlock)[index * INODE_SIZE..index * INODE_SIZE + INODE_STRUCT_SIZE];
    } else {
      disk.WriteDiskBlock(blockNum, Splice(metaBlock, index * INODE_SIZE, Slot(inode)));
    }
    return 0, r;
  }

  // ---------- the layout of the table ----------

  // Inodes have the size that the halving loop yields for the 176 bytes of their struct, and the
  // blocks they fill are those between the first four and the data blocks.
  lemma TableSizes(size: nat)
    requires PowerOfTwo(size) && 176 < size && size / 2 <= 176
    ensures size == INODE_SIZE && INODE_STRUCT_SIZE == 176 && INODES_PER_BLOCK == 1024 / size
    ensures INODE_BLOCKS_HEAD == 4 && INODE_BLOCKS_HEAD + size * 65536 / 1024 == FIRST_DATA_BLOCK
  {
    assert PowerOfTwo(256) by {
      assert PowerOfTwo(16) && PowerOfTwo(32);
    }
    LeastPower(size, 256, 176);
    LeastPower(256, size, 176);
  }

  // Inode i is the 176 bytes at its offset in its block.
  lemma ReadFrom(d: Store, i: nat, size: nat)
    requires PowerOfTwo(size) && 176 < size && size / 2 <= 176 && i < 65536
    ensures 0 < size <= BLOCK_SIZE && BlockOf(size, i) < NUM_OF_BLOCKS && OffsetOf(size, i) + 176 <= BLOCK_SIZE
    ensures ReadINode(d, i) == AllBytes(d[BlockOf(size, i)])[OffsetOf(size, i)..OffsetOf(size, i) + 176]
  {
    TableSizes(size);
    hide PowerOfTwo;
  }

  // Writing inode i sets those bytes, clears the rest of its slot, and changes no other byte.
  lemma WrittenTo(d: Store, i: nat, inode: INodeBytes, size: nat, x: nat, j: nat)
    requires PowerOfTwo(size) && 176 < size && size / 2 <= 176 && i < 65536 && x < NUM_OF_BLOCKS && j < BLOCK_SIZE
    ensures 0 < size <= BLOCK_SIZE
    ensures BlockByte(WriteINode(d, i, inode)[x], j)
            == if x == BlockOf(size, i) && OffsetOf(size, i) <= j < OffsetOf(size, i) + 176
               then inode[j - OffsetOf(size, i)]
               else if x == BlockOf(size, i) && OffsetOf(size, i) + 176 <= j < OffsetOf(size, i) + size then 0
               else BlockByte(d[x], j)
  {
    TableSizes(size);
    hide PowerOfTwo, Splice, BlockByte;
    var n, off := BlockOf(size, i), OffsetOf(size, i);
    if x == n {
      SpliceHolds(d[n], off, Slot(inode), j);
    }
  }

  lemma SlotByte(d: Store, i: nat, inode: INodeBytes, j: nat, t: nat)
    requires Numbered(i) && Numbered(j) && t < INODE_STRUCT_SIZE
    ensures ReadINode(WriteINode(d, i, inode), j)[t] == if i == j then inode[t] else ReadINode(d, j)[t]
  {
    var n, off := i / INODES_PER_BLOCK + INODE_BLOCKS_HEAD, i % INODES_PER_BLOCK * INODE_SIZE;
    var m, at := j / INODES_PER_BLOCK + INODE_BLOCKS_HEAD, j % INODES_PER_BLOCK * INODE_SIZE;
    hide Splice, BlockByte;
    if m == n {
      SpliceHolds(d[n], off, Slot(inode), at + t);
    }
  }

  lemma WriteStays(d: Store, i: nat, inode: INodeBytes, x: nat)
    requires Numbered(i) && (FIRST_DATA_BLOCK <= x < NUM_OF_BLOCKS || x == FREE_LIST_BLOCK)
    ensures x < NUM_OF_BLOCKS && WriteINode(d, i, inode)[x] == d[x]
  {
    hide Splice;
  }

  // Writing one inode changes that inode and no other, and no block outside the table.
  lemma WriteThenRead(d: Store, i: nat, inode: INodeBytes, j: nat)
    requires Numbered(i) && Numbered(j)
    ensures ReadINode(WriteINode(d, i, inode), j) == if i == j then inode else ReadINode(d, j)
    ensures forall x :: FIRST_DATA_BLOCK <= x < NUM_OF_BLOCKS || x == FREE_LIST_BLOCK ==>
              WriteINode(d, i, inode)[x] == d[x]
  {
    hide ReadINode, WriteINode, Numbered;
    var read, wanted := ReadINode(WriteINode(d, i, inode), j), if i == j then inode else ReadINode(d, j);
    forall t | 0 <= t < INODE_STRUCT_SIZE
      ensures read[t] == wanted[t]
    {
      SlotByte(d, i, inode, j, t);
    }
    forall x | FIRST_DATA_BLOCK <= x < NUM_OF_BLOCKS || x == FREE_LIST_BLOCK
      ensures WriteINode(d, i, inode)[x] == d[x]
    {
      WriteStays(d, i, inode, x);
    }
  }
}
