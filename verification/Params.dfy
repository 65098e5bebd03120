// The compile-time constants of include/mandsk/params.h and include/mkfs/diskParams.h.
module Params {
  const BLOCK_SIZE: nat := 1024
  // Block numbers that fit in one block.
  const K: nat := 128

  const NUM_OF_INODES: nat := 65536
  const INODE_STRUCT_SIZE: nat := 176
  const INODE_SIZE: nat := 256
  const INODES_PER_BLOCK: nat := 4
  const NUM_OF_BLOCKS: nat := 31457280

  const FREE_LIST_BLOCK: nat := 2
  const INODE_BLOCKS_HEAD: nat := 4
  // First block handed to the free list by mkfs.
  const FIRST_DATA_BLOCK: nat := 16388

  const DIRECT_BLOCK_LIMIT: nat := 9
  const SINGLE_INDIRECT_LIMIT: nat := 137
  const DOUBLE_INDIRECT_LIMIT: nat := 16521
  const TRIPLE_INDIRECT_LIMIT: nat := 2113673
  const BLOCKS_IN_INODE: nat := 13
  // Blocks of the largest file the block map can address.
  const MAX_FILE_BLOCKS: nat := 2113674

  const MAX_FILE_SIZE: nat := 2164402176

  // The values, for proofs that hide every definition.
  lemma Values()
    ensures BLOCK_SIZE == 1024 && K == 128 && BLOCKS_IN_INODE == 13
    ensures DIRECT_BLOCK_LIMIT == 9 && TRIPLE_INDIRECT_LIMIT == 2113673 && MAX_FILE_BLOCKS == 2113674
    ensures MAX_FILE_SIZE == 2164402176
    ensures FREE_LIST_BLOCK == 2 && FIRST_DATA_BLOCK == 16388 && NUM_OF_BLOCKS == 31457280
  {
  }
}
