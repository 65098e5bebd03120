/**
  The disk as src/dsk/blkfetch.c offers it: NUM_OF_BLOCKS numbered blocks, fetched and
  written whole. A block is held as its 128 words (the view of makeFreeDiskListBlock);
  the 1024-byte view that file data uses is `Bytes`.
 */
module Disk {
  import opened Params

  const WORD_LIMIT: nat := 0x1_0000_0000_0000_0000

  type Word = w: nat | w < WORD_LIMIT
  type Byte = b: nat | b < 256
  type Block = b: seq<Word> | |b| == K witness seq(K, _ => 0)
  type Store = s: seq<Block> | |s| == NUM_OF_BLOCKS ghost witness seq<Block>(NUM_OF_BLOCKS, _ => ClearBlock())

  function ClearBlock(): Block {
    seq(K, _ => 0)
  }

  // A fetch outside the disk fails and leaves the caller's buffer as it was.
  function Fetch(d: Store, n: Word, buffer: Block): Block {
    if n < NUM_OF_BLOCKS then d[n] else buffer
  }

  // A write outside the disk fails and changes nothing.
  function Put(d: Store, n: Word, b: Block): Store {
    if n < NUM_OF_BLOCKS then d[n := b] else d
  }

  class Device {
    var blocks: Store

    constructor (blocks: Store)
      ensures this.blocks == blocks
    {
      this.blocks := blocks;
    }

    method GetDiskBlock(n: Word, buffer: Block) returns (b: Block)
      ensures b == Fetch(blocks, n, buffer)
    {
      b := if n < NUM_OF_BLOCKS then blocks[n] else buffer;
    }

    method WriteDiskBlock(n: Word, b: Block)
      modifies this
      ensures blocks == Put(old(blocks), n, b)
    {
      if n < NUM_OF_BLOCKS {
        blocks := blocks[n := b];
      }
    }
  }
}
