/**
  A file as a sequence of bytes, and what writing one data block does to it.
 */
module FileContent {
  import opened Params
  import opened Disk
  import opened Bags
  import opened Bytes
  import opened FreeChain
  import opened BlockTree
  import opened TreeGrowth
  import opened FileMap
  import opened FileGrowth
  import opened FileRelease

  function ContentAt(d: Store, nums: Slots, p: nat): Byte
    requires p < MAX_FILE_SIZE
  {
    BlockByte(At(d, BlockAt(d, nums, p / BLOCK_SIZE)), p % BLOCK_SIZE)
  }

  // The bytes of a file.
  function Content(d: Store, nums: Slots, size: nat): (s: seq<Byte>)
    requires size <= MAX_FILE_SIZE
    ensures |s| == size
  {
    seq(size, p requires 0 <= p < size => ContentAt(d, nums, p))
  }

  // A file of `size` bytes, apart from the free list `st` and from the blocks `others`.
  ghost predicate Good(d: Store, st: seq<Word>, nums: Slots, size: nat, others: multiset<Word>) {
    size <= MAX_FILE_SIZE && Separate(d, st, nums, BlockCount(size), others)
  }

  // A data block of the file is neither free, nor an indirect block, nor anyone else's.
  lemma DataBlockApart(d: Store, st: seq<Word>, nums: Slots, n: nat, others: multiset<Word>, k: nat)
    requires k < n <= MAX_FILE_BLOCKS && Separate(d, st, nums, n, others)
    ensures var b := BlockAt(d, nums, k);
      && FIRST_DATA_BLOCK <= b < NUM_OF_BLOCKS && b !in st
      && forall x :: x in FileNodes(d, nums, n, 1) + others ==> x !in multiset{b}
    ensures InData(FileNodes(d, nums, n, 1) + others)
  {
    hide *;
    Values();
    var b, meta := BlockAt(d, nums, k), FileNodes(d, nums, n, 1);
    SeparateWhole(d, st, nums, n, others);
    FileSplit(d, nums, n);
    BlockListed(d, nums, n, k);
    BlockApart(st, meta, FileBlocks(d, nums, n), others, b);
  }

  lemma {:induction false} BlockListed(d: Store, nums: Slots, n: nat, k: nat)
    requires k < n <= MAX_FILE_BLOCKS
    ensures FileBlocks(d, nums, n)[k] == BlockAt(d, nums, k)
    decreases n
  {
    hide BlockAt;
    if k < n - 1 {
      BlockListed(d, nums, n - 1, k);
    }
  }

  lemma BlockApart(st: seq<Word>, meta: multiset<Word>, blocks: seq<Word>, others: multiset<Word>, b: Word)
    requires b in blocks
    requires InData(meta + multiset(blocks) + others)
    requires Unique(multiset(st) + (meta + multiset(blocks)) + others)
    ensures FIRST_DATA_BLOCK <= b < NUM_OF_BLOCKS && b !in st
    ensures forall x :: x in meta + others ==> x !in multiset{b}
    ensures InData(meta + others)
  {
    var kept := multiset(st) + meta + others;
    assert b in multiset(blocks);
    assert b in meta + multiset(blocks) + others;
    assert multiset(st) + (meta + multiset(blocks)) + others == multiset(blocks) + kept;
    UniqueApart(multiset(blocks), kept, b);
    assert b !in multiset(st) && b !in meta && b !in others;
    assert meta + multiset(blocks) + others == meta + others + multiset(blocks);
    InDataParts(meta + others, multiset(blocks));
  }

  // Two indices of a file never share a block.
  lemma BlocksDiffer(d: Store, st: seq<Word>, nums: Slots, n: nat, others: multiset<Word>, j: nat, k: nat)
    requires j < k < n <= MAX_FILE_BLOCKS && Separate(d, st, nums, n, others)
    ensures BlockAt(d, nums, j) != BlockAt(d, nums, k)
  {
    hide *;
    Values();
    SeparateWhole(d, st, nums, n, others);
    FileSplit(d, nums, n);
    BlockListed(d, nums, n, j);
    BlockListed(d, nums, n, k);
    var bs := FileBlocks(d, nums, n);
    UniquePart(multiset(st) + FileNodes(d, nums, n, 0) + others, multiset(bs));
    UniqueDiffer(bs, j, k);
  }

  lemma UniqueDiffer(bs: seq<Word>, j: nat, k: nat)
    requires j < k < |bs| && Unique(multiset(bs))
    ensures bs[j] != bs[k]
  {
    assert bs == bs[..k] + bs[k..];
    assert bs[..k][j] == bs[j] && bs[k..][0] == bs[k];
    assert bs[j] in multiset(bs[..k]);
    UniqueApart(multiset(bs[..k]), multiset(bs[k..]), bs[j]);
    assert bs[k] in multiset(bs[k..]);
  }

  lemma PutTouches(d: Store, st: seq<Word>, b: Word, data: Block)
    requires FreeList(d, st) && FIRST_DATA_BLOCK <= b < NUM_OF_BLOCKS && b !in st
    ensures FreeList(Put(d, b, data), st) && OnlyTouches(d, Put(d, b, data), multiset{b})
  {
    hide IsChain;
    FreeListFrame(d, Put(d, b, data), st);
  }

  // Overwriting a data block changes that block of the file and nothing else.
  lemma PutBlock(d: Store, st: seq<Word>, nums: Slots, n: nat, others: multiset<Word>, k: nat, x: Block)
    requires k < n <= MAX_FILE_BLOCKS && Separate(d, st, nums, n, others)
    ensures var d' := Put(d, BlockAt(d, nums, k), x);
      && Separate(d', st, nums, n, others)
      && SameBlocks(d, d', nums, nums, n)
      && SameOn(d, d', others)
      && SameOn(d, d', FileNodes(d, nums, n, 1))
  {
    hide *;
    Values();
    var b, kept := BlockAt(d, nums, k), FileNodes(d, nums, n, 1) + others;
    var d' := Put(d, b, x);
    DataBlockApart(d, st, nums, n, others, k);
    SeparateWhole(d, st, nums, n, others);
    PutTouches(d, st, b, x);
    Untouched(d, d', multiset{b}, kept);
    SameOnPart(d, d', kept, FileNodes(d, nums, n, 1));
    SameOnPart(d, d', kept, others);
    FileFrame(d, d', nums, n, 0);
    SameBlocksFrame(d, d', nums, n);
    SeparateIs(d', st, nums, n, others);
  }

  lemma PutContent(d: Store, st: seq<Word>, nums: Slots, n: nat, others: multiset<Word>, k: nat, x: Block, j: nat)
    requires k < n <= MAX_FILE_BLOCKS && Separate(d, st, nums, n, others) && j < n
    ensures var d' := Put(d, BlockAt(d, nums, k), x);
            At(d', BlockAt(d', nums, j)) == if j == k then x else At(d, BlockAt(d, nums, j))
  {
    hide *;
    Values();
    var b := BlockAt(d, nums, k);
    PutBlock(d, st, nums, n, others, k, x);
    SameBlockAt(d, Put(d, b, x), nums, nums, n, j);
    DataBlockApart(d, st, nums, n, others, k);
    DataBlockApart(d, st, nums, n, others, j);
    if j < k {
      BlocksDiffer(d, st, nums, n, others, j, k);
    } else if k < j {
      BlocksDiffer(d, st, nums, n, others, k, j);
    }
    PutAt(d, b, x, BlockAt(d, nums, j));
  }

  lemma SameBlockAt(d: Store, d': Store, nums: Slots, nums': Slots, n: nat, j: nat)
    requires j < n <= MAX_FILE_BLOCKS && SameBlocks(d, d', nums, nums', n)
    ensures BlockAt(d', nums', j) == BlockAt(d, nums, j)
  {
    hide BlockAt;
  }

  lemma PutAt(d: Store, b: Word, x: Block, c: Word)
    requires b < NUM_OF_BLOCKS && c < NUM_OF_BLOCKS
    ensures At(Put(d, b, x), c) == if c == b then x else At(d, c)
  {
  }
}
