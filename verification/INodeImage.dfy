/**
  struct iNode as its 176 bytes, and the inode table as the disk holds it.
 */
module INodeImage {
  import opened Params
  import opened Disk
  import opened Bytes
  import opened INode
  import opened INodeTable

  const HALF_LIMIT: nat := 0x1_0000_0000
  const SIGN_LIMIT: int := 0x8000_0000_0000_0000

  // The machine's ranges of the fields.
  predicate Fits(ino: DiskINode) {
    && ino.deviceNumber < WORD_LIMIT && ino.inodeNumber < WORD_LIMIT && ino.linksCount < WORD_LIMIT
       && ino.size < WORD_LIMIT
    && -SIGN_LIMIT <= ino.access < SIGN_LIMIT && -SIGN_LIMIT <= ino.modification < SIGN_LIMIT
    && -SIGN_LIMIT <= ino.statusChange < SIGN_LIMIT
    && ino.fileMode < HALF_LIMIT && ino.ownerUid < HALF_LIMIT && ino.groupUid < HALF_LIMIT
  }

  // A signed word as the unsigned one with the same bits, and back.
  function Unsigned(t: int): Word
    requires -SIGN_LIMIT <= t < SIGN_LIMIT
  {
    if t < 0 then t + WORD_LIMIT else t
  }

  function Signed(w: Word): int {
    if w >= SIGN_LIMIT then w - WORD_LIMIT else w
  }

  function Code(kind: Kind): nat {
    match kind
    case Unused => 0
    case Regular => 1
    case Directory => 2
  }

  function KindOf(code: nat): Kind {
    if code == 1 then Regular else if code == 2 then Directory else Unused
  }

  // The 22 words of the struct; type and mode share one, and so do the two ids.
  function Words(ino: DiskINode): (ws: seq<Word>)
    requires Fits(ino)
    ensures |ws| == 22
  {
    [ino.deviceNumber, ino.inodeNumber, Unsigned(ino.access), Unsigned(ino.modification), Unsigned(ino.statusChange),
     ino.linksCount, Code(ino.kind) + HALF_LIMIT * ino.fileMode, ino.ownerUid + HALF_LIMIT * ino.groupUid]
    + ino.dataBlockNums + [ino.size]
  }

  function FromWords(ws: seq<Word>): DiskINode
    requires |ws| == 22
  {
    DiskINode(ws[0], ws[1], Signed(ws[2]), Signed(ws[3]), Signed(ws[4]), ws[5], KindOf(ws[6] % HALF_LIMIT),
        ws[6] / HALF_LIMIT,
              ws[7] % HALF_LIMIT, ws[7] / HALF_LIMIT, ws[8..21], ws[21])
  }

  lemma WordsRoundTrip(ino: DiskINode)
    requires Fits(ino)
    ensures FromWords(Words(ino)) == ino
  {
    HalvesRoundTrip(Code(ino.kind), ino.fileMode);
    HalvesRoundTrip(ino.ownerUid, ino.groupUid);
    assert Words(ino)[8..21] == ino.dataBlockNums;
  }

  lemma HalvesRoundTrip(low: nat, high: nat)
    requires low < HALF_LIMIT && high < HALF_LIMIT
    ensures low + HALF_LIMIT * high < WORD_LIMIT
    ensures (low + HALF_LIMIT * high) % HALF_LIMIT == low && (low + HALF_LIMIT * high) / HALF_LIMIT == high
  {
  }

  function Image(ino: DiskINode): INodeBytes
    requires Fits(ino)
  {
    var ws := Words(ino);
    seq(INODE_STRUCT_SIZE, j requires 0 <= j < INODE_STRUCT_SIZE => ByteOf(ws[j / 8], j % 8))
  }

  function WordsOf(s: INodeBytes): (ws: seq<Word>)
    ensures |ws| == 22
  {
    seq(22, i requires 0 <= i < 22 => Word8(s[8 * i..8 * i + 8]))
  }

  function FromImage(s: INodeBytes): DiskINode {
    FromWords(WordsOf(s))
  }

  lemma ImageWord(ino: DiskINode, i: nat)
    requires Fits(ino) && i < 22
    ensures WordsOf(Image(ino))[i] == Words(ino)[i]
  {
    hide Words, ByteOf, Join, Limit;
    var s, ws := Image(ino)[8 * i..8 * i + 8], Words(ino);
    EightBytes();
    forall t | 0 <= t < 8
      ensures s[t] == ByteOf(ws[i], t)
    {
      assert Image(ino)[8 * i + t] == ByteOf(ws[(8 * i + t) / 8], (8 * i + t) % 8);
    }
    JoinOfBytes(ws[i], s);
  }

  // The bytes of an inode give the inode back.
  lemma ImageRoundTrip(ino: DiskINode)
    requires Fits(ino)
    ensures FromImage(Image(ino)) == ino
  {
    hide Words, FromWords, Image, WordsOf;
    forall i | 0 <= i < 22
      ensures WordsOf(Image(ino))[i] == Words(ino)[i]
    {
      ImageWord(ino, i);
    }
    assert WordsOf(Image(ino)) == Words(ino);
    WordsRoundTrip(ino);
  }

  // Where struct iNode has its fields, by byte; type and mode, and the two ids, are four bytes each.
  lemma ImageLayout(ino: DiskINode, k: nat)
    requires Fits(ino) && k < 13
    ensures var s := Image(ino);
      && Word8(s[0..8]) == ino.deviceNumber && Word8(s[8..16]) == ino.inodeNumber
      && Word8(s[16..24]) == (if ino.access < 0 then ino.access + 0x1_0000_0000_0000_0000 else ino.access)
      && Word8(s[24..32])
         == (if ino.modification < 0 then ino.modification + 0x1_0000_0000_0000_0000 else ino.modification)
      && Word8(s[32..40])
         == (if ino.statusChange < 0 then ino.statusChange + 0x1_0000_0000_0000_0000 else ino.statusChange)
      && Word8(s[40..48]) == ino.linksCount
      && Word8(s[48..56])
         == (if ino.kind == Unused then 0 else if ino.kind == Regular then 1 else 2) + 0x1_0000_0000 * ino.fileMode
      && Word8(s[56..64]) == ino.ownerUid + 0x1_0000_0000 * ino.groupUid
      && Word8(s[64 + 8 * k..72 + 8 * k]) == ino.dataBlockNums[k] && Word8(s[168..176]) == ino.size
  {
    var s := Image(ino);
    WordAt(ino, 0);
    WordAt(ino, 1);
    WordAt(ino, 2);
    WordAt(ino, 3);
    WordAt(ino, 4);
    WordAt(ino, 5);
    WordAt(ino, 6);
    WordAt(ino, 7);
    WordAt(ino, 8 + k);
    WordAt(ino, 21);
    hide Image, Word8;
    assert 8 * (8 + k) == 64 + 8 * k;
  }

  lemma WordAt(ino: DiskINode, i: nat)
    requires Fits(ino) && i < 22
    ensures Word8(Image(ino)[8 * i..8 * i + 8]) == Words(ino)[i]
  {
    hide Words, Image, Word8;
    ImageWord(ino, i);
  }

  // ---------- the table ----------

  function TableOf(d: Store): (table: seq<DiskINode>)
    ensures |table| == NUM_OF_INODES
  {
    seq(NUM_OF_INODES, i requires 0 <= i < NUM_OF_INODES => FromImage(ReadINode(d, i)))
  }

  // Writing an inode to the disk sets its entry of the table and no other, and no data block
  // and not the free list.
  lemma TableWritten(d: Store, i: nat, ino: DiskINode)
    requires i < NUM_OF_INODES && Fits(ino)
    ensures TableOf(WriteINode(d, i, Image(ino))) == TableOf(d)[i := ino]
    ensures forall x :: FIRST_DATA_BLOCK <= x < NUM_OF_BLOCKS || x == FREE_LIST_BLOCK ==>
              WriteINode(d, i, Image(ino))[x] == d[x]
  {
    hide Image, FromImage, ReadINode, WriteINode;
    ImageRoundTrip(ino);
    var got, wanted := TableOf(WriteINode(d, i, Image(ino))), TableOf(d)[i := ino];
    forall j | 0 <= j < NUM_OF_INODES
      ensures got[j] == wanted[j]
    {
      WriteThenRead(d, i, Image(ino), j);
    }
    WriteThenRead(d, i, Image(ino), i);
  }
}
