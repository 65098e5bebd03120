/**
  The 1024-byte view of a block. A word is stored little-endian, as memcpy leaves it on the
  machines the program targets.
 */
module Bytes {
  import opened Params
  import opened Disk

  function ByteOf(w: nat, t: nat): Byte
    decreases t
  {
    if t == 0 then w % 256 else ByteOf(w / 256, t - 1)
  }

  function Join(s: seq<Byte>): nat {
    if s == [] then 0 else s[0] + 256 * Join(s[1..])
  }

  function Limit(t: nat): nat {
    if t == 0 then 1 else 256 * Limit(t - 1)
  }

  lemma {:induction false} JoinBound(s: seq<Byte>)
    ensures Join(s) < Limit(|s|)
  {
    if s != [] {
      JoinBound(s[1..]);
    }
  }

  lemma EightBytes()
    ensures Limit(8) == WORD_LIMIT
  {
    assert Limit(2) == 0x1_0000;
    assert Limit(4) == 0x1_0000_0000;
    assert Limit(6) == 0x1_0000_0000_0000;
  }

  lemma {:induction false} ByteOfJoin(s: seq<Byte>, t: nat)
    requires t < |s|
    ensures ByteOf(Join(s), t) == s[t]
  {
    if t > 0 {
      ByteOfJoin(s[1..], t - 1);
      assert Join(s) / 256 == Join(s[1..]);
    }
  }

  // Byte j of a block.
  function BlockByte(b: Block, j: nat): Byte
    requires j < BLOCK_SIZE
  {
    ByteOf(b[j / 8], j % 8)
  }

  function Word8(s: seq<Byte>): Word
    requires |s| == 8
  {
    JoinBound(s);
    EightBytes();
    Join(s)
  }

  // Little-endian: the first byte counts least.
  lemma LittleEndian(s: seq<Byte>)
    requires |s| == 8
    ensures var t: seq<nat> := s;
      Word8(s) == t[0] + 256 * (t[1] + 256 * (t[2] + 256 * (t[3] + 256 * (t[4] + 256 * (t[5]
                  + 256 * (t[6] + 256 * t[7]))))))
  {
    JoinStep(s);
    JoinStep(s[1..]);
    JoinStep(s[2..]);
    JoinStep(s[3..]);
    JoinStep(s[4..]);
    JoinStep(s[5..]);
    JoinStep(s[6..]);
    JoinStep(s[7..]);
    hide Join;
    assert s[8..] == [] && Join(s[8..]) == 0 by { JoinNone(); }
  }

  lemma JoinStep(s: seq<Byte>)
    requires s != []
    ensures Join(s) == s[0] + 256 * Join(s[1..])
  {
  }

  lemma JoinNone()
    ensures Join([]) == 0
  {
  }

  // Word i of a block is its bytes 8i to 8i + 7.
  lemma WordBytes(b: Block, i: nat)
    requires i < K
    ensures var t: seq<nat> := AllBytes(b)[8 * i..8 * i + 8];
      b[i] == t[0] + 256 * (t[1] + 256 * (t[2] + 256 * (t[3] + 256 * (t[4] + 256 * (t[5]
              + 256 * (t[6] + 256 * t[7]))))))
  {
    ViewsAgree(b);
    var s := AllBytes(b)[8 * i..8 * i + 8];
    assert Pack(AllBytes(b))[i] == Word8(s);
    hide BlockByte, Pack, Word8;
    LittleEndian(s);
  }

  // The block that holds 1024 given bytes.
  function Pack(s: seq<Byte>): Block
    requires |s| == BLOCK_SIZE
  {
    seq(K, i requires 0 <= i < K => Word8(s[8 * i..8 * i + 8]))
  }

  lemma PackHolds(s: seq<Byte>, j: nat)
    requires |s| == BLOCK_SIZE && j < BLOCK_SIZE
    ensures BlockByte(Pack(s), j) == s[j]
  {
    var i := j / 8;
    assert Pack(s)[i] == Word8(s[8 * i..8 * i + 8]);
    ByteOfJoin(s[8 * i..8 * i + 8], j % 8);
    assert s[8 * i..8 * i + 8][j % 8] == s[j];
  }

  lemma {:induction false} JoinOfBytes(w: nat, s: seq<Byte>)
    requires w < Limit(|s|) && forall t :: 0 <= t < |s| ==> s[t] == ByteOf(w, t)
    ensures Join(s) == w
    decreases |s|
  {
    if s != [] {
      forall t | 0 <= t < |s[1..]|
        ensures s[1..][t] == ByteOf(w / 256, t)
      {
        assert s[t + 1] == ByteOf(w, t + 1);
      }
      JoinOfBytes(w / 256, s[1..]);
    }
  }

  function AllBytes(b: Block): (s: seq<Byte>)
    ensures |s| == BLOCK_SIZE
    ensures forall j :: 0 <= j < BLOCK_SIZE ==> s[j] == BlockByte(b, j)
  {
    seq(BLOCK_SIZE, j requires 0 <= j < BLOCK_SIZE => BlockByte(b, j))
  }

  // The two views of a block determine each other.
  lemma ViewsAgree(b: Block)
    ensures Pack(AllBytes(b)) == b
  {
    hide Pack, AllBytes;
    forall i | 0 <= i < K
      ensures Pack(AllBytes(b))[i] == b[i]
    {
      WordAgrees(b, i);
    }
  }

  lemma WordAgrees(b: Block, i: nat)
    requires i < K
    ensures Pack(AllBytes(b))[i] == b[i]
  {
    hide Join, ByteOf, Limit, AllBytes;
    var s := AllBytes(b)[8 * i..8 * i + 8];
    EightBytes();
    forall t | 0 <= t < 8
      ensures s[t] == ByteOf(b[i], t)
    {
      assert s[t] == BlockByte(b, 8 * i + t);
    }
    JoinOfBytes(b[i], s);
  }

  // memcpy of `data` to byte `off` of a block.
  function Splice(b: Block, off: nat, data: seq<Byte>): Block
    requires off + |data| <= BLOCK_SIZE
  {
    Pack(AllBytes(b)[..off] + data + AllBytes(b)[off + |data|..])
  }

  lemma SpliceHolds(b: Block, off: nat, data: seq<Byte>, j: nat)
    requires off + |data| <= BLOCK_SIZE && j < BLOCK_SIZE
    ensures BlockByte(Splice(b, off, data), j)
            == if off <= j < off + |data| then data[j - off] else BlockByte(b, j)
  {
    PackHolds(AllBytes(b)[..off] + data + AllBytes(b)[off + |data|..], j);
    hide BlockByte, Pack;
  }
}
