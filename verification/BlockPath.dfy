/**
  calculateOffset of src/incoreInodeOps/iNodeManager.c: where in an inode's tree the block
  with a given index hangs.
 */
module BlockPath {
  import opened Params

  // Leaves of a full subtree of height l.
  function Cap(l: nat): (c: nat)
    ensures c > 0
  {
    if l == 0 then 1 else if l == 1 then 128 else if l == 2 then 16384 else 2097152
  }

  // Which child of a height-l node leaf m is under, and which leaf of that child it is.
  function Quot(l: nat, m: nat): nat {
    if l <= 1 then m else if l == 2 then m / 128 else m / 16384
  }

  function Rem(l: nat, m: nat): nat {
    if l <= 1 then 0 else if l == 2 then m % 128 else m % 16384
  }

  function Times(l: nat, q: nat): nat {
    if l <= 1 then q else if l == 2 then q * 128 else q * 16384
  }

  lemma QuotRem(l: nat, m: nat)
    requires 1 <= l <= 3
    ensures m == Times(l, Quot(l, m)) + Rem(l, m) && Rem(l, m) < Cap(l - 1)
    ensures m < Cap(l) ==> Quot(l, m) < K
    ensures m == Cap(l) ==> Quot(l, m) == K && Rem(l, m) == 0
  {
  }

  lemma QuotNext(l: nat, m: nat)
    requires 1 <= l <= 3
    ensures if Rem(l, m) + 1 < Cap(l - 1)
            then Quot(l, m + 1) == Quot(l, m) && Rem(l, m + 1) == Rem(l, m) + 1
            else Quot(l, m + 1) == Quot(l, m) + 1 && Rem(l, m + 1) == 0 && Rem(l, m) + 1 == Cap(l - 1)
  {
  }

  // The offsets below a height-l root that lead to leaf m.
  function Digits(l: nat, m: nat): (offs: seq<nat>)
    ensures |offs| == l
  {
    if l == 0 then [] else [Quot(l, m)] + Digits(l - 1, Rem(l, m))
  }

  function Leaf(offs: seq<nat>): nat {
    if offs == [] then 0 else Times(|offs|, offs[0]) + Leaf(offs[1..])
  }

  predicate AllZero(offs: seq<nat>) {
    forall i :: 0 <= i < |offs| ==> offs[i] == 0
  }

  // A place in an inode's tree: level 0 is the direct slots, and below level l > 0 there is
  // one offset for every indirect block on the way.
  datatype Path = Path(level: nat, offs: seq<nat>)

  predicate Valid(p: Path) {
    if p.level == 0 then |p.offs| == 1 && p.offs[0] <= DIRECT_BLOCK_LIMIT
    else p.level <= 3 && |p.offs| == p.level && forall i :: 0 <= i < |p.offs| ==> p.offs[i] < K
  }

  // Index of the first block at each level.
  function Base(level: nat): nat {
    if level == 0 then 0
    else if level == 1 then DIRECT_BLOCK_LIMIT + 1
    else if level == 2 then SINGLE_INDIRECT_LIMIT + 1
    else DOUBLE_INDIRECT_LIMIT + 1
  }

  function Level(k: nat): nat {
    if k <= DIRECT_BLOCK_LIMIT then 0
    else if k <= SINGLE_INDIRECT_LIMIT then 1
    else if k <= DOUBLE_INDIRECT_LIMIT then 2
    else 3
  }

  function PathOf(k: nat): Path {
    if Level(k) == 0 then Path(0, [k]) else Path(Level(k), Digits(Level(k), k - Base(Level(k))))
  }

  // The path that removing a block takes for index k: past the largest file the struct that
  // holds the offsets keeps the zeros it was cleared to.
  function TakenPath(k: nat): Path {
    if k <= TRIPLE_INDIRECT_LIMIT then PathOf(k) else Path(0, [0])
  }

  // The path that removing the last block of a file of `size` bytes takes.
  function SizePath(size: nat): Path {
    TakenPath(size / BLOCK_SIZE)
  }

  // The mixed-radix inverse.
  function IndexOf(p: Path): nat {
    if p.level == 0 then (if p.offs == [] then 0 else p.offs[0]) else Base(p.level) + Leaf(p.offs)
  }

  predicate LexLess(a: seq<nat>, b: seq<nat>) {
    a != [] && b != [] && (a[0] < b[0] || (a[0] == b[0] && LexLess(a[1..], b[1..])))
  }

  // ---------- the code ----------

  // struct blkTreeOffset: one offset per level, -1 where the level is not used.
  datatype BlkTreeOffset = BlkTreeOffset(offsets: seq<int>, offsetIndirection: nat)

  function Struct(p: Path): BlkTreeOffset
    requires Valid(p)
  {
    var offs: seq<int> := p.offs;
    if p.level == 0 then BlkTreeOffset(offs + [-1, -1, -1], 0)
    else BlkTreeOffset([-1] + offs + seq(3 - p.level, _ => -1), p.level)
  }

  // The struct as malloc leaves it.
  function ClearOffset(): BlkTreeOffset {
    BlkTreeOffset([0, 0, 0, 0], 0)
  }

  // Past the largest file the struct is left as it was.
  method CalculateOffset(offset: nat, blkOffset: BlkTreeOffset) returns (r: BlkTreeOffset)
    ensures offset / BLOCK_SIZE <= TRIPLE_INDIRECT_LIMIT ==>
              Valid(PathOf(offset / BLOCK_SIZE)) && r == Struct(PathOf(offset / BLOCK_SIZE))
    ensures offset / BLOCK_SIZE > TRIPLE_INDIRECT_LIMIT ==> r == blkOffset
  {
    var blkIndex := offset / BLOCK_SIZE;
    r := blkOffset;
    if blkIndex <= DIRECT_BLOCK_LIMIT {
      r := BlkTreeOffset([blkIndex, -1, -1, -1], 0);
    } else if blkIndex <= SINGLE_INDIRECT_LIMIT {
      var firstOffset := blkIndex - DIRECT_BLOCK_LIMIT - 1;
      r := BlkTreeOffset([-1, firstOffset, -1, -1], 1);
    } else if blkIndex <= DOUBLE_INDIRECT_LIMIT {
      var firstOffset := (blkIndex - SINGLE_INDIRECT_LIMIT - 1) / K;
      var secondOffset := blkIndex - firstOffset * K - SINGLE_INDIRECT_LIMIT - 1;
      r := BlkTreeOffset([-1, firstOffset, secondOffset, -1], 2);
    } else if blkIndex <= TRIPLE_INDIRECT_LIMIT {
      var firstOffset := (blkIndex - DOUBLE_INDIRECT_LIMIT - 1) / (K * K);
      var secondOffset := (blkIndex - firstOffset * (K * K) - DOUBLE_INDIRECT_LIMIT - 1) / K;
      var thirdOffset := blkIndex - secondOffset * K - firstOffset * (K * K) - DOUBLE_INDIRECT_LIMIT - 1;
      r := BlkTreeOffset([-1, firstOffset, secondOffset, thirdOffset], 3);
      ThreeDigits(blkIndex - DOUBLE_INDIRECT_LIMIT - 1);
    }
    if blkIndex <= TRIPLE_INDIRECT_LIMIT {
      PathIsValid(blkIndex);
      UnfoldDigits(Level(blkIndex), blkIndex - Base(Level(blkIndex)));
      assert r.offsets == Struct(PathOf(blkIndex)).offsets;
    }
  }

  lemma UnfoldDigits(l: nat, m: nat)
    requires l <= 3
    ensures l == 1 ==> Digits(l, m) == [m]
    ensures l == 2 ==> Digits(l, m) == [m / 128, m % 128]
    ensures l == 3 ==> Digits(l, m) == [m / 16384, m % 16384 / 128, m % 16384 % 128]
  {
    if l == 3 {
      UnfoldDigits(2, m % 16384);
    } else if l == 2 {
      UnfoldDigits(1, m % 128);
    } else if l == 1 {
      assert Digits(0, 0) == [];
    }
  }

  lemma ThreeDigits(m: nat)
    ensures var f := m / 16384; var s := (m - f * 16384) / 128;
      && s == m % 16384 / 128 && m - s * 128 - f * 16384 == m % 16384 % 128
  {
  }

  // ---------- what it means ----------

  lemma {:induction false} DigitsValid(l: nat, m: nat)
    requires l <= 3 && m < Cap(l)
    ensures forall i :: 0 <= i < l ==> Digits(l, m)[i] < K
    ensures Leaf(Digits(l, m)) == m
  {
    if l > 0 {
      QuotRem(l, m);
      DigitsValid(l - 1, Rem(l, m));
    }
  }

  lemma TimesPlus(l: nat, q: nat, r: nat)
    requires 1 <= l <= 3 && q < K && r < Cap(l - 1)
    ensures Times(l, q) + r < Cap(l) && Quot(l, Times(l, q) + r) == q && Rem(l, Times(l, q) + r) == r
  {
  }

  lemma {:induction false} LeafValid(offs: seq<nat>)
    requires |offs| <= 3 && forall i :: 0 <= i < |offs| ==> offs[i] < K
    ensures Leaf(offs) < Cap(|offs|)
    ensures Digits(|offs|, Leaf(offs)) == offs
  {
    if offs != [] {
      LeafValid(offs[1..]);
      TimesPlus(|offs|, offs[0], Leaf(offs[1..]));
      hide Leaf, Quot, Rem, Times, Cap;
      assert offs == [offs[0]] + offs[1..];
    }
  }

  lemma PathIsValid(k: nat)
    requires k <= TRIPLE_INDIRECT_LIMIT
    ensures Valid(PathOf(k))
  {
    DigitsValid(Level(k), if Level(k) == 0 then 0 else k - Base(Level(k)));
  }

  lemma TakenIsValid(k: nat)
    ensures Valid(TakenPath(k)) && (k <= TRIPLE_INDIRECT_LIMIT ==> Valid(PathOf(k)) && TakenPath(k) == PathOf(k))
  {
    if k <= TRIPLE_INDIRECT_LIMIT {
      PathIsValid(k);
    }
  }

  lemma SizePathIs(size: nat)
    ensures Valid(SizePath(size)) && SizePath(size) == TakenPath(size / BLOCK_SIZE)
    ensures size / BLOCK_SIZE <= TRIPLE_INDIRECT_LIMIT ==>
              Valid(PathOf(size / BLOCK_SIZE)) && SizePath(size) == PathOf(size / BLOCK_SIZE)
  {
    TakenIsValid(size / BLOCK_SIZE);
  }

  // calculateOffset is a bijection between block indices and tree places.
  lemma PathRoundTrip(k: nat)
    requires k <= TRIPLE_INDIRECT_LIMIT
    ensures Valid(PathOf(k)) && IndexOf(PathOf(k)) == k
  {
    DigitsValid(Level(k), if Level(k) == 0 then 0 else k - Base(Level(k)));
  }

  lemma IndexRoundTrip(p: Path)
    requires Valid(p)
    ensures IndexOf(p) <= TRIPLE_INDIRECT_LIMIT && PathOf(IndexOf(p)) == p
  {
    if p.level > 0 {
      LeafValid(p.offs);
    }
  }

  lemma {:induction false} LexIsLeafOrder(a: seq<nat>, b: seq<nat>)
    requires |a| == |b| <= 3
    requires forall i :: 0 <= i < |a| ==> a[i] < K && b[i] < K
    ensures LexLess(a, b) <==> Leaf(a) < Leaf(b)
  {
    if a != [] {
      LexIsLeafOrder(a[1..], b[1..]);
      LeafValid(a[1..]);
      LeafValid(b[1..]);
    }
  }

  // Index order is lexicographic order on (level, offsets).
  lemma PathOrder(j: nat, k: nat)
    requires j <= TRIPLE_INDIRECT_LIMIT && k <= TRIPLE_INDIRECT_LIMIT
    ensures j < k <==> var p, q := PathOf(j), PathOf(k);
                       p.level < q.level || (p.level == q.level && LexLess(p.offs, q.offs))
  {
    PathRoundTrip(j);
    PathRoundTrip(k);
    if Level(j) == Level(k) {
      if Level(j) == 0 {
        assert LexLess([j], [k]) <==> j < k;
      } else {
        LexIsLeafOrder(PathOf(j).offs, PathOf(k).offs);
      }
    }
  }

  lemma {:induction false} ZeroDigits(l: nat, m: nat)
    requires l <= 3 && m < Cap(l)
    ensures AllZero(Digits(l, m)) <==> m == 0
  {
    if l > 0 {
      QuotRem(l, m);
      ZeroDigits(l - 1, Rem(l, m));
      var ds := Digits(l, m);
      assert ds[1..] == Digits(l - 1, Rem(l, m));
      assert AllZero(ds) <==> ds[0] == 0 && AllZero(ds[1..]);
    }
  }

  // The all-zero tail that the code tests marks the first leaf of a subtree.
  lemma {:induction false} ZeroTail(l: nat, m: nat, c: nat)
    requires c <= l <= 3 && m < Cap(l)
    ensures AllZero(Digits(l, m)[c..]) <==> m % Cap(l - c) == 0
  {
    if c == 0 {
      assert Digits(l, m)[0..] == Digits(l, m);
      ZeroDigits(l, m);
      WholeMod(l, m);
    } else {
      QuotRem(l, m);
      RemMod(l, m, l - c);
      hide Cap, Rem, Quot;
      ZeroTail(l - 1, Rem(l, m), c - 1);
      assert Digits(l, m)[c..] == Digits(l - 1, Rem(l, m))[c - 1..];
    }
  }

  lemma WholeMod(l: nat, m: nat)
    requires m < Cap(l)
    ensures m % Cap(l) == 0 <==> m == 0
  {
  }

  lemma ModMod(m: nat)
    ensures m % 16384 % 128 == m % 128 && m % 128 % 128 == m % 128 && m % 16384 % 16384 == m % 16384
  {
  }

  lemma RemMod(l: nat, m: nat, h: nat)
    requires h < l <= 3
    ensures Rem(l, m) % Cap(h) == m % Cap(h)
  {
    if h > 0 {
      ModMod(m);
    }
  }
}
