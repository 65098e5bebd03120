/**
  The chained free-block list of src/dsk/alloc.c and src/dsk/free.c, as functions on the
  disk, and the sequence of free blocks it stands for.

  Block FREE_LIST_BLOCK holds 128 block numbers. Slot 127 is both a free block and the link
  to the block that becomes the next head.
 */
module FreeChain {
  import opened Params
  import opened Disk
  import opened Bags

  const LAST: nat := 127

  // ---------- the code, as functions ----------

  function FirstUsed(w: seq<Word>): (i: nat)
    ensures i <= |w|
    ensures forall j :: 0 <= j < i ==> w[j] == 0
    ensures i < |w| ==> w[i] != 0
  {
    if w == [] || w[0] != 0 then 0 else 1 + FirstUsed(w[1..])
  }

  // The largest index that holds zero, or -1.
  function LastClear(w: seq<Word>): (i: int)
    ensures -1 <= i < |w|
    ensures i >= 0 ==> w[i] == 0
    ensures forall j :: i < j < |w| ==> w[j] != 0
  {
    if w == [] then -1
    else if w[|w| - 1] == 0 then |w| - 1
    else LastClear(w[..|w| - 1])
  }

  // src/dsk/alloc.c: hand out the first used slot of the head block, 0 when there is none.
  function Alloc(d: Store): (Store, Word) {
    var head := d[FREE_LIST_BLOCK];
    var i := FirstUsed(head);
    var b := if i < K then head[i] else 0;
    var next := if i == LAST then Fetch(d, b, head) else if i < K then head[i := 0] else head;
    (Put(d, FREE_LIST_BLOCK, next), b)
  }

  function FreshHead(b: Word): Block {
    seq(K, i => if i == LAST then b else 0)
  }

  // src/dsk/free.c, _freeInto: push `b` onto the chain.
  function Free(d: Store, b: Word): Store {
    var head := d[FREE_LIST_BLOCK];
    if head[0] != 0 then
      Put(Put(d, b, head), FREE_LIST_BLOCK, FreshHead(b))
    else
      Put(d, FREE_LIST_BLOCK, head[LastClear(head) := b])
  }

  // ---------- what the chain stands for ----------

  function NonZero(w: seq<Word>): seq<Word> {
    if w == [] then []
    else (if w[0] != 0 then [w[0]] else []) + NonZero(w[1..])
  }

  // `st` lists, in allocation order, the blocks of the chain that starts with the block
  // contents `head`. The chain is finite because each link is one of the listed blocks.
  ghost predicate IsChain(d: Store, head: Block, st: seq<Word>)
    decreases |st|
  {
    var own := NonZero(head);
    && own <= st
    && if head[LAST] == 0 then st == own
       else own != [] && head[LAST] < NUM_OF_BLOCKS && IsChain(d, d[head[LAST]], st[|own|..])
  }

  ghost predicate DataBlocks(st: seq<Word>) {
    forall i :: 0 <= i < |st| ==> FIRST_DATA_BLOCK <= st[i] < NUM_OF_BLOCKS
  }

  // The free list of disk `d` is exactly `st`: acyclic, duplicate-free, data blocks only.
  ghost predicate FreeList(d: Store, st: seq<Word>) {
    IsChain(d, d[FREE_LIST_BLOCK], st) && DataBlocks(st) && Unique(multiset(st))
  }

  // The guard under which src/dsk/free.c keeps the chain: the head is not a drained tail block.
  predicate CanFree(d: Store) {
    d[FREE_LIST_BLOCK][0] != 0 || d[FREE_LIST_BLOCK][LAST] != 0
  }

  // Where `Free` puts `b` in the allocation order.
  function Slot(head: Block): nat {
    if head[0] != 0 || LastClear(head) < 0 then 0 else |NonZero(head[..LastClear(head)])|
  }

  ghost function Inserted(st: seq<Word>, p: nat, b: Word): seq<Word> {
    if p <= |st| then st[..p] + [b] + st[p..] else st
  }

  // ---------- lemmas ----------

  lemma {:induction false} NonZeroConcat(a: seq<Word>, b: seq<Word>)
    ensures NonZero(a + b) == NonZero(a) + NonZero(b)
  {
    if a == [] {
      assert a + b == b;
    } else {
      assert (a + b)[1..] == a[1..] + b;
      NonZeroConcat(a[1..], b);
    }
  }

  lemma {:induction false} NonZeroMembers(w: seq<Word>, b: Word)
    ensures b in NonZero(w) <==> b in w && b != 0
  {
    if w != [] {
      NonZeroMembers(w[1..], b);
      assert w == [w[0]] + w[1..];
    }
  }

  lemma {:induction false} NonZeroClear(w: seq<Word>)
    requires forall j :: 0 <= j < |w| ==> w[j] == 0
    ensures NonZero(w) == []
  {
    if w != [] {
      NonZeroClear(w[1..]);
    }
  }

  // Splitting a block's used slots around index i.
  lemma NonZeroSplit(w: seq<Word>, i: nat)
    requires i < |w|
    ensures NonZero(w) == NonZero(w[..i]) + (if w[i] != 0 then [w[i]] else []) + NonZero(w[i + 1..])
  {
    hide NonZero;
    CutAt(w, i);
    NonZeroAround(w[..i], w[i], w[i + 1..]);
  }

  lemma CutAt<T>(s: seq<T>, i: nat)
    requires i < |s|
    ensures s == s[..i] + [s[i]] + s[i + 1..]
  {
  }

  lemma NonZeroAround(left: seq<Word>, b: Word, right: seq<Word>)
    ensures NonZero(left + [b] + right) == NonZero(left) + (if b != 0 then [b] else []) + NonZero(right)
  {
    NonZeroOne(b);
    hide NonZero;
    NonZeroConcat(left + [b], right);
    NonZeroConcat(left, [b]);
  }

  lemma NonZeroOne(b: Word)
    ensures NonZero([b]) == if b != 0 then [b] else []
  {
    assert [b][1..] == [];
  }

  lemma NonZeroUpdate(w: seq<Word>, i: nat, b: Word)
    requires i < |w|
    ensures NonZero(w[i := b]) == NonZero(w[..i]) + (if b != 0 then [b] else []) + NonZero(w[i + 1..])
  {
    hide NonZero;
    assert w[i := b] == w[..i] + [b] + w[i + 1..];
    NonZeroAround(w[..i], b, w[i + 1..]);
  }

  // The chain only reads the blocks it lists.
  lemma {:induction false} ChainFrame(d: Store, d': Store, head: Block, st: seq<Word>)
    requires IsChain(d, head, st)
    requires forall b :: b in st && b < NUM_OF_BLOCKS ==> d[b] == d'[b]
    ensures IsChain(d', head, st)
    decreases |st|
  {
    if head[LAST] != 0 {
      NonZeroMembers(head, head[LAST]);
      assert head[LAST] in st;
      ChainFrame(d, d', d[head[LAST]], st[|NonZero(head)|..]);
    }
  }

  // A disk has at most one free list.
  lemma {:induction false} ChainUnique(d: Store, head: Block, s: seq<Word>, t: seq<Word>)
    requires IsChain(d, head, s) && IsChain(d, head, t)
    ensures s == t
    decreases |s|
  {
    if head[LAST] != 0 {
      var n := |NonZero(head)|;
      ChainUnique(d, d[head[LAST]], s[n..], t[n..]);
      assert s == s[..n] + s[n..] && t == t[..n] + t[n..];
    }
  }

  lemma FirstUsedHeads(head: seq<Word>)
    ensures FirstUsed(head) == |head| ==> NonZero(head) == []
    ensures FirstUsed(head) < |head| ==>
              NonZero(head) == [head[FirstUsed(head)]] + NonZero(head[FirstUsed(head) + 1..])
  {
    var i := FirstUsed(head);
    NonZeroClear(head[..i]);
    if i < |head| {
      NonZeroSplit(head, i);
    } else {
      assert head[..i] == head;
    }
  }

  lemma ClearedHead(head: seq<Word>, i: nat)
    requires i == FirstUsed(head) < |head|
    ensures NonZero(head[i := 0]) == NonZero(head[i + 1..])
  {
    hide NonZero;
    NonZeroUpdate(head, i, 0);
    NonZeroClear(head[..i]);
    assert [] + NonZero(head[i + 1..]) == NonZero(head[i + 1..]);
  }

  // Replacing the head block by one with the same link keeps the rest of the chain.
  lemma ReplaceHead(d: Store, d': Store, head: Block, next: Block, st: seq<Word>)
    requires IsChain(d, head, st) && DataBlocks(st)
    requires next[LAST] == head[LAST]
    requires forall x :: FIRST_DATA_BLOCK <= x < NUM_OF_BLOCKS ==> d[x] == d'[x]
    ensures IsChain(d', next, NonZero(next) + st[|NonZero(head)|..])
  {
    var rest := st[|NonZero(head)|..];
    assert DataBlocks(rest);
    assert (NonZero(next) + rest)[|NonZero(next)|..] == rest;
    if head[LAST] != 0 {
      NonZeroMembers(head, head[LAST]);
      NonZeroMembers(next, next[LAST]);
      assert head[LAST] in st;
      ChainFrame(d, d', d[head[LAST]], rest);
    }
  }

  lemma AllocFromEmpty(d: Store)
    requires FreeList(d, [])
    ensures Alloc(d) == (d, 0)
  {
    FirstUsedHeads(d[FREE_LIST_BLOCK]);
    assert d[FREE_LIST_BLOCK := d[FREE_LIST_BLOCK]] == d;
  }

  // Allocation takes the front of the free list and touches no block but the list head.
  lemma AllocPops(d: Store, st: seq<Word>)
    requires FreeList(d, st) && st != []
    ensures var (d', b) := Alloc(d);
      && b == st[0] && b != 0
      && FreeList(d', st[1..])
      && forall x :: 0 <= x < NUM_OF_BLOCKS && x != FREE_LIST_BLOCK ==> d'[x] == d[x]
  {
    var head := d[FREE_LIST_BLOCK];
    UniqueTail(st);
    FirstUsedHeads(head);
    if FirstUsed(head) == LAST {
      AllocLink(d, st);
    } else {
      AllocSlot(d, st);
    }
  }

  // The head's last slot is handed out: its block becomes the head.
  lemma AllocLink(d: Store, st: seq<Word>)
    requires IsChain(d, d[FREE_LIST_BLOCK], st) && DataBlocks(st) && st != []
    requires FirstUsed(d[FREE_LIST_BLOCK]) == LAST
    ensures var (d', b) := Alloc(d);
      && b == st[0]
      && IsChain(d', d'[FREE_LIST_BLOCK], st[1..])
      && forall x :: 0 <= x < NUM_OF_BLOCKS && x != FREE_LIST_BLOCK ==> d'[x] == d[x]
  {
    var head := d[FREE_LIST_BLOCK];
    FirstUsedHeads(head);
    assert head[LAST + 1..] == [];
    assert NonZero(head) == [head[LAST]];
    var rest := st[1..];
    assert IsChain(d, d[head[LAST]], rest);
    hide NonZero, FirstUsed;
    assert DataBlocks(rest);
    ChainFrame(d, Alloc(d).0, d[head[LAST]], rest);
  }

  // Another slot of the head is handed out.
  lemma AllocSlot(d: Store, st: seq<Word>)
    requires IsChain(d, d[FREE_LIST_BLOCK], st) && DataBlocks(st) && st != []
    requires FirstUsed(d[FREE_LIST_BLOCK]) != LAST
    ensures var (d', b) := Alloc(d);
      && b == st[0]
      && IsChain(d', d'[FREE_LIST_BLOCK], st[1..])
      && forall x :: 0 <= x < NUM_OF_BLOCKS && x != FREE_LIST_BLOCK ==> d'[x] == d[x]
  {
    var head := d[FREE_LIST_BLOCK];
    var i := FirstUsed(head);
    var own := NonZero(head);
    ChainStart(d, head, st);
    FirstUsedHeads(head);
    SlotTaken(d);
    ClearedHead(head, i);
    hide NonZero, FirstUsed, Alloc, IsChain;
    ReplaceHead(d, Alloc(d).0, head, head[i := 0], st);
    OwnFirst(own, st);
  }

  lemma OwnFirst(own: seq<Word>, st: seq<Word>)
    requires own <= st && own != []
    ensures own[0] == st[0] && own[1..] + st[|own|..] == st[1..]
  {
  }

  lemma SlotTaken(d: Store)
    requires FirstUsed(d[FREE_LIST_BLOCK]) < LAST
    ensures var head := d[FREE_LIST_BLOCK]; var i := FirstUsed(head);
            Alloc(d) == (d[FREE_LIST_BLOCK := head[i := 0]], head[i])
  {
  }

  lemma ChainStart(d: Store, head: Block, st: seq<Word>)
    requires IsChain(d, head, st) && st != []
    ensures NonZero(head) <= st && NonZero(head) != []
    ensures FirstUsed(head) < K
  {
    FirstUsedHeads(head);
  }

  lemma UniqueTail(st: seq<Word>)
    requires st != [] && Unique(multiset(st))
    ensures Unique(multiset(st[1..])) && st[0] !in st[1..]
  {
    assert st == [st[0]] + st[1..];
    UniquePart(multiset(st), multiset(st[1..]));
    UniqueApart(multiset([st[0]]), multiset(st[1..]), st[0]);
  }

  // Freeing a block that is not free adds exactly it, whatever the shape of the head.
  lemma FreePushes(d: Store, st: seq<Word>, b: Word)
    requires FreeList(d, st) && CanFree(d)
    requires FIRST_DATA_BLOCK <= b < NUM_OF_BLOCKS && b !in st
    ensures var st' := Inserted(st, Slot(d[FREE_LIST_BLOCK]), b);
      && FreeList(Free(d, b), st')
      && multiset(st') == multiset(st) + multiset{b}
  {
    var head := d[FREE_LIST_BLOCK];
    var d' := Free(d, b);
    var st' := Inserted(st, Slot(head), b);
    if head[0] != 0 {
      var next := FreshHead(b);
      FreshHeadHolds(b);
      assert st' == [b] + st;
      ChainFrame(d, d', head, st);
      assert st'[1..] == st;
      assert IsChain(d', next, st');
    } else {
      FreeIntoGap(d, st, b);
    }
    InsertedBag(st, Slot(head), b);
  }

  // What a free writes: with room in the head the head alone; else the head moves into the freed
  // block, and a head that lists just that block takes its place.
  lemma FreeWrites(d: Store, b: Word, x: nat)
    requires x < NUM_OF_BLOCKS && x != FREE_LIST_BLOCK
    ensures Free(d, b)[x] == if d[FREE_LIST_BLOCK][0] != 0 && x == b then d[FREE_LIST_BLOCK] else d[x]
    ensures d[FREE_LIST_BLOCK][0] != 0 ==>
              forall i :: 0 <= i < 128 ==> Free(d, b)[FREE_LIST_BLOCK][i] == if i == 127 then b else 0
  {
  }

  lemma FreshHeadHolds(b: Word)
    requires b != 0
    ensures NonZero(FreshHead(b)) == [b]
  {
    NonZeroSplit(FreshHead(b), LAST);
    NonZeroClear(FreshHead(b)[..LAST]);
  }

  lemma FreeIntoGap(d: Store, st: seq<Word>, b: Word)
    requires FreeList(d, st) && CanFree(d) && d[FREE_LIST_BLOCK][0] == 0
    requires FIRST_DATA_BLOCK <= b < NUM_OF_BLOCKS
    ensures Slot(d[FREE_LIST_BLOCK]) <= |st|
    ensures IsChain(Free(d, b), Free(d, b)[FREE_LIST_BLOCK], Inserted(st, Slot(d[FREE_LIST_BLOCK]), b))
  {
    var head := d[FREE_LIST_BLOCK];
    var z := LastClear(head);
    var next := head[z := b];
    var own, p := NonZero(head), Slot(head);
    NonZeroSplit(head, z);
    NonZeroUpdate(head, z, b);
    ReplaceHead(d, Free(d, b), head, next, st);
    InsertSplit(NonZero(head[..z]), NonZero(head[z + 1..]), st, b);
  }

  lemma InsertSplit(left: seq<Word>, right: seq<Word>, st: seq<Word>, b: Word)
    requires left + right <= st
    ensures |left| <= |st|
    ensures Inserted(st, |left|, b) == left + [b] + right + st[|left + right|..]
  {
    assert st == left + right + st[|left + right|..];
  }

  lemma InsertedBag(st: seq<Word>, p: nat, b: Word)
    requires p <= |st|
    ensures multiset(Inserted(st, p, b)) == multiset(st) + multiset{b}
    ensures b !in st && Unique(multiset(st)) ==> Unique(multiset(Inserted(st, p, b)))
    ensures DataBlocks(st) && FIRST_DATA_BLOCK <= b < NUM_OF_BLOCKS ==> DataBlocks(Inserted(st, p, b))
  {
    assert st == st[..p] + st[p..];
  }

  // Outside its guard, Free links the freed block without writing it: the list is right
  // exactly when that block happens to read as 128 zero words.
  lemma FreeIffGuard(d: Store, st: seq<Word>, b: Word)
    requires FreeList(d, st)
    requires FIRST_DATA_BLOCK <= b < NUM_OF_BLOCKS && b !in st
    ensures (exists st': seq<Word> :: FreeList(Free(d, b), st') && multiset(st') == multiset(st) + multiset{b})
            <==> CanFree(d) || NonZero(d[b]) == []
  {
    if CanFree(d) {
      FreePushes(d, st, b);
    } else {
      UnguardedHead(d, st, b);
      if NonZero(d[b]) == [] {
        UnguardedClear(d, st, b);
      }
      forall st': seq<Word> | FreeList(Free(d, b), st') && multiset(st') == multiset(st) + multiset{b}
        ensures NonZero(d[b]) == []
      {
        UnguardedOnlyClear(d, st, b, st');
      }
    }
  }

  lemma UnguardedHead(d: Store, st: seq<Word>, b: Word)
    requires FreeList(d, st) && !CanFree(d) && FIRST_DATA_BLOCK <= b < NUM_OF_BLOCKS
    ensures Free(d, b) == d[FREE_LIST_BLOCK := d[FREE_LIST_BLOCK][LAST := b]]
    ensures NonZero(Free(d, b)[FREE_LIST_BLOCK]) == st + [b]
  {
    var head := d[FREE_LIST_BLOCK];
    NonZeroSplit(head, LAST);
    NonZeroUpdate(head, LAST, b);
    assert head[LAST + 1..] == [];
  }

  lemma UnguardedClear(d: Store, st: seq<Word>, b: Word)
    requires FreeList(d, st) && !CanFree(d)
    requires FIRST_DATA_BLOCK <= b < NUM_OF_BLOCKS && b !in st && NonZero(d[b]) == []
    ensures FreeList(Free(d, b), st + [b])
  {
    UnguardedHead(d, st, b);
    NonZeroMembers(d[b], d[b][LAST]);
    assert (st + [b])[|st + [b]|..] == [];
    assert IsChain(Free(d, b), d[b], []);
    assert Inserted(st, |st|, b) == st + [b];
    InsertedBag(st, |st|, b);
  }

  lemma UnguardedOnlyClear(d: Store, st: seq<Word>, b: Word, st': seq<Word>)
    requires FreeList(d, st) && !CanFree(d)
    requires FIRST_DATA_BLOCK <= b < NUM_OF_BLOCKS
    requires FreeList(Free(d, b), st') && multiset(st') == multiset(st) + multiset{b}
    ensures NonZero(d[b]) == []
  {
    UnguardedHead(d, st, b);
    assert |multiset(st')| == |st'| && |multiset(st)| == |st|;
    assert st' == st + [b];
    assert IsChain(Free(d, b), d[b], st'[|st + [b]|..]);
  }

  lemma FirstUsedAt(w: seq<Word>, i: nat)
    requires i < |w| && w[i] != 0 && forall j :: 0 <= j < i ==> w[j] == 0
    ensures FirstUsed(w) == i
  {
  }

  // A free followed by an allocation gives the block back; the head block is restored word
  // for word when it was full or its zeros were a prefix.
  lemma FreeThenAlloc(d: Store, b: Word)
    requires CanFree(d) && FIRST_DATA_BLOCK <= b < NUM_OF_BLOCKS
    requires var head := d[FREE_LIST_BLOCK];
             head[0] != 0 || forall j :: 0 <= j < LastClear(head) ==> head[j] == 0
    ensures Alloc(Free(d, b)) == (if d[FREE_LIST_BLOCK][0] != 0 then d[b := d[FREE_LIST_BLOCK]] else d, b)
  {
    var head := d[FREE_LIST_BLOCK];
    var d' := Free(d, b);
    if head[0] != 0 {
      FirstUsedAt(FreshHead(b), LAST);
      assert Alloc(d').0 == d[b := head];
    } else {
      var z := LastClear(head);
      FirstUsedAt(head[z := b], z);
      assert d'[FREE_LIST_BLOCK][z := 0] == head;
      assert Alloc(d').0 == d;
    }
  }

  // In every other guarded state the freed block is not the next one allocated.
  lemma FreeThenAllocOther(d: Store, st: seq<Word>, b: Word)
    requires FreeList(d, st) && CanFree(d) && FIRST_DATA_BLOCK <= b < NUM_OF_BLOCKS && b !in st
    requires var head := d[FREE_LIST_BLOCK];
             head[0] == 0 && exists j :: 0 <= j < LastClear(head) && head[j] != 0
    ensures Alloc(Free(d, b)).1 == st[0] != b
  {
    var head := d[FREE_LIST_BLOCK];
    var j :| 0 <= j < LastClear(head) && head[j] != 0;
    assert FirstUsed(head) < LastClear(head);
    FirstUsedAt(head[LastClear(head) := b], FirstUsed(head));
    FirstUsedHeads(head);
  }

  // With a full block's worth of free blocks the guard holds; one guarded free keeps it.
  lemma GuardHolds(d: Store, st: seq<Word>)
    requires FreeList(d, st) && |st| >= K
    ensures CanFree(d)
  {
    if !CanFree(d) {
      NonZeroLength(d[FREE_LIST_BLOCK][1..]);
    }
  }

  lemma {:induction false} NonZeroLength(w: seq<Word>)
    ensures |NonZero(w)| <= |w|
  {
    if w != [] {
      NonZeroLength(w[1..]);
    }
  }

  lemma GuardKept(d: Store, b: Word)
    requires CanFree(d) && b != 0
    ensures CanFree(Free(d, b))
  {
  }

  lemma FreeFrame(d: Store, b: Word, x: Word)
    requires x < NUM_OF_BLOCKS && x != b && x != FREE_LIST_BLOCK
    ensures Free(d, b)[x] == d[x]
  {
  }

  // The free list only depends on the head and on the blocks it lists.
  lemma FreeListFrame(d: Store, d': Store, st: seq<Word>)
    requires FreeList(d, st) && d'[FREE_LIST_BLOCK] == d[FREE_LIST_BLOCK]
    requires forall i :: 0 <= i < |st| && st[i] < NUM_OF_BLOCKS ==> d'[st[i]] == d[st[i]]
    ensures FreeList(d', st)
  {
    ChainFrame(d, d', d[FREE_LIST_BLOCK], st);
  }
}
