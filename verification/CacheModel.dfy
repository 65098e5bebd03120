/**
  The in-core inode cache as a value: iget and iput of src/incoreInodeOps as functions on a
  pool of slots, a queue of free slots and the inode table, and what every run of them keeps.
 */
module CacheModel {
  import opened FileMap
  import opened INode

  datatype Option<T> = None | Some(value: T)

  // One in-core inode: the number it is hashed under, its reference count, whether it was
  // changed since it was written, and its contents.
  datatype Slot = Slot(number: Option<nat>, refs: nat, dirty: bool, ino: DiskINode)

  datatype Cache = Cache(slots: seq<Slot>, free: seq<nat>, table: seq<DiskINode>)

  // ---------- the code, as functions ----------

  // hashLookup: the slot hashed under n, |slots| if there is none.
  function Find(slots: seq<Slot>, n: nat): (i: nat)
    ensures i <= |slots|
    ensures i < |slots| ==> slots[i].number == Some(n)
    ensures i == |slots| ==> forall j :: 0 <= j < |slots| ==> slots[j].number != Some(n)
  {
    if slots == [] then 0
    else
      var i := Find(slots[..|slots| - 1], n);
      if i < |slots| - 1 then i
      else if slots[|slots| - 1].number == Some(n) then |slots| - 1
      else |slots|
  }

  // freeListRemove.
  function Drop(free: seq<nat>, id: nat): (r: seq<nat>)
    ensures forall x :: x in r <==> x in free && x != id
  {
    if free == [] then []
    else if free[0] == id then Drop(free[1..], id)
    else [free[0]] + Drop(free[1..], id)
  }

  function IGet(c: Cache, n: nat): (Cache, Option<nat>)
    requires n < |c.table| && forall i :: 0 <= i < |c.free| ==> c.free[i] < |c.slots|
  {
    var id := Find(c.slots, n);
    if id == |c.slots| then
      if c.free == [] then (c, None)
      else
        var victim := c.free[0];
        var slot := c.slots[victim];
        (c.(slots := c.slots[victim := Slot(Some(n), slot.refs + 1, slot.dirty, c.table[n])], free := c.free[1..]),
            Some(victim))
    else
      var slot := c.slots[id];
      var ino := if slot.ino.linksCount == 0 then c.table[n] else slot.ino;
      (c.(slots := c.slots[id := slot.(refs := slot.refs + 1, ino := ino)],
          free := if slot.refs == 0 then Drop(c.free, id) else c.free), Some(id))
  }

  // What freeINode leaves in the table.
  function Reclaimed(ino: DiskINode): DiskINode {
    ino.(kind := Unused, fileMode := 0, ownerUid := 0, groupUid := 0, size := 0, linksCount := 0)
  }

  predicate Reclaims(slot: Slot) {
    slot.refs == 1 && slot.ino.linksCount == 0 && slot.ino.inodeNumber != 0
  }

  // `nums` is what inodeBlocksFree leaves in the slots when the inode is reclaimed.
  function IPut(c: Cache, id: nat, nums: Slots): (Cache, int)
    requires id < |c.slots| && c.slots[id].ino.inodeNumber < |c.table|
  {
    var slot := c.slots[id];
    var n := slot.ino.inodeNumber;
    if slot.refs == 0 then (c, -1)
    else if slot.refs > 1 then (c.(slots := c.slots[id := slot.(refs := slot.refs - 1)]), 0)
    else
      var written := if slot.dirty then c.table[n := slot.ino] else c.table;
      var table := if Reclaims(slot) then written[n := Reclaimed(written[n])] else written;
      var ino := if Reclaims(slot) then slot.ino.(dataBlockNums := nums) else slot.ino;
      (Cache(c.slots[id := Slot(slot.number, 0, false, ino)], c.free + [id], table), 0)
  }

  // A holder of the inode changes it and sets inode_changed.
  function Modify(c: Cache, id: nat, ino: DiskINode): Cache
    requires id < |c.slots|
  {
    c.(slots := c.slots[id := c.slots[id].(dirty := true, ino := ino)])
  }

  // ---------- what every operation keeps ----------

  ghost predicate FreeOk(c: Cache) {
    && (forall i :: 0 <= i < |c.free| ==> c.free[i] < |c.slots|)
    && (forall i, j :: 0 <= i < j < |c.free| ==> c.free[i] != c.free[j])
    && (forall id :: 0 <= id < |c.slots| ==> (id in c.free <==> c.slots[id].refs == 0))
  }

  ghost predicate SlotOk(c: Cache, id: nat)
    requires id < |c.slots|
  {
    var slot := c.slots[id];
    && (slot.refs > 0 ==> slot.number.Some?)
    && (slot.refs == 0 ==> !slot.dirty)
    && (slot.number.Some? ==> slot.number.value == slot.ino.inodeNumber < |c.table|)
    // A clean slot that is held, or has links, has nothing to lose.
    && (slot.number.Some? && !slot.dirty && (slot.refs > 0 || slot.ino.linksCount > 0) ==>
          slot.ino == c.table[slot.ino.inodeNumber])
  }

  ghost predicate Inv(c: Cache) {
    && FreeOk(c)
    && (forall id :: 0 <= id < |c.slots| ==> SlotOk(c, id))
    && (forall i, j :: 0 <= i < j < |c.slots| && c.slots[i].number.Some? ==> c.slots[i].number != c.slots[j].number)
    && (forall n :: 0 <= n < |c.table| ==> c.table[n].inodeNumber == n)
  }

  lemma FindUnique(c: Cache, id: nat)
    requires Inv(c) && id < |c.slots| && c.slots[id].number.Some?
    ensures Find(c.slots, c.slots[id].number.value) == id
  {
  }

  lemma {:induction false} DropDistinct(free: seq<nat>, id: nat)
    requires forall i, j :: 0 <= i < j < |free| ==> free[i] != free[j]
    ensures var r := Drop(free, id); forall i, j :: 0 <= i < j < |r| ==> r[i] != r[j]
    ensures |Drop(free, id)| == if id in free then |free| - 1 else |free|
  {
    if free != [] {
      DropDistinct(free[1..], id);
      assert free[0] !in free[1..];
      var rest := Drop(free[1..], id);
      assert forall j :: 0 <= j < |rest| ==> rest[j] in rest;
    }
  }

  // iget finds nothing exactly when the inode is not cached and every slot is referenced.
  lemma IGetFails(c: Cache, n: nat)
    requires Inv(c) && n < |c.table|
    ensures IGet(c, n).1 == None <==>
              && (forall id :: 0 <= id < |c.slots| ==> c.slots[id].number != Some(n))
              && (forall id :: 0 <= id < |c.slots| ==> c.slots[id].refs > 0)
  {
    if c.free != [] {
      assert c.free[0] in c.free;
    }
  }

  lemma IGetMissKeeps(c: Cache, n: nat)
    requires Inv(c) && n < |c.table| && Find(c.slots, n) == |c.slots| && c.free != []
    ensures Inv(IGet(c, n).0)
  {
    var c' := IGet(c, n).0;
    var victim := c.free[0];
    assert victim in c.free;
    forall id | 0 <= id < |c.slots|
      ensures id in c'.free <==> c'.slots[id].refs == 0
    {
      assert id in c.free[1..] <==> id in c.free && id != victim;
    }
    forall id | 0 <= id < |c.slots|
      ensures SlotOk(c', id)
    {
      assert SlotOk(c, id);
    }
  }

  lemma IGetHitKeeps(c: Cache, n: nat)
    requires Inv(c) && n < |c.table| && Find(c.slots, n) < |c.slots|
    ensures Inv(IGet(c, n).0)
  {
    var c' := IGet(c, n).0;
    var id0 := Find(c.slots, n);
    DropDistinct(c.free, id0);
    assert SlotOk(c, id0);
    forall i | 0 <= i < |c'.free|
      ensures c'.free[i] < |c'.slots|
    {
      assert c'.free[i] in c'.free;
      assert c'.free[i] in c.free;
    }
    forall id | 0 <= id < |c.slots|
      ensures SlotOk(c', id)
    {
      assert SlotOk(c, id);
    }
  }

  lemma IGetKeeps(c: Cache, n: nat)
    requires Inv(c) && n < |c.table|
    ensures Inv(IGet(c, n).0)
  {
    hide Inv;
    if Find(c.slots, n) < |c.slots| {
      IGetHitKeeps(c, n);
    } else if c.free != [] {
      IGetMissKeeps(c, n);
    }
  }

  lemma IPutKeeps(c: Cache, id: nat, nums: Slots)
    requires Inv(c) && id < |c.slots| && c.slots[id].ino.inodeNumber < |c.table|
    ensures Inv(IPut(c, id, nums).0)
  {
    var c' := IPut(c, id, nums).0;
    assert SlotOk(c, id);
    forall j | 0 <= j < |c.slots|
      ensures SlotOk(c', j)
    {
      assert SlotOk(c, j);
    }
    if c.slots[id].refs == 1 {
      assert id !in c.free;
      forall j | 0 <= j < |c.slots|
        ensures j in c'.free <==> c'.slots[j].refs == 0
      {
        assert j in c'.free <==> j in c.free || j == id;
      }
    }
  }

  lemma ModifyKeeps(c: Cache, id: nat, ino: DiskINode)
    requires Inv(c) && id < |c.slots| && c.slots[id].refs > 0 && ino.inodeNumber == c.slots[id].ino.inodeNumber
    ensures Inv(Modify(c, id, ino))
  {
    var c' := Modify(c, id, ino);
    forall j | 0 <= j < |c.slots|
      ensures SlotOk(c', j)
    {
      assert SlotOk(c, j);
    }
  }

  // ---------- nothing is lost ----------

  // The contents a later iget of inode n would show its caller.
  function ValueOf(c: Cache, n: nat): DiskINode
    requires n < |c.table|
  {
    var id := Find(c.slots, n);
    if id < |c.slots| && c.slots[id].ino.linksCount > 0 then c.slots[id].ino else c.table[n]
  }

  lemma FindIs(slots: seq<Slot>, n: nat, id: nat)
    requires id < |slots| && slots[id].number == Some(n)
    requires forall i, j :: 0 <= i < j < |slots| && slots[i].number.Some? ==> slots[i].number != slots[j].number
    ensures Find(slots, n) == id
  {
  }

  // iget shows its caller the value and changes no inode's value: not that of the inode whose
  // slot it reuses either.
  lemma IGetShows(c: Cache, n: nat, m: nat)
    requires Inv(c) && n < |c.table| && m < |c.table|
    ensures var (c', id) := IGet(c, n);
      && |c'.table| == |c.table|
      && ValueOf(c', m) == ValueOf(c, m)
      && (id.Some? ==>
            id.value < |c'.slots| && c'.slots[id.value].number == Some(n) && c'.slots[id.value].ino == ValueOf(c, n))
  {
    var (c', id) := IGet(c, n);
    IGetKeeps(c, n);
    if id.Some? {
      if c.free != [] {
        assert c.free[0] in c.free;
      }
      assert SlotOk(c, id.value);
      FindIs(c'.slots, n, id.value);
      if m != n && Find(c.slots, m) < |c.slots| {
        var j := Find(c.slots, m);
        if j != id.value {
          FindIs(c'.slots, m, j);
        }
      }
    }
  }

  // iput changes the value of no other inode, and of its own only when it reclaims it or the
  // inode has no links.
  lemma IPutLosesNothing(c: Cache, id: nat, nums: Slots, m: nat)
    requires Inv(c) && id < |c.slots| && c.slots[id].ino.inodeNumber < |c.table| && m < |c.table|
    requires c.slots[id].number == Some(m) ==> c.slots[id].ino.linksCount > 0
    ensures var c' := IPut(c, id, nums).0; |c'.table| == |c.table| && ValueOf(c', m) == ValueOf(c, m)
  {
    var c' := IPut(c, id, nums).0;
    assert SlotOk(c, id);
    IPutKeeps(c, id, nums);
    var j := Find(c.slots, m);
    if j < |c.slots| {
      FindIs(c'.slots, m, j);
    } else {
      assert c'.slots[id].number == c.slots[id].number;
      assert forall i :: 0 <= i < |c.slots| ==> c'.slots[i].number == c.slots[i].number;
    }
  }

  lemma ModifySets(c: Cache, id: nat, ino: DiskINode, m: nat)
    requires Inv(c) && id < |c.slots| && c.slots[id].refs > 0 && ino.inodeNumber == c.slots[id].ino.inodeNumber
    requires m < |c.table| && ino.linksCount > 0
    ensures ValueOf(Modify(c, id, ino), m) == if m == ino.inodeNumber then ino else ValueOf(c, m)
  {
    var c' := Modify(c, id, ino);
    assert SlotOk(c, id);
    ModifyKeeps(c, id, ino);
    FindIs(c'.slots, ino.inodeNumber, id);
    var j := Find(c.slots, m);
    if j < |c.slots| {
      FindIs(c'.slots, m, j);
    } else {
      assert forall i :: 0 <= i < |c.slots| ==> c'.slots[i].number == c.slots[i].number;
    }
  }

  // iget of a cached inode keeps what its holders see if and only if the inode has links or
  // agrees with the table: a zero-link inode is fetched again over their changes.
  lemma HeldKeptIff(c: Cache, n: nat)
    requires Inv(c) && n < |c.table| && Find(c.slots, n) < |c.slots|
    ensures var id := Find(c.slots, n);
            IGet(c, n).0.slots[id].ino == c.slots[id].ino
            <==> c.slots[id].ino.linksCount > 0 || c.slots[id].ino == c.table[n]
  {
  }

  // ---------- reference counts over runs ----------

  function Held(c: Cache, n: nat): nat {
    var id := Find(c.slots, n);
    if id < |c.slots| then c.slots[id].refs else 0
  }

  datatype Op = Get(n: nat) | PutBack(id: nat, nums: Slots) | Change(id: nat, ino: DiskINode)

  ghost predicate Enabled(c: Cache, op: Op) {
    match op
    case Get(n) => n < |c.table|
    case PutBack(id, nums) => id < |c.slots| && c.slots[id].ino.inodeNumber < |c.table|
    case Change(id, ino) => id < |c.slots| && c.slots[id].refs > 0 && ino.inodeNumber == c.slots[id].ino.inodeNumber
  }

  ghost function Step(c: Cache, op: Op): Cache
    requires Inv(c) && Enabled(c, op)
    ensures Inv(Step(c, op)) && |Step(c, op).slots| == |c.slots| && |Step(c, op).table| == |c.table|
  {
    match op
    case Get(n) =>
      IGetKeeps(c, n);
      IGet(c, n).0
    case PutBack(id, nums) =>
      IPutKeeps(c, id, nums);
      IPut(c, id, nums).0
    case Change(id, ino) =>
      ModifyKeeps(c, id, ino);
      Modify(c, id, ino)
  }

  // +1 for a successful iget of n, -1 for a successful iput of it.
  ghost function Delta(c: Cache, op: Op, n: nat): int
    requires Inv(c) && Enabled(c, op)
  {
    match op
    case Get(m) => if m == n && IGet(c, m).1.Some? then 1 else 0
    case PutBack(id, nums) => if c.slots[id].number == Some(n) && IPut(c, id, nums).1 == 0 then -1 else 0
    case Change(id, ino) => 0
  }

  lemma GetHeld(c: Cache, m: nat, n: nat)
    requires Inv(c) && m < |c.table|
    ensures Held(IGet(c, m).0, n) == Held(c, n) + if m == n && IGet(c, m).1.Some? then 1 else 0
  {
    var (c', id) := IGet(c, m);
    IGetKeeps(c, m);
    if id.Some? {
      if c.free != [] {
        assert c.free[0] in c.free;
      }
      FindIs(c'.slots, m, id.value);
      var j := Find(c.slots, n);
      if n != m && j < |c.slots| && j != id.value {
        FindIs(c'.slots, n, j);
      }
    }
  }

  lemma PutHeld(c: Cache, id: nat, nums: Slots, n: nat)
    requires Inv(c) && id < |c.slots| && c.slots[id].ino.inodeNumber < |c.table|
    ensures Held(IPut(c, id, nums).0, n)
            == Held(c, n) - if c.slots[id].number == Some(n) && IPut(c, id, nums).1 == 0 then 1 else 0
  {
    var c' := IPut(c, id, nums).0;
    IPutKeeps(c, id, nums);
    assert forall i :: 0 <= i < |c.slots| ==> c'.slots[i].number == c.slots[i].number;
    var j := Find(c.slots, n);
    if j < |c.slots| {
      FindIs(c'.slots, n, j);
    }
    if c.slots[id].number == Some(n) {
      FindIs(c.slots, n, id);
    }
  }

  lemma ChangeHeld(c: Cache, id: nat, ino: DiskINode, n: nat)
    requires Inv(c) && id < |c.slots| && c.slots[id].refs > 0 && ino.inodeNumber == c.slots[id].ino.inodeNumber
    ensures Held(Modify(c, id, ino), n) == Held(c, n)
  {
    var c' := Modify(c, id, ino);
    ModifyKeeps(c, id, ino);
    assert forall i :: 0 <= i < |c.slots| ==> c'.slots[i].number == c.slots[i].number;
    var j := Find(c.slots, n);
    if j < |c.slots| {
      FindIs(c'.slots, n, j);
    }
  }

  ghost predicate Runs(c: Cache, ops: seq<Op>, c': Cache)
    requires Inv(c)
    decreases |ops|
  {
    if ops == [] then c' == c else Enabled(c, ops[0]) && Runs(Step(c, ops[0]), ops[1..], c')
  }

  ghost function Balance(c: Cache, ops: seq<Op>, c': Cache, n: nat): int
    requires Inv(c) && Runs(c, ops, c')
    decreases |ops|
  {
    if ops == [] then 0 else Delta(c, ops[0], n) + Balance(Step(c, ops[0]), ops[1..], c', n)
  }

  // In every state a run reaches the invariant holds and the reference count of an inode is
  // the successful igets minus the successful iputs of it.
  lemma {:induction false} RunCounts(c: Cache, ops: seq<Op>, c': Cache, n: nat)
    requires Inv(c) && Runs(c, ops, c')
    ensures Inv(c') && Held(c', n) == Held(c, n) + Balance(c, ops, c', n)
    decreases |ops|
  {
    if ops != [] {
      StepHeld(c, ops[0], n);
      hide Inv, Enabled, Held, Delta;
      RunCounts(Step(c, ops[0]), ops[1..], c', n);
    }
  }

  lemma StepHeld(c: Cache, op: Op, n: nat)
    requires Inv(c) && Enabled(c, op)
    ensures Held(Step(c, op), n) == Held(c, n) + Delta(c, op, n)
  {
    hide Inv, Held, IGet, IPut, Modify;
    match op
    case Get(m) => GetHeld(c, m, n);
    case PutBack(id, nums) => PutHeld(c, id, nums, n);
    case Change(id, ino) => ChangeHeld(c, id, ino, n);
  }

  // iput fails exactly for an inode that nobody holds, and then changes nothing.
  lemma IPutFails(c: Cache, id: nat, nums: Slots)
    requires id < |c.slots| && c.slots[id].ino.inodeNumber < |c.table|
    ensures IPut(c, id, nums).1 == -1 <==> c.slots[id].refs == 0
    ensures IPut(c, id, nums).1 == 0 <==> c.slots[id].refs > 0
    ensures c.slots[id].refs == 0 ==> IPut(c, id, nums).0 == c
  {
  }

  // ---------- the order of eviction ----------

  // The igets of `ns`, one after the other.
  ghost function GetAll(c: Cache, ns: seq<nat>): Cache
    requires Inv(c) && forall i :: 0 <= i < |ns| ==> ns[i] < |c.table|
    ensures Inv(GetAll(c, ns)) && |GetAll(c, ns).slots| == |c.slots|
    decreases |ns|
  {
    if ns == [] then c
    else
      IGetKeeps(c, ns[0]);
      GetAll(IGet(c, ns[0]).0, ns[1..])
  }

  lemma {:induction false} DropShift(free: seq<nat>, x: nat, j: nat) returns (i: nat)
    requires j < |free| && free[j] != x && forall i, k :: 0 <= i < k < |free| ==> free[i] != free[k]
    ensures j - 1 <= i <= j && i < |Drop(free, x)| && Drop(free, x)[i] == free[j]
  {
    if free[0] == x {
      NotDropped(free[1..], x);
      i := j - 1;
    } else if j == 0 {
      i := 0;
    } else {
      i := DropShift(free[1..], x, j - 1);
      i := i + 1;
    }
  }

  lemma {:induction false} NotDropped(free: seq<nat>, x: nat)
    requires x !in free
    ensures Drop(free, x) == free
  {
    if free != [] {
      NotDropped(free[1..], x);
    }
  }

  // A released inode moves up by at most one place when another one is fetched.
  lemma GetShift(c: Cache, n: nat, j: nat) returns (i: nat)
    requires Inv(c) && n < |c.table| && 0 < j < |c.free|
    requires c.slots[c.free[j]].number.Some? && c.slots[c.free[j]].number != Some(n)
    ensures var c' := IGet(c, n).0;
      j - 1 <= i <= j && i < |c'.free| && c'.free[i] == c.free[j] && c'.slots[c.free[j]] == c.slots[c.free[j]]
  {
    var id := Find(c.slots, n);
    if id == |c.slots| {
      i := j - 1;
    } else if c.slots[id].refs == 0 {
      i := DropShift(c.free, id, j);
    } else {
      i := j;
    }
  }

  // Slots are reused in the order in which they were released: an inode with j slots before its
  // own on the free list is still cached after j igets of other inodes.
  lemma {:induction false} StaysCached(c: Cache, ns: seq<nat>, m: nat, j: nat)
    requires Inv(c) && |ns| <= j < |c.free| && forall i :: 0 <= i < |ns| ==> ns[i] < |c.table| && ns[i] != m
    requires c.slots[c.free[j]].number == Some(m)
    ensures Find(GetAll(c, ns).slots, m) == c.free[j]
    ensures GetAll(c, ns).slots[c.free[j]] == c.slots[c.free[j]]
    decreases |ns|
  {
    if ns == [] {
      FindUnique(c, c.free[j]);
    } else {
      IGetKeeps(c, ns[0]);
      var i := GetShift(c, ns[0], j);
      hide Inv, IGet, Find;
      StaysCached(IGet(c, ns[0]).0, ns[1..], m, i);
    }
  }

  // A released inode with links keeps its contents in the cache for as many igets of other
  // inodes as there were free slots before it.
  lemma ReleasedStays(c: Cache, id: nat, nums: Slots, ns: seq<nat>, m: nat)
    requires Inv(c) && id < |c.slots| && c.slots[id].refs == 1 && c.slots[id].ino.linksCount > 0
    requires c.slots[id].number == Some(m) && c.slots[id].ino.inodeNumber < |c.table|
    requires |ns| <= |c.free| && forall i :: 0 <= i < |ns| ==> ns[i] < |c.table| && ns[i] != m
    ensures var c' := IPut(c, id, nums).0;
      && Inv(c') && |c'.table| == |c.table|
      && Find(GetAll(c', ns).slots, m) == id && GetAll(c', ns).slots[id].ino == c.slots[id].ino
  {
    IPutKeeps(c, id, nums);
    var c' := IPut(c, id, nums).0;
    assert c'.free[|c.free|] == id;
    hide Inv, IPut, Find, GetAll;
    StaysCached(c', ns, m, |c.free|);
  }

  // The next iget of an inode that is not cached takes the slot that was released first.
  lemma MissTakesFirst(c: Cache, n: nat)
    requires Inv(c) && n < |c.table| && c.free != [] && forall i :: 0 <= i < |c.slots| ==> c.slots[i].number != Some(n)
    ensures var (c', id) := IGet(c, n);
      && id == Some(c.free[0]) && c'.free == c.free[1..]
      && Find(c'.slots, n) == c.free[0] && c'.slots[c.free[0]].ino == c.table[n]
  {
    IGetKeeps(c, n);
    FindUnique(IGet(c, n).0, c.free[0]);
  }

  // The fresh cache of initFreeInCoreINodeList: every slot unused and on the free list.
  function Fresh(size: nat, blank: DiskINode, table: seq<DiskINode>): Cache {
    Cache(seq(size, _ => Slot(None, 0, false, blank)), seq(size, i => i), table)
  }

  lemma FreshOk(size: nat, blank: DiskINode, table: seq<DiskINode>)
    requires forall n :: 0 <= n < |table| ==> table[n].inodeNumber == n
    ensures Inv(Fresh(size, blank, table))
  {
    var c := Fresh(size, blank, table);
    forall id | 0 <= id < size
      ensures id in c.free
    {
      assert c.free[id] == id;
    }
  }

  function Referenced(slots: seq<Slot>): nat {
    if slots == [] then 0 else (if slots[0].refs > 0 then 1 else 0) + Referenced(slots[1..])
  }

  // Free slots and referenced slots make up the pool.
  lemma PoolSplits(c: Cache)
    requires Inv(c)
    ensures |c.free| + Referenced(c.slots) == |c.slots|
  {
    var idle := set id | 0 <= id < |c.slots| && c.slots[id].refs == 0;
    CountIdle(c.slots, idle, 0);
    DistinctCount(c.free, idle);
    assert c.slots[0..] == c.slots;
  }

  lemma {:induction false} CountIdle(slots: seq<Slot>, idle: set<nat>, k: nat)
    requires k <= |slots| && idle == set id | k <= id < |slots| && slots[id].refs == 0
    ensures |idle| + Referenced(slots[k..]) == |slots| - k
    decreases |slots| - k
  {
    if k < |slots| {
      assert slots[k..][0] == slots[k] && slots[k..][1..] == slots[k + 1..];
      CountIdle(slots, idle - {k}, k + 1);
    }
  }

  lemma {:induction false} DistinctCount(s: seq<nat>, members: set<nat>)
    requires forall i, j :: 0 <= i < j < |s| ==> s[i] != s[j]
    requires forall x :: x in members <==> x in s
    ensures |members| == |s|
  {
    if s != [] {
      DistinctCount(s[1..], members - {s[0]});
    }
  }
}
