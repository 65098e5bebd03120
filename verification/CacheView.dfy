/**
  What the holders of inodes see of the cache: the current contents of each inode and the
  number of references to it, under iget, iput and changes.
 */
module CacheView {
  import opened FileMap
  import opened INode
  import opened CacheModel

  // The contents of inode n that count: those of its in-core inode while someone holds it,
  // those in the inode table otherwise.
  function View(c: Cache, n: nat): DiskINode
    requires n < |c.table|
  {
    var id := Find(c.slots, n);
    if id < |c.slots| && c.slots[id].refs > 0 then c.slots[id].ino else c.table[n]
  }

  // A held inode is reached through the slot it is hashed in.
  function Acquire(c: Cache, n: nat): Cache
    requires Inv(c) && n < |c.table|
  {
    IGet(c, n).0
  }

  function Release(c: Cache, n: nat, nums: Slots): Cache
    requires Inv(c) && Held(c, n) > 0
  {
    assert SlotOk(c, Find(c.slots, n));
    IPut(c, Find(c.slots, n), nums).0
  }

  function Update(c: Cache, n: nat, ino: DiskINode): Cache
    requires Inv(c) && Held(c, n) > 0
  {
    Modify(c, Find(c.slots, n), ino)
  }

  predicate Available(c: Cache, n: nat) {
    Find(c.slots, n) < |c.slots| || c.free != []
  }

  ghost predicate Gone(ino: DiskINode) {
    && ino.kind == Unused && ino.linksCount == 0 && ino.fileMode == 0 && ino.size == 0
    && ino.ownerUid == 0 && ino.groupUid == 0
  }

  lemma FindElsewhere(slots: seq<Slot>, slots': seq<Slot>, m: nat)
    requires |slots'| == |slots|
    requires forall i, j :: 0 <= i < j < |slots'| && slots'[i].number.Some? ==> slots'[i].number != slots'[j].number
    requires forall i :: 0 <= i < |slots| && slots[i].number == Some(m) ==> slots'[i].number == Some(m)
    requires forall i :: 0 <= i < |slots| && slots'[i].number == Some(m) ==> slots[i].number == Some(m)
    ensures Find(slots', m) == Find(slots, m)
  {
    var i := Find(slots, m);
    if i < |slots| {
      FindIs(slots', m, i);
    }
  }

  // Fetching inode n again would show nothing new: it has links, so it is not fetched while it
  // is cached, or it is as the table has it.
  predicate Steady(c: Cache, n: nat)
    requires n < |c.table|
  {
    View(c, n).linksCount > 0 || View(c, n) == c.table[n]
  }

  lemma UnheldView(c: Cache, n: nat)
    requires Inv(c) && n < |c.table| && Held(c, n) == 0
    ensures View(c, n) == c.table[n]
  {
  }

  // iget keeps what the holders of other inodes see, and what those of its own inode see if and
  // only if the inode is steady.
  lemma AcquireView(c: Cache, n: nat, m: nat)
    requires Inv(c) && n < |c.table| && m < |c.table| && Available(c, n)
    ensures var c' := Acquire(c, n);
      && c'.table == c.table
      && (m != n ==> View(c', m) == View(c, m))
      && (m == n ==> (View(c', m) == View(c, m) <==> Steady(c, n)))
      && (m == n && !Steady(c, n) ==> View(c', m) == c.table[m])
  {
    var (c', id) := IGet(c, n);
    IGetKeeps(c, n);
    if c.free != [] {
      assert c.free[0] in c.free;
    }
    assert SlotOk(c, id.value);
    FindIs(c'.slots, n, id.value);
    var j := Find(c.slots, m);
    if m != n {
      if j < |c.slots| && j != id.value {
        FindIs(c'.slots, m, j);
      }
    }
  }

  // An inode without links, as the root is, keeps its holders' changes at the next iget if and
  // only if nobody held it or they changed nothing.
  lemma LinklessKept(c: Cache, n: nat)
    requires Inv(c) && n < |c.table| && Available(c, n) && View(c, n).linksCount == 0
    ensures n < |Acquire(c, n).table|
    ensures View(Acquire(c, n), n) == View(c, n) <==> Held(c, n) == 0 || View(c, n) == c.table[n]
  {
    AcquireView(c, n, n);
    if Held(c, n) == 0 {
      UnheldView(c, n);
    }
  }

  lemma AcquireKeeps(c: Cache, n: nat)
    requires Inv(c) && n < |c.table| && Available(c, n) && Steady(c, n)
    ensures var c' := Acquire(c, n);
      && Inv(c') && c'.table == c.table
      && (forall m :: 0 <= m < |c.table| ==> View(c', m) == View(c, m))
      && (forall m: nat :: Held(c', m) == Held(c, m) + if m == n then 1 else 0)
      && |c'.free| == |c.free| - if Held(c, n) == 0 then 1 else 0
  {
    var c' := Acquire(c, n);
    IGetKeeps(c, n);
    AcquireCounts(c, n);
    IGetFails(c, n);
    var found := IGet(c, n).1.Some?;
    FoundIfAvailable(c, n);
    hide Inv, IGet, Held, View, Available, Steady;
    forall m | 0 <= m < |c.table|
      ensures View(c', m) == View(c, m)
    {
      AcquireView(c, n, m);
    }
    forall m: nat
      ensures Held(c', m) == Held(c, m) + if m == n then 1 else 0
    {
      GetHeld(c, n, m);
    }
    AcquireView(c, n, n);
  }

  lemma FoundIfAvailable(c: Cache, n: nat)
    requires Inv(c) && n < |c.table| && Available(c, n)
    ensures IGet(c, n).1.Some?
  {
  }

  lemma AcquireCounts(c: Cache, n: nat)
    requires Inv(c) && n < |c.table| && Available(c, n)
    ensures |Acquire(c, n).free| == |c.free| - if Held(c, n) == 0 then 1 else 0
  {
    var id := Find(c.slots, n);
    DropDistinct(c.free, id);
    if id < |c.slots| {
      assert id in c.free <==> c.slots[id].refs == 0;
    }
  }

  // What iput does to the views and to the table.
  lemma ReleaseView(c: Cache, n: nat, nums: Slots, m: nat)
    requires Inv(c) && Held(c, n) > 0 && n < |c.table| && m < |c.table|
    ensures var c' := Release(c, n, nums);
      && |c'.table| == |c.table|
      && (m != n || Held(c, n) > 1 ==> c'.table[m] == c.table[m])
      && (m != n || Held(c, n) > 1 || View(c, n).linksCount > 0 || n == 0 ==> View(c', m) == View(c, m))
      && (m == n && Held(c, n) == 1 && View(c, n).linksCount == 0 && n != 0 ==>
            Gone(View(c', m)) && View(c', m).inodeNumber == m)
  {
    var id := Find(c.slots, n);
    var c' := Release(c, n, nums);
    assert SlotOk(c, id);
    IPutKeeps(c, id, nums);
    assert forall i :: 0 <= i < |c.slots| ==> c'.slots[i].number == c.slots[i].number;
    FindElsewhere(c.slots, c'.slots, m);
  }

  // iput takes one reference back. It changes no view, unless it reclaims the inode: the root
  // has no links, but is never reclaimed.
  lemma ReleaseKeeps(c: Cache, n: nat, nums: Slots)
    requires Inv(c) && Held(c, n) > 0 && n < |c.table|
    ensures var c' := Release(c, n, nums);
      && Inv(c') && |c'.table| == |c.table|
      && (forall m :: 0 <= m < |c.table| && (m != n || Held(c, n) > 1) ==> c'.table[m] == c.table[m])
      && (forall m :: 0 <= m < |c.table| && (m != n || Held(c, n) > 1 || View(c, n).linksCount > 0 || n == 0) ==>
            View(c', m) == View(c, m))
      && (Held(c, n) == 1 && View(c, n).linksCount == 0 && n != 0 ==> Gone(View(c', n)))
      && (forall m: nat :: Held(c', m) == Held(c, m) - if m == n then 1 else 0)
      && |c'.free| == |c.free| + if Held(c, n) == 1 then 1 else 0
  {
    var c' := Release(c, n, nums);
    ReleaseParts(c, n, nums);
    hide Inv, Held, View, Release, IPut, Gone;
    forall m | 0 <= m < |c.table|
      ensures m != n || Held(c, n) > 1 ==> c'.table[m] == c.table[m]
      ensures m != n || Held(c, n) > 1 || View(c, n).linksCount > 0 || n == 0 ==> View(c', m) == View(c, m)
    {
      ReleaseView(c, n, nums, m);
    }
    ReleaseView(c, n, nums, n);
    forall m: nat
      ensures Held(c', m) == Held(c, m) - if m == n then 1 else 0
    {
      ReleaseHeld(c, n, nums, m);
    }
  }

  lemma ReleaseParts(c: Cache, n: nat, nums: Slots)
    requires Inv(c) && Held(c, n) > 0
    ensures Inv(Release(c, n, nums)) && |Release(c, n, nums).table| == |c.table|
    ensures |Release(c, n, nums).free| == |c.free| + if Held(c, n) == 1 then 1 else 0
  {
    assert SlotOk(c, Find(c.slots, n));
    IPutKeeps(c, Find(c.slots, n), nums);
  }

  lemma ReleaseHeld(c: Cache, n: nat, nums: Slots, m: nat)
    requires Inv(c) && Held(c, n) > 0
    ensures Held(Release(c, n, nums), m) == Held(c, m) - if m == n then 1 else 0
  {
    var id := Find(c.slots, n);
    assert c.slots[id].number == Some(n) && SlotOk(c, id);
    PutHeld(c, id, nums, m);
    hide Held;
  }

  lemma UpdateKeeps(c: Cache, n: nat, ino: DiskINode)
    requires Inv(c) && Held(c, n) > 0 && n < |c.table| && ino.inodeNumber == n
    ensures var c' := Update(c, n, ino);
      && Inv(c') && c'.table == c.table && c'.free == c.free
      && (forall m :: 0 <= m < |c.table| ==> View(c', m) == if m == n then ino else View(c, m))
      && (forall m: nat :: Held(c', m) == Held(c, m))
  {
    var id := Find(c.slots, n);
    var c' := Update(c, n, ino);
    assert SlotOk(c, id);
    ModifyKeeps(c, id, ino);
    assert forall i :: 0 <= i < |c.slots| ==> c'.slots[i].number == c.slots[i].number;
    forall m: nat
      ensures Held(c', m) == Held(c, m)
      ensures m < |c.table| ==> View(c', m) == if m == n then ino else View(c, m)
    {
      FindElsewhere(c.slots, c'.slots, m);
    }
  }

  lemma ViewNumber(c: Cache, n: nat)
    requires Inv(c) && n < |c.table|
    ensures View(c, n).inodeNumber == n
  {
    var id := Find(c.slots, n);
    if id < |c.slots| {
      assert SlotOk(c, id);
    }
  }

  // A pointer to a held in-core inode stays good: nothing moves the inode to another slot.
  lemma HeldStays(c: Cache, n: nat, m: nat, nums: Slots)
    requires Inv(c) && Held(c, n) > 0 && m < |c.table|
    ensures Find(Acquire(c, m).slots, n) == Find(c.slots, n)
    ensures Held(c, m) > 0 ==> Find(Release(c, m, nums).slots, n) == Find(c.slots, n)
  {
    var id := Find(c.slots, n);
    assert SlotOk(c, id);
    IGetKeeps(c, m);
    if c.free != [] {
      assert c.free[0] in c.free;
    }
    FindIs(Acquire(c, m).slots, n, id);
    if Held(c, m) > 0 {
      var c' := Release(c, m, nums);
      assert SlotOk(c, Find(c.slots, m));
      IPutKeeps(c, Find(c.slots, m), nums);
      FindElsewhere(c.slots, c'.slots, n);
    }
  }

  // getNewINode writes the new inode to the table; a stale cached copy has no links and is
  // fetched again when it is next asked for.
  lemma NewKeeps(c: Cache, n: nat, ino: DiskINode)
    requires Inv(c) && n < |c.table| && Held(c, n) == 0 && View(c, n).linksCount == 0 && ino.inodeNumber == n
    ensures var c' := c.(table := c.table[n := ino]);
      && Inv(c')
      && (forall m :: 0 <= m < |c.table| ==> View(c', m) == if m == n then ino else View(c, m))
      && (forall m: nat :: Held(c', m) == Held(c, m))
  {
    var c' := c.(table := c.table[n := ino]);
    forall id | 0 <= id < |c.slots|
      ensures SlotOk(c', id)
    {
      assert SlotOk(c, id);
      if c.slots[id].number == Some(n) {
        FindUnique(c, id);
      }
    }
  }

  // An inode in use is reclaimed, and its blocks released, exactly at the iput that gives up
  // the last reference to it when it has no links.
  lemma ReclaimedIff(c: Cache, n: nat, nums: Slots)
    requires Inv(c) && Held(c, n) > 0 && 0 < n < |c.table| && View(c, n).kind != Unused
    ensures |Release(c, n, nums).table| == |c.table|
    ensures View(Release(c, n, nums), n).kind == Unused <==> Held(c, n) == 1 && View(c, n).linksCount == 0
    ensures View(Release(c, n, nums), n).kind == Unused <==> Reclaims(c.slots[Find(c.slots, n)])
  {
    assert SlotOk(c, Find(c.slots, n));
    ReleaseView(c, n, nums, n);
  }

  // What a reclaimed inode leaves in the table: its last contents with type, mode, owner, group,
  // size and links cleared. Its slots still name the blocks that were released.
  lemma ReclaimedTable(c: Cache, n: nat, nums: Slots)
    requires Inv(c) && Held(c, n) == 1 && 0 < n < |c.table| && View(c, n).linksCount == 0
    ensures n < |Release(c, n, nums).table|
    ensures Release(c, n, nums).table[n]
            == View(c, n).(kind := Unused, fileMode := 0, ownerUid := 0, groupUid := 0, size := 0, linksCount := 0)
  {
    assert SlotOk(c, Find(c.slots, n));
  }

  // A change to an inode without links, made between an iget and its iput, is there at the next
  // iget if and only if nobody else held the inode.
  lemma ChangeSurvivesIff(c: Cache, ino: DiskINode, nums: Slots)
    requires Inv(c) && 0 < |c.table| && c.free != []
    requires View(c, 0).linksCount == 0 && View(c, 0) == c.table[0]
    requires ino.inodeNumber == 0 && ino.linksCount == 0 && ino != c.table[0]
    ensures Inv(Acquire(c, 0)) && Held(Acquire(c, 0), 0) > 0
    ensures var c2 := Update(Acquire(c, 0), 0, ino); Inv(c2) && Held(c2, 0) > 0
    ensures var c3 := Release(Update(Acquire(c, 0), 0, ino), 0, nums);
      && Inv(c3) && |c3.table| == |c.table|
      && |Acquire(c3, 0).table| == |c.table|
      && (View(Acquire(c3, 0), 0) == ino <==> Held(c, 0) == 0)
      && (Held(c, 0) > 0 ==> View(Acquire(c3, 0), 0) == c.table[0])
  {
    assert Available(c, 0) && Steady(c, 0);
    hide Inv, Held, View, Acquire, Update, Release, Available;
    AcquireKeeps(c, 0);
    var c1 := Acquire(c, 0);
    UpdateKeeps(c1, 0, ino);
    var c2 := Update(c1, 0, ino);
    ReleaseKeeps(c2, 0, nums);
    var c3 := Release(c2, 0, nums);
    if Held(c, 0) == 0 {
      UnheldView(c3, 0);
    }
    HeldAvailable(c3, 0);
    AcquireView(c3, 0, 0);
  }

  lemma HeldAvailable(c: Cache, n: nat)
    ensures Held(c, n) > 0 || c.free != [] ==> Available(c, n)
  {
  }
}
