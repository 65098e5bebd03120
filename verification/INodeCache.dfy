/**
  iget and iput (src/incoreInodeOps/iget.c, iput.c) on the linked nodes, refining CacheModel.
 */
module INodeCache {
  import opened Disk
  import opened FileMap
  import opened FileRelease
  import opened INode
  import opened INodeManager
  import opened NodeList
  import opened HashQueue
  import opened CacheModel

  // The inode table on disk, one entry per inode number.
  class INodeStore {
    var table: seq<DiskINode>

    constructor (table: seq<DiskINode>)
      ensures this.table == table
    {
      this.table := table;
    }

    method GetDiskINode(n: nat) returns (ino: DiskINode)
      requires n < |table|
      ensures ino == table[n]
    {
      ino := table[n];
    }

    method WriteDiskINode(n: nat, ino: DiskINode)
      requires n < |table|
      modifies this
      ensures table == old(table)[n := ino]
    {
      table := table[n := ino];
    }

    // freeINode, the list of free inode numbers aside.
    method FreeINode(n: nat)
      requires n < |table|
      modifies this
      ensures table == old(table)[n := Reclaimed(old(table[n]))]
    {
      var ino := GetDiskINode(n);
      WriteDiskINode(n, Reclaimed(ino));
    }
  }

  // `free` gives the positions in the pool of the nodes of the free list.
  ghost predicate Matches(pool: seq<Node>, free: seq<nat>, nodes: seq<Node>) {
    |free| == |nodes| && forall i :: 0 <= i < |free| ==> free[i] < |pool| && nodes[i] == pool[free[i]]
  }

  lemma MatchesWithout(pool: seq<Node>, free: seq<nat>, nodes: seq<Node>, at: nat)
    requires Matches(pool, free, nodes) && at < |free|
    ensures at < |nodes| && free[at] < |pool| && nodes[at] == pool[free[at]]
    ensures Matches(pool, Without(free, at), Without(nodes, at))
  {
  }

  // Distinct nodes around distinct zeroed inodes, in no queue.
  ghost predicate Unhashed(nodes: seq<Node>)
    reads nodes`hashNext, nodes`hashPrev, set node | node in nodes :: node.inode
  {
    && (forall i, j :: 0 <= i < j < |nodes| ==> nodes[i] != nodes[j] && nodes[i].inode != nodes[j].inode)
    && (forall i :: 0 <= i < |nodes| ==>
          && nodes[i].inode.referenceCount == 0 && nodes[i].inode.AsDisk() == Blank()
          && !nodes[i].inode.inodeChanged && !nodes[i].inode.fileDataChanged
          && nodes[i].hashNext == null && nodes[i].hashPrev == null)
  }

  lemma NoneUnhashed()
    ensures Unhashed([])
  {
  }

  lemma UnhashedStep(nodes: seq<Node>, node: Node)
    requires Unhashed(nodes) && node.inode.referenceCount == 0 && node.inode.AsDisk() == Blank()
    requires !node.inode.inodeChanged && !node.inode.fileDataChanged && node.hashNext == null && node.hashPrev == null
    requires forall i :: 0 <= i < |nodes| ==> nodes[i] != node && nodes[i].inode != node.inode
    ensures Unhashed(nodes + [node])
  {
    var more := nodes + [node];
    assert forall i :: 0 <= i < |more| ==> (i < |nodes| && more[i] == nodes[i]) || more[i] == node;
  }

  method InitFreeInCoreINodeList(size: nat) returns (list: FreeList, ghost nodes: seq<Node>)
    ensures list.Valid() && list.nodes == nodes && |nodes| == size && Unhashed(nodes)
    ensures fresh(list) && forall i :: 0 <= i < size ==> fresh(nodes[i]) && fresh(nodes[i].inode)
  {
    hide FreeList.Valid, Unhashed;
    list := new FreeList();
    nodes := [];
    NoneUnhashed();
    var counter := 0;
    while counter < size
      invariant counter <= size && |nodes| == counter && list.Valid() && list.nodes == nodes && fresh(list)
      invariant forall i :: 0 <= i < counter ==> fresh(nodes[i]) && fresh(nodes[i].inode)
      invariant Unhashed(nodes)
    {
      var inode := new InCoreINode();
      var node := new Node(inode);
      list.Insert(node);
      UnhashedStep(nodes, node);
      nodes := nodes + [node];
      counter := counter + 1;
    }
  }

  // The state after the last reference to slot `id` was given up.
  function Released(c: Cache, id: nat, nums: Slots): Cache
    requires id < |c.slots| && c.slots[id].ino.inodeNumber < |c.table|
  {
    var slot := c.slots[id];
    var n := slot.ino.inodeNumber;
    var reclaimed := slot.ino.linksCount == 0 && n != 0;
    var written := if slot.dirty then c.table[n := slot.ino] else c.table;
    Cache(c.slots[id := slot.(dirty := false, ino := if reclaimed then slot.ino.(dataBlockNums := nums) else slot.ino)],
          c.free + [id],
          if reclaimed then written[n := Reclaimed(written[n])] else written)
  }

  class ICache {
    ghost const pool: seq<Node>
    const freeList: FreeList
    const hashQ: HashQueues
    const store: INodeStore
    const disk: Device
    // The free list as positions in the pool.
    ghost var free: seq<nat>

    ghost function INodes(): set<InCoreINode> {
      set node | node in pool :: node.inode
    }

    ghost function SlotOf(i: nat): Slot
      requires i < |pool|
      reads pool[i].inode, hashQ
    {
      var inode := pool[i].inode;
      Slot(if pool[i] in hashQ.home then Some(inode.inodeNumber) else None, inode.referenceCount,
           inode.inodeChanged || inode.fileDataChanged, inode.AsDisk())
    }

    ghost function Abs(): Cache
      reads this, hashQ, store, INodes()
    {
      Cache(seq(|pool|, i requires 0 <= i < |pool| reads hashQ, INodes() => SlotOf(i)), free, store.table)
    }

    // Nodes and inodes are separate objects.
    ghost predicate PoolDistinct() {
      forall i, j :: 0 <= i < j < |pool| ==> pool[i] != pool[j] && pool[i].inode != pool[j].inode
    }

    // Each hashed node is a node of the pool, in the queue of its own inode's number.
    ghost predicate HomesOk()
      reads hashQ, INodes()
    {
      forall node :: node in hashQ.home ==> node in pool && hashQ.home[node] == hashQ.hash(node.inode.inodeNumber)
    }

    ghost predicate Loose()
      reads hashQ, pool`hashNext, pool`hashPrev
    {
      forall node :: node in pool && node !in hashQ.home ==> node.hashNext == null && node.hashPrev == null
    }

    ghost predicate Linked()
      reads this, freeList, hashQ, pool`hashNext, pool`hashPrev, INodes()
    {
      PoolDistinct() && Matches(pool, free, freeList.nodes) && HomesOk() && Loose()
    }

    // Both linked structures are well formed.
    ghost predicate Structures()
      reads this, freeList, hashQ, pool, freeList.nodes, hashQ.home.Keys, INodes()
    {
      freeList.Valid() && hashQ.Valid() && Linked()
    }

    ghost predicate Valid()
      reads this, freeList, hashQ, store, pool, freeList.nodes, hashQ.home.Keys, INodes()
    {
      Structures() && Inv(Abs())
    }

    // initFreeInCoreINodeList and initHashQueues.
    constructor (size: nat, hash: nat -> nat, store: INodeStore, disk: Device)
      requires forall n :: hash(n) < INODE_HASH_SIZE
      requires forall n :: 0 <= n < |store.table| ==> store.table[n].inodeNumber == n
      ensures Valid() && |pool| == size && this.store == store && this.disk == disk
      ensures Abs() == Fresh(size, Blank(), store.table)
    {
      hide FreeList.Valid, HashQueues.Valid, Unhashed, Inv, Structures, Fresh, Abs;
      var list, nodes := InitFreeInCoreINodeList(size);
      freeList := list;
      hashQ := new HashQueues(hash);
      pool := nodes;
      this.store, this.disk := store, disk;
      free := seq(size, i => i);
      new;
      FreshWhole(size);
      FreshOk(size, Blank(), store.table);
    }

    lemma FreshWhole(size: nat)
      requires freeList.Valid() && freeList.nodes == pool && |pool| == size && Unhashed(pool)
      requires hashQ.Valid() && hashQ.home == map[]
      requires |free| == size && forall i :: 0 <= i < size ==> free[i] == i
      ensures Structures() && Abs() == Fresh(size, Blank(), store.table)
    {
      hide FreeList.Valid, HashQueues.Valid, Inv;
      assert Abs().slots == Fresh(size, Blank(), store.table).slots;
    }

    // ---------- taking the predicates apart ----------

    lemma Parts()
      requires Structures()
      ensures freeList.Valid() && hashQ.Valid() && PoolDistinct() && Matches(pool, free, freeList.nodes)
      ensures HomesOk() && Loose() && |free| == |freeList.nodes|
      ensures forall i {:trigger freeList.nodes[i]} :: 0 <= i < |free| ==>
                free[i] < |pool| && freeList.nodes[i] == pool[free[i]]
      ensures forall node :: node in hashQ.home.Keys ==> node in pool
    {
      hide FreeList.Valid, HashQueues.Valid, Loose, PoolDistinct;
    }

    lemma Whole()
      requires freeList.Valid() && hashQ.Valid() && PoolDistinct() && Matches(pool, free, freeList.nodes)
      requires HomesOk() && Loose()
      ensures Structures()
    {
      hide FreeList.Valid, HashQueues.Valid, Loose, PoolDistinct, HomesOk, Matches;
    }

    lemma AbsParts()
      ensures var c := Abs();
        && |c.slots| == |pool| && c.free == free && c.table == store.table
        && forall i :: 0 <= i < |pool| ==> c.slots[i] == SlotOf(i)
    {
      hide SlotOf;
    }

    // The abstract state after slot `id` became `slot`.
    lemma AbsIs(c: Cache, id: nat, slot: Slot)
      requires id < |pool| == |c.slots| && SlotOf(id) == slot
      requires forall i :: 0 <= i < |pool| && i != id ==> SlotOf(i) == c.slots[i]
      ensures Abs() == Cache(c.slots[id := slot], free, store.table)
    {
      hide SlotOf;
      assert Abs().slots == c.slots[id := slot];
    }

    lemma AbsSame(c: Cache)
      requires |pool| == |c.slots| && forall i :: 0 <= i < |pool| ==> SlotOf(i) == c.slots[i]
      ensures Abs() == Cache(c.slots, free, store.table)
    {
      hide SlotOf;
      assert Abs().slots == c.slots;
    }

    // ---------- the primitive steps ----------

    // popFreeList.
    method TakeFree() returns (node: Node?)
      requires Structures()
      modifies this`free, freeList, pool`next, pool`prev
      ensures Structures()
      ensures old(free) == [] ==> node == null && Abs() == old(Abs())
      ensures old(free) != [] ==>
                old(free)[0] < |pool| && node == pool[old(free)[0]] && Abs() == old(Abs()).(free := old(free)[1..])
    {
      hide FreeList.Valid, HashQueues.Valid, Inv, PoolDistinct, Matches, Structures, Linked, Abs, Find, Drop, Without;
      Parts();
      AbsParts();
      ghost var c := Abs();
      ghost var nodes := freeList.nodes;
      MatchesFirst(pool, free, nodes);
      node := freeList.Pop();
      if node != null {
        free := free[1..];
      }
      AbsSame(c);
      Whole();
    }

    // The reference count goes up.
    method AddReference(inode: InCoreINode, ghost id: nat)
      requires Structures() && id < |pool| && pool[id].inode == inode
      modifies inode`referenceCount
      ensures Structures()
      ensures Abs() == var c := old(Abs()); c.(slots := c.slots[id := c.slots[id].(refs := c.slots[id].refs + 1)])
    {
      ghost var c := Abs();
      inode.referenceCount := inode.referenceCount + 1;
      AbsIs(c, id, SlotOf(id));
    }

    method DropReference(inode: InCoreINode, ghost id: nat)
      requires Structures() && id < |pool| && pool[id].inode == inode && inode.referenceCount > 0
      modifies inode`referenceCount
      ensures Structures() && inode.referenceCount == old(inode.referenceCount) - 1
      ensures Abs() == var c := old(Abs()); c.(slots := c.slots[id := c.slots[id].(refs := c.slots[id].refs - 1)])
    {
      ghost var c := Abs();
      inode.referenceCount := inode.referenceCount - 1;
      AbsIs(c, id, SlotOf(id));
    }

    // freeListRemove.
    method DropFree(node: Node, ghost id: nat)
      requires Structures() && id < |pool| && pool[id] == node && id in free
      modifies this`free, freeList, pool`next, pool`prev
      ensures Structures()
      ensures Abs() == old(Abs()).(free := Drop(old(free), id))
    {
      hide FreeList.Valid, HashQueues.Valid, Inv, PoolDistinct, Matches, Structures, Linked, Abs, Find, Drop, Without;
      Parts();
      AbsParts();
      ghost var c := Abs();
      ghost var at :| 0 <= at < |free| && free[at] == id;
      FreeDistinct();
      DropIsWithout(free, at);
      MatchesWithout(pool, free, freeList.nodes, at);
      assert pool[id] == node;
      freeList.Remove(node);
      free := Drop(free, id);
      AbsSame(c);
      Whole();
    }

    lemma FreeDistinct()
      requires freeList.Valid() && Matches(pool, free, freeList.nodes)
      ensures forall i, j :: 0 <= i < j < |free| ==> free[i] != free[j]
    {
      forall i, j | 0 <= i < j < |free|
        ensures free[i] != free[j]
      {
        assert freeList.nodes[i] != freeList.nodes[j];
      }
    }

    // freeListInsert.
    method AddFree(node: Node, ghost id: nat)
      requires Structures() && id < |pool| && pool[id] == node && id !in free
      modifies this`free, freeList, pool`next, pool`prev
      ensures Structures()
      ensures Abs() == old(Abs()).(free := old(free) + [id])
    {
      hide FreeList.Valid, HashQueues.Valid, Inv, PoolDistinct, Matches, Structures, Linked, Abs, Find, Drop, Without;
      Parts();
      AbsParts();
      ghost var c := Abs();
      DistinctPool();
      MatchesAdd(pool, free, freeList.nodes, id);
      assert pool[id] == node;
      freeList.Insert(node);
      free := free + [id];
      AbsSame(c);
      Whole();
    }

    lemma DistinctPool()
      requires PoolDistinct()
      ensures forall i, j :: 0 <= i < j < |pool| ==> pool[i] != pool[j]
    {
    }

    // fetchInodeFromDisk over a slot that stays in its queue.
    method Refetch(inode: InCoreINode, ghost id: nat)
      requires Structures() && id < |pool| && pool[id].inode == inode && pool[id] in hashQ.home
      requires inode.inodeNumber < |store.table| && store.table[inode.inodeNumber].inodeNumber == inode.inodeNumber
      modifies inode
      ensures Structures()
      ensures Abs() == var c := old(Abs());
              c.(slots := c.slots[id := c.slots[id].(ino := c.table[c.slots[id].ino.inodeNumber])])
    {
      hide FreeList.Valid, HashQueues.Valid, Matches, Abs;
      AbsParts();
      ghost var c := Abs();
      var ino := store.GetDiskINode(inode.inodeNumber);
      inode.InsertDiskINodeData(ino);
      AbsIs(c, id, SlotOf(id));
    }

    // updateInHashQ, then fetchInodeFromDisk.
    method Rehash(node: Node, n: nat, ghost id: nat)
      requires Structures() && id < |pool| && pool[id] == node
      requires n < |store.table| && store.table[n].inodeNumber == n
      modifies hashQ, pool`hashNext, pool`hashPrev, node.inode
      ensures Structures()
      ensures Abs() == var c := old(Abs());
                       c.(slots := c.slots[id := c.slots[id].(number := Some(n), ino := c.table[n])])
    {
      hide FreeList.Valid, HashQueues.Valid, Inv, Matches, Structures, Linked, Abs, SlotOf, HomesOk, Loose;
      hide PoolDistinct;
      AbsParts();
      ghost var c := Abs();
      Refill(node, n, id);
      AbsIs(c, id, SlotOf(id));
      Whole();
    }

    method Refill(node: Node, n: nat, ghost id: nat)
      requires Structures() && id < |pool| && pool[id] == node && n < |store.table| && store.table[n].inodeNumber == n
      modifies hashQ, pool`hashNext, pool`hashPrev, node.inode
      ensures freeList.Valid() && hashQ.Valid() && PoolDistinct() && Matches(pool, free, freeList.nodes) && HomesOk()
      ensures Loose()
      ensures SlotOf(id) == old(SlotOf(id)).(number := Some(n), ino := store.table[n])
      ensures forall i :: 0 <= i < |pool| && i != id ==> SlotOf(i) == old(SlotOf(i))
    {
      hide FreeList.Valid, HashQueues.Valid, Matches, Structures, Linked;
      Parts();
      hashQ.UpdateInHashQ(node, n);
      var ino := store.GetDiskINode(n);
      node.inode.InsertDiskINodeData(ino);
    }

    // writeINodeToDisk, when a flag is set.
    method WriteBack(inode: InCoreINode, ghost id: nat)
      requires Structures() && id < |pool| && pool[id].inode == inode && inode.inodeNumber < |store.table|
      modifies inode`inodeChanged, inode`fileDataChanged, store
      ensures Structures()
      ensures Abs() == var c, slot := old(Abs()), old(SlotOf(id));
                       c.(slots := c.slots[id := slot.(dirty := false)],
                          table := if slot.dirty then c.table[slot.ino.inodeNumber := slot.ino] else c.table)
    {
      hide FreeList.Valid, HashQueues.Valid, Matches, Abs;
      AbsParts();
      ghost var c := Abs();
      if inode.inodeChanged || inode.fileDataChanged {
        var diskINode := inode.GetDiskINodeData();
        store.WriteDiskINode(inode.inodeNumber, diskINode);
        inode.inodeChanged := false;
        inode.fileDataChanged := false;
      }
      AbsIs(c, id, SlotOf(id));
    }

    // inodeBlocksFree and freeINode.
    method Reclaim(inode: InCoreINode, ghost id: nat)
      requires Structures() && id < |pool| && pool[id].inode == inode && inode.inodeNumber < |store.table|
      modifies inode`dataBlockNums, store, disk
      ensures Structures()
      ensures (disk.blocks, inode.dataBlockNums) == ReleaseFile(old(disk.blocks), old(inode.dataBlockNums), inode.size)
      ensures Abs() == var c, slot := old(Abs()), old(SlotOf(id));
                       c.(slots := c.slots[id := slot.(ino := slot.ino.(dataBlockNums := inode.dataBlockNums))],
                          table := c.table[slot.ino.inodeNumber := Reclaimed(c.table[slot.ino.inodeNumber])])
    {
      hide FreeList.Valid, HashQueues.Valid, Matches, Abs, ReleaseFile, Reclaimed;
      AbsParts();
      ghost var c := Abs();
      InodeBlocksFree(disk, inode);
      store.FreeINode(inode.inodeNumber);
      AbsIs(c, id, SlotOf(id));
    }

    // ---------- where an inode is cached ----------

    lemma Uncached(n: nat)
      requires Structures()
      requires forall node :: node in hashQ.home ==> node.inode.inodeNumber != n
      ensures Find(Abs().slots, n) == |pool| == |Abs().slots|
    {
      hide FreeList.Valid, HashQueues.Valid, Matches, Loose, PoolDistinct;
    }

    lemma CachedAt(n: nat) returns (id: nat)
      requires Structures() && Inv(Abs())
      requires exists node :: node in hashQ.home && node.inode.inodeNumber == n
      ensures id < |pool| == |Abs().slots| && Find(Abs().slots, n) == id
      ensures forall node :: node in hashQ.home && node.inode.inodeNumber == n ==> node == pool[id]
    {
      hide FreeList.Valid, HashQueues.Valid, Matches, Loose;
      var node :| node in hashQ.home && node.inode.inodeNumber == n;
      id :| 0 <= id < |pool| && pool[id] == node;
      FindIs(Abs().slots, n, id);
      forall other | other in hashQ.home && other.inode.inodeNumber == n
        ensures other == pool[id]
      {
        var j :| 0 <= j < |pool| && pool[j] == other;
        FindIs(Abs().slots, n, j);
      }
    }

    lemma ValidParts()
      requires Valid()
      ensures Structures() && Inv(Abs()) && |Abs().slots| == |pool| && Abs().free == free && Abs().table == store.table
      ensures forall i :: 0 <= i < |free| ==> free[i] < |pool|
      ensures forall i :: 0 <= i < |store.table| ==> store.table[i].inodeNumber == i
    {
      hide Structures, SlotOf;
    }

    lemma ValidFrom()
      requires Structures() && Inv(Abs())
      ensures Valid()
    {
      hide Structures, Abs, Inv;
    }

    // What the abstract slot says about the in-core inode.
    lemma SlotParts(id: nat)
      requires Structures() && id < |pool|
      ensures |Abs().slots| == |pool|
      ensures var slot, inode := Abs().slots[id], pool[id].inode;
        && slot.refs == inode.referenceCount && slot.ino == inode.AsDisk()
        && (slot.number == if pool[id] in hashQ.home then Some(inode.inodeNumber) else None)
        && slot == SlotOf(id)
    {
      hide Structures;
    }

    lemma FreeHas(id: nat)
      requires Inv(Abs()) && id < |pool|
      ensures id in free <==> pool[id].inode.referenceCount == 0
    {
    }

    lemma HeldHashed(id: nat)
      requires Structures() && Inv(Abs()) && id < |pool| && pool[id].inode.referenceCount > 0
      ensures pool[id] in hashQ.home
      ensures forall node :: node in hashQ.home && node.inode.inodeNumber == pool[id].inode.inodeNumber ==>
                node == pool[id]
    {
      hide Structures;
      assert SlotOk(Abs(), id);
      var at := CachedAt(pool[id].inode.inodeNumber);
    }

    // hashLookup.
    method LookUpNode(n: nat) returns (node: Node?)
      requires Structures()
      ensures Structures() && Abs() == old(Abs())
      ensures node != null ==> node in hashQ.home && node.inode.inodeNumber == n
      ensures node == null ==> forall other :: other in hashQ.home ==> other.inode.inodeNumber != n
    {
      hide FreeList.Valid, HashQueues.Valid, PoolDistinct, Matches, Structures, Linked, Abs;
      Parts();
      AbsParts();
      ghost var c := Abs();
      node := hashQ.HashLookup(n);
      AbsSame(c);
      Whole();
    }

    // ---------- iget and iput ----------

    method IGet(n: nat) returns (inode: InCoreINode?)
      requires Valid() && n < |store.table|
      modifies this, freeList, hashQ, pool, INodes()
      ensures Valid()
      ensures var (c, id) := CacheModel.IGet(old(Abs()), n);
        && Abs() == c
        && (inode == null <==> id == None)
        && (id.Some? ==> id.value < |pool| && inode == pool[id.value].inode)
    {
      hide FreeList.Valid, HashQueues.Valid, Matches, Structures, Linked, HomesOk, Loose, PoolDistinct, Abs;
      hide SlotOf, Valid, Inv, Find, Drop;
      ValidParts();
      ghost var c := Abs();
      IGetKeeps(c, n);
      var node := LookUpNode(n);
      ghost var id: nat;
      if node == null {
        Uncached(n);
        node := TakeFree();
        if node == null {
          ValidFrom();
          return null;
        }
        id := c.free[0];
        Rehash(node, n, id);
      } else {
        id := CachedAt(n);
        GetCached(node, n, id);
      }
      inode := node.inode;
      ghost var slot := Abs().slots[id];
      AddReference(inode, id);
      Overwritten(c.slots, id, slot, slot.(refs := slot.refs + 1));
      ValidFrom();
    }

    // Off the free list if nobody held it; read again if it has no links.
    method GetCached(node: Node, n: nat, ghost id: nat)
      requires Valid() && n < |store.table| && id < |pool| && pool[id] == node && node in hashQ.home
      requires node.inode.inodeNumber == n
      modifies this`free, freeList, pool`next, pool`prev, node.inode
      ensures Structures()
      ensures |old(Abs()).slots| == |pool| && |old(Abs()).table| == |store.table|
      ensures Abs() == var c := old(Abs()); var slot := c.slots[id];
                       c.(slots := c.slots[id :=
                           slot.(ino := if slot.ino.linksCount == 0 then c.table[n] else slot.ino)],
                          free := if slot.refs == 0 then Drop(c.free, id) else c.free)
    {
      hide FreeList.Valid, HashQueues.Valid, Matches, Structures, Linked, HomesOk, Loose, PoolDistinct, Abs;
      hide SlotOf, Valid, Inv, Find, Drop;
      ValidParts();
      SlotParts(id);
      if node.inode.referenceCount == 0 {
        FreeHas(id);
        DropFree(node, id);
      }
      SlotParts(id);
      if node.inode.linksCount == 0 {
        Refetch(node.inode, id);
      }
    }

    // `inode` is the in-core inode of the node at `id`.
    method IPut(inode: InCoreINode, ghost id: nat) returns (status: int)
      requires Valid() && id < |pool| && pool[id].inode == inode && inode.inodeNumber < |store.table|
      modifies this, freeList, pool, INodes(), store, disk
      ensures Valid()
      ensures (Abs(), status) == CacheModel.IPut(old(Abs()), id, inode.dataBlockNums)
      ensures if Reclaims(old(SlotOf(id)))
        then (disk.blocks, inode.dataBlockNums)
            == ReleaseFile(old(disk.blocks), old(inode.dataBlockNums), old(inode.size))
        else disk.blocks == old(disk.blocks)
    {
      hide FreeList.Valid, HashQueues.Valid, Matches, Structures, Linked, HomesOk, Loose, PoolDistinct, Abs;
      hide SlotOf, Valid, Inv, Find, Drop;
      ValidParts();
      SlotParts(id);
      ghost var c := Abs();
      if inode.referenceCount == 0 {
        return -1;
      }
      HeldHashed(id);
      FreeHas(id);
      DropReference(inode, id);
      if inode.referenceCount == 0 {
        SlotParts(id);
        AbsParts();
        status := LastReference(inode, id, Abs());
        ReleasedIsPut(c, id, inode.dataBlockNums);
      } else {
        status := 0;
      }
      IPutKeeps(c, id, inode.dataBlockNums);
      ValidFrom();
    }

    // What iput does once nobody holds the inode.
    method LastReference(inode: InCoreINode, ghost id: nat, ghost c: Cache) returns (status: int)
      requires c == Abs() && id < |c.slots| && c.slots[id].ino.inodeNumber < |c.table|
      requires Structures() && id < |pool| && pool[id].inode == inode && inode.inodeNumber < |store.table|
      requires inode.referenceCount == 0 && id !in free && pool[id] in hashQ.home
      requires forall node :: node in hashQ.home && node.inode.inodeNumber == inode.inodeNumber ==> node == pool[id]
      modifies this`free, freeList, pool`next, pool`prev, store, disk
      modifies inode`inodeChanged, inode`fileDataChanged, inode`dataBlockNums
      ensures Structures() && status == 0
      ensures Abs() == Released(c, id, inode.dataBlockNums)
      ensures if inode.linksCount == 0 && inode.inodeNumber != 0
        then (disk.blocks, inode.dataBlockNums) == ReleaseFile(old(disk.blocks), old(inode.dataBlockNums), inode.size)
        else disk.blocks == old(disk.blocks) && inode.dataBlockNums == old(inode.dataBlockNums)
    {
      hide FreeList.Valid, HashQueues.Valid, Matches, Structures, Linked, HomesOk, Loose, PoolDistinct, Abs;
      hide SlotOf, Valid, Inv, Find, Drop, ReleaseFile;
      SlotParts(id);
      AbsParts();
      WriteBack(inode, id);
      SlotParts(id);
      AbsParts();
      ghost var slot := Abs().slots[id];
      if inode.linksCount == 0 && inode.inodeNumber != 0 {
        Reclaim(inode, id);
        Overwritten(c.slots, id, slot, slot.(ino := slot.ino.(dataBlockNums := inode.dataBlockNums)));
      }
      var node := LookUpNode(inode.inodeNumber);
      if node == null {
        return -1;
      }
      AddFree(node, id);
      status := 0;
    }
  }

  lemma ReleasedIsPut(c: Cache, id: nat, nums: Slots)
    requires id < |c.slots| && c.slots[id].ino.inodeNumber < |c.table| && c.slots[id].refs == 1
    ensures Released(c.(slots := c.slots[id := c.slots[id].(refs := 0)]), id, nums) == IPut(c, id, nums).0
  {
    Overwritten(c.slots, id, c.slots[id].(refs := 0), IPut(c, id, nums).0.slots[id]);
  }

  lemma Overwritten<T>(s: seq<T>, i: nat, x: T, y: T)
    requires i < |s|
    ensures s[i := x][i := y] == s[i := y]
  {
  }

  lemma MatchesFirst(pool: seq<Node>, free: seq<nat>, nodes: seq<Node>)
    requires Matches(pool, free, nodes)
    ensures free == [] <==> nodes == []
    ensures free != [] ==> free[0] < |pool| && nodes[0] == pool[free[0]] && Matches(pool, free[1..], nodes[1..])
  {
  }

  lemma MatchesAdd(pool: seq<Node>, free: seq<nat>, nodes: seq<Node>, id: nat)
    requires Matches(pool, free, nodes) && id < |pool| && id !in free
    requires forall i, j :: 0 <= i < j < |pool| ==> pool[i] != pool[j]
    ensures pool[id] !in nodes
    ensures Matches(pool, free + [id], nodes + [pool[id]])
  {
    forall i | 0 <= i < |nodes|
      ensures nodes[i] != pool[id]
    {
      assert free[i] in free;
    }
  }

  lemma {:induction false} DropIsWithout(free: seq<nat>, at: nat)
    requires at < |free| && forall i, j :: 0 <= i < j < |free| ==> free[i] != free[j]
    ensures Drop(free, free[at]) == Without(free, at)
  {
    if at == 0 {
      DropAbsent(free[1..], free[0]);
      assert Without(free, 0) == free[1..];
    } else {
      DropIsWithout(free[1..], at - 1);
      assert Without(free, at) == [free[0]] + Without(free[1..], at - 1);
    }
  }

  lemma {:induction false} DropAbsent(free: seq<nat>, id: nat)
    requires id !in free
    ensures Drop(free, id) == free
  {
    if free != [] {
      DropAbsent(free[1..], id);
    }
  }
}
