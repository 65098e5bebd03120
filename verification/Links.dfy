/**
  Link counts: how many directory entries name an inode, and what create, unlink and rename
  keep about them.
 */
module Links {
  import opened Params
  import opened Disk
  import opened INode
  import opened CacheModel
  import opened CacheView
  import opened DirectoryEntry
  import opened Directory
  import opened Paths

  function CountIn(es: seq<Entry>, n: nat): nat {
    if es == [] then 0 else CountIn(es[..|es| - 1], n) + if es[|es| - 1].number == n then 1 else 0
  }

  // The number of directory entries that name inode n.
  function Naming(dirs: seq<seq<Entry>>, n: nat): nat {
    if dirs == [] then 0 else CountIn(dirs[0], n) + Naming(dirs[1..], n)
  }

  lemma {:induction false} CountSet(es: seq<Entry>, i: nat, e: Entry, n: nat)
    requires i < |es|
    ensures CountIn(es[i := e], n) == CountIn(es, n) - (if es[i].number == n then 1 else 0)
            + if e.number == n then 1 else 0
  {
    var changed := es[i := e];
    if i < |es| - 1 {
      CountSet(es[..|es| - 1], i, e, n);
      assert changed[..|es| - 1] == es[..|es| - 1][i := e];
    } else {
      assert changed[..|es| - 1] == es[..|es| - 1];
    }
  }

  lemma CountAppend(es: seq<Entry>, e: Entry, n: nat)
    ensures CountIn(es + [e], n) == CountIn(es, n) + if e.number == n then 1 else 0
  {
    assert (es + [e])[..|es|] == es;
  }

  lemma CountSwapRemoved(es: seq<Entry>, i: nat, n: nat)
    requires i < |es|
    ensures CountIn(SwapRemoved(es, i), n) == CountIn(es, n) - if es[i].number == n then 1 else 0
  {
    CountSet(es, i, es[|es| - 1], n);
    var moved := es[i := es[|es| - 1]];
    assert moved[|es| - 1] == es[|es| - 1];
  }

  lemma {:induction false} NamingSet(dirs: seq<seq<Entry>>, p: nat, es: seq<Entry>, n: nat)
    requires p < |dirs|
    ensures Naming(dirs[p := es], n) == Naming(dirs, n) - CountIn(dirs[p], n) + CountIn(es, n)
  {
    hide CountIn;
    if p == 0 {
      assert dirs[p := es][1..] == dirs[1..];
    } else {
      NamingSet(dirs[1..], p - 1, es, n);
      assert dirs[p := es][1..] == dirs[1..][p - 1 := es];
    }
  }

  lemma {:induction false} CountsOne(es: seq<Entry>, i: nat)
    requires i < |es|
    ensures CountIn(es, es[i].number) > 0
  {
    if i < |es| - 1 {
      CountsOne(es[..|es| - 1], i);
    }
  }

  lemma {:induction false} NamesSome(dirs: seq<seq<Entry>>, p: nat, i: nat)
    requires p < |dirs| && i < |dirs[p]|
    ensures Naming(dirs, dirs[p][i].number) > 0
  {
    hide CountIn;
    if p == 0 {
      CountsOne(dirs[0], i);
    } else {
      NamesSome(dirs[1..], p - 1, i);
    }
  }

  // ---------- the invariant ----------

  // Of inode n, which `names` entries name and which holds `entries` entries: a regular file
  // has as many links as names; a directory and an inode that is named have a link, unless they
  // are the root, which has none; an inode that is not in use has none; only directories hold
  // entries, as many as their size says.
  ghost predicate Exact(n: nat, ino: DiskINode, names: nat, entries: nat) {
    && (ino.kind == Regular ==> ino.linksCount == names)
    && (ino.kind == Unused ==> ino.linksCount == 0)
    && (ino.kind == INode.Directory <==> IsDirectory(ino.fileMode))
    && (n != 0 && (names > 0 || ino.kind == INode.Directory) ==> ino.linksCount > 0)
    && (if IsDirectory(ino.fileMode) then ino.size == 64 * entries else entries == 0)
  }

  ghost predicate RootOk(ino: DiskINode) {
    ino.kind == INode.Directory && ino.linksCount == 0
  }

  // The link counts are right for what the holders of inodes see.
  ghost predicate Counted(c: Cache, dirs: seq<seq<Entry>>) {
    && Inv(c) && |c.table| == NUM_OF_INODES
    && DirsOk(dirs, |c.table|)
    && RootOk(View(c, 0))
    && forall n :: 0 <= n < |c.table| ==> Exact(n, View(c, n), Naming(dirs, n), |dirs[n]|)
  }

  // And the root is as the table has it: since it has no links, every iget fetches it again.
  ghost predicate Sound(c: Cache, dirs: seq<seq<Entry>>) {
    Counted(c, dirs) && View(c, 0) == c.table[0]
  }

  lemma CountedParts(c: Cache, dirs: seq<seq<Entry>>)
    requires Counted(c, dirs)
    ensures Inv(c) && DirsOk(dirs, |c.table|) && |dirs| == |c.table| == NUM_OF_INODES && RootOk(View(c, 0))
  {
    hide View, Inv, Exact;
  }

  lemma SoundParts(c: Cache, dirs: seq<seq<Entry>>)
    requires Sound(c, dirs)
    ensures Counted(c, dirs) && Inv(c) && DirsOk(dirs, |c.table|) && |dirs| == |c.table| == NUM_OF_INODES
    ensures View(c, 0) == c.table[0] && RootOk(View(c, 0))
  {
    hide View, Inv, Exact;
  }

  lemma CountedAt(c: Cache, dirs: seq<seq<Entry>>, n: nat)
    requires Counted(c, dirs) && n < |c.table|
    ensures n < |dirs| && Exact(n, View(c, n), Naming(dirs, n), |dirs[n]|)
  {
    hide View, Inv, Exact;
  }

  // What the invariant looks at.
  predicate Alike(a: DiskINode, b: DiskINode) {
    a.kind == b.kind && a.fileMode == b.fileMode && a.linksCount == b.linksCount && a.size == b.size
  }

  lemma ExactAlike(n: nat, a: DiskINode, b: DiskINode, names: nat, entries: nat)
    requires Exact(n, a, names, entries) && Alike(b, a)
    ensures Exact(n, b, names, entries)
  {
    hide IsDirectory;
  }

  // A named inode has a link or is the root, so no entry names a released inode.
  ghost predicate InUse(c: Cache, n: nat) {
    n < |c.table| && (n == 0 || View(c, n).linksCount > 0)
  }

  lemma NamedInUse(c: Cache, dirs: seq<seq<Entry>>, p: nat, i: nat)
    requires Counted(c, dirs) && p < |dirs| && i < |dirs[p]|
    ensures InUse(c, dirs[p][i].number)
  {
    hide View, Inv, Naming;
    NamesSome(dirs, p, i);
    CountedAt(c, dirs, dirs[p][i].number);
  }

  // ---------- after mkfs ----------

  // The inode table that createINodes and assignRootData leave; `b` is the block of the root.
  function MkfsTable(b: Word): (table: seq<DiskINode>)
    ensures |table| == NUM_OF_INODES
  {
    seq(NUM_OF_INODES, n requires 0 <= n < NUM_OF_INODES =>
      if n == 0 then Blank().(kind := INode.Directory, fileMode := ROOT_MODE,
          dataBlockNums := Blank().dataBlockNums[0 := b])
      else Blank().(inodeNumber := n))
  }

  // S_IFDIR and the permission bits of assignRootData.
  const ROOT_MODE: nat := 0x41ff

  lemma NoBytes(b: Word, i: nat)
    requires i < NUM_OF_INODES
    ensures MkfsTable(b)[i].size == 0
  {
    var ino := if i == 0 then
        Blank().(kind := INode.Directory, fileMode := ROOT_MODE, dataBlockNums := Blank().dataBlockNums[0 := b])
               else Blank().(inodeNumber := i);
    assert MkfsTable(b)[i] == ino;
  }

  function NoEntries(size: nat): (dirs: seq<seq<Entry>>)
    ensures |dirs| == size && forall n :: 0 <= n < size ==> dirs[n] == []
  {
    seq(size, _ => [])
  }

  lemma {:induction false} NamingNone(dirs: seq<seq<Entry>>, n: nat)
    requires forall p :: 0 <= p < |dirs| ==> dirs[p] == []
    ensures Naming(dirs, n) == 0
  {
    if dirs != [] {
      NamingNone(dirs[1..], n);
    }
  }

  lemma ModesApart()
    ensures IsDirectory(ROOT_MODE) && !IsDirectory(0)
  {
  }

  lemma FreshView(size: nat, table: seq<DiskINode>, n: nat)
    requires n < |table|
    ensures View(Fresh(size, Blank(), table), n) == table[n] && Held(Fresh(size, Blank(), table), n) == 0
  {
  }

  // Inode n as mkfs leaves it: the root a directory that everyone may read, write and search,
  // with a block and no bytes; every other one unused; none with a link.
  ghost predicate AfterMkfs(ino: DiskINode, n: nat, b: Word) {
    && ino.inodeNumber == n && ino.linksCount == 0 && ino.size == 0 && ino.ownerUid == 0 && ino.groupUid == 0
    && ino.kind == (if n == 0 then INode.Directory else Unused)
    && ino.fileMode == (if n == 0 then 0x4000 + 0x1ff else 0)
    && (forall i :: 0 <= i < 13 ==> ino.dataBlockNums[i] == if n == 0 && i == 0 then b else 0)
  }

  lemma MkfsViews(size: nat, b: Word)
    ensures var c := Fresh(size, Blank(), MkfsTable(b));
      && |c.table| == 65536 && |c.free| == size
      && (forall n: nat :: Held(c, n) == 0)
      && forall n :: 0 <= n < 65536 ==> AfterMkfs(View(c, n), n, b)
  {
    var table := MkfsTable(b);
    var c := Fresh(size, Blank(), table);
    FreshHeld(size, table);
    FreshTable(size, table);
    hide View, Held;
    forall n | 0 <= n < 65536
      ensures AfterMkfs(View(c, n), n, b)
    {
      FreshView(size, table, n);
    }
  }

  lemma FreshHeld(size: nat, table: seq<DiskINode>)
    ensures forall n: nat :: Held(Fresh(size, Blank(), table), n) == 0
  {
  }

  // A cache just started over a disk just formatted satisfies the invariant.
  lemma MkfsSound(size: nat, b: Word)
    ensures Sound(Fresh(size, Blank(), MkfsTable(b)), NoEntries(NUM_OF_INODES))
    ensures Held(Fresh(size, Blank(), MkfsTable(b)), 0) == 0
  {
    var table, dirs := MkfsTable(b), NoEntries(NUM_OF_INODES);
    var c := Fresh(size, Blank(), table);
    FreshOk(size, Blank(), table);
    ModesApart();
    hide Inv, View, Held, Naming, IsDirectory, Fresh;
    FreshTable(size, table);
    FreshView(size, table, 0);
    forall n | 0 <= n < |table|
      ensures Exact(n, View(c, n), Naming(dirs, n), |dirs[n]|)
    {
      NamingNone(dirs, n);
      FreshView(size, table, n);
    }
  }

  lemma FreshTable(size: nat, table: seq<DiskINode>)
    ensures Fresh(size, Blank(), table).table == table
  {
  }
}
