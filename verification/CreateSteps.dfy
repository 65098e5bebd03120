/**
  What createFile keeps between its steps, and what it comes to.
 */
module CreateSteps {
  import opened Params
  import opened FileMap
  import opened INode
  import opened CacheModel
  import opened CacheView
  import opened DirectoryEntry
  import opened Directory
  import opened Paths
  import opened Links
  import opened VolumeSteps

  // The field that addDirectoryEntry fills for a name that leaves room for the terminator.
  function FieldOf(name: Name): (field: Field)
    requires |name| < FILENAME_SIZE
    ensures field[..|name|] == name && forall i :: |name| <= i < 62 ==> field[i] == 0
  {
    name + seq(FILENAME_SIZE - |name|, _ => 0)
  }

  lemma FieldNames(name: Name, n: Number)
    requires |name| < FILENAME_SIZE
    ensures NameOf(Entry(FieldOf(name), n)) == name
  {
    CStringIs(FieldOf(name), name);
  }

  // updateINodeData.
  function NewINode(ino: DiskINode, kind: Kind, mode: nat, size: nat, links: nat): DiskINode {
    ino.(kind := kind, fileMode := mode, size := size, linksCount := links)
  }

  // Inode n, that nobody holds and that is not the root, is now `ino`.
  ghost predicate Renewed(c: Cache, c': Cache, n: nat, ino: DiskINode)
    requires 0 < n < |c.table|
  {
    && |c'.table| == |c.table| && |c'.free| == |c.free| && c'.table[0] == c.table[0]
    && (forall m :: 0 <= m < |c.table| ==> View(c', m) == if m == n then ino else View(c, m))
    && (forall m: nat :: Held(c', m) == Held(c, m))
  }

  // The mode createFile gives a directory: S_IFDIR is or-ed to the permission bits.
  const S_IFDIR: nat := 0x4000

  function ModeOf(kind: Kind, mode: nat): nat {
    if kind == INode.Directory then S_IFDIR + mode else mode
  }

  lemma ModeFits(kind: Kind, mode: nat)
    requires kind == INode.Directory ==> mode < 0x1000
    requires kind != INode.Directory ==> !IsDirectory(mode)
    ensures IsDirectory(ModeOf(kind, mode)) <==> kind == INode.Directory
  {
  }

  // The entries of a new directory n in directory p.
  function Dots(n: Number, p: Number): (es: seq<Entry>)
    ensures |es| == 2
  {
    [Entry(FieldOf([46]), n), Entry(FieldOf([46, 46]), p)]
  }

  lemma DotsApart(n: Number, p: Number)
    ensures UniqueNames(Dots(n, p))
  {
    FieldNames([46], n);
    FieldNames([46, 46], p);
    hide FieldOf, NameOf;
  }

  // Bytes and links of the inode once it is made.
  function FirstSize(kind: Kind): nat {
    if kind == INode.Directory then 128 else 0
  }

  function FirstLinks(kind: Kind): nat {
    if kind == INode.Directory then 2 else 1
  }

  // The new inode, with any slots.
  ghost predicate NewIs(a: DiskINode, b: DiskINode, kind: Kind, mode: nat, size: nat, links: nat) {
    b == NewINode(a, kind, mode, size, links).(dataBlockNums := b.dataBlockNums)
  }

  // On the way from c to the state after the creation of inode n in directory p: the directory
  // has `size` bytes, the new inode `newSize` bytes and `links` links, and the references
  // `toParent` and `toNew` are still held.
  ghost predicate Creating(c: Cache, c': Cache, p: nat, n: nat, kind: Kind, mode: nat, size: nat, newSize: nat,
                           links: nat,
                           toParent: bool, toNew: bool)
  {
    && p < |c.table| && 0 < n < |c.table| && p != n && Held(c, n) == 0
    && |c'.table| == |c.table|
    && |c'.free| == |c.free| - (if toParent && Held(c, p) == 0 then 1 else 0) - (if toNew then 1 else 0)
    && (toParent || p != 0 || Held(c, 0) > 0 ==> c'.table[0] == c.table[0])
    && (forall m :: 0 <= m < |c.table| && m != n && m != p ==> View(c', m) == View(c, m))
    && View(c', p) == View(c, p).(size := size, dataBlockNums := View(c', p).dataBlockNums)
    && NewIs(View(c, n), View(c', n), kind, mode, newSize, links)
    && (forall m: nat ::
          Held(c', m) == Held(c, m) + (if toParent && m == p then 1 else 0) + (if toNew && m == n then 1 else 0))
  }

  // Inode n was created in directory p, which then has `size` bytes.
  ghost predicate Created(c: Cache, c': Cache, p: nat, n: nat, kind: Kind, mode: nat, size: nat) {
    Creating(c, c', p, n, kind, ModeOf(kind, mode), size, FirstSize(kind), FirstLinks(kind), false, false)
  }

  lemma ToCreate(start: Cache, c: Cache, dirs: seq<seq<Entry>>, p: nat, n: nat)
    requires Sound(start, dirs) && SameView(start, c) && OneMore(start, c, Some(p)) && Ready(c)
    requires n < |start.table| && p < |c.table| && Held(start, n) == 0 && View(start, n).kind == Unused && InUse(c, p)
    ensures n != p && 0 < n < |c.table| && Held(c, n) == 0 && View(c, n).linksCount == 0 && View(c, n) == View(start, n)
    ensures |dirs| == |c.table| == |start.table| && InUse(start, p) && dirs[n] == []
    ensures View(c, p) == View(start, p) && c.table[0] == start.table[0]
  {
    hide View, Held, Inv, Naming, IsDirectory, UniqueNames;
    CountedAt(start, dirs, n);
    SameViewAt(start, c, 0);
    SameViewAt(start, c, n);
    OneMoreAt(start, c, Some(p), n);
  }

  lemma RenewedStart(start: Cache, c: Cache, c': Cache, p: nat, n: nat, kind: Kind, mode: nat)
    requires SameView(start, c) && OneMore(start, c, Some(p))
    requires 0 < n < |c.table| && p < |c.table| && n != p && Held(start, n) == 0
    requires Renewed(c, c', n, NewINode(View(c, n), kind, mode, 0, 0)) && c.table[0] == start.table[0]
    ensures p < |start.table| && Creating(start, c', p, n, kind, mode, View(start, p).size, 0, 0, true, false)
    ensures Held(c', p) > 0 && |c'.table| == |start.table| && View(c', p) == View(start, p)
  {
    hide View, Held;
  }

  lemma AddedStart(start: Cache, c: Cache, c': Cache, p: nat, n: nat, kind: Kind, mode: nat, size: nat)
    requires p < |start.table| && Creating(start, c, p, n, kind, mode, View(start, p).size, 0, 0, true, false)
    requires p < |c.table| && ((c' == c && size == View(start, p).size) || Resized(c, c', p, size))
    requires |start.free| >= 2
    ensures Creating(start, c', p, n, kind, mode, size, 0, 0, true, false)
    ensures n < |c'.table| == |c.table| && Held(c', n) == 0 && c'.free != []
  {
    hide View, Held;
  }

  lemma LinkedStart(start: Cache, c: Cache, c': Cache, p: nat, n: nat, kind: Kind, mode: nat, size: nat)
    requires Creating(start, c, p, n, kind, mode, size, 0, 0, true, false)
    requires 0 < n < |c.table| && |c'.table| == |c.table| && |c'.free| == |c.free| - 1 && c'.table[0] == c.table[0]
    requires NewIs(View(c, n), View(c', n), kind, mode, FirstSize(kind), FirstLinks(kind))
    requires forall m :: 0 <= m < |c.table| && m != n ==> View(c', m) == View(c, m)
    requires forall m: nat :: Held(c', m) == Held(c, m) + if m == n then 1 else 0
    ensures Creating(start, c', p, n, kind, mode, size, FirstSize(kind), FirstLinks(kind), true, true)
    ensures Held(c', p) > 0
  {
    hide View, Held;
  }

  lemma GiveParent(start: Cache, c: Cache, p: nat, n: nat, kind: Kind, mode: nat, size: nat, newSize: nat, links: nat,
                   nums: Slots)
    requires Inv(c) && Creating(start, c, p, n, kind, mode, size, newSize, links, true, true) && InUse(start, p)
    ensures Held(c, p) > 0
    ensures var c' := Release(c, p, nums);
      Inv(c') && Creating(start, c', p, n, kind, mode, size, newSize, links, false, true) && Held(c', n) > 0
  {
    hide View, Held, Inv, Release;
    ReleaseKeeps(c, p, nums);
  }

  lemma GiveNew(start: Cache, c: Cache, p: nat, n: nat, kind: Kind, mode: nat, size: nat, newSize: nat, links: nat,
                nums: Slots)
    requires Inv(c) && Creating(start, c, p, n, kind, mode, size, newSize, links, false, true) && links > 0
    ensures Held(c, n) > 0
    ensures var c' := Release(c, n, nums);
      Inv(c') && Creating(start, c', p, n, kind, mode, size, newSize, links, false, false)
  {
    hide View, Held, Inv, Release;
    ReleaseKeeps(c, n, nums);
  }

  // What creating an inode in p leaves as the size of p.
  function SizeAfter(ino: DiskINode, entries: nat): nat {
    if IsDirectory(ino.fileMode) then 64 * (entries + 1) else ino.size
  }

  // The entries of the volume after inode n was created in p.
  function DirsAfter(dirs: seq<seq<Entry>>, inDir: bool, p: Number, n: Number, kind: Kind, name: Name): seq<seq<Entry>>
    requires p < |dirs| && n < |dirs| && p != n && |name| < FILENAME_SIZE
  {
    var named := if inDir then dirs[p := dirs[p] + [Entry(FieldOf(name), n)]] else dirs;
    if kind == INode.Directory then named[n := named[n] + Dots(n, p)] else named
  }

  // An inode created in a directory keeps the link counts right, and the state sound unless the
  // directory is the root and someone else held it. One created below anything else has a link
  // and no name, or, as a directory, names a file without a link for it.
  lemma CreatedCounted(c: Cache, c': Cache, dirs: seq<seq<Entry>>, p: Number, n: Number, kind: Kind, mode: nat,
                       name: Name)
    requires Sound(c, dirs) && Inv(c') && !Bound(c, dirs, p, name) && InUse(c, p)
    requires View(c, n).kind == Unused && kind != Unused && p != n && |name| < FILENAME_SIZE
    requires IsDirectory(ModeOf(kind, mode)) <==> kind == INode.Directory
    requires Created(c, c', p, n, kind, mode, SizeAfter(View(c, p), |dirs[p]|))
    ensures |c'.table| == |c.table| > 0
    ensures Counted(c', DirsAfter(dirs, IsDirectory(View(c, p).fileMode), p, n, kind, name))
            <==> IsDirectory(View(c, p).fileMode)
    ensures IsDirectory(View(c, p).fileMode) ==> (View(c', 0) == c'.table[0] <==> p != 0 || Held(c, 0) == 0)
  {
    hide View, Inv, Naming, CountIn, DirsOk, IsDirectory, Held, UniqueNames, FieldOf, NameOf, Bindings, First, Dots;
    SoundReady(c, dirs);
    CountedParts(c, dirs);
    CountedAt(c, dirs, n);
    CountedAt(c, dirs, p);
    if IsDirectory(View(c, p).fileMode) {
      NewNameFree(c, dirs, p, name);
      NewNameCounted(c, c', dirs, p, n, kind, mode, name);
      RootAfter(c, c', p);
    } else {
      Nameless(c, c', dirs, p, n, kind, mode, name);
    }
  }

  lemma NewNameFree(c: Cache, dirs: seq<seq<Entry>>, p: nat, name: Name)
    requires Counted(c, dirs) && p < |c.table| == |dirs| && IsDirectory(View(c, p).fileMode) && !Bound(c, dirs, p, name)
    ensures name !in Bindings(dirs[p])
  {
    hide View, Inv, Naming, IsDirectory, UniqueNames, Bindings, NameOf;
    UniqueAt(dirs, p);
    SearchIsLookUp(dirs[p], name);
  }

  lemma DotsCount(n: Number, p: Number, m: nat)
    ensures CountIn(Dots(n, p), m) == (if n == m then 1 else 0) + if p == m then 1 else 0
  {
    var es := Dots(n, p);
    assert es[..1] == [es[0]] && es[..1][..0] == [];
    assert CountIn(es[..1], m) == if n == m then 1 else 0;
  }

  // How often an inode is named after the creation.
  lemma NamingAfter(dirs: seq<seq<Entry>>, inDir: bool, p: Number, n: Number, kind: Kind, name: Name, m: nat)
    requires p < |dirs| && n < |dirs| && p != n && |name| < FILENAME_SIZE && dirs[n] == []
    ensures Naming(DirsAfter(dirs, inDir, p, n, kind, name), m)
            == Naming(dirs, m) + (if inDir && m == n then 1 else 0)
               + if kind == INode.Directory then (if n == m then 1 else 0) + (if p == m then 1 else 0) else 0
  {
    hide Naming, CountIn, FieldOf, Dots;
    var e := Entry(FieldOf(name), n);
    var named := if inDir then dirs[p := dirs[p] + [e]] else dirs;
    NamingSet(dirs, p, dirs[p] + [e], m);
    CountAppend(dirs[p], e, m);
    assert named[n] + Dots(n, p) == Dots(n, p);
    NamingSet(named, n, Dots(n, p), m);
    DotsCount(n, p, m);
    NoneCounted(m);
  }

  lemma NoneCounted(m: nat)
    ensures CountIn([], m) == 0
  {
  }

  lemma NewNameCounted(c: Cache, c': Cache, dirs: seq<seq<Entry>>, p: Number, n: Number, kind: Kind, mode: nat,
                       name: Name)
    requires Counted(c, dirs) && Inv(c') && p < |c.table| == |dirs| && n < |dirs| && IsDirectory(View(c, p).fileMode)
    requires name !in Bindings(dirs[p]) && InUse(c, p) && p != n && |name| < FILENAME_SIZE && dirs[n] == []
    requires View(c, n).kind == Unused && kind != Unused && n != 0
    requires IsDirectory(ModeOf(kind, mode)) <==> kind == INode.Directory
    requires Created(c, c', p, n, kind, mode, 64 * (|dirs[p]| + 1))
    ensures Counted(c', DirsAfter(dirs, true, p, n, kind, name))
  {
    var dirs' := DirsAfter(dirs, true, p, n, kind, name);
    CountedParts(c, dirs);
    CountedAt(c, dirs, 0);
    DirsAfterOk(dirs, p, n, kind, name);
    hide View, Inv, Naming, CountIn, DirsOk, IsDirectory, Held, UniqueNames, FieldOf, NameOf, Bindings, Dots, ModeOf;
    forall m | 0 <= m < |c.table|
      ensures Exact(m, View(c', m), Naming(dirs', m), |dirs'[m]|)
    {
      NamingAfter(dirs, true, p, n, kind, name, m);
      CountedAt(c, dirs, m);
    }
  }

  lemma DirsAfterOk(dirs: seq<seq<Entry>>, p: Number, n: Number, kind: Kind, name: Name)
    requires DirsOk(dirs, |dirs|) && p < |dirs| && n < |dirs| && p != n && |name| < FILENAME_SIZE && dirs[n] == []
    requires name !in Bindings(dirs[p])
    ensures DirsOk(DirsAfter(dirs, true, p, n, kind, name), |dirs|)
  {
    hide UniqueNames, NameOf, Bindings, FieldOf;
    var e := Entry(FieldOf(name), n);
    FieldNames(name, n);
    DirsAppend(dirs, p, e);
    var named := dirs[p := dirs[p] + [e]];
    DotsApart(n, p);
    assert named[n] + Dots(n, p) == Dots(n, p);
  }

  lemma Nameless(c: Cache, c': Cache, dirs: seq<seq<Entry>>, p: Number, n: Number, kind: Kind, mode: nat, name: Name)
    requires Counted(c, dirs) && p < |c.table| == |dirs| && n < |dirs| && !IsDirectory(View(c, p).fileMode)
    requires InUse(c, p)
    requires p != n && |name| < FILENAME_SIZE && dirs[n] == [] && View(c, n).kind == Unused && kind != Unused && n != 0
    requires Created(c, c', p, n, kind, mode, View(c, p).size)
    ensures !Counted(c', DirsAfter(dirs, false, p, n, kind, name))
  {
    var dirs' := DirsAfter(dirs, false, p, n, kind, name);
    hide View, Inv, Naming, CountIn, DirsOk, IsDirectory, Held, FieldOf, Dots, ModeOf;
    CountedParts(c, dirs);
    CountedAt(c, dirs, n);
    CountedAt(c, dirs, p);
    NamingAfter(dirs, false, p, n, kind, name, n);
    NamingAfter(dirs, false, p, n, kind, name, p);
    if Counted(c', dirs') {
      CountedAt(c', dirs', n);
      CountedAt(c', dirs', p);
    }
  }

  // What a reference to the root that is never given back costs: after the next creation in the
  // root, iget shows the root without its entry.
  lemma LeakCosts(c: Cache, c': Cache, dirs: seq<seq<Entry>>, n: nat, kind: Kind, mode: nat)
    requires Sound(c, dirs) && Inv(c') && |dirs| > 0 && 0 < |c.table| && Held(c, 0) > 0
    requires Created(c, c', 0, n, kind, mode, 64 * (|dirs[0]| + 1))
    ensures 0 < |Acquire(c', 0).table|
    ensures View(c', 0).size == 64 * (|dirs[0]| + 1) && View(Acquire(c', 0), 0).size == 64 * |dirs[0]|
    ensures View(Acquire(c', 0), 0) == c.table[0]
  {
    hide View, Inv, Naming, DirsOk, IsDirectory, Held, Acquire, Available;
    SoundReady(c, dirs);
    CountedAt(c, dirs, 0);
    HeldAvailable(c', 0);
    AcquireView(c', 0, 0);
  }

  // ---------- the whole creation ----------

  // What was made: a file of no bytes with one link, or a directory of two entries, itself under
  // "." and its parent under "..", with two links. Every field that is not named is as it was.
  ghost predicate Made(a: DiskINode, b: DiskINode, es: seq<Entry>, kind: Kind, mode: nat, n: nat, p: nat) {
    && b.kind == kind
    && b.fileMode == (if kind == INode.Directory then 0x4000 + mode else mode)
    && b.linksCount == (if kind == INode.Directory then 2 else 1)
    && b.size == (if kind == INode.Directory then 128 else 0)
    && b == a.(kind := b.kind, fileMode := b.fileMode, linksCount := b.linksCount, size := b.size,
                   dataBlockNums := b.dataBlockNums)
    && if kind == INode.Directory then
         && |es| == 2
         && NameOf(es[0]) == [46] && es[0].number == n
         && NameOf(es[1]) == [46, 46] && es[1].number == p
       else es == []
  }

  // Where the name went: to the end of the directory, if it is one; nothing else but the entries
  // of a new directory changed.
  ghost predicate Placed(dirs: seq<seq<Entry>>, dirs': seq<seq<Entry>>, inDir: bool, name: Name, n: nat, p: nat) {
    && |dirs'| == |dirs| && p < |dirs|
    && (forall q :: 0 <= q < |dirs| && q != n && q != p ==> dirs'[q] == dirs[q])
    && (!inDir ==> dirs'[p] == dirs[p])
    && (inDir ==>
          && |dirs'[p]| == |dirs[p]| + 1 && dirs'[p][..|dirs[p]|] == dirs[p]
          && NameOf(dirs'[p][|dirs[p]|]) == name && dirs'[p][|dirs[p]|].number == n)
  }

  lemma PlacedIs(dirs: seq<seq<Entry>>, inDir: bool, p: Number, n: Number, kind: Kind, name: Name)
    requires p < |dirs| && n < |dirs| && p != n && |name| < FILENAME_SIZE
    ensures Placed(dirs, DirsAfter(dirs, inDir, p, n, kind, name), inDir, name, n, p)
  {
    FieldNames(name, n);
    hide FieldOf, NameOf, Dots;
  }

  lemma MadeIs(c: Cache, c': Cache, dirs: seq<seq<Entry>>, inDir: bool, p: Number, n: Number, kind: Kind, mode: nat,
               size: nat, name: Name)
    requires p < |dirs| == |c.table| && n < |dirs| && p != n && |name| < FILENAME_SIZE && dirs[n] == []
    requires kind != Unused && Created(c, c', p, n, kind, mode, size)
    ensures n < |c'.table|
    ensures Made(View(c, n), View(c', n), DirsAfter(dirs, inDir, p, n, kind, name)[n], kind, mode, n, p)
  {
    hide View, Held, FieldOf, NameOf;
    FieldNames([46], n);
    FieldNames([46, 46], p);
    var dirs' := DirsAfter(dirs, inDir, p, n, kind, name);
    assert dirs'[n] == if kind == INode.Directory then Dots(n, p) else [];
  }

  // Inode n was made in p, which the name was not bound in.
  ghost predicate CreatedIn(c: Cache, dirs: seq<seq<Entry>>, name: Name, kind: Kind, mode: nat, n: nat, p: nat,
                            c': Cache, dirs': seq<seq<Entry>>)
    requires |name| < FILENAME_SIZE
  {
    && p < |dirs| == |c.table| && n < |dirs| && p != n && p < NUM_OF_INODES && n < NUM_OF_INODES
    && Created(c, c', p, n, kind, mode, SizeAfter(View(c, p), |dirs[p]|))
    && dirs' == DirsAfter(dirs, IsDirectory(View(c, p).fileMode), p, n, kind, name)
    && Made(View(c, n), View(c', n), dirs'[n], kind, mode, n, p)
    && Placed(dirs, dirs', IsDirectory(View(c, p).fileMode), name, n, p)
    && (Sound(c', dirs') <==> IsDirectory(View(c, p).fileMode) && (p != 0 || Held(c, 0) == 0))
  }

  // What createFile asks for: the new inode number is that of an unused inode, and the mode has
  // no file type bits.
  ghost predicate MayCreate(c: Cache, dirs: seq<seq<Entry>>, path: Name, kind: Kind, mode: nat, n: nat) {
    && Sound(c, dirs) && |c.free| >= 2 && path != [] && path[0] == SLASH && Short(path)
    && n < |c.table| && Held(c, n) == 0 && View(c, n).kind == Unused
    && (IsDirectory(ModeOf(kind, mode)) <==> kind == INode.Directory)
  }

  // createFile: all its outcomes.
  ghost predicate CreateDone(c: Cache, dirs: seq<seq<Entry>>, path: Name, kind: Kind, mode: nat, n: nat,
                             c': Cache, dirs': seq<seq<Entry>>, status: int)
    requires Sound(c, dirs) && path != [] && path[0] == SLASH && Short(path)
  {
    LastIsShort(path);
    var p := Parent(c, dirs, path);
    if kind == Unused || p.None? then
      status == -1 && Sound(c', dirs') && SameView(c, c') && OneMore(c, c', None) && dirs' == dirs
    else if Bound(c, dirs, p.value, LastName(path)) then
      status == -1 && Sound(c', dirs') && SameView(c, c') && OneMore(c, c', p) && dirs' == dirs
    else status == 0 && CreatedIn(c, dirs, LastName(path), kind, mode, n, p.value, c', dirs')
  }

  lemma LastIsShort(path: Name)
    requires Short(path)
    ensures |LastName(path)| < FILENAME_SIZE
  {
    ShortLast(path);
  }

  lemma CreatingNew(c: Cache, c': Cache, p: nat, n: nat, kind: Kind, mode: nat, size: nat)
    requires Creating(c, c', p, n, kind, mode, size, 0, 0, true, false)
    ensures n < |c'.table| && View(c', n).size == 0 && View(c', n).kind == kind && View(c', n).fileMode == mode
  {
    hide View, Held;
  }

  lemma LinkedNew(start: Cache, c: Cache, c': Cache, p: nat, n: nat, kind: Kind, mode: nat, size: nat)
    requires Creating(start, c, p, n, kind, mode, size, 0, 0, true, false) && n < |c.table|
    requires View(c, n).kind == kind && View(c, n).fileMode == mode
    requires |c'.table| == |c.table| > n > 0 && |c'.free| == |c.free| - 1 && c'.table[0] == c.table[0]
    requires NewIs(View(c, n), View(c', n), View(c, n).kind, View(c, n).fileMode, FirstSize(kind), FirstLinks(kind))
    requires forall m :: 0 <= m < |c.table| && m != n ==> View(c', m) == View(c, m)
    requires forall m: nat :: Held(c', m) == Held(c, m) + if m == n then 1 else 0
    ensures Creating(start, c', p, n, kind, mode, size, FirstSize(kind), FirstLinks(kind), true, true)
    ensures Held(c', p) > 0
  {
    hide View, Held;
    LinkedStart(start, c, c', p, n, kind, mode, size);
  }
}
