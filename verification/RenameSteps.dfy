/**
  What rename keeps between its steps, and what it comes to in the directories as maps.
 */
module RenameSteps {
  import opened Params
  import opened FileMap
  import opened INode
  import opened CacheModel
  import opened CacheView
  import opened DirectoryEntry
  import opened Directory
  import opened Paths
  import opened Links
  import opened VolumeSteps
  import opened CreateSteps

  // Inode n lost a link, and with the last one everything unless someone holds it.
  ghost predicate LostLink(c: Cache, c': Cache, n: nat) {
    && n < |c.table| == |c'.table|
    && if Held(c, n) == 0 && View(c, n).linksCount == 1 then Gone(View(c', n))
       else View(c, n).linksCount > 0 && View(c', n) == View(c, n).(linksCount := View(c, n).linksCount - 1)
  }

  // A directory that may have other entries.
  ghost predicate Resembles(a: DiskINode, b: DiskINode) {
    b == a.(size := b.size, dataBlockNums := b.dataBlockNums)
  }

  // On the way of a rename of inode f into directory p, whose file `dest`, if any, was unlinked:
  // the references `toFile` and `toParent` are held, f may have another number of links, and no
  // other inode than `dest` and p has changed.
  ghost predicate Holding(c0: Cache, c: Cache, f: nat, p: nat, dest: Option<nat>, toFile: bool, toParent: bool) {
    && 0 < f < |c0.table| && p < |c0.table| && f != p && |c.table| == |c0.table|
    && |c.free| == |c0.free| - (if toFile && Held(c0, f) == 0 then 1 else 0)
                    - (if toParent && Held(c0, p) == 0 then 1 else 0)
    && (forall m: nat ::
          Held(c, m) == Held(c0, m) + (if toFile && m == f then 1 else 0) + (if toParent && m == p then 1 else 0))
    && (forall m :: 0 <= m < |c0.table| && m != f && m != p && dest != Some(m) ==> View(c, m) == View(c0, m))
    && (forall m :: 0 <= m < |c0.table| ==> IsDirectory(View(c, m).fileMode) == IsDirectory(View(c0, m).fileMode))
    && (dest.Some? && dest != Some(f) ==> dest != Some(p) && LostLink(c0, c, dest.value))
    && View(c, f) == View(c0, f).(linksCount := View(c, f).linksCount)
    && View(c0, f).kind != Unused
    && Resembles(View(c0, p), View(c, p))
    && (toParent || p != 0 || Held(c0, 0) > 0 ==> c.table[0] == c0.table[0])
    && (p != 0 ==> View(c, 0) == View(c0, 0))
  }

  lemma HoldingBoth(c0: Cache, c1: Cache, c: Cache, f: nat, p: nat)
    requires Ready(c0) && Ready(c)
    requires SameView(c0, c1) && OneMore(c0, c1, Some(f)) && SameView(c1, c) && OneMore(c1, c, Some(p))
    requires 0 < f < |c0.table| && p < |c0.table| && f != p && View(c0, f).kind != Unused
    ensures Holding(c0, c, f, p, None, true, true)
  {
    hide View, Held, IsDirectory, Inv;
  }

  lemma HoldingSame(c0: Cache, c: Cache, c': Cache, f: nat, p: nat, dest: Option<nat>)
    requires Ready(c) && Ready(c') && Holding(c0, c, f, p, dest, true, true) && SameView(c, c') && OneMore(c, c', None)
    ensures Holding(c0, c', f, p, dest, true, true)
  {
    hide View, Held, IsDirectory, Inv;
  }

  lemma HoldingUnlinked(c0: Cache, c: Cache, c': Cache, f: nat, p: nat, n: nat, size: nat)
    requires Holding(c0, c, f, p, None, true, true) && Unlinked(c, c', p, n, size) && !IsDirectory(View(c, n).fileMode)
    ensures Holding(c0, c', f, p, Some(n), true, true)
    ensures n < |c0.table| && View(c', f).linksCount == View(c, f).linksCount - if n == f then 1 else 0
  {
    ModesOfNone();
    hide View, Held, IsDirectory;
  }

  lemma HoldingResized(c0: Cache, c: Cache, c': Cache, f: nat, p: nat, dest: Option<nat>, size: nat)
    requires Holding(c0, c, f, p, dest, true, true) && p < |c.table| && Resized(c, c', p, size)
    ensures Holding(c0, c', f, p, dest, true, true) && f < |c.table| == |c'.table| && View(c', f) == View(c, f)
    ensures forall m :: 0 <= m < |c.table| && m != p ==> View(c', m) == View(c, m)
    ensures Alike(View(c', p), View(c, p).(size := size))
  {
    hide View, Held, IsDirectory;
  }

  lemma HoldingLinked(c0: Cache, c: Cache, f: nat, p: nat, dest: Option<nat>, links: nat)
    requires Inv(c) && Holding(c0, c, f, p, dest, true, true)
    ensures f < |c.table| && Held(c, f) > 0 && View(c, f).inodeNumber == f
    ensures var c' := Update(c, f, View(c, f).(linksCount := links));
      && Inv(c') && Holding(c0, c', f, p, dest, true, true)
      && View(c', f) == View(c, f).(linksCount := links)
      && |c'.table| == |c.table| && forall m :: 0 <= m < |c.table| && m != f ==> View(c', m) == View(c, m)
  {
    hide View, Held, IsDirectory, Inv, Update;
    ViewNumber(c, f);
    UpdateKeeps(c, f, View(c, f).(linksCount := links));
  }

  lemma HoldingGiveParent(c0: Cache, c: Cache, f: nat, p: nat, dest: Option<nat>, nums: Slots)
    requires Inv(c) && Holding(c0, c, f, p, dest, true, true) && InUse(c0, p)
    ensures Held(c, p) > 0
    ensures var c' := Release(c, p, nums); Inv(c') && SameView(c, c') && Holding(c0, c', f, p, dest, true, false)
  {
    hide View, Held, IsDirectory, Inv, Release;
    ReleaseKeeps(c, p, nums);
  }

  lemma HoldingGiveFile(c0: Cache, c: Cache, f: nat, p: nat, dest: Option<nat>, nums: Slots)
    requires Inv(c) && Holding(c0, c, f, p, dest, true, false) && f < |c.table| && View(c, f).linksCount > 0
    ensures Held(c, f) > 0
    ensures var c' := Release(c, f, nums); Inv(c') && SameView(c, c') && Holding(c0, c', f, p, dest, false, false)
  {
    hide View, Held, IsDirectory, Inv, Release;
    ReleaseKeeps(c, f, nums);
  }

  // When the parent is given back the root is as the table has it again, unless it is the
  // parent and someone else held it: then the next iget shows it as it was before.
  lemma HoldingRoot(c0: Cache, c: Cache, f: nat, p: nat, dest: Option<nat>)
    requires Ready(c0) && Inv(c) && Holding(c0, c, f, p, dest, false, false)
    ensures 0 < |c.table|
    ensures p != 0 || Held(c0, 0) == 0 ==> Ready(c)
    ensures p == 0 && Held(c0, 0) > 0 && View(c0, 0).linksCount == 0 ==>
              Available(c, 0) && 0 < |Acquire(c, 0).table| && View(Acquire(c, 0), 0) == View(c0, 0)
  {
    if p == 0 && Held(c0, 0) == 0 {
      UnheldView(c, 0);
    }
    hide View, Held, Inv, IsDirectory, Acquire, Available;
    if p == 0 && Held(c0, 0) > 0 && View(c0, 0).linksCount == 0 {
      HeldAvailable(c, 0);
      AcquireView(c, 0, 0);
    }
  }

  lemma HoldingFlags(c0: Cache, c: Cache, f: nat, p: nat, dest: Option<nat>, toFile: bool, toParent: bool)
    requires Holding(c0, c, f, p, dest, toFile, toParent)
    ensures Flags(c) == Flags(c0) && |c.table| == |c0.table| && 0 < f < |c.table| && p < |c.table|
    ensures View(c, f).kind == View(c0, f).kind != Unused
    ensures !toFile && !toParent ==> |c.free| == |c0.free|
    ensures toFile && toParent ==> Held(c, p) > 0 && |c.free| >= |c0.free| - 2
  {
    hide View, Held, IsDirectory;
    FlagsSame(c0, c);
  }

  // ---------- names ----------

  // A path whose directory part leads through directories leads where the last of them binds
  // its last name.
  lemma PathLeads(isDir: seq<bool>, dirs: seq<seq<Entry>>, path: Name)
    requires DirsOk(dirs, |isDir|) && path != [] && path[0] == SLASH && LastName(path) != []
    requires ParentOf(isDir, dirs, path).Some? && DirPath(isDir, dirs, 0, path[..LastSlash(path)][1..])
    ensures var p := ParentOf(isDir, dirs, path).value;
      && p < |dirs| && isDir[p]
      && Walk(isDir, dirs, 0, path[1..])
         == if LastName(path) in Bindings(dirs[p]) then Some(Bindings(dirs[p])[LastName(path)]) else None
  {
    hide Walk, DirPath, Operate, Bindings;
    var k := LastSlash(path);
    assert k > 0;
    var front, name := path[..k][1..], LastName(path);
    assert path[1..] == front + name;
    assert front == [] || front[|front| - 1] == SLASH;
    WalkSplit(isDir, dirs, 0, front, name);
    EndsInDir(isDir, dirs, front);
    OperateIs(isDir, dirs, Walk(isDir, dirs, 0, front).value, name);
  }

  // A path that leads to a file below a directory: the directory binds its last name to it.
  lemma PathBinds(isDir: seq<bool>, dirs: seq<seq<Entry>>, path: Name)
    requires DirsOk(dirs, |isDir|) && path != [] && path[0] == SLASH && LastName(path) != []
    requires Walk(isDir, dirs, 0, path[1..]).Some? && DirPath(isDir, dirs, 0, path[..LastSlash(path)][1..])
    ensures var p := ParentOf(isDir, dirs, path);
      && p.Some? && p.value < |dirs| && isDir[p.value]
      && LastName(path) in Bindings(dirs[p.value])
      && Some(Bindings(dirs[p.value])[LastName(path)]) == Walk(isDir, dirs, 0, path[1..])
  {
    hide Walk, DirPath, Operate, Bindings;
    var k := LastSlash(path);
    assert k > 0;
    var front, name := path[..k][1..], LastName(path);
    assert path[1..] == front + name;
    assert front == [] || front[|front| - 1] == SLASH;
    WalkSplit(isDir, dirs, 0, front, name);
    PathLeads(isDir, dirs, path);
  }

  lemma EndsInDir(isDir: seq<bool>, dirs: seq<seq<Entry>>, path: Name)
    requires DirsOk(dirs, |isDir|) && DirPath(isDir, dirs, 0, path) && Walk(isDir, dirs, 0, path).Some?
    ensures isDir[Walk(isDir, dirs, 0, path).value]
  {
    hide Walk, DirPath, Bindings;
    WalkStays(isDir, isDir, dirs, dirs, 0, path);
  }

  // The directories after the destination was removed.
  ghost function Cleared(dirs: seq<seq<Entry>>, p: nat, name: Name): seq<seq<Entry>>
    requires p < |dirs|
  {
    var f := First(dirs[p], 0, name);
    if f < |dirs[p]| then dirs[p := SwapRemoved(dirs[p], f)] else dirs
  }

  lemma ClearedNames(dirs: seq<seq<Entry>>, p: nat, name: Name)
    requires p < |dirs| && UniqueNames(dirs[p])
    ensures var dirs1 := Cleared(dirs, p, name);
      && |dirs1| == |dirs| && UniqueNames(dirs1[p]) && |dirs1[p]| + 1 >= |dirs[p]|
      && Bindings(dirs1[p]) == Bindings(dirs[p]) - {name}
  {
    SearchIsLookUp(dirs[p], name);
    var f := First(dirs[p], 0, name);
    if f < |dirs[p]| {
      SwapUnbinds(dirs[p], f);
      SwapMoves(dirs[p], f);
    }
    hide Bindings, UniqueNames, SwapRemoved, First;
    if f == |dirs[p]| {
      SameMap(Bindings(dirs[p]), Bindings(dirs[p]) - {name});
    }
  }

  // The directories after the destination was removed and the new entry added.
  ghost function Relinked(dirs: seq<seq<Entry>>, p: nat, name: Name, n: Number): seq<seq<Entry>>
    requires p < |dirs| && |name| < FILENAME_SIZE
  {
    var dirs1 := Cleared(dirs, p, name);
    dirs1[p := dirs1[p] + [Entry(FieldOf(name), n)]]
  }

  lemma RelinkedNames(dirs: seq<seq<Entry>>, p: nat, name: Name, n: Number)
    requires p < |dirs| && |name| < FILENAME_SIZE && UniqueNames(dirs[p])
    ensures name !in Bindings(Cleared(dirs, p, name)[p])
    ensures var dirs2 := Relinked(dirs, p, name, n);
      && |dirs2| == |dirs| && |dirs2[p]| >= |dirs[p]|
      && dirs2[p] == Cleared(dirs, p, name)[p] + [Entry(FieldOf(name), n)]
      && (forall q :: 0 <= q < |dirs| && q != p ==> dirs2[q] == dirs[q])
      && Bindings(dirs2[p]) == Bindings(dirs[p])[name := n]
  {
    ClearedNames(dirs, p, name);
    hide Bindings, UniqueNames, NameOf, FieldOf;
    var dirs1 := Cleared(dirs, p, name);
    FieldNames(name, n);
    AppendBinds(dirs1[p], Entry(FieldOf(name), n));
    SameMap((Bindings(dirs[p]) - {name})[name := n], Bindings(dirs[p])[name := n]);
  }

  // The source is found again once the file has its new name.
  lemma SourceStays(isDir: seq<bool>, dirs: seq<seq<Entry>>, dirs': seq<seq<Entry>>, from: Name, p: nat, name: Name,
                    n: Number)
    requires DirsOk(dirs, |isDir|) && DirsOk(dirs', |isDir|) && from != [] && from[0] == SLASH && LastName(from) != []
    requires Walk(isDir, dirs, 0, from[1..]) == Some(n) && DirPath(isDir, dirs, 0, from[..LastSlash(from)][1..])
    requires p < |dirs| == |dirs'| && (forall q :: 0 <= q < |dirs| && q != p ==> dirs'[q] == dirs[q])
    requires Bindings(dirs'[p]) == Bindings(dirs[p])[name := n]
    requires name in Bindings(dirs[p]) ==> Bindings(dirs[p])[name] < |isDir| && !isDir[Bindings(dirs[p])[name]]
    ensures var fp := ParentOf(isDir, dirs, from);
      && fp.Some? && fp.value < |dirs| && isDir[fp.value] && ParentOf(isDir, dirs', from) == fp
      && LastName(from) in Bindings(dirs[fp.value]) && LastName(from) in Bindings(dirs'[fp.value])
      && Bindings(dirs'[fp.value])[LastName(from)] == n
  {
    hide Walk, DirPath, Bindings, DirsOk, KeepsDirs, LastName, ParentOf, LastSlash, UniqueNames, NameOf, Operate;
    PathBinds(isDir, dirs, from);
    DirsSize(isDir, dirs);
    BindKeepsDirs(isDir, dirs, dirs', p, name, n);
    ParentIs(isDir, dirs, from);
    ParentIs(isDir, dirs', from);
    WalkStays(isDir, isDir, dirs, dirs', 0, from[..LastSlash(from)][1..]);
  }

  lemma DirsSize(isDir: seq<bool>, dirs: seq<seq<Entry>>)
    requires DirsOk(dirs, |isDir|)
    ensures |dirs| == |isDir|
  {
    hide UniqueNames;
  }

  lemma ParentIs(isDir: seq<bool>, dirs: seq<seq<Entry>>, path: Name)
    requires DirsOk(dirs, |isDir|) && path != [] && path[0] == SLASH
    ensures |path[..LastSlash(path)]| > 0
    ensures ParentOf(isDir, dirs, path) == Walk(isDir, dirs, 0, path[..LastSlash(path)][1..])
  {
    hide Walk, DirsOk;
  }

  // ---------- the whole rename ----------

  // The source, if it exists, is found through directories and is no ancestor in sight: not the
  // root, nor either directory. The target directory is one, what it binds to the new name is a
  // regular file whose entry unlink takes away, and nobody holds the root if it is the target
  // directory.
  ghost predicate RenamesFile(c: Cache, dirs: seq<seq<Entry>>, from: Name, to: Name)
    requires Sound(c, dirs) && from != [] && from[0] == SLASH && to != [] && to[0] == SLASH
  {
    SoundParts(c, dirs);
    var f, p := FileAt(c, dirs, from), Parent(c, dirs, to);
    f.Some? && p.Some? ==>
      && f.value != 0 && f != p && f != Parent(c, dirs, from)
      && LastName(from) != [] && DirPath(Flags(c), dirs, 0, from[..LastSlash(from)][1..])
      && IsDirectory(View(c, p.value).fileMode) && NamesFile(c, dirs, p.value, LastName(to))
      && Replaces(dirs[p.value], LastName(to))
      && (p.value == 0 ==> Held(c, 0) == 0)
  }

  // Unlinking the name, if it is there, takes its own entry away.
  ghost predicate Replaces(es: seq<Entry>, name: Name) {
    var g := First(es, 0, name);
    g < |es| ==> Victim(es, g) == g
  }

  ghost function Target(dirs: seq<seq<Entry>>, p: nat, name: Name): Option<nat>
    requires p < |dirs|
  {
    var g := First(dirs[p], 0, name);
    if g < |dirs[p]| then
      var n: nat := dirs[p][g].number;
      Some(n)
    else None
  }

  // The directories as maps: `name` in p is bound to n, then `source` in fp is unbound.
  ghost predicate Renamed(dirs: seq<seq<Entry>>, dirs': seq<seq<Entry>>, fp: nat, source: Name, p: nat, name: Name,
                          n: Number) {
    && fp < |dirs| == |dirs'| && p < |dirs|
    && (forall q :: 0 <= q < |dirs| && q != fp && q != p ==> dirs'[q] == dirs[q])
    && (fp == p ==> Bindings(dirs'[p]) == Bindings(dirs[p])[name := n] - {source})
    && (fp != p ==>
          Bindings(dirs'[p]) == Bindings(dirs[p])[name := n] && Bindings(dirs'[fp]) == Bindings(dirs[fp]) - {source})
  }

  // What became of the file: nothing, unless the target was the file itself.
  ghost predicate FileAfter(c: Cache, c': Cache, f: nat, wasTarget: bool) {
    && f < |c.table| == |c'.table|
    && (forall m: nat :: Held(c', m) == Held(c, m)) && |c'.free| == |c.free|
    && if wasTarget then LostLink(c, c', f) else View(c', f) == View(c, f)
  }

  ghost predicate OthersKept(c: Cache, c': Cache, f: nat, p: nat, fp: nat, dest: Option<nat>) {
    && |c.table| == |c'.table|
    && forall m :: 0 <= m < |c.table| && m != f && m != p && m != fp && dest != Some(m) ==> View(c', m) == View(c, m)
  }

  // What became of the file that the new name meant, if that was another one.
  ghost predicate ReplacedAfter(c: Cache, c': Cache, f: nat, dest: Option<nat>) {
    dest.Some? && dest != Some(f) ==> LostLink(c, c', dest.value)
  }

  // What became of a directory that lost or got an entry.
  ghost predicate DirAfter(c: Cache, c': Cache, dirs': seq<seq<Entry>>, q: nat) {
    && q < |c.table| == |c'.table| && q < |dirs'|
    && Resembles(View(c, q), View(c', q)) && View(c', q).size == 64 * |dirs'[q]|
  }

  // A rename of inode f into directory p. What happens to f, to the file it replaces and to the
  // other inodes does not depend on the marker; the names are right if and only if unlink takes
  // the source's own entry away at the end, and the state is sound if and only if it takes away
  // an entry of f or of a directory for a directory, and nobody else holds the root if the
  // source was in it.
  ghost predicate RenameDone(c: Cache, dirs: seq<seq<Entry>>, c': Cache, dirs': seq<seq<Entry>>, from: Name, to: Name,
                             f: nat, p: nat)
    requires Sound(c, dirs) && from != [] && from[0] == SLASH && to != [] && to[0] == SLASH
    requires |LastName(to)| < FILENAME_SIZE
  {
    var fp := Parent(c, dirs, from);
    && fp.Some? && fp.value < |dirs| && p < |dirs| && f < NUM_OF_INODES
    && FileAfter(c, c', f, Target(dirs, p, LastName(to)) == Some(f))
    && OthersKept(c, c', f, p, fp.value, Target(dirs, p, LastName(to)))
    && ReplacedAfter(c, c', f, Target(dirs, p, LastName(to)))
    && DirAfter(c, c', dirs', p) && DirAfter(c, c', dirs', fp.value)
    && SourceGone(c, dirs, c', dirs', fp.value, LastName(from), p, LastName(to), f)
  }

  ghost predicate SourceGone(c: Cache, dirs: seq<seq<Entry>>, c': Cache, dirs': seq<seq<Entry>>, fp: nat, source: Name,
                             p: nat, name: Name, f: Number)
    requires fp < |dirs| && p < |dirs| && |name| < FILENAME_SIZE
  {
    var dirs2 := Relinked(dirs, p, name, f);
    fp < |dirs2| &&
    var es := dirs2[fp];
    var i := First(es, 0, source);
    && i < |es|
    && dirs' == dirs2[fp := Removed(es, i)]
    && (Renamed(dirs, dirs', fp, source, p, name, f) <==> Victim(es, i) == i)
    && (Sound(c', dirs') <==> Pays(c, f, es[Victim(es, i)].number) && (fp != 0 || Held(c, 0) == 0))
  }

  ghost predicate MayRename(c: Cache, dirs: seq<seq<Entry>>, from: Name, to: Name) {
    && Sound(c, dirs) && |c.free| >= 3 && from != [] && from[0] == SLASH && to != [] && to[0] == SLASH
    && Short(from) && Short(to) && RenamesFile(c, dirs, from, to)
  }

  // renameFile: all its outcomes. If the target directory is not there, the reference to the
  // file is not given back.
  ghost predicate RenameEnds(c: Cache, dirs: seq<seq<Entry>>, from: Name, to: Name, c': Cache, dirs': seq<seq<Entry>>,
                             status: int)
    requires Sound(c, dirs) && from != [] && from[0] == SLASH && to != [] && to[0] == SLASH && Short(to)
  {
    LastIsShort(to);
    var f, p := FileAt(c, dirs, from), Parent(c, dirs, to);
    if f.None? || p.None? then
      && status == -2
      && Sound(c', dirs') && SameView(c, c') && OneMore(c, c', f) && dirs' == dirs
    else status == 0 && RenameDone(c, dirs, c', dirs', from, to, f.value, p.value)
  }

  lemma AfterRename(c0: Cache, c: Cache, c': Cache, dirs: seq<seq<Entry>>, f: nat, p: nat, fp: nat, dest: Option<nat>,
                    size: nat)
    requires Holding(c0, c, f, p, dest, false, false) && Unlinked(c, c', fp, f, size)
    requires View(c0, f).linksCount > 0
    requires f < |c.table| && View(c, f).linksCount == View(c0, f).linksCount + if dest == Some(f) then 0 else 1
    requires fp < |c.table| && p < |c.table| && fp < |dirs| && p < |dirs| && f != fp
    requires IsDirectory(View(c, fp).fileMode) && IsDirectory(View(c, p).fileMode)
    requires dest.Some? ==> dest.value < |c.table| && !IsDirectory(View(c, dest.value).fileMode)
    requires size == 64 * |dirs[fp]| && (p != fp ==> View(c, p).size == 64 * |dirs[p]|)
    ensures FileAfter(c0, c', f, dest == Some(f)) && OthersKept(c0, c', f, p, fp, dest)
    ensures ReplacedAfter(c0, c', f, dest) && DirAfter(c0, c', dirs, p) && DirAfter(c0, c', dirs, fp)
    ensures Held(c, 0) == Held(c0, 0)
  {
    hide View, Held, IsDirectory;
  }

  // Unlinking the source in the directories that the link was added to gives the renamed maps
  // if and only if it takes the source's own entry away.
  lemma RenamedIff(dirs: seq<seq<Entry>>, fp: nat, source: Name, p: nat, name: Name, n: Number, i: nat)
    requires fp < |dirs| && p < |dirs| && |name| < FILENAME_SIZE
    requires UniqueNames(dirs[p]) && UniqueNames(Relinked(dirs, p, name, n)[fp])
    requires i < |Relinked(dirs, p, name, n)[fp]| && NameOf(Relinked(dirs, p, name, n)[fp][i]) == source
    ensures var dirs2 := Relinked(dirs, p, name, n);
      Renamed(dirs, dirs2[fp := Removed(dirs2[fp], i)], fp, source, p, name, n) <==> Victim(dirs2[fp], i) == i
  {
    hide Bindings, UniqueNames, SwapRemoved, Relinked, NameOf, Removed, Victim;
    var dirs2 := Relinked(dirs, p, name, n);
    RelinkedNames(dirs, p, name, n);
    RemovedBinds(dirs2[fp], i);
  }

  // Unlinking entry i unbinds the name of the victim: exactly when that is entry i, its name.
  lemma RemovedBinds(es: seq<Entry>, i: nat)
    requires UniqueNames(es) && i < |es|
    ensures UniqueNames(Removed(es, i)) && Bindings(Removed(es, i)) == Bindings(es) - {NameOf(es[Victim(es, i)])}
    ensures Bindings(Removed(es, i)) == Bindings(es) - {NameOf(es[i])} <==> Victim(es, i) == i
  {
    hide Bindings, UniqueNames, SwapRemoved, NameOf, Removed, Victim;
    var v := Victim(es, i);
    RemovedIs(es, i);
    SwapUnbinds(es, v);
    BindsAt(es, i);
    if v != i {
      DistinctNames(es, i, v);
      assert NameOf(es[i]) in Bindings(es) - {NameOf(es[v])};
    }
  }

  // After a rename the new name is bound if and only if it was not the old one: renaming a file
  // to itself unbinds it.
  lemma NewNameBoundIff(dirs: seq<seq<Entry>>, dirs': seq<seq<Entry>>, fp: nat, source: Name, p: nat, name: Name,
                        n: Number)
    requires Renamed(dirs, dirs', fp, source, p, name, n)
    ensures name in Bindings(dirs'[p]) <==> fp != p || source != name
    ensures name in Bindings(dirs'[p]) ==> Bindings(dirs'[p])[name] == n
  {
    hide Bindings;
  }

  // ---------- the steps put together ----------

  // What the start of a rename says about the inode and the two directories.
  lemma RenameStart(c: Cache, dirs: seq<seq<Entry>>, from: Name, to: Name, f: nat, p: nat)
    requires Sound(c, dirs) && from != [] && from[0] == SLASH && to != [] && to[0] == SLASH
    requires RenamesFile(c, dirs, from, to)
    requires FileAt(c, dirs, from) == Some(f) && Parent(c, dirs, to) == Some(p)
    ensures 0 < f < |c.table| == |dirs| == NUM_OF_INODES && p < |c.table| && f != p
    ensures View(c, f).kind != Unused && View(c, f).linksCount > 0 && View(c, 0).linksCount == 0
    ensures View(c, f).kind == INode.Directory ==> Target(dirs, p, LastName(to)) != Some(f)
    ensures IsDirectory(View(c, p).fileMode) && NamesFile(c, dirs, p, LastName(to)) && UniqueNames(dirs[p])
    ensures Replaces(dirs[p], LastName(to)) && (p == 0 ==> Held(c, 0) == 0) && InUse(c, p)
  {
    SoundParts(c, dirs);
    UniqueAt(dirs, p);
    CountedAt(c, dirs, f);
    ParentInUse(c, dirs, to, p);
    PathBinds(Flags(c), dirs, from);
    var fp := ParentOf(Flags(c), dirs, from).value;
    FirstIsBound(dirs, fp, LastName(from));
    NamedInUse(c, dirs, fp, First(dirs[fp], 0, LastName(from)));
    hide View, Inv, IsDirectory, DirsOk, DirPath, Walk, Naming, UniqueNames, LastName, NamesFile, ParentOf, Flags, Held;
    hide Replaces;
  }

  lemma FirstIsBound(dirs: seq<seq<Entry>>, p: nat, name: Name)
    requires DirsOk(dirs, |dirs|) && p < |dirs| && name in Bindings(dirs[p])
    ensures First(dirs[p], 0, name) < |dirs[p]| && dirs[p][First(dirs[p], 0, name)].number == Bindings(dirs[p])[name]
    ensures NameOf(dirs[p][First(dirs[p], 0, name)]) == name
  {
    hide Bindings, UniqueNames, NameOf;
    UniqueAt(dirs, p);
    SearchIsLookUp(dirs[p], name);
  }

  lemma HoldingCleared(c0: Cache, c: Cache, c': Cache, dirs: seq<seq<Entry>>, f: nat, p: nat, name: Name, size: nat)
    requires p < |dirs| && Holding(c0, c, f, p, None, true, true) && Sound(c, dirs) && NamesFile(c0, dirs, p, name)
    requires SameView(c0, c) && IsDirectory(View(c0, p).fileMode)
    requires First(dirs[p], 0, name) == |dirs[p]| ==> SameView(c, c') && OneMore(c, c', None) && Ready(c')
    requires First(dirs[p], 0, name) < |dirs[p]| ==> Unlinked(c, c', p, dirs[p][First(dirs[p], 0, name)].number, size)
    ensures f < |c0.table| == |c'.table|
    ensures Holding(c0, c', f, p, Target(dirs, p, name), true, true)
    ensures View(c', f).linksCount == View(c0, f).linksCount - if Target(dirs, p, name) == Some(f) then 1 else 0
  {
    SoundReady(c, dirs);
    hide View, Held, Inv, IsDirectory, Holding, SameView, Unlinked, DirsOk, Naming, Sound, Ready;
    HoldingFlags(c0, c, f, p, None, true, true);
    SameViewAt(c0, c, f);
    if First(dirs[p], 0, name) == |dirs[p]| {
      HoldingSame(c0, c, c', f, p, None);
      HoldingFlags(c0, c', f, p, None, true, true);
      SameViewAt(c, c', f);
    } else {
      var n := dirs[p][First(dirs[p], 0, name)].number;
      SameViewAt(c0, c, n);
      CountedAt(c, dirs, n);
      HoldingUnlinked(c0, c, c', f, p, n, size);
      HoldingFlags(c0, c', f, p, Some(n), true, true);
    }
  }

  // The source can be unlinked after the new link was made.
  lemma ReadyToUnlink(c0: Cache, c: Cache, dirs: seq<seq<Entry>>, from: Name, to: Name, f: nat, p: nat)
    requires Sound(c0, dirs) && from != [] && from[0] == SLASH && to != [] && to[0] == SLASH
    requires RenamesFile(c0, dirs, from, to)
    requires FileAt(c0, dirs, from) == Some(f) && Parent(c0, dirs, to) == Some(p) && |LastName(to)| < FILENAME_SIZE
    requires f < NUM_OF_INODES && p < |dirs| && f < |c.table|
    requires Sound(c, Relinked(dirs, p, LastName(to), f))
    requires Holding(c0, c, f, p, Target(dirs, p, LastName(to)), false, false)
    requires View(c, f).linksCount == View(c0, f).linksCount + if Target(dirs, p, LastName(to)) == Some(f) then 0 else 1
    ensures var dirs2, fp := Relinked(dirs, p, LastName(to), f), Parent(c0, dirs, from);
      && fp.Some? && fp.value < |dirs| == |dirs2| == |c.table| == |c0.table| && Parent(c, dirs2, from) == fp
      && UniqueNames(dirs2[fp.value]) && Bound(c, dirs2, fp.value, LastName(from))
         && Removable(c, dirs2, fp.value, LastName(from))
      && var i := First(dirs2[fp.value], 0, LastName(from));
         i < |dirs2[fp.value]| && dirs2[fp.value][i].number == f && NameOf(dirs2[fp.value][i]) == LastName(from)
  {
    var dirs2 := Relinked(dirs, p, LastName(to), f);
    RenameStart(c0, dirs, from, to, f, p);
    HoldingFlags(c0, c, f, p, Target(dirs, p, LastName(to)), false, false);
    RelinkedNames(dirs, p, LastName(to), f);
    SoundParts(c0, dirs);
    SoundParts(c, dirs2);
    NotADirectory(c0, dirs, p, LastName(to));
    hide View, Held, Inv, IsDirectory, Holding, DirPath, Walk, Naming, Bindings, NameOf, Flags, LastName, Relinked;
    hide DirsOk;
    hide ParentOf, Target, Replaces;
    SourceStays(Flags(c0), dirs, dirs2, from, p, LastName(to), f);
    var fp := ParentOf(Flags(c0), dirs, from).value;
    FirstIsBound(dirs2, fp, LastName(from));
    FlagAt(c0, fp);
    FlagAt(c, fp);
    UniqueAt(dirs2, fp);
  }

  // After the new link was made: the file that was replaced is no directory, the target directory
  // has the size of its entries.
  lemma LinkedDirs(c0: Cache, c: Cache, dirs: seq<seq<Entry>>, from: Name, to: Name, f: nat, p: nat)
    requires Sound(c0, dirs) && from != [] && from[0] == SLASH && to != [] && to[0] == SLASH
    requires RenamesFile(c0, dirs, from, to)
    requires FileAt(c0, dirs, from) == Some(f) && Parent(c0, dirs, to) == Some(p) && |LastName(to)| < FILENAME_SIZE
    requires f < NUM_OF_INODES && p < |dirs|
    requires Counted(c, Relinked(dirs, p, LastName(to), f))
    requires Holding(c0, c, f, p, Target(dirs, p, LastName(to)), false, false)
    ensures p < |c.table| == |c0.table| && p < |Relinked(dirs, p, LastName(to), f)|
    ensures IsDirectory(View(c, p).fileMode) && View(c, p).size == 64 * |Relinked(dirs, p, LastName(to), f)[p]|
    ensures var dest := Target(dirs, p, LastName(to));
            dest.Some? ==> dest.value < |c.table| && !IsDirectory(View(c, dest.value).fileMode)
    ensures Parent(c0, dirs, from) != Some(f)
  {
    var dirs2, dest := Relinked(dirs, p, LastName(to), f), Target(dirs, p, LastName(to));
    RenameStart(c0, dirs, from, to, f, p);
    TargetIsFile(c0, dirs, p, LastName(to));
    hide View, Held, Inv, IsDirectory, Holding, Naming, Flags, LastName, Relinked, DirsOk, Target, Parent, FileAt;
    hide Sound, DirPath, NamesFile, Replaces;
    HoldingFlags(c0, c, f, p, dest, false, false);
    FlagAt(c0, p);
    FlagAt(c, p);
    CountedAt(c, dirs2, p);
    if dest.Some? {
      FlagAt(c0, dest.value);
      FlagAt(c, dest.value);
    }
  }

  lemma TargetIsFile(c: Cache, dirs: seq<seq<Entry>>, p: nat, name: Name)
    requires Sound(c, dirs) && p < |dirs| == |c.table| && NamesFile(c, dirs, p, name)
    requires IsDirectory(View(c, p).fileMode)
    ensures var dest := Target(dirs, p, name);
            dest.Some? ==> dest.value < |c.table| && !IsDirectory(View(c, dest.value).fileMode)
  {
    hide View, Inv, IsDirectory, Naming, First;
    SoundParts(c, dirs);
    var dest := Target(dirs, p, name);
    if dest.Some? {
      CountedAt(c, dirs, dest.value);
    }
  }

  // The victim of the last unlink was a directory all along, or not.
  lemma PaysSame(c0: Cache, c: Cache, f: nat, p: nat, dest: Option<nat>, n: nat, v: nat)
    requires Holding(c0, c, f, p, dest, false, false)
    ensures Pays(c, n, v) == Pays(c0, n, v)
  {
    hide View, Held, IsDirectory;
  }

  // If the marker keeps the target's own entry, the new entry gives the directory the name twice.
  lemma TwiceNamed(es: seq<Entry>, name: Name, n: Number)
    requires |name| < FILENAME_SIZE && First(es, 0, name) < |es| && !Replaces(es, name)
    ensures !UniqueNames(Removed(es, First(es, 0, name)) + [Entry(FieldOf(name), n)])
  {
    var g := First(es, 0, name);
    var after := Removed(es, g) + [Entry(FieldOf(name), n)];
    FieldNames(name, n);
    RemovedIs(es, g);
    hide NameOf, FieldOf, Removed, First;
    assert after[g] == es[g] && NameOf(after[|es| - 1]) == name;
  }

  // What the target binds to the new name is no directory.
  lemma NotADirectory(c: Cache, dirs: seq<seq<Entry>>, p: nat, name: Name)
    requires Sound(c, dirs) && p < |dirs| == |c.table| && NamesFile(c, dirs, p, name)
    requires IsDirectory(View(c, p).fileMode)
    ensures name in Bindings(dirs[p]) ==> Bindings(dirs[p])[name] < |c.table| && !Flags(c)[Bindings(dirs[p])[name]]
  {
    hide View, Inv, IsDirectory, Naming, Bindings, UniqueNames, NameOf, Flags;
    SoundParts(c, dirs);
    if name in Bindings(dirs[p]) {
      FirstIsBound(dirs, p, name);
      var n := dirs[p][First(dirs[p], 0, name)].number;
      CountedAt(c, dirs, n);
      FlagAt(c, n);
    }
  }
}
