/**
  What the steps of create, unlink and path resolution do to the views of the inodes, to the
  references held and to link counts.
 */
module VolumeSteps {
  import opened FileMap
  import opened INode
  import opened CacheModel
  import opened CacheView
  import opened DirectoryEntry
  import opened Directory
  import opened DirectoryContent
  import opened Paths
  import opened Links

  // Every inode looks the same.
  ghost predicate SameView(c: Cache, c': Cache) {
    |c'.table| == |c.table| && forall n :: 0 <= n < |c.table| ==> View(c', n) == View(c, n)
  }

  // One more reference, to the inode `to`, and no other change in the references.
  ghost predicate OneMore(c: Cache, c': Cache, to: Option<nat>) {
    && (forall n: nat :: Held(c', n) == Held(c, n) + if to == Some(n) then 1 else 0)
    && |c'.free| == |c.free| - if to.Some? && Held(c, to.value) == 0 then 1 else 0
  }

  // The root can be fetched again without loss.
  ghost predicate Ready(c: Cache) {
    Inv(c) && 0 < |c.table| && View(c, 0) == c.table[0]
  }

  lemma NoMore(c: Cache)
    ensures SameView(c, c) && OneMore(c, c, None)
  {
  }

  lemma SoundReady(c: Cache, dirs: seq<seq<Entry>>)
    requires Sound(c, dirs)
    ensures Ready(c) && Counted(c, dirs) && InUse(c, 0)
  {
    hide View, Inv, Sound, Counted;
    SoundParts(c, dirs);
  }

  lemma SameViewAt(c: Cache, c': Cache, n: nat)
    requires SameView(c, c') && n < |c.table|
    ensures n < |c'.table| == |c.table| && View(c', n) == View(c, n)
  {
    hide View;
  }

  lemma OneMoreAt(c: Cache, c': Cache, to: Option<nat>, n: nat)
    requires OneMore(c, c', to)
    ensures Held(c', n) == Held(c, n) + if to == Some(n) then 1 else 0
    ensures |c'.free| == |c.free| - if to.Some? && Held(c, to.value) == 0 then 1 else 0
  {
    hide Held;
  }

  // iget of an inode that is in use.
  lemma TakeUp(c0: Cache, c: Cache, n: nat)
    requires Ready(c) && SameView(c0, c) && OneMore(c0, c, None) && InUse(c, n) && c.free != []
    ensures Available(c, n)
    ensures var c' := Acquire(c, n); Ready(c') && SameView(c0, c') && OneMore(c0, c', Some(n)) && InUse(c', n)
  {
    assert Available(c, n);
    hide View, Held, Inv, Acquire, Available;
    AcquireKeeps(c, n);
  }

  // iput of an inode that is in use.
  lemma LetGo(c0: Cache, c: Cache, n: nat, nums: Slots)
    requires Ready(c) && SameView(c0, c) && OneMore(c0, c, Some(n)) && InUse(c, n)
    ensures Held(c, n) > 0
    ensures var c' := Release(c, n, nums); Ready(c') && SameView(c0, c') && OneMore(c0, c', None)
  {
    hide View, Held, Inv, Release;
    OneMoreAt(c0, c, Some(n), n);
    ReleaseKeeps(c, n, nums);
    if n == 0 && Held(c, 0) == 1 {
      UnheldView(Release(c, n, nums), 0);
    }
  }

  // A cache with the same views is as good.
  lemma SoundSame(c: Cache, c': Cache, dirs: seq<seq<Entry>>)
    requires Sound(c, dirs) && SameView(c, c') && Ready(c')
    ensures Sound(c', dirs)
  {
    hide View, Inv, DirsOk, Naming, RootOk, Exact;
    assert |dirs| == |c.table| > 0 by { SoundParts(c, dirs); }
    forall n | 0 <= n < |c.table|
      ensures Exact(n, View(c', n), Naming(dirs, n), |dirs[n]|)
    {
      CountedAt(c, dirs, n);
    }
  }

  // The inodes that validateSearch accepts.
  ghost function Flags(c: Cache): (f: seq<bool>)
    ensures |f| == |c.table|
  {
    seq(|c.table|, n requires 0 <= n < |c.table| => IsDirectory(View(c, n).fileMode))
  }

  lemma FlagsSame(c: Cache, c': Cache)
    requires |c'.table| == |c.table|
    requires forall n :: 0 <= n < |c.table| ==> IsDirectory(View(c', n).fileMode) == IsDirectory(View(c, n).fileMode)
    ensures Flags(c') == Flags(c)
  {
    hide View, IsDirectory;
  }

  lemma FlagAt(c: Cache, n: nat)
    requires n < |c.table|
    ensures Flags(c)[n] == IsDirectory(View(c, n).fileMode)
  {
    hide View, IsDirectory;
  }

  // Only directories hold entries.
  lemma SoundFiles(c: Cache, dirs: seq<seq<Entry>>)
    requires Counted(c, dirs)
    ensures DirsOk(dirs, |Flags(c)|) && |dirs| == |Flags(c)| && FilesEmpty(Flags(c), dirs)
  {
    hide View, Inv, Naming, IsDirectory;
    CountedParts(c, dirs);
    forall n | 0 <= n < |dirs| && !Flags(c)[n]
      ensures dirs[n] == []
    {
      CountedAt(c, dirs, n);
      FlagAt(c, n);
    }
  }

  // In a sound state a path leads where the directories say if and only if it is straight.
  lemma ResolvesIff(c: Cache, dirs: seq<seq<Entry>>, path: Name)
    requires Sound(c, dirs)
    ensures DirsOk(dirs, |Flags(c)|) && DirsOk(dirs, |dirs|) && 0 < |dirs| == |Flags(c)|
    ensures Walk(Flags(c), dirs, 0, path) == Fold(dirs, 0, Components(path)) <==> Straight(Flags(c), dirs, 0, path)
  {
    hide View, Inv, Counted, DirsOk, FilesEmpty, Walk, Fold, Straight, Components;
    SoundParts(c, dirs);
    SoundFiles(c, dirs);
    WalkIsFoldIff(Flags(c), dirs, 0, path);
  }

  // ---------- one link less ----------

  // iget, linksCount - 1, iput.
  ghost predicate LessByOne(c: Cache, c': Cache, n: nat)
    requires n < |c.table|
  {
    && |c'.table| == |c.table| && |c'.free| == |c.free| && c'.table[0] == c.table[0]
    && (forall m :: 0 <= m < |c.table| && m != n ==> View(c', m) == View(c, m))
    && (forall m: nat :: Held(c', m) == Held(c, m))
    && (if Held(c, n) == 0 && View(c, n).linksCount == 1 then Gone(View(c', n))
        else View(c, n).linksCount > 0 && View(c', n) == View(c, n).(linksCount := View(c, n).linksCount - 1))
  }

  lemma DropLink(c: Cache, n: nat, nums: Slots)
    requires Inv(c) && 0 < n < |c.table| && View(c, n).linksCount > 0 && c.free != []
    ensures Available(c, n) && Inv(Acquire(c, n)) && n < |Acquire(c, n).table| && View(Acquire(c, n), n) == View(c, n)
    ensures Held(Acquire(c, n), n) > 0
    ensures var c1 := Acquire(c, n);
      var c2 := Update(c1, n, View(c1, n).(linksCount := View(c, n).linksCount - 1));
      && Inv(c2) && Held(c2, n) > 0
      && var c3 := Release(c2, n, nums);
      && Inv(c3) && LessByOne(c, c3, n)
  {
    hide View, Held, Inv, Acquire, Update, Release, Available, Gone;
    HeldAvailable(c, n);
    AcquireKeeps(c, n);
    var c1 := Acquire(c, n);
    ViewNumber(c1, n);
    var ino := View(c1, n).(linksCount := View(c, n).linksCount - 1);
    UpdateKeeps(c1, n, ino);
    var c2 := Update(c1, n, ino);
    ReleaseKeeps(c2, n, nums);
  }

  // Only size and slots of inode p changed.
  ghost predicate Resized(c: Cache, c': Cache, p: nat, size: nat)
    requires p < |c.table|
  {
    && c'.table == c.table && |c'.free| == |c.free|
    && (forall m :: 0 <= m < |c.table| && m != p ==> View(c', m) == View(c, m))
    && View(c', p) == View(c, p).(size := size, dataBlockNums := View(c', p).dataBlockNums)
    && (forall m: nat :: Held(c', m) == Held(c, m))
  }

  // The name is found in a directory.
  ghost predicate Bound(c: Cache, dirs: seq<seq<Entry>>, p: nat, name: Name)
    requires p < |c.table| == |dirs|
  {
    IsDirectory(View(c, p).fileMode) && First(dirs[p], 0, name) < |dirs[p]|
  }

  // The name, if bound, is that of a regular file.
  ghost predicate NamesFile(c: Cache, dirs: seq<seq<Entry>>, p: nat, name: Name)
    requires p < |c.table| == |dirs|
  {
    Bound(c, dirs, p, name) ==>
      && dirs[p][First(dirs[p], 0, name)].number < |c.table|
      && View(c, dirs[p][First(dirs[p], 0, name)].number).kind == Regular
  }

  // Inode n can lose a name in directory p: it is a regular file, or a directory other than the
  // root and p that keeps a link.
  ghost predicate MayGo(c: Cache, p: nat, n: nat) {
    && n < |c.table|
    && (View(c, n).kind == Regular
       || (View(c, n).kind == INode.Directory && View(c, n).linksCount > 1 && n != 0 && n != p))
  }

  ghost predicate Removable(c: Cache, dirs: seq<seq<Entry>>, p: nat, name: Name)
    requires p < |c.table| == |dirs|
  {
    Bound(c, dirs, p, name) ==> MayGo(c, p, dirs[p][First(dirs[p], 0, name)].number)
  }

  // Taking an entry of inode v away for one link less of inode n leaves the counts right: only
  // regular files have as many links as names.
  ghost predicate Pays(c: Cache, n: nat, v: nat) {
    n < |c.table| && v < |c.table| && (v == n || (IsDirectory(View(c, n).fileMode) && IsDirectory(View(c, v).fileMode)))
  }

  lemma SamePays(c: Cache, c': Cache, n: nat, v: nat)
    requires SameView(c, c')
    ensures Pays(c', n, v) == Pays(c, n, v)
  {
    hide View, IsDirectory;
  }

  lemma PaysOwn(c: Cache, n: nat)
    requires n < |c.table|
    ensures Pays(c, n, n)
  {
  }

  // The entries that unlinking entry f leaves.
  function Removed(es: seq<Entry>, f: nat): (r: seq<Entry>)
    requires f < |es|
    ensures |r| == |es| - 1
  {
    Swapped(64 * |es|, es, f)[..|es| - 1]
  }

  // The entry that unlinking entry f takes away: f itself, or the last if the marker stays.
  function Victim(es: seq<Entry>, f: nat): (v: nat)
    requires f < |es|
    ensures v < |es| && v == if |es| <= 2 && es[|es| - 1].number == 65535 then |es| - 1 else f
  {
    if MarkerStays(64 * |es|, es[|es| - 1]) then |es| - 1 else f
  }

  lemma RemovedIs(es: seq<Entry>, f: nat)
    requires f < |es|
    ensures Removed(es, f) == SwapRemoved(es, Victim(es, f))
  {
    var last := |es| - 1;
    assert es[last := es[last]][..last] == es[..last];
  }

  // Unlinking entry f, of inode n, in directory p.
  ghost predicate Unlinked(c: Cache, c': Cache, p: nat, n: nat, size: nat) {
    && p < |c.table| && 0 < n < |c.table| && p != n
    && |c'.table| == |c.table| && |c'.free| == |c.free|
    && (p != 0 || Held(c, 0) > 0 ==> c'.table[0] == c.table[0])
    && (forall m :: 0 <= m < |c.table| && m != n && m != p ==> View(c', m) == View(c, m))
    && View(c', p) == View(c, p).(size := size, dataBlockNums := View(c', p).dataBlockNums)
    && (forall m: nat :: Held(c', m) == Held(c, m))
    && (if Held(c, n) == 0 && View(c, n).linksCount == 1 then Gone(View(c', n))
        else View(c, n).linksCount > 0 && View(c', n) == View(c, n).(linksCount := View(c, n).linksCount - 1))
  }

  lemma LessAndResized(c: Cache, c1: Cache, c': Cache, p: nat, n: nat, size: nat)
    requires 0 < n < |c.table| == |c1.table| && p < |c.table| && p != n && LessByOne(c, c1, n)
    requires Resized(c1, c', p, size)
    requires Held(c, p) > 0
    ensures Unlinked(c, c', p, n, size)
  {
    hide View, Held;
  }

  lemma LessHeld(c: Cache, c': Cache, n: nat, p: nat)
    requires n < |c.table| && p < |c.table| && LessByOne(c, c', n) && p != n
    ensures |c'.table| == |c.table| && Held(c', p) == Held(c, p) && View(c', p) == View(c, p)
  {
    hide View, Held;
  }

  // What can go is neither the root nor the directory that is searched, and has a link.
  lemma FileIsApart(c: Cache, dirs: seq<seq<Entry>>, p: nat, n: nat)
    requires Counted(c, dirs) && p < |c.table| && IsDirectory(View(c, p).fileMode) && MayGo(c, p, n)
    ensures n < |c.table| && n != 0 && n != p
  {
    hide View, Inv, Naming, DirsOk, IsDirectory;
    CountedAt(c, dirs, n);
  }

  lemma ModesOfNone()
    ensures !IsDirectory(0)
  {
  }

  lemma DirsRemoved(dirs: seq<seq<Entry>>, p: nat, f: nat)
    requires DirsOk(dirs, |dirs|) && p < |dirs| && f < |dirs[p]|
    ensures DirsOk(dirs[p := SwapRemoved(dirs[p], f)], |dirs|)
  {
    SwapMoves(dirs[p], f);
    hide UniqueNames, SwapRemoved;
  }

  // One link less of an inode and one entry less, be it the inode's own or another's: exactly
  // when the link counts are still right.
  lemma UnlinkCounted(c: Cache, c': Cache, dirs: seq<seq<Entry>>, p: nat, f: nat)
    requires Counted(c, dirs) && Inv(c') && p < |dirs| == |c.table| && f < |dirs[p]| && IsDirectory(View(c, p).fileMode)
    requires var n := dirs[p][f].number; MayGo(c, p, n) && Unlinked(c, c', p, n, 64 * (|dirs[p]| - 1))
    ensures Counted(c', dirs[p := Removed(dirs[p], f)])
            <==> Pays(c, dirs[p][f].number, dirs[p][Victim(dirs[p], f)].number)
  {
    var es := dirs[p];
    var n, w := es[f].number, Victim(es, f);
    var v := es[w].number;
    var dirs' := dirs[p := Removed(es, f)];
    RemovedIs(es, f);
    NamedInTable(c, dirs, p, w);
    hide View, Inv, Held, Naming, CountIn, DirsOk, SwapRemoved, IsDirectory, Removed, Victim, Gone, Unlinked;
    RemovedCount(dirs, p, w, n);
    RemovedCount(dirs, p, w, v);
    CountedAt(c, dirs, n);
    CountedAt(c, dirs, v);
    NamesSome(dirs, p, f);
    NamesSome(dirs, p, w);
    UnlinkedFile(c, c', p, n, 64 * (|es| - 1));
    UnlinkedOther(c, c', p, n, 64 * (|es| - 1), v);
    if Pays(c, n, v) {
      UnlinkRight(c, c', dirs, p, f, w);
    } else if Counted(c', dirs') {
      CountedAt(c', dirs', n);
      CountedAt(c', dirs', v);
    }
  }

  lemma UnlinkedOther(c: Cache, c': Cache, p: nat, n: nat, size: nat, v: nat)
    requires Unlinked(c, c', p, n, size) && v < |c.table|
    ensures v < |c'.table|
    ensures v != n ==> View(c', v).kind == View(c, v).kind && View(c', v).linksCount == View(c, v).linksCount
    ensures v != n ==> View(c', v).fileMode == View(c, v).fileMode
  {
    hide View, Held;
  }

  lemma RemovedCount(dirs: seq<seq<Entry>>, p: nat, v: nat, m: nat)
    requires p < |dirs| && v < |dirs[p]|
    ensures Naming(dirs[p := SwapRemoved(dirs[p], v)], m) == Naming(dirs, m) - if dirs[p][v].number == m then 1 else 0
  {
    hide Naming, CountIn, SwapRemoved;
    NamingSet(dirs, p, SwapRemoved(dirs[p], v), m);
    CountSwapRemoved(dirs[p], v, m);
  }

  lemma UnlinkedFile(c: Cache, c': Cache, p: nat, n: nat, size: nat)
    requires Unlinked(c, c', p, n, size)
    ensures n < |c.table| == |c'.table|
    ensures View(c', n).linksCount > 0 ==>
              View(c', n).kind == View(c, n).kind && View(c', n).linksCount + 1 == View(c, n).linksCount
  {
    hide View, Held;
  }

  lemma UnlinkRight(c: Cache, c': Cache, dirs: seq<seq<Entry>>, p: nat, f: nat, w: nat)
    requires Counted(c, dirs) && Inv(c') && p < |dirs| == |c.table| && f < |dirs[p]| && w < |dirs[p]|
    requires IsDirectory(View(c, p).fileMode)
    requires var n := dirs[p][f].number;
      && MayGo(c, p, n) && Pays(c, n, dirs[p][w].number) && Unlinked(c, c', p, n, 64 * (|dirs[p]| - 1))
    ensures Counted(c', dirs[p := SwapRemoved(dirs[p], w)])
  {
    var n, dirs' := dirs[p][f].number, dirs[p := SwapRemoved(dirs[p], w)];
    DirsRemoved(dirs, p, w);
    SwapMoves(dirs[p], w);
    assert DirsOk(dirs', |c'.table|);
    ModesOfNone();
    hide View, Inv, Held, Naming, CountIn, DirsOk, SwapRemoved, IsDirectory;
    forall m | 0 <= m < |c.table|
      ensures Exact(m, View(c', m), Naming(dirs', m), |dirs'[m]|)
    {
      RemovedCount(dirs, p, w, m);
      CountedAt(c, dirs, m);
    }
  }

  // ---------- one link more ----------

  // An inode with one link more, or an unused one that became a regular file.
  ghost predicate Linkable(a: DiskINode, b: DiskINode) {
    && b.linksCount == a.linksCount + 1
    && ((a.kind != Unused && b.kind == a.kind && b.fileMode == a.fileMode && b.size == a.size)
        || (a.kind == Unused && b.kind == Regular && !IsDirectory(b.fileMode)))
  }

  lemma LinkCounted(c: Cache, c': Cache, dirs: seq<seq<Entry>>, p: nat, e: Entry)
    requires Counted(c, dirs) && Inv(c') && p < |dirs| == |c'.table| == |c.table| && e.number < |c.table|
    requires NameOf(e) !in Bindings(dirs[p]) && p != e.number
    requires forall m :: 0 <= m < |c.table| && m != e.number && m != p ==> Alike(View(c', m), View(c, m))
    requires IsDirectory(View(c, p).fileMode) && Alike(View(c', p), View(c, p).(size := 64 * (|dirs[p]| + 1)))
    requires e.number != 0 && Linkable(View(c, e.number), View(c', e.number))
    ensures Counted(c', dirs[p := dirs[p] + [e]])
  {
    hide View, Inv, Held, Naming, CountIn, DirsOk, IsDirectory, Bindings, NameOf, Exact, Linkable, Alike;
    var dirs' := dirs[p := dirs[p] + [e]];
    CountedParts(c, dirs);
    DirsAppend(dirs, p, e);
    forall m | 0 <= m < |c.table|
      ensures Exact(m, View(c', m), Naming(dirs', m), |dirs'[m]|)
    {
      NamingSet(dirs, p, dirs[p] + [e], m);
      CountAppend(dirs[p], e, m);
      CountedAt(c, dirs, m);
      CountedAt(c, dirs, 0);
      if m == e.number {
        ExactLinked(m, View(c, m), View(c', m), Naming(dirs, m), |dirs[m]|);
      } else if m == p {
        ExactLonger(m, View(c, m), View(c', m), Naming(dirs, m), |dirs[m]|);
      } else {
        ExactAlike(m, View(c, m), View(c', m), Naming(dirs, m), |dirs[m]|);
      }
    }
    StillRoot(View(c, 0), View(c', 0), p, |dirs[p]|);
  }

  lemma ExactLinked(n: nat, a: DiskINode, b: DiskINode, names: nat, entries: nat)
    requires Exact(n, a, names, entries) && Linkable(a, b) && n != 0
    ensures Exact(n, b, names + 1, entries)
  {
    hide IsDirectory;
  }

  lemma ExactLonger(n: nat, a: DiskINode, b: DiskINode, names: nat, entries: nat)
    requires Exact(n, a, names, entries) && IsDirectory(a.fileMode) && Alike(b, a.(size := 64 * (entries + 1)))
    ensures Exact(n, b, names, entries + 1)
  {
    hide IsDirectory;
  }

  lemma StillRoot(a: DiskINode, b: DiskINode, p: nat, entries: nat)
    requires RootOk(a) && if p == 0 then Alike(b, a.(size := 64 * (entries + 1))) else Alike(b, a)
    ensures RootOk(b)
  {
  }

  lemma DirsAppend(dirs: seq<seq<Entry>>, p: nat, e: Entry)
    requires DirsOk(dirs, |dirs|) && p < |dirs| && e.number < |dirs| && NameOf(e) !in Bindings(dirs[p])
    ensures DirsOk(dirs[p := dirs[p] + [e]], |dirs|)
  {
    AppendBinds(dirs[p], e);
    hide UniqueNames, Bindings, NameOf;
  }

  // ---------- putting steps together ----------

  lemma NamedInTable(c: Cache, dirs: seq<seq<Entry>>, p: nat, f: nat)
    requires Counted(c, dirs) && p < |dirs| && f < |dirs[p]|
    ensures dirs[p][f].number < |c.table|
  {
    hide View, Inv, Exact, Naming, UniqueNames;
  }

  // The root is still, or again, as the table has it, unless it changed while someone else held
  // it.
  lemma RootAfter(c: Cache, c': Cache, p: nat)
    requires Ready(c) && Inv(c') && |c'.table| == |c.table| && Held(c', 0) == Held(c, 0)
    requires p != 0 || Held(c, 0) > 0 ==> c'.table[0] == c.table[0]
    requires if p == 0 then View(c', 0).size != View(c, 0).size else View(c', 0) == View(c, 0)
    ensures View(c', 0) == c'.table[0] <==> p != 0 || Held(c, 0) == 0
  {
    if p == 0 && Held(c, 0) == 0 {
      UnheldView(c', 0);
    }
    hide View, Held, Inv;
  }

  lemma UnlinkedRoot(c: Cache, c': Cache, dirs: seq<seq<Entry>>, p: nat, n: nat)
    requires Sound(c, dirs) && p < |dirs| && dirs[p] != [] && Inv(c')
    requires Unlinked(c, c', p, n, 64 * (|dirs[p]| - 1))
    requires IsDirectory(View(c, p).fileMode)
    ensures |c'.table| == |c.table| > 0
    ensures View(c', 0) == c'.table[0] <==> p != 0 || Held(c, 0) == 0
  {
    hide View, Held, Inv, Naming, DirsOk, IsDirectory;
    SoundReady(c, dirs);
    CountedAt(c, dirs, p);
    RootAfter(c, c', p);
  }

  // The parent's reference is given back after the file was unlinked.
  lemma UnlinkedLetGo(c0: Cache, c1: Cache, c2: Cache, p: nat, n: nat, size: nat, nums: Slots)
    requires Ready(c0) && Ready(c1) && SameView(c0, c1) && OneMore(c0, c1, Some(p)) && Inv(c2)
    requires Unlinked(c1, c2, p, n, size)
    requires InUse(c1, p)
    ensures Held(c2, p) > 0
    ensures var c3 := Release(c2, p, nums); Inv(c3) && Unlinked(c0, c3, p, n, size) && SameView(c2, c3)
  {
    hide View, Held, Inv, Release, Gone;
    ReleaseKeeps(c2, p, nums);
  }

  // Views decide the link counts.
  lemma CountedSame(c: Cache, c': Cache, dirs: seq<seq<Entry>>)
    requires Counted(c, dirs) && SameView(c, c') && Inv(c')
    ensures Counted(c', dirs)
  {
    hide View, Inv, DirsOk, Naming, RootOk, Exact;
    assert |dirs| == |c.table| > 0 by { CountedParts(c, dirs); }
    forall n | 0 <= n < |c.table|
      ensures Exact(n, View(c', n), Naming(dirs, n), |dirs[n]|)
    {
      CountedAt(c, dirs, n);
    }
  }

  lemma SameCounted(c: Cache, c': Cache, dirs: seq<seq<Entry>>)
    requires SameView(c, c') && Inv(c) && Inv(c')
    ensures Counted(c', dirs) <==> Counted(c, dirs)
  {
    hide View, Inv, Counted;
    if Counted(c, dirs) {
      CountedSame(c, c', dirs);
    }
    if Counted(c', dirs) {
      SameViewBack(c, c');
      CountedSame(c', c, dirs);
    }
  }

  lemma SameViewBack(c: Cache, c': Cache)
    requires SameView(c, c')
    ensures SameView(c', c)
  {
    hide View;
  }

  lemma ReadyIs(c: Cache)
    requires Ready(c)
    ensures Inv(c) && 0 < |c.table| && View(c, 0) == c.table[0]
  {
    hide Inv, View;
  }

  lemma SoundIs(c: Cache, dirs: seq<seq<Entry>>)
    requires |c.table| > 0
    ensures Sound(c, dirs) <==> Counted(c, dirs) && View(c, 0) == c.table[0]
  {
    hide View, Inv, Exact, Naming, DirsOk;
  }

  function LastName(path: Name): Name {
    path[LastSlash(path)..]
  }

  ghost function ParentOf(isDir: seq<bool>, dirs: seq<seq<Entry>>, path: Name): (p: Option<nat>)
    requires DirsOk(dirs, |isDir|) && path != [] && path[0] == SLASH
    ensures p.Some? ==> p.value < |isDir|
  {
    Walk(isDir, dirs, 0, path[..LastSlash(path)][1..])
  }

  ghost function Parent(c: Cache, dirs: seq<seq<Entry>>, path: Name): (p: Option<nat>)
    requires Sound(c, dirs) && path != [] && path[0] == SLASH
    ensures p.Some? ==> p.value < |c.table| == |dirs|
  {
    ParentOf(Flags(c), dirs, path)
  }

  ghost function FileAt(c: Cache, dirs: seq<seq<Entry>>, path: Name): (f: Option<nat>)
    requires Sound(c, dirs) && path != []
    ensures f.Some? ==> f.value < |c.table|
  {
    Walk(Flags(c), dirs, 0, path[1..])
  }

  lemma OneMoreFree(c: Cache, c': Cache, to: Option<nat>)
    requires OneMore(c, c', to)
    ensures |c'.free| >= |c.free| - 1
  {
  }

  lemma SameBound(c: Cache, c': Cache, dirs: seq<seq<Entry>>, p: nat, name: Name)
    requires SameView(c, c') && p < |c.table| == |dirs|
    ensures p < |c'.table| == |dirs|
    ensures Bound(c', dirs, p, name) == Bound(c, dirs, p, name)
    ensures NamesFile(c', dirs, p, name) == NamesFile(c, dirs, p, name)
    ensures Removable(c', dirs, p, name) == Removable(c, dirs, p, name)
  {
    hide View, First;
  }

  lemma FlagsOf(start: Cache, c: Cache, cur: nat)
    requires SameView(start, c) && cur < |c.table|
    ensures cur < |Flags(start)| == |c.table| == |start.table|
    ensures Flags(start)[cur] == IsDirectory(View(c, cur).fileMode)
  {
  }

  lemma SoundStart(start: Cache, c: Cache, c': Cache, dirs: seq<seq<Entry>>)
    requires Sound(c, dirs) && SameView(start, c) && SameView(start, c') && Ready(c')
    ensures Sound(c', dirs) && DirsOk(dirs, |Flags(start)|)
  {
    hide View, Inv, Sound;
    SoundParts(c, dirs);
    SoundSame(c, c', dirs);
  }

  lemma StillInUse(start: Cache, c: Cache, c': Cache, n: nat)
    requires SameView(start, c) && SameView(start, c') && InUse(c, n)
    ensures InUse(c', n)
  {
    hide View;
  }

  lemma WalkRound(isDir: seq<bool>, dirs: seq<seq<Entry>>, cur: nat, path: Name)
    requires DirsOk(dirs, |isDir|) && cur < |isDir| && path != []
    ensures var e := EndAt(path);
      var next := Operate(isDir, dirs, cur, path[..e]);
      Walk(isDir, dirs, cur, path)
      == if next.None? || e == |path| then next else Walk(isDir, dirs, next.value, path[e + 1..])
  {
    hide DirsOk, Operate;
  }

  lemma WalkEnds(isDir: seq<bool>, dirs: seq<seq<Entry>>, cur: nat)
    requires DirsOk(dirs, |isDir|) && cur < |isDir|
    ensures Walk(isDir, dirs, cur, []) == Some(cur)
  {
  }

  lemma SameThenUnlinked(c: Cache, c1: Cache, c': Cache, p: nat, n: nat, size: nat)
    requires Ready(c) && Ready(c1) && SameView(c, c1) && OneMore(c, c1, None) && Unlinked(c1, c', p, n, size)
    ensures Unlinked(c, c', p, n, size)
  {
    hide View, Held, Inv;
  }

  lemma SameFlags(c: Cache, c': Cache)
    requires SameView(c, c')
    ensures Flags(c') == Flags(c)
  {
    hide View, IsDirectory;
    FlagsSame(c, c');
  }

  lemma SameViewBoth(c: Cache, c1: Cache, c': Cache)
    requires SameView(c, c1) && SameView(c1, c')
    ensures SameView(c, c')
  {
    hide View;
  }

  lemma SameTwice(c: Cache, c1: Cache, c': Cache, to: Option<nat>)
    requires SameView(c, c1) && OneMore(c, c1, to) && SameView(c1, c') && OneMore(c1, c', None)
    ensures SameView(c, c') && OneMore(c, c', to)
  {
    hide View, Held;
  }

  // Where a path leads is in use: an entry names it, or it is the root.
  lemma {:induction false} WalkInUse(c: Cache, dirs: seq<seq<Entry>>, cur: nat, path: Name)
    requires Sound(c, dirs) && InUse(c, cur)
    ensures DirsOk(dirs, |Flags(c)|)
    ensures var end := Walk(Flags(c), dirs, cur, path); end.Some? ==> InUse(c, end.value)
    decreases |path|
  {
    SoundParts(c, dirs);
    hide View, Inv, Sound, DirsOk, Operate;
    if path != [] {
      var e := EndAt(path);
      var next := Operate(Flags(c), dirs, cur, path[..e]);
      OperateInUse(c, dirs, cur, path[..e]);
      if next.Some? && e < |path| {
        WalkInUse(c, dirs, next.value, path[e + 1..]);
      }
    }
  }

  lemma OperateInUse(c: Cache, dirs: seq<seq<Entry>>, cur: nat, name: Name)
    requires Sound(c, dirs) && DirsOk(dirs, |Flags(c)|) && InUse(c, cur)
    ensures var next := Operate(Flags(c), dirs, cur, name); next.Some? ==> InUse(c, next.value)
  {
    SoundParts(c, dirs);
    hide View, Inv, Sound, Counted, UniqueNames, Flags;
    var f := First(dirs[cur], 0, name);
    if f < |dirs[cur]| {
      NamedInUse(c, dirs, cur, f);
    }
  }

  lemma ParentInUse(c: Cache, dirs: seq<seq<Entry>>, path: Name, p: nat)
    requires Sound(c, dirs) && path != [] && path[0] == SLASH && Parent(c, dirs, path) == Some(p)
    ensures InUse(c, p)
  {
    SoundReady(c, dirs);
    hide View, Inv, Sound, DirsOk, Walk;
    WalkInUse(c, dirs, 0, path[..LastSlash(path)][1..]);
  }

  lemma UniqueAt(dirs: seq<seq<Entry>>, p: nat)
    requires DirsOk(dirs, |dirs|) && p < |dirs|
    ensures UniqueNames(dirs[p])
  {
    hide UniqueNames;
  }

  // ---------- whole calls ----------

  const ENOENT: int := 2

  // What unlinkFile asks for: a name that is bound can go.
  ghost predicate MayUnlink(c: Cache, dirs: seq<seq<Entry>>, path: Name) {
    && Sound(c, dirs) && |c.free| >= 2 && path != [] && path[0] == SLASH && Short(path)
    && var p := Parent(c, dirs, path); p.Some? ==> Removable(c, dirs, p.value, LastName(path))
  }

  // The name was unlinked in p. The marker that stays takes the wrong entry away; the state is
  // sound if and only if that pays for the link, and nobody else held the root if it is p.
  ghost predicate UnlinkedIn(c: Cache, dirs: seq<seq<Entry>>, p: nat, name: Name, c': Cache, dirs': seq<seq<Entry>>) {
    && p < |dirs|
    && var es, f := dirs[p], First(dirs[p], 0, name);
       && f < |es|
       && dirs' == dirs[p := Removed(es, f)]
       && Unlinked(c, c', p, es[f].number, 64 * (|es| - 1))
       && (Sound(c', dirs') <==> Pays(c, es[f].number, es[Victim(es, f)].number) && (p != 0 || Held(c, 0) == 0))
  }

  // unlinkFile: all its outcomes.
  ghost predicate UnlinkDone(c: Cache, dirs: seq<seq<Entry>>, path: Name, c': Cache, dirs': seq<seq<Entry>>,
                             status: int)
    requires Sound(c, dirs) && path != [] && path[0] == SLASH
  {
    var p := Parent(c, dirs, path);
    if p.None? || !Bound(c, dirs, p.value, LastName(path)) then
      && status == (if p.None? then -2 else -1)
      && Sound(c', dirs') && SameView(c, c') && OneMore(c, c', None) && dirs' == dirs
    else status == 0 && UnlinkedIn(c, dirs, p.value, LastName(path), c', dirs')
  }

  // What unlinkFile did after the views and references came back is what it does.
  lemma UnlinkSame(c: Cache, c1: Cache, dirs: seq<seq<Entry>>, path: Name, c': Cache, dirs': seq<seq<Entry>>,
                   status: int)
    requires Sound(c, dirs) && Sound(c1, dirs) && SameView(c, c1) && OneMore(c, c1, None)
    requires path != [] && path[0] == SLASH && UnlinkDone(c1, dirs, path, c', dirs', status)
    ensures UnlinkDone(c, dirs, path, c', dirs', status)
  {
    hide View, Held, Inv, Sound, Counted, DirsOk, Flags, ParentOf, Removed, Victim, LastName, IsDirectory, Pays, First;
    SoundReady(c, dirs);
    SoundReady(c1, dirs);
    SoundParts(c, dirs);
    SoundParts(c1, dirs);
    SameFlags(c, c1);
    var p := Parent(c, dirs, path);
    if p.Some? {
      SameBound(c, c1, dirs, p.value, LastName(path));
      if Bound(c, dirs, p.value, LastName(path)) {
        UnlinkedInSame(c, c1, dirs, p.value, LastName(path), c', dirs');
      }
    }
  }

  lemma UnlinkedInSame(c: Cache, c1: Cache, dirs: seq<seq<Entry>>, p: nat, name: Name, c': Cache,
                       dirs': seq<seq<Entry>>)
    requires Ready(c) && Ready(c1) && SameView(c, c1) && OneMore(c, c1, None)
    requires UnlinkedIn(c1, dirs, p, name, c', dirs')
    ensures UnlinkedIn(c, dirs, p, name, c', dirs')
  {
    hide View, Held, Inv, Sound, Removed, Victim, IsDirectory, Pays, First;
    var es, f := dirs[p], First(dirs[p], 0, name);
    SamePays(c, c1, es[f].number, es[Victim(es, f)].number);
  }

  lemma MayUnlinkSame(c: Cache, c1: Cache, dirs: seq<seq<Entry>>, path: Name)
    requires MayUnlink(c, dirs, path) && Sound(c1, dirs) && SameView(c, c1) && OneMore(c, c1, None)
    ensures MayUnlink(c1, dirs, path)
  {
    hide View, Held, Inv, Sound, Counted, DirsOk, Flags, ParentOf, LastName, Removable;
    SoundParts(c, dirs);
    SoundParts(c1, dirs);
    SameFlags(c, c1);
    OneMoreAt(c, c1, None, 0);
    var p := Parent(c, dirs, path);
    if p.Some? {
      SameBound(c, c1, dirs, p.value, LastName(path));
    }
  }

  lemma FileAtIs(c: Cache, dirs: seq<seq<Entry>>, path: Name)
    requires Sound(c, dirs) && path != []
    ensures DirsOk(dirs, |Flags(c)|) && 0 < |Flags(c)|
    ensures FileAt(c, dirs, path) == Walk(Flags(c), dirs, 0, path[1..])
    ensures FileAt(c, dirs, path).Some? ==> FileAt(c, dirs, path).value < |c.table|
  {
    hide View, Inv, Counted, Walk, Flags, DirsOk;
    SoundParts(c, dirs);
  }

  // ---------- src/interface/unlink.c, directories ----------

  const EACCES: int := 13
  const ENOTDIR: int := 20
  const ENOTEMPTY: int := 39

  // What unlinkDir asks for: the path leads somewhere.
  ghost predicate MayRmdir(c: Cache, dirs: seq<seq<Entry>>, path: Name) {
    MayUnlink(c, dirs, path) && FileAt(c, dirs, path).Some?
  }

  // A call that fails with `code` and changes nothing.
  ghost predicate Untouched(c: Cache, dirs: seq<seq<Entry>>, c': Cache, dirs': seq<seq<Entry>>, status: int,
                            code: int) {
    status == code && Sound(c', dirs') && SameView(c, c') && OneMore(c, c', None) && dirs' == dirs
  }

  // unlinkDir: the root is refused with EACCES, a directory of more than two entries and any
  // file of more than 128 bytes with ENOTEMPTY, any other file with ENOTDIR; for a directory of
  // at most two entries it does what unlinkFile does.
  ghost predicate RmdirDone(c: Cache, dirs: seq<seq<Entry>>, path: Name, c': Cache, dirs': seq<seq<Entry>>, status: int)
    requires MayRmdir(c, dirs, path)
  {
    SoundParts(c, dirs);
    var n := FileAt(c, dirs, path).value;
    var ino := View(c, n);
    if n == 0 then Untouched(c, dirs, c', dirs', status, -13)
    else if ino.kind == INode.Directory then
      if |dirs[n]| > 2 then Untouched(c, dirs, c', dirs', status, -39) else UnlinkDone(c, dirs, path, c', dirs', status)
    else Untouched(c, dirs, c', dirs', status, if ino.size > 128 then -39 else -20)
  }

  // The size of a directory counts its entries.
  lemma DirectorySize(c: Cache, dirs: seq<seq<Entry>>, n: nat)
    requires Counted(c, dirs) && n < |c.table|
    ensures n < |dirs|
    ensures View(c, n).kind == INode.Directory <==> IsDirectory(View(c, n).fileMode)
    ensures View(c, n).kind == INode.Directory ==> View(c, n).size == 64 * |dirs[n]|
    ensures View(c, n).kind != INode.Directory ==> dirs[n] == []
  {
    hide View, Inv, Naming, DirsOk, IsDirectory;
    CountedAt(c, dirs, n);
  }
}
