/**
  What runs keep of the entries `.` and `..`, and what the removal of a directory therefore
  takes away.
 */
module DirectoryRuns {
  import opened Params
  import opened Disk
  import opened FileMap
  import opened INode
  import opened CacheModel
  import opened CacheView
  import opened DirectoryEntry
  import opened Directory
  import opened Paths
  import opened Links
  import opened VolumeSteps
  import opened CreateSteps
  import opened RenameSteps
  import opened PathEffects
  import opened VolumeRuns

  // Every directory but the root binds `.` to itself, and `..`.
  ghost predicate Dotted(c: Cache, dirs: seq<seq<Entry>>) {
    && |dirs| == |c.table|
    && forall n :: 0 < n < |dirs| && View(c, n).kind == INode.Directory ==> HasDots(dirs[n], n)
  }

  ghost predicate HasDots(es: seq<Entry>, n: nat) {
    && [46] in Bindings(es) && Bindings(es)[[46]] == n
    && [46, 46] in Bindings(es)
  }

  // A name that nobody gives to `.`, `..` or nothing.
  predicate Plain(name: Name) {
    name != [] && name != [46] && name != [46, 46]
  }

  // Unlinks, removals of directories and renames are not asked for under such names.
  predicate PlainNames(r: Request) {
    match r
    case Create(path, kind, mode, n) => true
    case Unlink(path) => Plain(LastName(path))
    case RemoveDir(path) => Plain(LastName(path))
    case Rename(from, to) => Plain(LastName(from)) && Plain(LastName(to))
    case Open(path) => true
    case Close(n) => true
  }

  // ---------- two entries ----------

  // A directory of at most two entries with `.` and `..` has no other name.
  lemma OnlyDots(es: seq<Entry>, n: nat, i: nat)
    requires UniqueNames(es) && HasDots(es, n) && |es| <= 2 && i < |es|
    ensures !Plain(NameOf(es[i]))
    ensures NameOf(es[i]) == [46] ==> es[i].number == n
    ensures NameOf(es[i]) == [46] || NameOf(es[i]) == [46, 46]
  {
    var a := BoundAt(es, [46]);
    var b := BoundAt(es, [46, 46]);
    BindsAt(es, i);
    hide Bindings, UniqueNames, NameOf;
  }

  // Unlinking a plain name leaves `.` and `..`.
  lemma RemovedKeepsDots(es: seq<Entry>, n: nat, f: nat)
    requires UniqueNames(es) && HasDots(es, n) && f < |es| && Plain(NameOf(es[f]))
    ensures Victim(es, f) == f && HasDots(Removed(es, f), n)
  {
    if |es| <= 2 {
      OnlyDots(es, n, f);
    }
    RemovedBinds(es, f);
    hide Bindings, UniqueNames, NameOf, Removed;
  }

  // ---------- one request ----------

  lemma SameDots(c: Cache, dirs: seq<seq<Entry>>, c': Cache)
    requires Dotted(c, dirs) && SameView(c, c')
    ensures Dotted(c', dirs)
  {
    hide View, HasDots;
  }

  lemma CreateDots(c: Cache, dirs: seq<seq<Entry>>, path: Name, kind: Kind, mode: nat, n: nat, c': Cache,
                   dirs': seq<seq<Entry>>, status: int)
    requires MayCreate(c, dirs, path, kind, mode, n) && CreateDone(c, dirs, path, kind, mode, n, c', dirs', status)
    requires Dotted(c, dirs) && Sound(c', dirs')
    ensures Dotted(c', dirs')
  {
    hide View, Held, Inv, Counted, Sound, Bound, IsDirectory, FileAt, Parent, Bindings, Flags, SameView, OneMore;
    hide ModeOf;
    hide LastName, Created, Dotted, Made, DirsAfter, Short;
    LastIsShort(path);
    SoundParts(c, dirs);
    var p := Parent(c, dirs, path);
    if kind == Unused || p.None? || Bound(c, dirs, p.value, LastName(path)) {
      SameDots(c, dirs, c');
    } else {
      CreatedDots(c, dirs, LastName(path), kind, mode, n, p.value, c', dirs');
    }
  }

  lemma CreatedDots(c: Cache, dirs: seq<seq<Entry>>, name: Name, kind: Kind, mode: nat, n: nat, p: nat, c': Cache,
                    dirs': seq<seq<Entry>>)
    requires |name| < FILENAME_SIZE && CreatedIn(c, dirs, name, kind, mode, n, p, c', dirs')
    requires Sound(c, dirs) && Sound(c', dirs') && p < |c.table| && n < |c.table| && !Bound(c, dirs, p, name)
    requires View(c, n).kind == Unused && Dotted(c, dirs)
    ensures Dotted(c', dirs')
  {
    hide View, Held, Inv, Counted, Sound, Bound, IsDirectory, Bindings, Dots, FieldOf, NameOf, Made, DirsOk, Flags;
    hide KeepsDirs;
    hide ModeOf, HasDots;
    SoundParts(c, dirs);
    SoundParts(c', dirs');
    CreatedDirs(c, dirs, name, kind, mode, n, p, c', dirs');
    forall q | 0 < q < |dirs'| && View(c', q).kind == INode.Directory
      ensures HasDots(dirs'[q], q)
    {
      if q == n {
        MadeKind(View(c, n), View(c', n), dirs'[n], kind, mode, n, p);
        MadeBinds(View(c, n), View(c', n), dirs'[n], mode, n, p);
        NewHasDots(dirs'[n], n, p);
      } else if q == p {
        MoreHasDots(dirs[p], dirs'[p], name, n, p);
      } else {
        assert dirs'[q] == dirs[q];
      }
    }
  }

  lemma MadeKind(a: DiskINode, b: DiskINode, es: seq<Entry>, kind: Kind, mode: nat, n: nat, p: nat)
    requires Made(a, b, es, kind, mode, n, p)
    ensures b.kind == kind
  {
    hide NameOf;
  }

  lemma NewHasDots(es: seq<Entry>, n: nat, p: nat)
    requires Bindings(es) == map[[46] := n, [46, 46] := p]
    ensures HasDots(es, n)
  {
    hide Bindings;
  }

  lemma MoreHasDots(es: seq<Entry>, es': seq<Entry>, name: Name, n: nat, p: nat)
    requires HasDots(es, p) && name !in Bindings(es) && n < NUM_OF_INODES && Bindings(es') == Bindings(es)[name := n]
    ensures HasDots(es', p)
  {
    hide Bindings;
  }

  lemma UnlinkDots(c: Cache, dirs: seq<seq<Entry>>, path: Name, c': Cache, dirs': seq<seq<Entry>>, status: int)
    requires MayUnlink(c, dirs, path) && UnlinkDone(c, dirs, path, c', dirs', status)
    requires Dotted(c, dirs) && Plain(LastName(path))
    ensures Dotted(c', dirs')
  {
    hide View, Held, Inv, Counted, Sound, IsDirectory, FileAt, ParentOf, Bindings, Flags, SameView, OneMore, LastName;
    hide Dotted, Unlinked, Removed, Victim, Pays, Removable, First, Short, Plain;
    SoundParts(c, dirs);
    var p := Parent(c, dirs, path);
    if p.None? || !Bound(c, dirs, p.value, LastName(path)) {
      SameDots(c, dirs, c');
    } else {
      UnlinkedDots(c, dirs, p.value, LastName(path), c', dirs');
    }
  }

  lemma UnlinkedDots(c: Cache, dirs: seq<seq<Entry>>, p: nat, name: Name, c': Cache, dirs': seq<seq<Entry>>)
    requires Sound(c, dirs) && UnlinkedIn(c, dirs, p, name, c', dirs') && Dotted(c, dirs) && Plain(name)
    requires p < |c.table| && IsDirectory(View(c, p).fileMode)
    ensures Dotted(c', dirs')
  {
    SoundParts(c, dirs);
    UniqueAt(dirs, p);
    DirectorySize(c, dirs, p);
    FirstNamed(dirs[p], name);
    var f := First(dirs[p], 0, name);
    hide View, Held, Inv, Counted, Sound, IsDirectory, HasDots, Removed, Victim, Pays, UniqueNames, NameOf, First;
    hide Plain;
    if p != 0 {
      RemovedKeepsDots(dirs[p], p, f);
    }
  }

  lemma RenameDots(c: Cache, dirs: seq<seq<Entry>>, from: Name, to: Name, c': Cache, dirs': seq<seq<Entry>>,
                   status: int)
    requires MayRename(c, dirs, from, to) && RenameEnds(c, dirs, from, to, c', dirs', status)
    requires Dotted(c, dirs) && Plain(LastName(from)) && Plain(LastName(to))
    ensures Dotted(c', dirs')
  {
    hide View, Held, Inv, Counted, Sound, IsDirectory, FileAt, ParentOf, Bindings, Flags, SameView, OneMore, LastName;
    hide Dotted, RenameDone, RenamesFile, Short, Plain;
    LastIsShort(to);
    SoundParts(c, dirs);
    var f, p := FileAt(c, dirs, from), Parent(c, dirs, to);
    if f.None? || p.None? {
      SameDots(c, dirs, c');
    } else {
      RenamedDots(c, dirs, from, to, c', dirs', f.value, p.value);
    }
  }

  // Nothing becomes a directory by a rename.
  lemma NoNewDirectory(c: Cache, c': Cache, dirs': seq<seq<Entry>>, f: nat, p: nat, fp: nat, dest: Option<nat>, q: nat)
    requires FileAfter(c, c', f, dest == Some(f)) && OthersKept(c, c', f, p, fp, dest) && ReplacedAfter(c, c', f, dest)
    requires DirAfter(c, c', dirs', p) && DirAfter(c, c', dirs', fp) && q < |c'.table|
    ensures q < |c.table|
    ensures View(c', q).kind == INode.Directory ==> View(c, q).kind == INode.Directory
  {
    hide View, Held;
  }

  lemma RelinkedUnique(dirs: seq<seq<Entry>>, p: nat, name: Name, n: Number)
    requires p < |dirs| && |name| < FILENAME_SIZE && UniqueNames(dirs[p])
    ensures |Relinked(dirs, p, name, n)| == |dirs| && UniqueNames(Relinked(dirs, p, name, n)[p])
  {
    ClearedNames(dirs, p, name);
    FieldNames(name, n);
    hide Bindings, UniqueNames, NameOf, FieldOf, Cleared;
    AppendBinds(Cleared(dirs, p, name)[p], Entry(FieldOf(name), n));
  }

  // The directories after the target was replaced still have their dots.
  lemma RelinkedDots(dirs: seq<seq<Entry>>, p: nat, name: Name, n: Number, q: nat)
    requires p < |dirs| && q < |dirs| && |name| < FILENAME_SIZE && Plain(name)
    requires UniqueNames(dirs[p]) && UniqueNames(dirs[q]) && HasDots(dirs[q], q)
    ensures q < |Relinked(dirs, p, name, n)|
    ensures HasDots(Relinked(dirs, p, name, n)[q], q) && UniqueNames(Relinked(dirs, p, name, n)[q])
  {
    RelinkedNames(dirs, p, name, n);
    RelinkedUnique(dirs, p, name, n);
    hide Bindings, UniqueNames, Relinked;
  }

  lemma RenamedDots(c: Cache, dirs: seq<seq<Entry>>, from: Name, to: Name, c': Cache, dirs': seq<seq<Entry>>, f: nat,
                    p: nat)
    requires Sound(c, dirs) && from != [] && from[0] == SLASH && to != [] && to[0] == SLASH
    requires |LastName(to)| < FILENAME_SIZE && RenameDone(c, dirs, c', dirs', from, to, f, p)
    requires Dotted(c, dirs) && Plain(LastName(from)) && Plain(LastName(to))
    ensures Dotted(c', dirs')
  {
    SoundParts(c, dirs);
    var fp, dest, name := Parent(c, dirs, from).value, Target(dirs, p, LastName(to)), LastName(to);
    var dirs2 := Relinked(dirs, p, name, f);
    RelinkedNames(dirs, p, name, f) by {
      UniqueAt(dirs, p);
    }
    hide View, Held, Inv, Counted, Sound, IsDirectory, FileAt, Parent, Bindings, Flags, LastName, HasDots, DirsOk;
    hide Relinked, Target, Removed, Victim, Pays, Renamed, UniqueNames, First, Plain, FileAfter, OthersKept, DirAfter;
    hide ReplacedAfter;
    RenamedSizes(c, dirs, c', dirs', from, to, f, p);
    forall q | 0 < q < |dirs'| && View(c', q).kind == INode.Directory
      ensures HasDots(dirs'[q], q)
    {
      NoNewDirectory(c, c', dirs', f, p, fp, dest, q);
      UniqueAt(dirs, p);
      UniqueAt(dirs, q);
      RelinkedDots(dirs, p, name, f, q);
      if q == fp {
        var i := First(dirs2[fp], 0, LastName(from));
        FirstNamed(dirs2[fp], LastName(from));
        RemovedKeepsDots(dirs2[fp], fp, i);
      }
    }
  }

  lemma RenamedSizes(c: Cache, dirs: seq<seq<Entry>>, c': Cache, dirs': seq<seq<Entry>>, from: Name, to: Name, f: nat,
                     p: nat)
    requires Sound(c, dirs) && from != [] && from[0] == SLASH && to != [] && to[0] == SLASH
    requires |LastName(to)| < FILENAME_SIZE && RenameDone(c, dirs, c', dirs', from, to, f, p)
    ensures |dirs'| == |dirs| == |c.table| == |c'.table|
  {
    hide View, Held, Inv, Counted, IsDirectory, FileAt, Bindings, Flags, LastName, Removed, Victim, Pays, Renamed;
    hide First;
    SoundParts(c, dirs);
    hide Sound;
  }

  lemma RemoveDirDots(c: Cache, dirs: seq<seq<Entry>>, path: Name, c': Cache, dirs': seq<seq<Entry>>, status: int)
    requires MayRmdir(c, dirs, path) && RmdirDone(c, dirs, path, c', dirs', status)
    requires Dotted(c, dirs) && Plain(LastName(path))
    ensures Dotted(c', dirs')
  {
    hide View, Held, Sound, SameView, OneMore, UnlinkDone, FileAt, Dotted, LastName, Plain, Parent, Removable;
    RmdirMay(c, dirs, path);
    if UnlinkDone(c, dirs, path, c', dirs', status) {
      UnlinkDots(c, dirs, path, c', dirs', status);
    } else {
      SameDots(c, dirs, c');
    }
  }

  lemma RmdirMay(c: Cache, dirs: seq<seq<Entry>>, path: Name)
    requires MayRmdir(c, dirs, path)
    ensures MayUnlink(c, dirs, path)
  {
  }

  lemma CloseDots(c: Cache, dirs: seq<seq<Entry>>, n: nat, c': Cache)
    requires Sound(c, dirs) && n < |c.table| && Closed(c, n, c') && Dotted(c, dirs)
    ensures Dotted(c', dirs)
  {
    hide View, Held, Inv, Release, Sound, HasDots;
    var nums: Slots :| c' == Release(c, n, nums);
    ReleaseKeeps(c, n, nums);
  }

  lemma StepDots(s: State, r: Request, t: State)
    requires Accepts(s, r) && Ends(s, r, t) && PlainNames(r) && Dotted(s.cache, s.dirs) && Sound(t.cache, t.dirs)
    ensures Dotted(t.cache, t.dirs)
  {
    hide CreateDone, UnlinkDone, RmdirDone, RenameEnds, Closed, Sound, RenamesFile, Removable, Parent, ModeOf, View;
    hide Held;
    hide FileAt, SameView, OneMore, Dotted;
    match r
    case Create(path, kind, mode, n) =>
      var status: int :| CreateDone(s.cache, s.dirs, path, kind, mode, n, t.cache, t.dirs, status);
      CreateDots(s.cache, s.dirs, path, kind, mode, n, t.cache, t.dirs, status);
    case Unlink(path) =>
      var status: int :| UnlinkDone(s.cache, s.dirs, path, t.cache, t.dirs, status);
      UnlinkDots(s.cache, s.dirs, path, t.cache, t.dirs, status);
    case RemoveDir(path) =>
      var status: int :| RmdirDone(s.cache, s.dirs, path, t.cache, t.dirs, status);
      RemoveDirDots(s.cache, s.dirs, path, t.cache, t.dirs, status);
    case Rename(from, to) =>
      var status: int :| RenameEnds(s.cache, s.dirs, from, to, t.cache, t.dirs, status);
      RenameDots(s.cache, s.dirs, from, to, t.cache, t.dirs, status);
    case Open(path) =>
      SameDots(s.cache, s.dirs, t.cache);
    case Close(n) =>
      CloseDots(s.cache, s.dirs, n, t.cache);
  }

  // ---------- runs ----------

  lemma StartedDots(s: State)
    requires Started(s)
    ensures Dotted(s.cache, s.dirs)
  {
    var size: nat, b: Word :| s == Initial(size, b);
    hide View, HasDots, Fresh;
    FreshTable(size, MkfsTable(b));
    forall n | 0 < n < |s.dirs|
      ensures View(s.cache, n).kind != INode.Directory
    {
      FreshView(size, MkfsTable(b), n);
    }
  }

  // From mkfs on, every directory but the root has `.` for itself and `..`, while no request
  // unlinks or renames them.
  lemma {:induction false} RunDotted(trace: seq<State>, rs: seq<Request>, k: nat)
    requires Run(trace, rs) && Started(trace[0]) && k <= |rs|
    requires forall i :: 0 <= i < |rs| ==> PlainNames(rs[i])
    ensures Dotted(trace[k].cache, trace[k].dirs)
  {
    hide VolumeRuns.Step, Sound, NoOrphans, Started, Accepts, Ends, Careful, Dotted, PlainNames;
    if k == 0 {
      StartedDots(trace[0]);
    } else {
      RunDotted(trace, rs, k - 1);
      RunAt(trace, rs, k - 1);
      RunSound(trace, rs, k);
      StepDots(trace[k - 1], rs[k - 1], trace[k]);
    }
  }

  // ---------- what rmdir takes away ----------

  // A name that is bound in the directory of a path is where the path leads.
  lemma BoundIsFile(c: Cache, dirs: seq<seq<Entry>>, path: Name, p: nat)
    requires Sound(c, dirs) && path != [] && path[0] == SLASH && LastName(path) != []
    requires Parent(c, dirs, path) == Some(p) && p < |dirs| == |c.table| && Bound(c, dirs, p, LastName(path))
    ensures First(dirs[p], 0, LastName(path)) < |dirs[p]|
    ensures FileAt(c, dirs, path) == Some(dirs[p][First(dirs[p], 0, LastName(path))].number)
  {
    hide View, Inv, Counted, Walk, DirsOk, Flags, IsDirectory, Bindings, NameOf, First;
    SoundParts(c, dirs);
    FlagAt(c, p);
    FirstSlash(path);
    var k, isDir := LastSlash(path), Flags(c);
    var front, name := path[..k][1..], LastName(path);
    ParentIs(isDir, dirs, path);
    assert path[1..] == front + name;
    assert front == [] || front[|front| - 1] == SLASH;
    WalkSplit(isDir, dirs, 0, front, name);
    hide LastSlash, LastName;
  }

  // rmdir takes the name of a directory other than the root away only when that directory has no
  // other names than `.` for itself and `..`: whatever else has a path had one that does not
  // pass through it.
  lemma RmdirLeaves(c: Cache, dirs: seq<seq<Entry>>, path: Name, c': Cache, dirs': seq<seq<Entry>>, i: nat)
    requires MayRmdir(c, dirs, path) && RmdirDone(c, dirs, path, c', dirs', 0)
    requires Dotted(c, dirs) && Plain(LastName(path))
    ensures var n, p := FileAt(c, dirs, path).value, Parent(c, dirs, path);
      && 0 < n < |dirs| == |c.table| && View(c, n).kind == INode.Directory
      && p.Some? && p.value < |dirs| && |dirs[n]| == 2
      && (i < |dirs[n]| ==>
            NameOf(dirs[n][i]) == [46, 46] || (NameOf(dirs[n][i]) == [46] && dirs[n][i].number == n))
      && First(dirs[p.value], 0, LastName(path)) < |dirs[p.value]|
      && dirs[p.value][First(dirs[p.value], 0, LastName(path))].number == n
      && dirs' == dirs[p.value := Removed(dirs[p.value], First(dirs[p.value], 0, LastName(path)))]
  {
    hide View, Held, Inv, Counted, Sound, Bindings, Flags, SameView, OneMore, LastName, DirsOk, First, Removed, Victim;
    hide Unlinked, ParentOf, FileAt, Pays, Removable, NameOf, UniqueNames, HasDots, IsDirectory;
    SoundParts(c, dirs);
    var n, p := FileAt(c, dirs, path).value, Parent(c, dirs, path);
    BoundIsFile(c, dirs, path, p.value);
    UniqueAt(dirs, n);
    TwoEntries(dirs[n], n);
    if i < |dirs[n]| {
      OnlyDots(dirs[n], n, i);
    }
  }

  lemma TwoEntries(es: seq<Entry>, n: nat)
    requires UniqueNames(es) && HasDots(es, n)
    ensures |es| >= 2
  {
    var a := BoundAt(es, [46]);
    var b := BoundAt(es, [46, 46]);
    hide Bindings, UniqueNames, NameOf;
  }

  // A directory that is moved keeps its entries, so its `..` goes on naming the directory it
  // was in.
  lemma MovedKeepsParent(c: Cache, dirs: seq<seq<Entry>>, from: Name, to: Name, c': Cache, dirs': seq<seq<Entry>>,
                         f: nat,
                         p: nat)
    requires MayRename(c, dirs, from, to) && FileAt(c, dirs, from) == Some(f) && Parent(c, dirs, to) == Some(p)
    requires RenameEnds(c, dirs, from, to, c', dirs', 0) && f < |dirs| && Dotted(c, dirs)
    requires f < |c.table| && View(c, f).kind == INode.Directory
    ensures f < |dirs'| && dirs'[f] == dirs[f] && 0 < f
    ensures [46, 46] in Bindings(dirs'[f]) && Bindings(dirs'[f])[[46, 46]] == Bindings(dirs[f])[[46, 46]]
  {
    LastIsShort(to);
    RenameStart(c, dirs, from, to, f, p);
    RelinkedNames(dirs, p, LastName(to), f);
    hide View, Held, Inv, Counted, Sound, Bindings, Flags, LastName, First, Removed, Victim, ParentOf, FileAt, Pays;
    hide Relinked;
    hide FileAfter, OthersKept, ReplacedAfter, DirAfter, Renamed, NamesFile, Replaces, DirPath, IsDirectory;
  }
}
