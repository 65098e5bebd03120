/**
  Whole runs of the volume from mkfs on: creations, unlinks and renames between inodes that
  are opened and closed.
 */
module VolumeRuns {
  import opened Params
  import opened Disk
  import opened FileMap
  import opened INode
  import opened CacheModel
  import opened CacheView
  import opened DirectoryEntry
  import opened Directory
  import opened Paths
  import opened Links
  import opened VolumeSteps
  import opened CreateSteps
  import opened RenameSteps

  datatype State = State(cache: Cache, dirs: seq<seq<Entry>>)

  datatype Request =
    | Create(path: Name, kind: Kind, mode: nat, n: nat) // createFile, with inode number n
    | Unlink(path: Name)                                // unlinkFile
    | RemoveDir(path: Name)                             // unlinkDir without force
    | Rename(from: Name, to: Name)                      // renameFile
    | Open(path: Name)                                  // getFileINode; the inode stays held
    | Close(n: nat)                                     // iput

  // ---------- one request ----------

  // What the methods ask for.
  ghost predicate Accepts(s: State, r: Request) {
    match r
    case Create(path, kind, mode, n) => MayCreate(s.cache, s.dirs, path, kind, mode, n)
    case Unlink(path) => MayUnlink(s.cache, s.dirs, path)
    case RemoveDir(path) => MayRmdir(s.cache, s.dirs, path)
    case Rename(from, to) => MayRename(s.cache, s.dirs, from, to)
    case Open(path) => Sound(s.cache, s.dirs) && s.cache.free != [] && path != [] && Short(path)
    case Close(n) => Sound(s.cache, s.dirs) && n < |s.cache.table| && Held(s.cache, n) > 0
  }

  // What the methods promise.
  ghost predicate Ends(s: State, r: Request, t: State)
    requires Accepts(s, r)
  {
    match r
    case Create(path, kind, mode, n) =>
      exists status: int :: CreateDone(s.cache, s.dirs, path, kind, mode, n, t.cache, t.dirs, status)
    case Unlink(path) => exists status: int :: UnlinkDone(s.cache, s.dirs, path, t.cache, t.dirs, status)
    case RemoveDir(path) => exists status: int :: RmdirDone(s.cache, s.dirs, path, t.cache, t.dirs, status)
    case Rename(from, to) => exists status: int :: RenameEnds(s.cache, s.dirs, from, to, t.cache, t.dirs, status)
    case Open(path) =>
      && Sound(t.cache, t.dirs) && SameView(s.cache, t.cache) && t.dirs == s.dirs
      && OneMore(s.cache, t.cache, FileAt(s.cache, s.dirs, path))
    case Close(n) => t.dirs == s.dirs && Closed(s.cache, n, t.cache)
  }

  ghost predicate Closed(c: Cache, n: nat, c': Cache) {
    Inv(c) && Held(c, n) > 0 && exists nums: Slots :: c' == Release(c, n, nums)
  }

  // The name is added or removed in directory p without harm to the root.
  ghost predicate RootFree(c: Cache, p: nat) {
    p != 0 || Held(c, 0) == 0
  }

  // When the state stays sound: a file is created only in a directory, nobody holds the root
  // when it is changed, and the marker does not take an entry of another regular file away.
  ghost predicate Careful(s: State, r: Request)
    requires Accepts(s, r)
  {
    match r
    case Create(path, kind, mode, n) => CarefulCreate(s.cache, s.dirs, path, kind)
    case Unlink(path) => CarefulUnlink(s.cache, s.dirs, path)
    case RemoveDir(path) => Refused(s.cache, s.dirs, path) || CarefulUnlink(s.cache, s.dirs, path)
    case Rename(from, to) => CarefulRename(s.cache, s.dirs, from, to)
    case Open(path) => true
    case Close(n) => true
  }

  ghost predicate CarefulCreate(c: Cache, dirs: seq<seq<Entry>>, path: Name, kind: Kind)
    requires Sound(c, dirs) && path != [] && path[0] == SLASH
  {
    var p := Parent(c, dirs, path);
    kind == Unused || p.None? || Bound(c, dirs, p.value, LastName(path))
    || (IsDirectory(View(c, p.value).fileMode) && RootFree(c, p.value))
  }

  ghost predicate CarefulUnlink(c: Cache, dirs: seq<seq<Entry>>, path: Name)
    requires Sound(c, dirs) && path != [] && path[0] == SLASH
  {
    var p := Parent(c, dirs, path);
    p.Some? && Bound(c, dirs, p.value, LastName(path)) ==>
      var es := dirs[p.value];
      var f := First(es, 0, LastName(path));
      Pays(c, es[f].number, es[Victim(es, f)].number) && RootFree(c, p.value)
  }

  // The path leads to the root, to anything but a directory, or to one with a third entry.
  ghost predicate Refused(c: Cache, dirs: seq<seq<Entry>>, path: Name)
    requires MayRmdir(c, dirs, path)
  {
    SoundParts(c, dirs);
    var n := FileAt(c, dirs, path).value;
    n == 0 || View(c, n).kind != INode.Directory || |dirs[n]| > 2
  }

  ghost predicate CarefulRename(c: Cache, dirs: seq<seq<Entry>>, from: Name, to: Name)
    requires MayRename(c, dirs, from, to)
  {
    LastIsShort(to);
    var f, p := FileAt(c, dirs, from), Parent(c, dirs, to);
    f.Some? && p.Some? ==> LastUnlink(c, dirs, from, to, f.value, p.value)
  }

  // The unlink of the old name in the directories that the new name was added to.
  ghost predicate LastUnlink(c: Cache, dirs: seq<seq<Entry>>, from: Name, to: Name, f: nat, p: nat)
    requires Sound(c, dirs) && from != [] && from[0] == SLASH && to != [] && to[0] == SLASH
    requires |LastName(to)| < FILENAME_SIZE
  {
    && p < |dirs| && f < NUM_OF_INODES
    && var fp, dirs2 := Parent(c, dirs, from), Relinked(dirs, p, LastName(to), f);
       && fp.Some? && fp.value < |dirs2|
       && var es := dirs2[fp.value];
          var i := First(es, 0, LastName(from));
          i < |es| && Pays(c, f, es[Victim(es, i)].number) && RootFree(c, fp.value)
  }

  lemma CreateSoundIff(c: Cache, dirs: seq<seq<Entry>>, path: Name, kind: Kind, mode: nat, n: nat, c': Cache,
                       dirs': seq<seq<Entry>>, status: int)
    requires MayCreate(c, dirs, path, kind, mode, n) && CreateDone(c, dirs, path, kind, mode, n, c', dirs', status)
    ensures Sound(c', dirs') <==> CarefulCreate(c, dirs, path, kind)
  {
    hide View, Held, Sound, SameView, OneMore, Created, IsDirectory, ParentOf, LastName, Bound, Flags, DirsAfter;
    hide ModeOf;
    SoundParts(c, dirs);
  }

  lemma UnlinkSoundIff(c: Cache, dirs: seq<seq<Entry>>, path: Name, c': Cache, dirs': seq<seq<Entry>>, status: int)
    requires MayUnlink(c, dirs, path) && UnlinkDone(c, dirs, path, c', dirs', status)
    ensures Sound(c', dirs') <==> CarefulUnlink(c, dirs, path)
  {
    hide View, Held, Sound, SameView, OneMore, Unlinked, ParentOf, LastName, Flags, Removed, Victim, Pays, Removable;
    hide IsDirectory;
    SoundParts(c, dirs);
  }

  lemma RenameSoundIff(c: Cache, dirs: seq<seq<Entry>>, from: Name, to: Name, c': Cache, dirs': seq<seq<Entry>>,
                       status: int)
    requires MayRename(c, dirs, from, to) && RenameEnds(c, dirs, from, to, c', dirs', status)
    ensures Sound(c', dirs') <==> CarefulRename(c, dirs, from, to)
  {
    hide View, Held, Sound, SameView, OneMore, ParentOf, LastName, Flags, Removed, Victim, Pays, RenamesFile, Walk;
    hide FileAfter, OthersKept, Relinked, Renamed;
    LastIsShort(to);
    SoundParts(c, dirs);
  }

  // iput keeps the state sound: what it reclaims has no name left, and no entries.
  lemma CloseSound(c: Cache, dirs: seq<seq<Entry>>, n: nat, nums: Slots)
    requires Sound(c, dirs) && n < |c.table| && Inv(c) && Held(c, n) > 0
    ensures Sound(Release(c, n, nums), dirs)
  {
    var c' := Release(c, n, nums);
    SoundParts(c, dirs);
    CountedAt(c, dirs, n);
    hide View, Held, Inv, Release, Naming, DirsOk, IsDirectory;
    ReleaseKeeps(c, n, nums);
    ModesOfNone();
    if n == 0 && Held(c, 0) == 1 {
      UnheldView(c', 0);
    }
    forall m | 0 <= m < |c.table|
      ensures Exact(m, View(c', m), Naming(dirs, m), |dirs[m]|)
    {
      CountedAt(c, dirs, m);
    }
  }

  lemma CloseKeeps(c: Cache, dirs: seq<seq<Entry>>, n: nat, c': Cache)
    requires Sound(c, dirs) && n < |c.table| && Closed(c, n, c')
    ensures Sound(c', dirs)
    ensures forall m: nat :: Held(c', m) == Held(c, m) - if m == n then 1 else 0
  {
    hide View, Held, Inv, Release, Sound;
    var nums: Slots :| c' == Release(c, n, nums);
    CloseSound(c, dirs, n, nums);
    ReleaseKeeps(c, n, nums);
  }

  // A request keeps a sound state sound if and only if it is careful.
  lemma StepSoundIff(s: State, r: Request, t: State)
    requires Accepts(s, r) && Ends(s, r, t)
    ensures Sound(t.cache, t.dirs) <==> Careful(s, r)
  {
    hide CreateDone, UnlinkDone, RenameEnds, Closed, Sound, CarefulCreate, CarefulUnlink, CarefulRename, RenamesFile;
    hide Removable;
    hide Parent, ModeOf, View, Held;
    match r
    case Create(path, kind, mode, n) =>
      var status: int :| CreateDone(s.cache, s.dirs, path, kind, mode, n, t.cache, t.dirs, status);
      CreateSoundIff(s.cache, s.dirs, path, kind, mode, n, t.cache, t.dirs, status);
    case Unlink(path) =>
      var status: int :| UnlinkDone(s.cache, s.dirs, path, t.cache, t.dirs, status);
      UnlinkSoundIff(s.cache, s.dirs, path, t.cache, t.dirs, status);
    case RemoveDir(path) =>
      var status: int :| RmdirDone(s.cache, s.dirs, path, t.cache, t.dirs, status);
      if !Refused(s.cache, s.dirs, path) {
        UnlinkSoundIff(s.cache, s.dirs, path, t.cache, t.dirs, status);
      }
    case Rename(from, to) =>
      var status: int :| RenameEnds(s.cache, s.dirs, from, to, t.cache, t.dirs, status);
      RenameSoundIff(s.cache, s.dirs, from, to, t.cache, t.dirs, status);
    case Open(path) =>
    case Close(n) =>
      CloseKeeps(s.cache, s.dirs, n, t.cache);
  }

  // ---------- references ----------

  // The inode that a request leaves held: an open one, or one that is never given back.
  ghost function Left(s: State, r: Request): Option<nat>
    requires Accepts(s, r)
  {
    match r
    case Create(path, kind, mode, n) => LeftByCreate(s.cache, s.dirs, path, kind)
    case Unlink(path) => None
    case RemoveDir(path) => None
    case Rename(from, to) => if Parent(s.cache, s.dirs, to).None? then FileAt(s.cache, s.dirs, from) else None
    case Open(path) => FileAt(s.cache, s.dirs, path)
    case Close(n) => None
  }

  ghost function LeftByCreate(c: Cache, dirs: seq<seq<Entry>>, path: Name, kind: Kind): Option<nat>
    requires Sound(c, dirs) && path != [] && path[0] == SLASH
  {
    var p := Parent(c, dirs, path);
    if kind != Unused && p.Some? && Bound(c, dirs, p.value, LastName(path)) then p else None
  }

  // The references to inode m that a request adds.
  ghost function Added(s: State, r: Request, m: nat): int
    requires Accepts(s, r)
  {
    (if Left(s, r) == Some(m) then 1 else 0) - if r == Close(m) then 1 else 0
  }

  lemma CreateRefs(c: Cache, dirs: seq<seq<Entry>>, path: Name, kind: Kind, mode: nat, n: nat, c': Cache,
                   dirs': seq<seq<Entry>>, status: int, m: nat)
    requires MayCreate(c, dirs, path, kind, mode, n) && CreateDone(c, dirs, path, kind, mode, n, c', dirs', status)
    ensures Held(c', m) == Held(c, m) + if LeftByCreate(c, dirs, path, kind) == Some(m) then 1 else 0
  {
    hide View, Held, Sound, IsDirectory, ParentOf, LastName, Bound, Flags, DirsAfter, ModeOf;
  }

  lemma UnlinkRefs(c: Cache, dirs: seq<seq<Entry>>, path: Name, c': Cache, dirs': seq<seq<Entry>>, status: int, m: nat)
    requires MayUnlink(c, dirs, path) && UnlinkDone(c, dirs, path, c', dirs', status)
    ensures Held(c', m) == Held(c, m)
  {
    hide View, Held, Sound, IsDirectory, ParentOf, LastName, Bound, Flags, Removed, Victim, Pays, Removable;
  }

  lemma RenameRefs(c: Cache, dirs: seq<seq<Entry>>, from: Name, to: Name, c': Cache, dirs': seq<seq<Entry>>,
                   status: int, m: nat)
    requires MayRename(c, dirs, from, to) && RenameEnds(c, dirs, from, to, c', dirs', status)
    ensures Held(c', m)
            == Held(c, m) + if Parent(c, dirs, to).None? && FileAt(c, dirs, from) == Some(m) then 1 else 0
  {
    hide View, Held, Sound, ParentOf, LastName, Flags, RenamesFile, Walk, OthersKept, ReplacedAfter, DirAfter;
    hide SourceGone, LostLink;
    LastIsShort(to);
  }

  lemma StepRefs(s: State, r: Request, t: State, m: nat)
    requires Accepts(s, r) && Ends(s, r, t)
    ensures Held(t.cache, m) == Held(s.cache, m) + Added(s, r, m)
  {
    hide CreateDone, UnlinkDone, RenameEnds, Closed, Sound, RenamesFile, Removable, Parent, ModeOf, View, Held, FileAt;
    hide LeftByCreate, SameView;
    match r
    case Create(path, kind, mode, n) =>
      var status: int :| CreateDone(s.cache, s.dirs, path, kind, mode, n, t.cache, t.dirs, status);
      CreateRefs(s.cache, s.dirs, path, kind, mode, n, t.cache, t.dirs, status, m);
    case Unlink(path) =>
      var status: int :| UnlinkDone(s.cache, s.dirs, path, t.cache, t.dirs, status);
      UnlinkRefs(s.cache, s.dirs, path, t.cache, t.dirs, status, m);
    case RemoveDir(path) =>
      var status: int :| RmdirDone(s.cache, s.dirs, path, t.cache, t.dirs, status);
      if !Refused(s.cache, s.dirs, path) {
        UnlinkRefs(s.cache, s.dirs, path, t.cache, t.dirs, status, m);
      }
    case Rename(from, to) =>
      var status: int :| RenameEnds(s.cache, s.dirs, from, to, t.cache, t.dirs, status);
      RenameRefs(s.cache, s.dirs, from, to, t.cache, t.dirs, status, m);
    case Open(path) =>
    case Close(n) =>
      CloseKeeps(s.cache, s.dirs, n, t.cache);
  }

  // ---------- nothing in use is out of reach ----------

  // A regular file without a name is held: nothing else keeps its blocks from being released.
  ghost predicate NoOrphans(c: Cache) {
    forall n: nat :: n < |c.table| && View(c, n).kind == Regular && View(c, n).linksCount == 0 ==> Held(c, n) > 0
  }

  lemma SameOrphans(c: Cache, c': Cache, to: Option<nat>)
    requires NoOrphans(c) && SameView(c, c') && OneMore(c, c', to)
    ensures NoOrphans(c')
  {
    hide View, Held;
  }

  lemma CreateOrphans(c: Cache, dirs: seq<seq<Entry>>, path: Name, kind: Kind, mode: nat, n: nat, c': Cache,
                      dirs': seq<seq<Entry>>, status: int)
    requires MayCreate(c, dirs, path, kind, mode, n) && CreateDone(c, dirs, path, kind, mode, n, c', dirs', status)
    requires NoOrphans(c)
    ensures NoOrphans(c')
  {
    hide View, Held, Sound, IsDirectory, ParentOf, LastName, Bound, Flags, DirsAfter, ModeOf;
  }

  lemma UnlinkOrphans(c: Cache, dirs: seq<seq<Entry>>, path: Name, c': Cache, dirs': seq<seq<Entry>>, status: int)
    requires MayUnlink(c, dirs, path) && UnlinkDone(c, dirs, path, c', dirs', status) && NoOrphans(c)
    ensures NoOrphans(c')
  {
    hide View, Held, Sound, IsDirectory, ParentOf, LastName, Bound, Flags, Removed, Victim, Pays, Removable;
  }

  lemma RenameOrphans(c: Cache, dirs: seq<seq<Entry>>, from: Name, to: Name, c': Cache, dirs': seq<seq<Entry>>,
                      status: int)
    requires MayRename(c, dirs, from, to) && RenameEnds(c, dirs, from, to, c', dirs', status) && NoOrphans(c)
    ensures NoOrphans(c')
  {
    hide View, Held, Sound, ParentOf, LastName, Flags, RenamesFile, Walk, SourceGone, Target;
    LastIsShort(to);
  }

  lemma CloseOrphans(c: Cache, dirs: seq<seq<Entry>>, n: nat, c': Cache)
    requires Sound(c, dirs) && n < |c.table| && Closed(c, n, c') && NoOrphans(c)
    ensures NoOrphans(c')
  {
    hide View, Held, Inv, Release, Sound;
    SoundParts(c, dirs);
    var nums: Slots :| c' == Release(c, n, nums);
    ReleaseKeeps(c, n, nums);
  }

  lemma StepOrphans(s: State, r: Request, t: State)
    requires Accepts(s, r) && Ends(s, r, t) && NoOrphans(s.cache)
    ensures NoOrphans(t.cache)
  {
    hide CreateDone, UnlinkDone, RenameEnds, Closed, Sound, RenamesFile, Removable, Parent, ModeOf, View, Held, FileAt;
    hide SameView, OneMore, NoOrphans;
    match r
    case Create(path, kind, mode, n) =>
      var status: int :| CreateDone(s.cache, s.dirs, path, kind, mode, n, t.cache, t.dirs, status);
      CreateOrphans(s.cache, s.dirs, path, kind, mode, n, t.cache, t.dirs, status);
    case Unlink(path) =>
      var status: int :| UnlinkDone(s.cache, s.dirs, path, t.cache, t.dirs, status);
      UnlinkOrphans(s.cache, s.dirs, path, t.cache, t.dirs, status);
    case RemoveDir(path) =>
      var status: int :| RmdirDone(s.cache, s.dirs, path, t.cache, t.dirs, status);
      if !Refused(s.cache, s.dirs, path) {
        UnlinkOrphans(s.cache, s.dirs, path, t.cache, t.dirs, status);
      } else {
        SameOrphans(s.cache, t.cache, None);
      }
    case Rename(from, to) =>
      var status: int :| RenameEnds(s.cache, s.dirs, from, to, t.cache, t.dirs, status);
      RenameOrphans(s.cache, s.dirs, from, to, t.cache, t.dirs, status);
    case Open(path) =>
      SameOrphans(s.cache, t.cache, FileAt(s.cache, s.dirs, path));
    case Close(n) =>
      CloseOrphans(s.cache, s.dirs, n, t.cache);
  }

  // ---------- directories are never given back ----------

  lemma CreateKeepsDirectory(c: Cache, dirs: seq<seq<Entry>>, path: Name, kind: Kind, mode: nat, n: nat, c': Cache,
                             dirs': seq<seq<Entry>>, status: int, m: nat)
    requires MayCreate(c, dirs, path, kind, mode, n) && CreateDone(c, dirs, path, kind, mode, n, c', dirs', status)
    requires m < |c.table| && View(c, m).kind == INode.Directory
    ensures m < |c'.table| && View(c', m).kind == INode.Directory
  {
    hide View, Held, Sound, IsDirectory, ParentOf, LastName, Bound, Flags, DirsAfter, ModeOf;
  }

  // Unlinking takes a link from a directory, which has at least two.
  lemma UnlinkKeepsDirectory(c: Cache, dirs: seq<seq<Entry>>, path: Name, c': Cache, dirs': seq<seq<Entry>>,
                             status: int,
                             m: nat)
    requires MayUnlink(c, dirs, path) && UnlinkDone(c, dirs, path, c', dirs', status)
    requires m < |c.table| && View(c, m).kind == INode.Directory
    ensures m < |c'.table| && View(c', m).kind == INode.Directory
  {
    hide View, Held, Sound, IsDirectory, ParentOf, LastName, Flags, Removed, Victim, Pays, First;
  }

  lemma RenameKeepsDirectory(c: Cache, dirs: seq<seq<Entry>>, from: Name, to: Name, c': Cache, dirs': seq<seq<Entry>>,
                             status: int, m: nat)
    requires MayRename(c, dirs, from, to) && RenameEnds(c, dirs, from, to, c', dirs', status)
    requires m < |c.table| && View(c, m).kind == INode.Directory
    ensures m < |c'.table| && View(c', m).kind == INode.Directory
  {
    hide View, Held, Sound, ParentOf, LastName, Flags, RenamesFile, Walk, SourceGone, Target, IsDirectory, Naming;
    hide Parent;
    hide DirsOk, Inv, FileAt, Counted, NamesFile, Replaces;
    LastIsShort(to);
    var f, p := FileAt(c, dirs, from), Parent(c, dirs, to);
    if f.Some? && p.Some? {
      RenameStart(c, dirs, from, to, f.value, p.value);
      TargetIsFile(c, dirs, p.value, LastName(to));
      SoundParts(c, dirs);
      CountedAt(c, dirs, m);
    }
  }

  lemma CloseKeepsDirectory(c: Cache, dirs: seq<seq<Entry>>, n: nat, c': Cache, m: nat)
    requires Sound(c, dirs) && n < |c.table| && Closed(c, n, c')
    requires m < |c.table| && View(c, m).kind == INode.Directory
    ensures m < |c'.table| && View(c', m).kind == INode.Directory
  {
    SoundParts(c, dirs);
    CountedAt(c, dirs, m);
    hide View, Held, Inv, Release, Sound, Naming, IsDirectory, DirsOk;
    var nums: Slots :| c' == Release(c, n, nums);
    ReleaseKeeps(c, n, nums);
  }

  lemma StepKeepsDirectory(s: State, r: Request, t: State, m: nat)
    requires Accepts(s, r) && Ends(s, r, t)
    requires m < |s.cache.table| && View(s.cache, m).kind == INode.Directory
    ensures m < |t.cache.table| && View(t.cache, m).kind == INode.Directory
  {
    hide CreateDone, UnlinkDone, RenameEnds, Closed, Sound, RenamesFile, Removable, Parent, ModeOf, View, Held, FileAt;
    hide OneMore;
    match r
    case Create(path, kind, mode, n) =>
      var status: int :| CreateDone(s.cache, s.dirs, path, kind, mode, n, t.cache, t.dirs, status);
      CreateKeepsDirectory(s.cache, s.dirs, path, kind, mode, n, t.cache, t.dirs, status, m);
    case Unlink(path) =>
      var status: int :| UnlinkDone(s.cache, s.dirs, path, t.cache, t.dirs, status);
      UnlinkKeepsDirectory(s.cache, s.dirs, path, t.cache, t.dirs, status, m);
    case RemoveDir(path) =>
      var status: int :| RmdirDone(s.cache, s.dirs, path, t.cache, t.dirs, status);
      if !Refused(s.cache, s.dirs, path) {
        UnlinkKeepsDirectory(s.cache, s.dirs, path, t.cache, t.dirs, status, m);
      }
    case Rename(from, to) =>
      var status: int :| RenameEnds(s.cache, s.dirs, from, to, t.cache, t.dirs, status);
      RenameKeepsDirectory(s.cache, s.dirs, from, to, t.cache, t.dirs, status, m);
    case Open(path) =>
    case Close(n) =>
      CloseKeepsDirectory(s.cache, s.dirs, n, t.cache, m);
  }

  // ---------- runs ----------

  // `trace` lists the states of a run of careful requests.
  ghost predicate Run(trace: seq<State>, rs: seq<Request>) {
    && |trace| == |rs| + 1
    && forall i :: 0 <= i < |rs| ==> Step(trace[i], rs[i], trace[i + 1])
  }

  ghost predicate Step(s: State, r: Request, t: State) {
    Accepts(s, r) && Careful(s, r) && Ends(s, r, t)
  }

  // The state of the program started over a disk just formatted.
  ghost predicate Started(s: State) {
    exists size: nat, b: Word :: s == Initial(size, b)
  }

  function Initial(size: nat, b: Word): State {
    State(Fresh(size, Blank(), MkfsTable(b)), NoEntries(NUM_OF_INODES))
  }

  lemma InitialIs(size: nat, b: Word)
    ensures var s := Initial(size, b);
      && Sound(s.cache, s.dirs) && NoOrphans(s.cache) && forall m: nat :: Held(s.cache, m) == 0
  {
    var s := Initial(size, b);
    MkfsSound(size, b);
    NotHeld(size, b);
    hide View, Held, Fresh, Sound;
    FreshTable(size, MkfsTable(b));
    forall n: nat | n < |s.cache.table|
      ensures View(s.cache, n).kind != Regular
    {
      FreshView(size, MkfsTable(b), n);
    }
  }

  lemma NotHeld(size: nat, b: Word)
    ensures forall m: nat :: Held(Initial(size, b).cache, m) == 0
  {
  }

  lemma RunAt(trace: seq<State>, rs: seq<Request>, k: nat)
    requires Run(trace, rs) && k < |rs|
    ensures |trace| == |rs| + 1
    ensures Accepts(trace[k], rs[k]) && Careful(trace[k], rs[k]) && Ends(trace[k], rs[k], trace[k + 1])
  {
    assert Step(trace[k], rs[k], trace[k + 1]);
    hide Accepts, Careful, Ends;
  }

  lemma StartedIs(s: State)
    requires Started(s)
    ensures Sound(s.cache, s.dirs) && NoOrphans(s.cache) && forall m: nat :: Held(s.cache, m) == 0
  {
    hide Sound, NoOrphans, Initial, Held;
    var size: nat, b: Word :| s == Initial(size, b);
    InitialIs(size, b);
  }

  // From mkfs on, in every state of a run of careful requests the directories and link counts
  // are right, and no file is in use that has no name and that nobody holds.
  lemma {:induction false} RunSound(trace: seq<State>, rs: seq<Request>, k: nat)
    requires Run(trace, rs) && Started(trace[0]) && k <= |rs|
    ensures Sound(trace[k].cache, trace[k].dirs) && NoOrphans(trace[k].cache)
  {
    hide Step, Sound, NoOrphans, Started, Accepts, Ends, Careful;
    if k == 0 {
      StartedIs(trace[0]);
    } else {
      RunSound(trace, rs, k - 1);
      RunAt(trace, rs, k - 1);
      StepSoundIff(trace[k - 1], rs[k - 1], trace[k]);
      StepOrphans(trace[k - 1], rs[k - 1], trace[k]);
    }
  }

  // What RunSound says of one regular file.
  lemma NamesAreLinks(s: State, n: nat)
    requires Sound(s.cache, s.dirs) && NoOrphans(s.cache) && n < |s.cache.table| && View(s.cache, n).kind == Regular
    ensures View(s.cache, n).linksCount == Naming(s.dirs, n)
    ensures Naming(s.dirs, n) > 0 || Held(s.cache, n) > 0
  {
    hide View, Held, Inv, Naming, DirsOk, IsDirectory;
    CountedAt(s.cache, s.dirs, n);
  }

  // The references to inode m that the first k requests of a run added.
  ghost function Balance(trace: seq<State>, rs: seq<Request>, k: nat, m: nat): int
    requires Run(trace, rs) && k <= |rs|
  {
    if k == 0 then 0
    else
      assert Step(trace[k - 1], rs[k - 1], trace[k]);
      Balance(trace, rs, k - 1, m) + Added(trace[k - 1], rs[k - 1], m)
  }

  // References are opens less closes, and what createFile and renameFile never give back.
  lemma {:induction false} RunRefs(trace: seq<State>, rs: seq<Request>, k: nat, m: nat)
    requires Run(trace, rs) && Started(trace[0]) && k <= |rs|
    ensures Held(trace[k].cache, m) == Balance(trace, rs, k, m)
  {
    hide Step, Started, Held, Accepts, Ends, Careful, Added, Left, Sound, NoOrphans;
    if k == 0 {
      StartedIs(trace[0]);
    } else {
      RunRefs(trace, rs, k - 1, m);
      RunAt(trace, rs, k - 1);
      StepRefs(trace[k - 1], rs[k - 1], trace[k], m);
    }
  }

  // Once an inode is a directory it stays one in every later state: unlinking its last name
  // leaves it a link, so iput never reclaims it and its inode and blocks are lost.
  lemma {:induction false} RunKeepsDirectory(trace: seq<State>, rs: seq<Request>, j: nat, k: nat, m: nat)
    requires Run(trace, rs) && j <= k <= |rs|
    requires m < |trace[j].cache.table| && View(trace[j].cache, m).kind == INode.Directory
    ensures m < |trace[k].cache.table| && View(trace[k].cache, m).kind == INode.Directory
  {
    hide Step, View, Accepts, Ends, Careful;
    if j < k {
      RunKeepsDirectory(trace, rs, j, k - 1, m);
      RunAt(trace, rs, k - 1);
      StepKeepsDirectory(trace[k - 1], rs[k - 1], trace[k], m);
    }
  }
}
