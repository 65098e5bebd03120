/**
  Path resolution, create, unlink and rename (src/trav/namei.c, src/interface/create.c,
  unlink.c, rename.c) over the inode cache, with each directory as its entries.
 */
module Volumes {
  import opened Params
  import opened Disk
  import opened FileMap
  import opened INode
  import opened CacheModel
  import opened CacheView
  import opened DirectoryEntry
  import opened Directory
  import opened Paths
  import opened Links
  import opened VolumeSteps
  import opened CreateSteps
  import opened RenameSteps

  class Volume {
    var cache: Cache
    // The entries of each directory, by inode number.
    var dirs: seq<seq<Entry>>

    ghost predicate Valid()
      reads this
    {
      Sound(cache, dirs)
    }

    // The program started over a disk just formatted; `b` is the block mkfs gave the root.
    constructor (size: nat, b: Word)
      ensures Valid() && cache == Fresh(size, Blank(), MkfsTable(b)) && dirs == NoEntries(NUM_OF_INODES)
      ensures |cache.table| == 65536 && |cache.free| == size && forall n: nat :: Held(cache, n) == 0
      ensures forall n :: 0 <= n < 65536 ==> AfterMkfs(View(cache, n), n, b)
    {
      cache := Fresh(size, Blank(), MkfsTable(b));
      dirs := NoEntries(NUM_OF_INODES);
      MkfsSound(size, b);
      MkfsViews(size, b);
    }

    // ---------- the steps ----------

    method IGet(n: nat)
      requires Inv(cache) && n < |cache.table| && Available(cache, n)
      modifies this`cache
      ensures cache == Acquire(old(cache), n)
    {
      var (c, id) := CacheModel.IGet(cache, n);
      cache := c;
    }

    // `nums` is what is left in the slots of an inode whose blocks are released.
    method IPut(n: nat) returns (ghost nums: Slots)
      requires Inv(cache) && Held(cache, n) > 0
      modifies this`cache
      ensures cache == Release(old(cache), n, nums)
    {
      var left: Slots := *;
      assert SlotOk(cache, Find(cache.slots, n));
      var (c, status) := CacheModel.IPut(cache, Find(cache.slots, n), left);
      cache := c;
      nums := left;
    }

    // searchINodeDirectoryEntries: -1, 0 or 1, and the place of the entry found.
    method Search(p: nat, name: Name) returns (count: int, f: nat)
      requires Inv(cache) && Held(cache, p) > 0 && p < |cache.table| == |dirs| && |name| < FILENAME_SIZE
      ensures count == -1 <==> !IsDirectory(View(cache, p).fileMode)
      ensures count != -1 ==> f == First(dirs[p], 0, name) && count == if f < |dirs[p]| then 1 else 0
    {
      if !IsDirectory(View(cache, p).fileMode) {
        return -1, 0;
      }
      f := First(dirs[p], 0, name);
      count := if f < |dirs[p]| then 1 else 0;
    }

    // truncateINode to one entry less, or the growth by an entry: size and slots change.
    method Resize(p: nat, size: nat)
      requires Inv(cache) && Held(cache, p) > 0 && p < |cache.table|
      modifies this`cache
      ensures Inv(cache) && Resized(old(cache), cache, p, size)
    {
      hide View, Held, Inv, Update;
      var nums: Slots := *;
      ViewNumber(cache, p);
      ghost var before := cache;
      ghost var ino := View(cache, p).(size := size, dataBlockNums := nums);
      UpdateKeeps(cache, p, ino);
      cache := Update(cache, p, View(cache, p).(size := size, dataBlockNums := nums));
    }

    method SetLinks(n: nat, links: nat)
      requires Inv(cache) && Held(cache, n) > 0 && n < |cache.table|
      modifies this`cache
      ensures Inv(cache) && cache == Update(old(cache), n, View(old(cache), n).(linksCount := links))
    {
      ViewNumber(cache, n);
      UpdateKeeps(cache, n, View(cache, n).(linksCount := links));
      hide View, Held, Inv, Update;
      cache := Update(cache, n, View(cache, n).(linksCount := links));
    }

    // getAndUpdateDirectoryTable.
    method AddEntry(p: nat, e: Entry) returns (status: int)
      requires Inv(cache) && Held(cache, p) > 0 && p < |cache.table| == |dirs|
      modifies this
      ensures Inv(cache)
      ensures !IsDirectory(View(old(cache), p).fileMode) ==> status == -1 && cache == old(cache) && dirs == old(dirs)
      ensures IsDirectory(View(old(cache), p).fileMode) ==>
                status == 0 && Resized(old(cache), cache, p, 64 * (|old(dirs)[p]| + 1))
                && dirs == old(dirs)[p := old(dirs)[p] + [e]]
    {
      if !IsDirectory(View(cache, p).fileMode) {
        return -1;
      }
      hide View, Held, Inv;
      dirs := dirs[p := dirs[p] + [e]];
      Resize(p, DIRECTORY_ENTRY_SIZE * |dirs[p]|);
      status := 0;
    }

    // ---------- src/interface/unlink.c ----------

    // unlinkFileFromINode. The marker that stays takes the wrong entry away.
    method UnlinkFileFromINode(p: nat, name: Name) returns (status: int)
      requires Counted(cache, dirs) && p < |cache.table| == |dirs| && Held(cache, p) > 0 && cache.free != []
      requires |name| < FILENAME_SIZE && Removable(cache, dirs, p, name)
      modifies this
      ensures Inv(cache)
      ensures status == if Bound(old(cache), old(dirs), p, name) then 0 else -1
      ensures status == -1 ==> cache == old(cache) && dirs == old(dirs)
      ensures status == 0 ==>
                var es, f := old(dirs)[p], First(old(dirs)[p], 0, name);
                && f < |es|
                && dirs == old(dirs)[p := Removed(es, f)]
                && Unlinked(old(cache), cache, p, es[f].number, 64 * (|es| - 1))
                && (Counted(cache, dirs) <==> Pays(old(cache), es[f].number, es[Victim(es, f)].number))
    {
      hide View, Held, Inv, Counted, Acquire, Update, Release, Available, IsDirectory, UniqueNames, LessByOne;
      hide SwapRemoved, Removed, Victim, Pays;
      CountedParts(cache, dirs);
      ghost var before, entries := cache, dirs;
      var count, f := Search(p, name);
      if count != 1 {
        return -1;
      }
      var n := dirs[p][f].number;
      NamedInUse(cache, dirs, p, f);
      FileIsApart(cache, dirs, p, n);
      DropLink(before, n, Blank().dataBlockNums);
      IGet(n);
      SetLinks(n, View(cache, n).linksCount - 1);
      ghost var nums := IPut(n);
      DropLink(before, n, nums);
      ghost var after := cache;
      dirs := dirs[p := Removed(dirs[p], f)];
      LessHeld(before, after, n, p);
      Resize(p, DIRECTORY_ENTRY_SIZE * |dirs[p]|);
      LessAndResized(before, after, cache, p, n, 64 * |dirs[p]|);
      UnlinkCounted(before, cache, entries, p, f);
      status := 0;
    }

    // ---------- src/trav/namei.c ----------

    // Only `cur` and what the caller held at the start are held.
    method Operate(name: Name, cur: nat, ghost start: Cache) returns (next: Option<nat>)
      requires Valid() && SameView(start, cache) && OneMore(start, cache, Some(cur)) && start.free != []
      requires InUse(cache, cur) && |name| < FILENAME_SIZE
      modifies this`cache
      ensures Valid() && SameView(start, cache) && OneMore(start, cache, next)
      ensures DirsOk(dirs, |Flags(start)|) && cur < |Flags(start)|
      ensures next == Paths.Operate(Flags(start), dirs, cur, name)
      ensures next.Some? ==> InUse(cache, next.value)
    {
      hide View, Held, Inv, Acquire, Release, Sound, Counted, Available, DirsOk, SameView, OneMore, IsDirectory, Flags;
      hide Ready;
      SoundParts(cache, dirs);
      SoundReady(cache, dirs);
      ghost var before := cache;
      FlagsOf(start, cache, cur);
      OneMoreAt(start, cache, Some(cur), cur);
      if name == [] {
        SoundStart(start, cache, cache, dirs);
        return Some(cur);
      }
      var count, f := Search(cur, name);
      // The buffer the entry is copied to is cleared first.
      var iNodeNum: nat := 0;
      if count == 1 {
        iNodeNum := dirs[cur][f].number;
        NamedInUse(cache, dirs, cur, f);
      }
      ghost var nums := IPut(cur);
      LetGo(start, before, cur, nums);
      SoundStart(start, before, cache, dirs);
      if count == 0 {
        return None;
      }
      StillInUse(start, before, cache, iNodeNum);
      OneMoreAt(start, cache, None, 0);
      ghost var between := cache;
      TakeUp(start, cache, iNodeNum);
      ReadyIs(cache);
      IGet(iNodeNum);
      SoundStart(start, between, cache, dirs);
      next := Some(iNodeNum);
    }

    method GetFileINode(path: Name) returns (found: Option<nat>)
      requires Valid() && cache.free != [] && path != [] && Short(path)
      modifies this`cache
      ensures Valid() && SameView(old(cache), cache) && OneMore(old(cache), cache, found)
      ensures DirsOk(dirs, |Flags(old(cache))|) && found == Walk(Flags(old(cache)), dirs, 0, path[1..])
      ensures DirsOk(dirs, |dirs|) && 0 < |dirs|
      ensures found == Fold(dirs, 0, Components(path[1..])) <==> Straight(Flags(old(cache)), dirs, 0, path[1..])
      ensures found.Some? ==> InUse(cache, found.value)
    {
      hide View, Held, Inv, Acquire, Release, Sound, Available, DirsOk, SameView, OneMore, IsDirectory, Flags, Ready;
      hide Walk, Paths.Operate, InUse, Fold, Straight, Components, Short;
      ghost var start := cache;
      SoundParts(cache, dirs);
      ResolvesIff(cache, dirs, path[1..]);
      SoundReady(cache, dirs);
      NoMore(cache);
      TakeUp(start, cache, 0);
      IGet(0);
      SoundStart(start, start, cache, dirs);
      var workingINode: nat := 0;
      var counter := 1;
      while counter < |path|
        invariant 1 <= counter <= |path|
        invariant Valid() && SameView(start, cache) && OneMore(start, cache, Some(workingINode))
        invariant InUse(cache, workingINode)
        invariant DirsOk(dirs, |Flags(start)|) && workingINode < |Flags(start)|
        invariant Walk(Flags(start), dirs, workingINode, path[counter..]) == Walk(Flags(start), dirs, 0, path[1..])
      {
        var rest := path[counter..];
        var endAt := EndAt(rest);
        ShortEnd(path, counter);
        var next := Operate(rest[..endAt], workingINode, start);
        WalkRound(Flags(start), dirs, workingINode, rest);
        if next.None? {
          return None;
        }
        workingINode := next.value;
        if endAt == |rest| {
          return next;
        }
        assert path[counter..][endAt + 1..] == path[counter + endAt + 1..];
        counter := counter + endAt + 1;
      }
      WalkEnds(Flags(start), dirs, workingINode);
      assert path[counter..] == [];
      found := Some(workingINode);
    }

    // getParentINode: the directory part ends with the last slash.
    method GetParentINode(path: Name) returns (found: Option<nat>)
      requires Valid() && cache.free != [] && path != [] && path[0] == SLASH && Short(path)
      modifies this`cache
      ensures Valid() && SameView(old(cache), cache) && OneMore(old(cache), cache, found)
      ensures DirsOk(dirs, |Flags(old(cache))|) && found == ParentOf(Flags(old(cache)), dirs, path)
      ensures found.Some? ==> InUse(cache, found.value)
    {
      hide View, Held, Inv, Sound, DirsOk, SameView, OneMore, Flags, Walk, Short;
      ShortFront(path, LastSlash(path));
      found := GetFileINode(path[..LastSlash(path)]);
    }

    // ---------- src/interface/unlink.c, continued ----------

    method UnlinkFile(path: Name) returns (status: int)
      requires MayUnlink(cache, dirs, path)
      modifies this
      ensures Inv(cache) && UnlinkDone(old(cache), old(dirs), path, cache, dirs, status)
    {
      hide View, Held, Inv, Sound, Counted, DirsOk, SameView, OneMore, Flags, ParentOf, Release, Removed, Victim, Ready;
      hide Removable, Unlinked, LastName, InUse, IsDirectory, Pays, Short;
      ghost var start := cache;
      LastIsShort(path);
      SoundParts(cache, dirs);
      SoundReady(cache, dirs);
      var parentINode := GetParentINode(path);
      if parentINode.None? {
        SoundParts(cache, dirs);
        return -ENOENT;
      }
      var p := parentINode.value;
      ghost var resolved := cache;
      SoundParts(cache, dirs);
      SoundReady(cache, dirs);
      OneMoreAt(start, cache, Some(p), p);
      OneMoreFree(start, cache, Some(p));
      SameBound(start, cache, dirs, p, LastName(path));
      status := UnlinkFileFromINode(p, LastName(path));
      if status == -1 {
        ghost var nums := IPut(p);
        LetGo(start, resolved, p, nums);
        SoundStart(start, resolved, cache, dirs);
        ReadyIs(cache);
        return;
      }
      ghost var unlinked, entries := cache, old(dirs);
      ghost var es, f := entries[p], First(entries[p], 0, LastName(path));
      UnlinkedLetGo(start, resolved, unlinked, p, es[f].number, 64 * (|es| - 1), Blank().dataBlockNums);
      ghost var nums := IPut(p);
      UnlinkedLetGo(start, resolved, unlinked, p, es[f].number, 64 * (|es| - 1), nums);
      SameCounted(unlinked, cache, dirs);
      UnlinkedRoot(start, cache, entries, p, es[f].number);
      SamePays(start, resolved, es[f].number, es[Victim(es, f)].number);
      SoundIs(cache, dirs);
    }

    // validateAndEmptyDirectoryIfNeeded without force.
    method ValidateAndEmptyDirectoryIfNeeded(n: nat) returns (status: int)
      requires Counted(cache, dirs) && n < |cache.table| && Held(cache, n) > 0
      ensures n < |dirs|
      ensures var ino := View(cache, n);
        && (n == 0 ==> status == -13)
        && (n != 0 && ino.kind == INode.Directory ==> status == if |dirs[n]| > 2 then -39 else 0)
        && (n != 0 && ino.kind != INode.Directory ==> status == if ino.size > 128 then -39 else -20)
    {
      DirectorySize(cache, dirs, n);
      if n == 0 {
        return -EACCES;
      }
      if View(cache, n).size > 2 * DIRECTORY_ENTRY_SIZE {
        return -ENOTEMPTY;
      }
      if View(cache, n).kind != INode.Directory {
        return -ENOTDIR;
      }
      return 0;
    }

    // unlinkDir without force, as rmdir calls it.
    method UnlinkDir(path: Name) returns (status: int)
      requires MayRmdir(cache, dirs, path)
      modifies this
      ensures Inv(cache) && RmdirDone(old(cache), old(dirs), path, cache, dirs, status)
    {
      hide View, Held, Inv, Sound, Counted, DirsOk, SameView, OneMore, Flags, ParentOf, Release, Ready, Walk, Short;
      hide Removable, UnlinkDone, LastName, InUse, IsDirectory, Bound, FileAt;
      ghost var start := cache;
      FileAtIs(cache, dirs, path);
      SoundParts(cache, dirs);
      SoundReady(cache, dirs);
      var fileINode := GetFileINode(path);
      var n := fileINode.value;
      ghost var resolved := cache;
      SoundParts(cache, dirs);
      SoundReady(cache, dirs);
      SameViewAt(start, cache, n);
      OneMoreAt(start, cache, fileINode, n);
      LetGo(start, cache, n, Blank().dataBlockNums);
      status := ValidateAndEmptyDirectoryIfNeeded(n);
      ghost var nums := IPut(n);
      LetGo(start, resolved, n, nums);
      SoundStart(start, resolved, cache, dirs);
      ReadyIs(cache);
      if status != 0 {
        return;
      }
      MayUnlinkSame(start, cache, dirs, path);
      ghost var entries, before := dirs, cache;
      status := UnlinkFile(path);
      UnlinkSame(start, before, entries, path, cache, dirs, status);
    }

    // ---------- src/interface/create.c ----------

    // getNewINode: the inode number is given, its inode has no links yet.
    method GetNewINode(n: nat, kind: Kind, mode: nat)
      requires Inv(cache) && 0 < n < |cache.table| && Held(cache, n) == 0 && View(cache, n).linksCount == 0
      modifies this`cache
      ensures Inv(cache) && Renewed(old(cache), cache, n, NewINode(View(old(cache), n), kind, mode, 0, 0))
    {
      ViewNumber(cache, n);
      NewKeeps(cache, n, NewINode(View(cache, n), kind, mode, 0, 0));
      UnheldView(cache, n);
      hide View, Held, Inv;
      cache := cache.(table := cache.table[n := NewINode(cache.table[n], kind, mode, 0, 0)]);
    }

    // iget of the new inode; its link, or as a directory its two entries and links.
    method FirstLink(n: nat, p: nat, fileType: Kind)
      requires Inv(cache) && 0 < n < |cache.table| == |dirs| == NUM_OF_INODES && p < |dirs|
      requires Held(cache, n) == 0 && cache.free != [] && fileType != Unused
      requires View(cache, n).size == 0
      modifies this
      ensures Inv(cache) && cache.table == old(cache).table && |cache.free| == |old(cache).free| - 1
      ensures NewIs(View(old(cache), n), View(cache, n), View(old(cache), n).kind, View(old(cache), n).fileMode,
                    FirstSize(fileType), FirstLinks(fileType))
      ensures forall m :: 0 <= m < |cache.table| && m != n ==> View(cache, m) == View(old(cache), m)
      ensures forall m: nat :: Held(cache, m) == Held(old(cache), m) + if m == n then 1 else 0
      ensures dirs == if fileType == INode.Directory then old(dirs)[n := old(dirs)[n] + Dots(n, p)] else old(dirs)
    {
      assert Available(cache, n);
      UnheldView(cache, n);
      hide View, Held, Inv, Acquire, Update, Available;
      AcquireKeeps(cache, n);
      IGet(n);
      ViewNumber(cache, n);
      ghost var got := cache;
      if fileType == Regular {
        SetLinks(n, 1);
        UpdateKeeps(got, n, View(got, n).(linksCount := 1));
      }
      if fileType == INode.Directory {
        dirs := dirs[n := dirs[n] + Dots(n, p)];
        Resize(n, 2 * DIRECTORY_ENTRY_SIZE);
        ghost var grown := cache;
        ViewNumber(cache, n);
        SetLinks(n, 2);
        UpdateKeeps(grown, n, View(grown, n).(linksCount := 2));
      }
    }

    // The creation of inode number `n`, a regular file or a directory. Between finding out that
    // the name exists and returning -1, the reference to the parent is not given back.
    method CreateFile(path: Name, fileType: Kind, mode: nat, n: nat) returns (status: int)
      requires MayCreate(cache, dirs, path, fileType, mode, n)
      modifies this
      ensures Inv(cache) && CreateDone(old(cache), old(dirs), path, fileType, mode, n, cache, dirs, status)
    {
      hide View, Held, Inv, Sound, Counted, DirsOk, SameView, OneMore, Flags, ParentOf, Release, LastName, IsDirectory;
      hide Created, Renewed, Resized, Ready, InUse, FieldOf, Short, ModeOf, DirsAfter;
      ghost var start := cache;
      SoundParts(cache, dirs);
      NoMore(cache);
      LastIsShort(path);
      if fileType == Unused {
        return -1;
      }
      var parentINode := GetParentINode(path);
      SoundParts(cache, dirs);
      if parentINode.None? {
        return -1;
      }
      var p := parentINode.value;
      SoundReady(cache, dirs);
      OneMoreAt(start, cache, Some(p), p);
      SameBound(start, cache, dirs, p, LastName(path));
      var count, f := Search(p, LastName(path));
      if count == 1 {
        return -1;
      }
      FinishCreate(LastName(path), fileType, p, mode, n, start);
      status := 0;
    }

    // What createFile does once the parent is found and the name is not in it.
    method FinishCreate(filename: Name, fileType: Kind, p: nat, mode: nat, n: nat, ghost start: Cache)
      requires Sound(start, dirs) && Ready(cache) && SameView(start, cache) && OneMore(start, cache, Some(p))
      requires InUse(cache, p)
      requires |start.free| >= 2 && p < |start.table| == |dirs| == NUM_OF_INODES && |filename| < FILENAME_SIZE
      requires n < |start.table| && Held(start, n) == 0 && View(start, n).kind == Unused && fileType != Unused
      requires IsDirectory(ModeOf(fileType, mode)) <==> fileType == INode.Directory
      requires !Bound(start, dirs, p, filename)
      modifies this
      ensures Inv(cache) && p != n
      ensures CreatedIn(start, old(dirs), filename, fileType, mode, n, p, cache, dirs)
    {
      hide View, Held, Inv, Sound, Counted, DirsOk, SameView, OneMore, Release, Bound, IsDirectory, Creating, ModeOf;
      hide Renewed, Resized, Ready, InUse, FieldOf, Dots, NewIs;
      ghost var before, size := dirs, SizeAfter(View(start, p), |dirs[p]|);
      var fileMode := ModeOf(fileType, mode);
      var e := Entry(FieldOf(filename), n);
      ReadyIs(cache);
      SameViewAt(start, cache, p);
      ToCreate(start, cache, dirs, p, n);
      GetNewINode(n, fileType, fileMode);
      RenewedStart(start, old(cache), cache, p, n, fileType, fileMode);
      ghost var renewed := cache;
      var added := AddEntry(p, e);
      AddedStart(start, renewed, cache, p, n, fileType, fileMode, size);
      ghost var grown := cache;
      CreatingNew(start, cache, p, n, fileType, fileMode, size);
      FirstLink(n, p, fileType);
      LinkedNew(start, grown, cache, p, n, fileType, fileMode, size);
      ghost var linked := cache;
      ghost var nums := IPut(p);
      GiveParent(start, linked, p, n, fileType, fileMode, size, FirstSize(fileType), FirstLinks(fileType), nums);
      linked := cache;
      nums := IPut(n);
      GiveNew(start, linked, p, n, fileType, fileMode, size, FirstSize(fileType), FirstLinks(fileType), nums);
      CreatedCounted(start, cache, before, p, n, fileType, mode, filename);
      PlacedIs(before, IsDirectory(View(start, p).fileMode), p, n, fileType, filename);
      MadeIs(start, cache, before, IsDirectory(View(start, p).fileMode), p, n, fileType, mode, size, filename);
      SoundIs(cache, dirs);
    }

    // ---------- src/interface/rename.c ----------

    // The destination, if there is one, is a regular file.
    method RemoveDestinationIfExists(p: nat, name: Name) returns (status: int)
      requires Valid() && p < |cache.table| == |dirs| && Held(cache, p) > 0 && cache.free != []
      requires NamesFile(cache, dirs, p, name) && IsDirectory(View(cache, p).fileMode) && |name| < FILENAME_SIZE
      modifies this
      ensures Inv(cache) && status == 0
      ensures Replaces(old(dirs)[p], name) ==> Counted(cache, dirs) && dirs == Cleared(old(dirs), p, name)
      ensures var es, f := old(dirs)[p], First(old(dirs)[p], 0, name);
        && (f == |es| ==> SameView(old(cache), cache) && OneMore(old(cache), cache, None) && Ready(cache))
        && (f == |es| ==> Counted(cache, dirs) && dirs == old(dirs))
        && (f < |es| ==>
              && Unlinked(old(cache), cache, p, es[f].number, 64 * (|es| - 1))
              && dirs == old(dirs)[p := Removed(es, f)]
              && (Counted(cache, dirs) <==> Pays(old(cache), es[f].number, es[Victim(es, f)].number)))
    {
      hide View, Held, Inv, Sound, Counted, Acquire, Release, IsDirectory, SameView, OneMore, SwapRemoved, Unlinked;
      hide Ready;
      hide Removed, Victim, InUse, Pays;
      ghost var before, entries := cache, dirs;
      NoMore(cache);
      SoundParts(cache, dirs);
      SoundReady(cache, dirs);
      var retVal, f := Search(p, name);
      if retVal == 1 {
        var n := dirs[p][f].number;
        NamedInUse(cache, dirs, p, f);
        NamedInTable(cache, dirs, p, f);
        TakeUp(before, cache, n);
        IGet(n);
        ghost var got := cache;
        LetGo(before, got, n, Blank().dataBlockNums);
        ReadyIs(got);
        ghost var nums := IPut(n);
        LetGo(before, got, n, nums);
        SoundStart(before, before, cache, dirs);
        SoundParts(cache, dirs);
        SameBound(before, cache, dirs, p, name);
        OneMoreAt(before, cache, None, p);
        ghost var same := cache;
        status := UnlinkFileFromINode(p, name);
        RemovedIs(entries[p], f);
        SamePays(before, same, n, entries[p][Victim(entries[p], f)].number);
        PaysOwn(before, n);
        SameThenUnlinked(before, same, cache, p, n, 64 * (|entries[p]| - 1));
      } else {
        status := 0;
      }
    }

    // The new entry, the link it makes, and the two iputs.
    method Relink(f: nat, p: nat, name: Name, ghost start: Cache, ghost dest: Option<nat>)
      requires Counted(cache, dirs) && Holding(start, cache, f, p, dest, true, true)
      requires p < |cache.table| == |dirs| && f < |cache.table| && f != p
      requires |name| < FILENAME_SIZE && f < NUM_OF_INODES && name !in Bindings(dirs[p])
      requires IsDirectory(View(cache, p).fileMode) && InUse(start, p) && Ready(start) && View(start, 0).linksCount == 0
      modifies this
      ensures Counted(cache, dirs) && Holding(start, cache, f, p, dest, false, false)
      ensures p != 0 || Held(start, 0) == 0 ==> Valid()
      ensures p == 0 && Held(start, 0) > 0 ==> View(Acquire(cache, 0), 0) == View(start, 0)
      ensures dirs == old(dirs)[p := old(dirs)[p] + [Entry(FieldOf(name), f)]]
      ensures f < |cache.table| && View(cache, f).linksCount == View(old(cache), f).linksCount + 1
    {
      hide View, Held, Inv, Sound, Counted, Release, Update, IsDirectory, SameView, Holding, Resized, Bindings, FieldOf;
      hide NameOf, DirsOk, Ready, InUse;
      ghost var before, entries := cache, dirs;
      var e := Entry(FieldOf(name), f);
      CountedParts(cache, dirs);
      CountedAt(cache, dirs, f);
      HoldingFlags(start, cache, f, p, dest, true, true);
      var added := AddEntry(p, e);
      ghost var grown := cache;
      HoldingResized(start, before, grown, f, p, dest, 64 * (|entries[p]| + 1));
      HoldingLinked(start, grown, f, p, dest, View(before, f).linksCount + 1);
      SetLinks(f, View(cache, f).linksCount + 1);
      FieldNames(name, f);
      LinkCounted(before, cache, entries, p, e);
      ghost var linked := cache;
      HoldingGiveParent(start, linked, f, p, dest, Blank().dataBlockNums);
      ghost var nums := IPut(p);
      HoldingGiveParent(start, linked, f, p, dest, nums);
      CountedSame(linked, cache, dirs);
      SameViewAt(linked, cache, f);
      linked := cache;
      HoldingGiveFile(start, linked, f, p, dest, Blank().dataBlockNums);
      nums := IPut(f);
      HoldingGiveFile(start, linked, f, p, dest, nums);
      CountedSame(linked, cache, dirs);
      SameViewAt(linked, cache, f);
      HoldingRoot(start, cache, f, p, dest);
      if p != 0 || Held(start, 0) == 0 {
        ReadyIs(cache);
      }
      SoundIs(cache, dirs);
    }

    // -ENOENT if the file or the target directory is not there; in the second case the
    // reference to the file is not given back.
    method RenameFile(from: Name, to: Name) returns (status: int)
      requires MayRename(cache, dirs, from, to)
      modifies this
      ensures Inv(cache) && RenameEnds(old(cache), old(dirs), from, to, cache, dirs, status)
    {
      hide View, Held, Inv, Sound, DirsOk, SameView, OneMore, Flags, RenamesFile, Walk, LastName, Holding, Ready;
      hide RenameDone, Target, ParentOf;
      ghost var start := cache;
      LastIsShort(to);
      SoundParts(cache, dirs);
      SoundReady(cache, dirs);
      var fileINode := GetFileINode(from);
      SoundParts(cache, dirs);
      SameFlags(start, cache);
      OneMoreFree(start, cache, fileINode);
      if fileINode.None? {
        return -ENOENT;
      }
      ghost var gotFile := cache;
      var toParent := GetParentINode(to);
      SoundParts(cache, dirs);
      if toParent.None? {
        SameTwice(start, gotFile, cache, fileINode);
        return -ENOENT;
      }
      RenameStart(start, dirs, from, to, fileINode.value, toParent.value);
      SoundReady(cache, dirs);
      HoldingBoth(start, gotFile, cache, fileINode.value, toParent.value);
      SameViewBoth(start, gotFile, cache);
      status := MoveEntry(from, to, fileINode.value, toParent.value, start);
    }

    // What renameFile does once the file and the target directory are found.
    method MoveEntry(from: Name, to: Name, f: nat, p: nat, ghost start: Cache) returns (status: int)
      requires Valid() && Sound(start, dirs) && from != [] && from[0] == SLASH && to != [] && to[0] == SLASH
      requires |start.free| >= 3 && Short(from) && |LastName(to)| < FILENAME_SIZE && RenamesFile(start, dirs, from, to)
      requires FileAt(start, dirs, from) == Some(f) && Parent(start, dirs, to) == Some(p) && p < |dirs|
      requires SameView(start, cache)
      requires Holding(start, cache, f, p, None, true, true)
      modifies this
      ensures Inv(cache) && status == 0
      ensures RenameDone(start, old(dirs), cache, dirs, from, to, f, p)
    {
      hide View, Held, Inv, Sound, Counted, DirsOk, SameView, OneMore, Flags, RenamesFile, Walk, LastName, Holding;
      hide Ready, InUse;
      hide Renamed, FileAfter, OthersKept, Target, ParentOf, Unlinked, Bindings, UniqueNames, NameOf, IsDirectory;
      hide NamesFile;
      hide SwapRemoved, First, Cleared, Parent, FileAt, Removed, Victim, Replaces;
      ghost var entries, before, dest := dirs, cache, Target(dirs, p, LastName(to));
      RenameStart(start, dirs, from, to, f, p);
      SoundReady(start, dirs);
      HoldingFlags(start, cache, f, p, None, true, true);
      SameBound(start, cache, dirs, p, LastName(to));
      SameViewAt(start, cache, p);
      var removed := RemoveDestinationIfExists(p, LastName(to));
      HoldingCleared(start, before, cache, entries, f, p, LastName(to),
          if entries[p] == [] then 0 else 64 * (|entries[p]| - 1));
      HoldingFlags(start, cache, f, p, dest, true, true);
      FlagAt(start, p);
      FlagAt(cache, p);
      RelinkedNames(entries, p, LastName(to), f);
      ClearedNames(entries, p, LastName(to));
      Relink(f, p, LastName(to), start, dest);
      ReadyToUnlink(start, cache, entries, from, to, f, p);
      LinkedDirs(start, cache, entries, from, to, f, p);
      HoldingFlags(start, cache, f, p, dest, false, false);
      ghost var linked, fp := cache, Parent(start, entries, from).value;
      ghost var i := First(dirs[fp], 0, LastName(from));
      ghost var size := 64 * (|dirs[fp]| - 1);
      ghost var dirs2: seq<seq<Entry>> := dirs;
      status := UnlinkFile(from);
      PaysSame(start, linked, f, p, dest, f, dirs2[fp][Victim(dirs2[fp], i)].number);
      AfterRename(start, linked, cache, dirs, f, p, fp, dest, size);
      RenamedIff(entries, fp, LastName(from), p, LastName(to), f, i);
    }
  }
}
