/**
  Where paths lead after a creation, an unlink and a rename.
 */
module PathEffects {
  import opened Params
  import opened INode
  import opened CacheModel
  import opened CacheView
  import opened DirectoryEntry
  import opened Directory
  import opened Paths
  import opened Links
  import opened VolumeSteps
  import opened CreateSteps
  import opened RenameSteps

  // The directory part of a path leads through directories.
  ghost predicate Reached(c: Cache, dirs: seq<seq<Entry>>, path: Name)
    requires Sound(c, dirs) && path != [] && path[0] == SLASH
  {
    SoundParts(c, dirs);
    LastName(path) != [] && DirPath(Flags(c), dirs, 0, path[..LastSlash(path)][1..])
  }

  // After the names of directories kept their meaning, a path leads where the directory it
  // names binds its last name.
  lemma StillLeads(c: Cache, dirs: seq<seq<Entry>>, c': Cache, dirs': seq<seq<Entry>>, path: Name)
    requires Sound(c, dirs) && Sound(c', dirs') && path != [] && path[0] == SLASH && Reached(c, dirs, path)
    requires Parent(c, dirs, path).Some? && StillDirs(Flags(c), Flags(c'))
    requires |dirs| == |Flags(c)| == |dirs'| && KeepsDirs(Flags(c), dirs, dirs')
    ensures Parent(c', dirs', path) == Parent(c, dirs, path) && Reached(c', dirs', path)
    ensures var p := Parent(c', dirs', path).value;
      && p < |dirs'| && Flags(c')[p]
      && FileAt(c', dirs', path)
         == if LastName(path) in Bindings(dirs'[p]) then Some(Bindings(dirs'[p])[LastName(path)]) else None
  {
    hide View, Inv, Counted, DirPath, Walk, Bindings, DirsOk, LastName, LastSlash, StillDirs, KeepsDirs, Flags;
    hide ParentOf;
    SoundParts(c, dirs);
    SoundParts(c', dirs');
    ParentIs(Flags(c), dirs, path);
    ParentIs(Flags(c'), dirs', path);
    WalkStays(Flags(c), Flags(c'), dirs, dirs', 0, path[..LastSlash(path)][1..]);
    PathLeads(Flags(c'), dirs', path);
  }

  // ---------- creation ----------

  lemma CreatedDirs(c: Cache, dirs: seq<seq<Entry>>, name: Name, kind: Kind, mode: nat, n: nat, p: nat, c': Cache,
                    dirs': seq<seq<Entry>>)
    requires |name| < FILENAME_SIZE && CreatedIn(c, dirs, name, kind, mode, n, p, c', dirs')
    requires Sound(c, dirs) && Sound(c', dirs') && p < |c.table| && n < |c.table| && !Bound(c, dirs, p, name)
    requires View(c, n).kind == Unused
    ensures |dirs'| == |dirs| == |Flags(c)| && Bindings(dirs'[p]) == Bindings(dirs[p])[name := n]
    ensures name !in Bindings(dirs[p])
    ensures KeepsDirs(Flags(c), dirs, dirs')
  {
    hide View, Held, Inv, Counted, Sound, DirsOk, NameOf, FieldOf, Bindings, UniqueNames, Created, Bound, IsDirectory;
    hide Dots;
    SoundParts(c, dirs);
    NewNameFree(c, dirs, p, name);
    UniqueAt(dirs, p);
    Unentered(c, dirs, n);
    var e := Entry(FieldOf(name), n);
    FieldNames(name, n);
    AppendBinds(dirs[p], e);
    NoBindings();
    assert dirs'[p] == dirs[p] + [e];
    forall q | 0 <= q < |dirs| && q != p && q != n
      ensures dirs'[q] == dirs[q]
    {
    }
  }

  lemma NoBindings()
    ensures Bindings([]) == map[]
  {
  }

  lemma Unentered(c: Cache, dirs: seq<seq<Entry>>, n: nat)
    requires Counted(c, dirs) && n < |c.table| && View(c, n).kind == Unused
    ensures n < |dirs| && dirs[n] == [] && !IsDirectory(View(c, n).fileMode)
  {
    hide View, Inv, Naming, DirsOk, IsDirectory;
    CountedAt(c, dirs, n);
  }

  lemma CreatedFlags(c: Cache, c': Cache, p: nat, n: nat, kind: Kind, mode: nat, size: nat)
    requires Created(c, c', p, n, kind, mode, size) && n < |c.table| && !IsDirectory(View(c, n).fileMode)
    ensures StillDirs(Flags(c), Flags(c')) && n < |c'.table| && View(c', n).kind == kind
  {
    hide View, Held, IsDirectory;
    forall m | 0 <= m < |c.table| && Flags(c)[m]
      ensures Flags(c')[m]
    {
      FlagAt(c, m);
      FlagAt(c', m);
    }
  }

  // A created file or directory is found under its path, and every path through directories
  // still leads through them.
  lemma CreateLeads(c: Cache, dirs: seq<seq<Entry>>, path: Name, kind: Kind, mode: nat, n: nat, c': Cache,
                    dirs': seq<seq<Entry>>, other: Name)
    requires MayCreate(c, dirs, path, kind, mode, n) && CreateDone(c, dirs, path, kind, mode, n, c', dirs', 0)
    requires Sound(c', dirs') && Reached(c, dirs, path)
    ensures FileAt(c', dirs', path) == Some(n) && n < |c'.table| && View(c', n).kind == kind
    ensures Reached(c', dirs', path) && Parent(c', dirs', path) == Parent(c, dirs, path)
    ensures other != [] && other[0] == SLASH && Reached(c, dirs, other) && Parent(c, dirs, other).Some? ==>
              Reached(c', dirs', other) && Parent(c', dirs', other) == Parent(c, dirs, other)
  {
    hide View, Held, Inv, Counted, Sound, Created, Bound, IsDirectory, DirsAfter, Reached, FileAt, Parent, Bindings;
    hide Flags;
    hide KeepsDirs, StillDirs, SameView, OneMore, ModeOf, LastName;
    LastIsShort(path);
    SoundParts(c, dirs);
    var p := Parent(c, dirs, path).value;
    Unentered(c, dirs, n);
    CreatedDirs(c, dirs, LastName(path), kind, mode, n, p, c', dirs');
    CreatedFlags(c, c', p, n, kind, mode, SizeAfter(View(c, p), |dirs[p]|));
    StillLeads(c, dirs, c', dirs', path);
    if other != [] && other[0] == SLASH && Reached(c, dirs, other) && Parent(c, dirs, other).Some? {
      StillLeads(c, dirs, c', dirs', other);
    }
  }

  // The path of a name in a directory.
  function Below(path: Name, name: Name): (below: Name)
    ensures path != [] ==> below != [] && below[0] == path[0]
  {
    path + ([SLASH] + name)
  }

  lemma SlashBelow(path: Name, name: Name)
    requires forall i :: 0 <= i < |name| ==> name[i] != SLASH
    ensures LastSlash(Below(path, name)) == |path| + 1 <= |Below(path, name)|
  {
    NoneAfter(path, name);
    hide LastSlash, Below;
    OnlyLastSlash(Below(path, name), |path| + 1);
  }

  lemma NoneAfter(path: Name, name: Name)
    requires forall i :: 0 <= i < |name| ==> name[i] != SLASH
    ensures var below := Below(path, name);
      |below| == |path| + 1 + |name| && below[|path|] == SLASH && forall i :: |path| < i < |below| ==> below[i] != SLASH
  {
    var below := Below(path, name);
    forall i | |path| < i < |below|
      ensures below[i] != SLASH
    {
      assert below[i] == name[i - |path| - 1];
    }
  }

  lemma LastSlashIs(path: Name, name: Name)
    requires path != [] && path[0] == SLASH && forall i :: 0 <= i < |name| ==> name[i] != SLASH
    ensures var below := Below(path, name);
      && LastName(below) == name
      && below[..LastSlash(below)][1..] == path[..LastSlash(path)][1..] + (LastName(path) + [SLASH])
  {
    hide LastSlash, Below;
    SlashBelow(path, name);
    FirstSlash(path);
    Regrouped(path, name, LastSlash(path));
  }

  lemma OnlyLastSlash(path: Name, k: nat)
    requires 0 < k <= |path| && path[k - 1] == SLASH && forall i :: k <= i < |path| ==> path[i] != SLASH
    ensures LastSlash(path) == k
  {
    var j := LastSlash(path);
    hide LastSlash;
  }

  lemma FirstSlash(path: Name)
    requires path != [] && path[0] == SLASH
    ensures LastSlash(path) > 0
  {
    var j := LastSlash(path);
    hide LastSlash;
  }

  lemma Regrouped(path: Name, name: Name, k: nat)
    requires 0 < k <= |path|
    ensures |Below(path, name)| > |path|
    ensures var below := Below(path, name);
      below[|path| + 1..] == name && below[..|path| + 1][1..] == path[..k][1..] + (path[k..] + [SLASH])
  {
    var below := Below(path, name);
    assert below[..|path| + 1] == path + [SLASH];
    assert path == path[..k] + path[k..];
  }

  // A name below a path that leads to a directory is looked for in that directory. So what is
  // created below a created directory is found there.
  lemma BelowDirectory(c: Cache, dirs: seq<seq<Entry>>, path: Name, n: nat, name: Name)
    requires Sound(c, dirs) && path != [] && path[0] == SLASH && Reached(c, dirs, path) && Parent(c, dirs, path).Some?
    requires FileAt(c, dirs, path) == Some(n) && n < |c.table| && IsDirectory(View(c, n).fileMode)
    requires name != [] && forall i :: 0 <= i < |name| ==> name[i] != SLASH
    ensures var below := Below(path, name);
      && below != [] && below[0] == SLASH && Reached(c, dirs, below) && Parent(c, dirs, below) == Some(n)
  {
    hide View, Inv, Counted, DirPath, Walk, DirsOk, Flags, IsDirectory, Operate, Below;
    var below, isDir := Below(path, name), Flags(c);
    var front, last := path[..LastSlash(path)][1..], LastName(path);
    SoundParts(c, dirs);
    LastSlashIs(path, name);
    ParentIs(isDir, dirs, path);
    ParentIs(isDir, dirs, below);
    FlagAt(c, n);
    assert path[1..] == front + last;
    WalkSplit(isDir, dirs, 0, front, last);
    DirPathJoin(isDir, dirs, 0, front, last);
  }

  // What a name below a path leads to is what the directory at the path binds it to.
  lemma LeadsBelow(c: Cache, dirs: seq<seq<Entry>>, path: Name, n: nat, name: Name)
    requires Sound(c, dirs) && path != [] && path[0] == SLASH && Reached(c, dirs, path) && Parent(c, dirs, path).Some?
    requires FileAt(c, dirs, path) == Some(n) && n < |c.table| && IsDirectory(View(c, n).fileMode)
    requires name != [] && forall i :: 0 <= i < |name| ==> name[i] != SLASH
    ensures n < |dirs|
    ensures FileAt(c, dirs, Below(path, name))
            == if name in Bindings(dirs[n]) then Some(Bindings(dirs[n])[name]) else None
  {
    hide View, Inv, Counted, Walk, DirsOk, Flags, IsDirectory, Operate, Below, Bindings, LastSlash;
    var below := Below(path, name);
    SoundParts(c, dirs);
    BelowDirectory(c, dirs, path, n, name);
    LastSlashIs(path, name);
    PathLeads(Flags(c), dirs, below);
  }

  lemma MadeBinds(a: DiskINode, b: DiskINode, es: seq<Entry>, mode: nat, n: nat, p: nat)
    requires Made(a, b, es, INode.Directory, mode, n, p)
    ensures Bindings(es) == map[[46] := n, [46, 46] := p]
    ensures b.kind == INode.Directory
  {
    hide NameOf;
    assert es == [es[0], es[1]];
    assert es[..1] == [es[0]] && es[..1][..0] == [];
    assert Bindings(es[..1]) == map[[46] := n];
  }

  // A new directory binds `.` to itself and `..` to the directory it was made in, and nothing
  // else; so that is where they lead from its path.
  lemma DotsLead(c: Cache, dirs: seq<seq<Entry>>, path: Name, mode: nat, n: nat, c': Cache, dirs': seq<seq<Entry>>)
    requires MayCreate(c, dirs, path, INode.Directory, mode, n)
    requires CreateDone(c, dirs, path, INode.Directory, mode, n, c', dirs', 0)
    requires Sound(c', dirs') && Reached(c, dirs, path)
    ensures n < |dirs'| && Parent(c, dirs, path).Some?
    ensures Bindings(dirs'[n]) == map[[46] := n, [46, 46] := Parent(c, dirs, path).value]
    ensures FileAt(c', dirs', Below(path, [46])) == Some(n)
    ensures FileAt(c', dirs', Below(path, [46, 46])) == Parent(c, dirs, path)
  {
    hide View, Held, Inv, Counted, Sound, Created, Bound, IsDirectory, DirsAfter, Reached, FileAt, Parent, Bindings;
    hide Flags;
    hide SameView, OneMore, ModeOf, LastName, Below, Made;
    LastIsShort(path);
    SoundParts(c, dirs);
    SoundParts(c', dirs');
    CreateLeads(c, dirs, path, INode.Directory, mode, n, c', dirs', path);
    var p := Parent(c, dirs, path).value;
    MadeBinds(View(c, n), View(c', n), dirs'[n], mode, n, p);
    DirectorySize(c', dirs', n);
    LeadsBelow(c', dirs', path, n, [46]);
    LeadsBelow(c', dirs', path, n, [46, 46]);
  }

  // ---------- unlink ----------

  lemma UnlinkedDirs(c: Cache, dirs: seq<seq<Entry>>, p: nat, name: Name, c': Cache, dirs': seq<seq<Entry>>)
    requires Sound(c, dirs) && Sound(c', dirs') && p < |dirs| == |c.table| && UnlinkedIn(c, dirs, p, name, c', dirs')
    requires Bound(c, dirs, p, name) && NamesFile(c, dirs, p, name)
    ensures |dirs'| == |dirs| == |Flags(c)| && KeepsDirs(Flags(c), dirs, dirs')
    ensures var f := First(dirs[p], 0, name);
            f < |dirs[p]| && (name in Bindings(dirs'[p]) <==> Victim(dirs[p], f) != f)
  {
    hide View, Held, Inv, Sound, Counted, DirsOk, NameOf, Bindings, UniqueNames, IsDirectory, Removed, Victim, Unlinked;
    SoundParts(c, dirs);
    UniqueAt(dirs, p);
    var es, f := dirs[p], First(dirs[p], 0, name);
    var v := Victim(es, f);
    FirstNamed(es, name);
    RemovedBinds(es, f);
    BindsAt(es, f);
    BindsAt(es, v);
    FileFlag(c, dirs, es[f].number);
    assert es[v].number == es[f].number;
  }

  lemma FirstNamed(es: seq<Entry>, name: Name)
    requires First(es, 0, name) < |es|
    ensures NameOf(es[First(es, 0, name)]) == name
  {
    hide NameOf;
  }

  lemma FileFlag(c: Cache, dirs: seq<seq<Entry>>, n: nat)
    requires Sound(c, dirs) && n < |c.table| && View(c, n).kind == Regular
    ensures !Flags(c)[n]
  {
    hide View, Inv, Naming, DirsOk, IsDirectory, Flags;
    CountedAt(c, dirs, n);
    FlagAt(c, n);
  }

  lemma UnlinkedFlags(c: Cache, c': Cache, p: nat, n: nat, size: nat)
    requires Unlinked(c, c', p, n, size) && !Flags(c)[n]
    ensures StillDirs(Flags(c), Flags(c'))
  {
    hide View, Held, IsDirectory;
    forall m | 0 <= m < |c.table| && Flags(c)[m]
      ensures Flags(c')[m]
    {
      FlagAt(c, m);
      FlagAt(c', m);
    }
  }

  // After a regular file was unlinked its path leads nowhere if and only if the marker did not
  // take another entry away, and every path through directories still leads through them.
  lemma UnlinkLeads(c: Cache, dirs: seq<seq<Entry>>, path: Name, c': Cache, dirs': seq<seq<Entry>>, other: Name)
    requires MayUnlink(c, dirs, path) && UnlinkDone(c, dirs, path, c', dirs', 0) && Sound(c', dirs')
    requires Reached(c, dirs, path)
    requires var p := Parent(c, dirs, path); p.Some? && NamesFile(c, dirs, p.value, LastName(path))
    ensures var es := dirs[Parent(c, dirs, path).value];
      var f := First(es, 0, LastName(path));
      f < |es| && (FileAt(c', dirs', path) == None <==> Victim(es, f) == f)
    ensures other != [] && other[0] == SLASH && Reached(c, dirs, other) && Parent(c, dirs, other).Some? ==>
              Reached(c', dirs', other) && Parent(c', dirs', other) == Parent(c, dirs, other)
  {
    hide View, Held, Inv, Counted, Sound, IsDirectory, Reached, FileAt, Parent, Bindings, Flags, Removable, Unlinked;
    hide Removed;
    hide KeepsDirs, StillDirs, SameView, OneMore, LastName, Victim, Pays, First;
    SoundParts(c, dirs);
    var p, name := Parent(c, dirs, path).value, LastName(path);
    UnlinkedDirs(c, dirs, p, name, c', dirs');
    var n := dirs[p][First(dirs[p], 0, name)].number;
    FileFlag(c, dirs, n);
    UnlinkedFlags(c, c', p, n, 64 * (|dirs[p]| - 1));
    StillLeads(c, dirs, c', dirs', path);
    if other != [] && other[0] == SLASH && Reached(c, dirs, other) && Parent(c, dirs, other).Some? {
      StillLeads(c, dirs, c', dirs', other);
    }
  }

  // ---------- rename ----------

  lemma RenamedKeepsDirs(isDir: seq<bool>, dirs: seq<seq<Entry>>, dirs': seq<seq<Entry>>, fp: nat, source: Name, p: nat,
                         name: Name, f: Number)
    requires Renamed(dirs, dirs', fp, source, p, name, f) && |isDir| == |dirs| && f < |isDir| && !isDir[f]
    requires source in Bindings(dirs[fp]) && Bindings(dirs[fp])[source] == f
    requires name in Bindings(dirs[p]) ==> Bindings(dirs[p])[name] < |isDir| && !isDir[Bindings(dirs[p])[name]]
    ensures KeepsDirs(isDir, dirs, dirs')
    ensures source !in Bindings(dirs'[fp])
    ensures name in Bindings(dirs'[p]) <==> fp != p || source != name
    ensures name in Bindings(dirs'[p]) ==> Bindings(dirs'[p])[name] == f
  {
    hide Bindings;
  }

  lemma RenamedFlags(c: Cache, dirs: seq<seq<Entry>>, c': Cache, dirs': seq<seq<Entry>>, f: nat, p: nat, fp: nat,
                     dest: Option<nat>)
    requires FileAfter(c, c', f, dest == Some(f)) && OthersKept(c, c', f, p, fp, dest) && ReplacedAfter(c, c', f, dest)
    requires DirAfter(c, c', dirs', p) && DirAfter(c, c', dirs', fp) && !Flags(c)[f]
    requires dest.Some? ==> dest.value < |c.table| && !IsDirectory(View(c, dest.value).fileMode)
    ensures StillDirs(Flags(c), Flags(c'))
  {
    hide View, Held, IsDirectory;
    forall m | 0 <= m < |c.table| && Flags(c)[m]
      ensures Flags(c')[m]
    {
      FlagAt(c, m);
      FlagAt(c', m);
    }
  }

  // After a regular file was renamed its new path leads to it and its old path nowhere, except
  // that renaming to the same name in the same directory unlinks it; and every path through
  // directories still leads through them.
  lemma RenameLeads(c: Cache, dirs: seq<seq<Entry>>, from: Name, to: Name, c': Cache, dirs': seq<seq<Entry>>, f: nat,
                    p: nat,
                    other: Name)
    requires MayRename(c, dirs, from, to) && FileAt(c, dirs, from) == Some(f) && Parent(c, dirs, to) == Some(p)
    requires RenameEnds(c, dirs, from, to, c', dirs', 0) && Sound(c', dirs')
    requires f < |c.table| && View(c, f).kind == Regular && Reached(c, dirs, to) && f < NUM_OF_INODES
    requires var fp := Parent(c, dirs, from);
             fp.Some? && Renamed(dirs, dirs', fp.value, LastName(from), p, LastName(to), f)
    ensures FileAt(c', dirs', from) == None
    ensures FileAt(c', dirs', to)
            == if Parent(c, dirs, from) == Some(p) && LastName(from) == LastName(to) then None else Some(f)
    ensures other != [] && other[0] == SLASH && Reached(c, dirs, other) && Parent(c, dirs, other).Some? ==>
              Reached(c', dirs', other) && Parent(c', dirs', other) == Parent(c, dirs, other)
  {
    LastIsShort(to);
    RenameStart(c, dirs, from, to, f, p);
    RenamedSource(c, dirs, from, to, f);
    NotADirectory(c, dirs, p, LastName(to));
    TargetIsFile(c, dirs, p, LastName(to));
    hide View, Held, Inv, Counted, Sound, IsDirectory, Reached, FileAt, Parent, Bindings, Flags, RenamesFile, Renamed;
    hide Target;
    hide KeepsDirs, StillDirs, SameView, OneMore, LastName, FileAfter, ReplacedAfter, OthersKept, DirAfter, SourceGone;
    hide NamesFile;
    SoundParts(c, dirs);
    var fp, dest := Parent(c, dirs, from).value, Target(dirs, p, LastName(to));
    FileFlag(c, dirs, f);
    RenamedKeepsDirs(Flags(c), dirs, dirs', fp, LastName(from), p, LastName(to), f);
    RenamedFlags(c, dirs, c', dirs', f, p, fp, dest);
    StillLeads(c, dirs, c', dirs', from);
    StillLeads(c, dirs, c', dirs', to);
    if other != [] && other[0] == SLASH && Reached(c, dirs, other) && Parent(c, dirs, other).Some? {
      StillLeads(c, dirs, c', dirs', other);
    }
  }

  lemma RenamedSource(c: Cache, dirs: seq<seq<Entry>>, from: Name, to: Name, f: nat)
    requires MayRename(c, dirs, from, to) && FileAt(c, dirs, from) == Some(f) && Parent(c, dirs, to).Some?
    ensures Reached(c, dirs, from)
    ensures var fp := Parent(c, dirs, from);
      && fp.Some? && fp.value < |dirs|
      && LastName(from) in Bindings(dirs[fp.value]) && Bindings(dirs[fp.value])[LastName(from)] == f
  {
    hide View, Held, Inv, Counted, IsDirectory, Bindings, Flags, Walk, DirPath, NamesFile, Replaces, LastName;
    hide LastSlash, DirsOk;
    SoundParts(c, dirs);
    PathBinds(Flags(c), dirs, from);
  }
}
