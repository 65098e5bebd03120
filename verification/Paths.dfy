/**
  Path resolution of src/trav/namei.c on directories as sequences of entries. `isDir` tells
  which inodes validateSearch accepts.
 */
module Paths {
  import opened Disk
  import opened CacheModel
  import opened DirectoryEntry

  const SLASH: Byte := 47

  ghost predicate DirsOk(dirs: seq<seq<Entry>>, size: nat) {
    && |dirs| == size > 0
    && (forall p :: 0 <= p < size ==> UniqueNames(dirs[p]))
    && (forall p, i :: 0 <= p < size && 0 <= i < |dirs[p]| ==> dirs[p][i].number < size)
  }

  // Only directories hold entries.
  ghost predicate FilesEmpty(isDir: seq<bool>, dirs: seq<seq<Entry>>)
    requires |dirs| == |isDir|
  {
    forall p :: 0 <= p < |dirs| && !isDir[p] ==> dirs[p] == []
  }

  // ---------- the code, as functions ----------

  // Where the first component of a path ends.
  function EndAt(path: Name): (e: nat)
    ensures e <= |path| && (e < |path| ==> path[e] == SLASH)
    ensures forall i :: 0 <= i < e ==> path[i] != SLASH
  {
    if path == [] || path[0] == SLASH then 0 else 1 + EndAt(path[1..])
  }

  // operate: a component that is not in the directory leads nowhere; one that is looked for in
  // anything but a directory leads to inode 0, since the -1 of the failed search is stored unsigned.
  ghost function Operate(isDir: seq<bool>, dirs: seq<seq<Entry>>, cur: nat, name: Name): (next: Option<nat>)
    requires DirsOk(dirs, |isDir|) && cur < |isDir|
    ensures next.Some? ==> next.value < |isDir|
  {
    if name == [] then Some(cur)
    else if !isDir[cur] then Some(0)
    else
      var f := First(dirs[cur], 0, name);
      if f < |dirs[cur]| then
        var number: nat := dirs[cur][f].number;
        Some(number)
      else None
  }

  // The loop of getFileINode from inode `cur` on.
  ghost function Walk(isDir: seq<bool>, dirs: seq<seq<Entry>>, cur: nat, path: Name): (end: Option<nat>)
    requires DirsOk(dirs, |isDir|) && cur < |isDir|
    ensures end.Some? ==> end.value < |isDir|
    decreases |path|
  {
    if path == [] then Some(cur)
    else
      var e := EndAt(path);
      var next := Operate(isDir, dirs, cur, path[..e]);
      if next.None? || e == |path| then next else Walk(isDir, dirs, next.value, path[e + 1..])
  }

  // ---------- what it computes ----------

  // The non-empty components of a path.
  function Components(path: Name): seq<Name>
    decreases |path|
  {
    if path == [] then []
    else
      var e := EndAt(path);
      (if e == 0 then [] else [path[..e]]) + (if e == |path| then [] else Components(path[e + 1..]))
  }

  // Looking up one name after the other in the directories as maps.
  ghost function Fold(dirs: seq<seq<Entry>>, cur: nat, names: seq<Name>): (end: Option<nat>)
    requires DirsOk(dirs, |dirs|) && cur < |dirs|
    ensures end.Some? ==> end.value < |dirs|
    decreases |names|
  {
    if names == [] then Some(cur)
    else if names[0] !in Bindings(dirs[cur]) then None
    else
      BoundInRange(dirs, cur, names[0]);
      Fold(dirs, Bindings(dirs[cur])[names[0]], names[1..])
  }

  lemma BoundInRange(dirs: seq<seq<Entry>>, cur: nat, name: Name)
    requires DirsOk(dirs, |dirs|) && cur < |dirs| && name in Bindings(dirs[cur])
    ensures Bindings(dirs[cur])[name] < |dirs|
  {
    var k := BoundAt(dirs[cur], name);
  }

  // Every inode in which a component is looked up is a directory.
  ghost predicate ThroughDirs(isDir: seq<bool>, dirs: seq<seq<Entry>>, cur: nat, names: seq<Name>)
    requires DirsOk(dirs, |isDir|) && cur < |isDir|
    decreases |names|
  {
    names != [] ==>
      && isDir[cur]
      && (names[0] in Bindings(dirs[cur]) ==>
            (BoundInRange(dirs, cur, names[0]);
             ThroughDirs(isDir, dirs, Bindings(dirs[cur])[names[0]], names[1..])))
  }

  lemma OperateIs(isDir: seq<bool>, dirs: seq<seq<Entry>>, cur: nat, name: Name)
    requires DirsOk(dirs, |isDir|) && cur < |isDir| && isDir[cur] && name != []
    ensures Operate(isDir, dirs, cur, name)
            == if name in Bindings(dirs[cur]) then Some(Bindings(dirs[cur])[name]) else None
  {
    SearchIsLookUp(dirs[cur], name);
  }

  lemma WalkSlash(isDir: seq<bool>, dirs: seq<seq<Entry>>, cur: nat, path: Name)
    requires DirsOk(dirs, |isDir|) && cur < |isDir| && path != [] && path[0] == SLASH
    ensures Walk(isDir, dirs, cur, path) == Walk(isDir, dirs, cur, path[1..])
  {
    assert path[..0] == [];
  }

  // The code's walk over components instead of characters.
  ghost function Follow(isDir: seq<bool>, dirs: seq<seq<Entry>>, cur: nat, names: seq<Name>): (end: Option<nat>)
    requires DirsOk(dirs, |isDir|) && cur < |isDir|
    ensures end.Some? ==> end.value < |isDir|
    decreases |names|
  {
    if names == [] then Some(cur)
    else
      var next := Operate(isDir, dirs, cur, names[0]);
      if next.None? then None else Follow(isDir, dirs, next.value, names[1..])
  }

  lemma ComponentsAre(path: Name)
    ensures path == [] ==> Components(path) == []
    ensures path != [] ==>
              var e := EndAt(path);
              var rest := if e == |path| then [] else Components(path[e + 1..]);
              Components(path) == if e == 0 then rest else [path[..e]] + rest
  {
    if path != [] {
      var e := EndAt(path);
      var rest := if e == |path| then [] else Components(path[e + 1..]);
      assert [] + rest == rest;
    }
  }

  lemma FollowNone(isDir: seq<bool>, dirs: seq<seq<Entry>>, cur: nat)
    requires DirsOk(dirs, |isDir|) && cur < |isDir|
    ensures Follow(isDir, dirs, cur, []) == Some(cur)
  {
    hide DirsOk;
  }

  lemma FollowStep(isDir: seq<bool>, dirs: seq<seq<Entry>>, cur: nat, name: Name, rest: seq<Name>)
    requires DirsOk(dirs, |isDir|) && cur < |isDir|
    ensures var next := Operate(isDir, dirs, cur, name);
            Follow(isDir, dirs, cur, [name] + rest) == if next.None? then None
                else Follow(isDir, dirs, next.value, rest)
  {
    hide DirsOk, Operate;
    assert ([name] + rest)[1..] == rest;
  }

  lemma {:induction false} WalkIsFollow(isDir: seq<bool>, dirs: seq<seq<Entry>>, cur: nat, path: Name)
    requires DirsOk(dirs, |isDir|) && cur < |isDir|
    ensures Walk(isDir, dirs, cur, path) == Follow(isDir, dirs, cur, Components(path))
    decreases |path|
  {
    hide DirsOk, Operate, Components, Follow;
    ComponentsAre(path);
    FollowNone(isDir, dirs, cur);
    if path != [] {
      var e := EndAt(path);
      if e == 0 {
        WalkSlash(isDir, dirs, cur, path);
        WalkIsFollow(isDir, dirs, cur, path[1..]);
      } else {
        var rest := if e == |path| then [] else Components(path[e + 1..]);
        FollowStep(isDir, dirs, cur, path[..e], rest);
        var next := Operate(isDir, dirs, cur, path[..e]);
        if next.Some? {
          FollowNone(isDir, dirs, next.value);
          if e < |path| {
            WalkIsFollow(isDir, dirs, next.value, path[e + 1..]);
          }
        }
      }
    }
  }

  // The components after the first one that is looked for in anything but a directory.
  ghost function BelowFile(isDir: seq<bool>, dirs: seq<seq<Entry>>, cur: nat, names: seq<Name>): Option<seq<Name>>
    requires DirsOk(dirs, |isDir|) && cur < |isDir|
    decreases |names|
  {
    if names == [] then None
    else if !isDir[cur] then Some(names[1..])
    else if names[0] !in Bindings(dirs[cur]) then None
    else
      BoundInRange(dirs, cur, names[0]);
      BelowFile(isDir, dirs, Bindings(dirs[cur])[names[0]], names[1..])
  }

  lemma {:induction false} NothingBelow(isDir: seq<bool>, dirs: seq<seq<Entry>>, cur: nat, names: seq<Name>)
    requires DirsOk(dirs, |isDir|) && cur < |isDir|
    ensures BelowFile(isDir, dirs, cur, names) == None <==> ThroughDirs(isDir, dirs, cur, names)
    decreases |names|
  {
    hide UniqueNames, Bindings;
    if names != [] && isDir[cur] && names[0] in Bindings(dirs[cur]) {
      BoundInRange(dirs, cur, names[0]);
      NothingBelow(isDir, dirs, Bindings(dirs[cur])[names[0]], names[1..]);
    }
  }

  lemma {:induction false} FollowIsFoldIff(isDir: seq<bool>, dirs: seq<seq<Entry>>, cur: nat, names: seq<Name>)
    requires DirsOk(dirs, |isDir|) && cur < |isDir| && FilesEmpty(isDir, dirs)
    requires forall i :: 0 <= i < |names| ==> names[i] != []
    ensures var below := BelowFile(isDir, dirs, cur, names);
            Follow(isDir, dirs, cur, names) == Fold(dirs, cur, names)
            <==> below == None || Follow(isDir, dirs, 0, below.value) == None
    decreases |names|
  {
    if names != [] {
      if isDir[cur] {
        OperateIs(isDir, dirs, cur, names[0]);
        hide DirsOk, Bindings, Operate;
        if names[0] in Bindings(dirs[cur]) {
          BoundInRange(dirs, cur, names[0]);
          FollowIsFoldIff(isDir, dirs, Bindings(dirs[cur])[names[0]], names[1..]);
        }
      } else {
        assert dirs[cur] == [];
      }
    }
  }

  lemma {:induction false} FollowIsFold(isDir: seq<bool>, dirs: seq<seq<Entry>>, cur: nat, names: seq<Name>)
    requires DirsOk(dirs, |isDir|) && cur < |isDir| && ThroughDirs(isDir, dirs, cur, names)
    requires forall i :: 0 <= i < |names| ==> names[i] != []
    ensures Follow(isDir, dirs, cur, names) == Fold(dirs, cur, names)
    decreases |names|
  {
    if names != [] {
      OperateIs(isDir, dirs, cur, names[0]);
      hide UniqueNames, Bindings, Operate;
      if names[0] in Bindings(dirs[cur]) {
        BoundInRange(dirs, cur, names[0]);
        FollowIsFold(isDir, dirs, Bindings(dirs[cur])[names[0]], names[1..]);
      }
    }
  }

  // Resolving a path is the fold of directory lookup over its non-empty components, as long as
  // only directories are searched.
  lemma WalkIsFold(isDir: seq<bool>, dirs: seq<seq<Entry>>, cur: nat, path: Name)
    requires DirsOk(dirs, |isDir|) && |dirs| == |isDir| && cur < |isDir|
    requires ThroughDirs(isDir, dirs, cur, Components(path))
    ensures Walk(isDir, dirs, cur, path) == Fold(dirs, cur, Components(path))
  {
    hide *;
    WalkIsFollow(isDir, dirs, cur, path);
    ComponentsFull(path);
    FollowIsFold(isDir, dirs, cur, Components(path));
  }

  // Only directories are searched, or what comes below the first file searched leads nowhere from
  // the root.
  ghost predicate Straight(isDir: seq<bool>, dirs: seq<seq<Entry>>, cur: nat, path: Name)
    requires DirsOk(dirs, |isDir|) && cur < |isDir|
  {
    var names := Components(path);
    var below := BelowFile(isDir, dirs, cur, names);
    ThroughDirs(isDir, dirs, cur, names) || (below.Some? && Follow(isDir, dirs, 0, below.value) == None)
  }

  // A path resolves as the directories say if and only if it is straight.
  lemma WalkIsFoldIff(isDir: seq<bool>, dirs: seq<seq<Entry>>, cur: nat, path: Name)
    requires DirsOk(dirs, |isDir|) && cur < |isDir| && FilesEmpty(isDir, dirs)
    ensures Walk(isDir, dirs, cur, path) == Fold(dirs, cur, Components(path)) <==> Straight(isDir, dirs, cur, path)
  {
    hide Walk, Fold, Follow, BelowFile, ThroughDirs, DirsOk, FilesEmpty, Components;
    WalkIsFollow(isDir, dirs, cur, path);
    ComponentsFull(path);
    NothingBelow(isDir, dirs, cur, Components(path));
    FollowIsFoldIff(isDir, dirs, cur, Components(path));
  }

  lemma {:induction false} ComponentsFull(path: Name)
    ensures forall i :: 0 <= i < |Components(path)| ==> Components(path)[i] != []
    decreases |path|
  {
    if path != [] {
      var e := EndAt(path);
      if e < |path| {
        ComponentsFull(path[e + 1..]);
      }
    }
  }

  // ---------- short names ----------

  // A slash among the bytes of `path` from i on that a field holds.
  ghost predicate SlashNear(path: Name, i: nat) {
    exists j :: i <= j < i + FILENAME_SIZE && j < |path| && path[j] == SLASH
  }

  // Every component leaves room for its terminator in an entry.
  ghost predicate Short(path: Name) {
    forall i: nat :: i + FILENAME_SIZE <= |path| ==> SlashNear(path, i)
  }

  lemma ShortEnd(path: Name, k: nat)
    requires Short(path) && k <= |path|
    ensures EndAt(path[k..]) < FILENAME_SIZE
  {
    if k + FILENAME_SIZE <= |path| {
      assert SlashNear(path, k);
      var j :| k <= j < k + FILENAME_SIZE && j < |path| && path[j] == SLASH;
      assert path[k..][j - k] == SLASH;
    }
  }

  lemma ShortFront(path: Name, k: nat)
    requires Short(path) && k <= |path|
    ensures Short(path[..k])
  {
    var front := path[..k];
    forall i: nat | i + FILENAME_SIZE <= |front|
      ensures SlashNear(front, i)
    {
      assert SlashNear(path, i);
      var j :| i <= j < i + FILENAME_SIZE && j < |path| && path[j] == SLASH;
      assert front[j] == SLASH;
    }
  }

  lemma ShortLast(path: Name)
    requires Short(path)
    ensures |path[LastSlash(path)..]| < FILENAME_SIZE
  {
    var k := LastSlash(path);
    assert k + FILENAME_SIZE <= |path| ==> SlashNear(path, k);
  }

  // ---------- parent and name ----------

  // One past the last slash, 0 if there is none: where getParentDirectory cuts.
  function LastSlash(path: Name): (k: nat)
    ensures k <= |path| && (k > 0 ==> path[k - 1] == SLASH)
    ensures forall i :: k <= i < |path| ==> path[i] != SLASH
  {
    if path == [] then 0
    else if path[|path| - 1] == SLASH then |path| else LastSlash(path[..|path| - 1])
  }

  // A path leads where its last component leads from where its directory part leads.
  lemma {:induction false} WalkSplit(isDir: seq<bool>, dirs: seq<seq<Entry>>, cur: nat, front: Name, name: Name)
    requires DirsOk(dirs, |isDir|) && cur < |isDir|
    requires front == [] || front[|front| - 1] == SLASH
    requires forall i :: 0 <= i < |name| ==> name[i] != SLASH
    ensures var mid := Walk(isDir, dirs, cur, front);
            Walk(isDir, dirs, cur, front + name)
            == if mid.None? then None else Operate(isDir, dirs, mid.value, name)
    decreases |front|
  {
    hide DirsOk, Operate, EndAt;
    if front == [] {
      assert front + name == name;
      NoSlash(name);
      WalkName(isDir, dirs, cur, name);
    } else {
      hide Walk;
      var e := FrontParts(front, name);
      var next := Operate(isDir, dirs, cur, front[..e]);
      WalkUnfold(isDir, dirs, cur, front);
      WalkUnfold(isDir, dirs, cur, front + name);
      if next.Some? {
        WalkSplit(isDir, dirs, next.value, front[e + 1..], name);
      }
    }
  }

  lemma FrontParts(front: Name, name: Name) returns (e: nat)
    requires front != [] && front[|front| - 1] == SLASH
    ensures e == EndAt(front) == EndAt(front + name) && e < |front|
    ensures (front + name)[..e] == front[..e] && (front + name)[e + 1..] == front[e + 1..] + name
    ensures front[e + 1..] == [] || front[e + 1..][|front[e + 1..]| - 1] == SLASH
  {
    e := EndAt(front);
    SameEnd(front, name);
  }

  lemma WalkUnfold(isDir: seq<bool>, dirs: seq<seq<Entry>>, cur: nat, path: Name)
    requires DirsOk(dirs, |isDir|) && cur < |isDir| && EndAt(path) < |path|
    ensures var e := EndAt(path);
      var next := Operate(isDir, dirs, cur, path[..e]);
      Walk(isDir, dirs, cur, path) == if next.None? then None else Walk(isDir, dirs, next.value, path[e + 1..])
  {
    hide DirsOk, Operate;
  }

  lemma WalkName(isDir: seq<bool>, dirs: seq<seq<Entry>>, cur: nat, name: Name)
    requires DirsOk(dirs, |isDir|) && cur < |isDir| && EndAt(name) == |name|
    ensures Walk(isDir, dirs, cur, name) == Operate(isDir, dirs, cur, name)
  {
    hide DirsOk;
    assert name[..|name|] == name;
  }

  lemma NoSlash(name: Name)
    requires forall i :: 0 <= i < |name| ==> name[i] != SLASH
    ensures EndAt(name) == |name|
  {
  }

  lemma SameEnd(front: Name, name: Name)
    requires front != [] && front[|front| - 1] == SLASH
    ensures EndAt(front) < |front| && EndAt(front + name) == EndAt(front)
  {
    var e, g := EndAt(front), EndAt(front + name);
    assert forall i :: 0 <= i < |front| ==> (front + name)[i] == front[i];
    assert front[|front| - 1] == SLASH;
  }

  // ---------- paths that stay ----------

  // Every inode on the way, the last included, is a directory.
  ghost predicate DirPath(isDir: seq<bool>, dirs: seq<seq<Entry>>, cur: nat, path: Name)
    requires DirsOk(dirs, |isDir|) && cur < |isDir|
    decreases |path|
  {
    && isDir[cur]
    && (path != [] ==>
          var e := EndAt(path);
          var next := Operate(isDir, dirs, cur, path[..e]);
          next.Some? ==> isDir[next.value] && (e < |path| ==> DirPath(isDir, dirs, next.value, path[e + 1..])))
  }

  // A path through directories goes on through a directory in the last of them.
  lemma {:induction false} DirPathJoin(isDir: seq<bool>, dirs: seq<seq<Entry>>, cur: nat, front: Name, name: Name)
    requires DirsOk(dirs, |isDir|) && cur < |isDir| && (front == [] || front[|front| - 1] == SLASH)
    requires forall i :: 0 <= i < |name| ==> name[i] != SLASH
    requires DirPath(isDir, dirs, cur, front) && Walk(isDir, dirs, cur, front).Some?
    requires var next := Operate(isDir, dirs, Walk(isDir, dirs, cur, front).value, name);
             next.Some? && isDir[next.value]
    ensures DirPath(isDir, dirs, cur, front + (name + [SLASH]))
    ensures Walk(isDir, dirs, cur, front + (name + [SLASH]))
            == Operate(isDir, dirs, Walk(isDir, dirs, cur, front).value, name)
    decreases |front|
  {
    hide DirsOk, Operate, EndAt, Walk, DirPath;
    WalkEmpty(isDir, dirs, cur);
    var path := front + (name + [SLASH]);
    if front == [] {
      assert path == name + [SLASH];
      EndsAtSlash(name);
      DirPathUnfold(isDir, dirs, cur, path);
      WalkUnfold(isDir, dirs, cur, path);
      var next := Operate(isDir, dirs, cur, name);
      WalkEmpty(isDir, dirs, next.value);
    } else {
      var e := FrontParts(front, name + [SLASH]);
      DirPathUnfold(isDir, dirs, cur, front);
      DirPathUnfold(isDir, dirs, cur, path);
      WalkUnfold(isDir, dirs, cur, front);
      WalkUnfold(isDir, dirs, cur, path);
      var next := Operate(isDir, dirs, cur, front[..e]);
      DirPathJoin(isDir, dirs, next.value, front[e + 1..], name);
    }
  }

  lemma WalkEmpty(isDir: seq<bool>, dirs: seq<seq<Entry>>, cur: nat)
    requires DirsOk(dirs, |isDir|) && cur < |isDir|
    ensures Walk(isDir, dirs, cur, []) == Some(cur) && DirPath(isDir, dirs, cur, []) == isDir[cur]
  {
    hide DirsOk;
  }

  lemma DirPathUnfold(isDir: seq<bool>, dirs: seq<seq<Entry>>, cur: nat, path: Name)
    requires DirsOk(dirs, |isDir|) && cur < |isDir| && EndAt(path) < |path|
    ensures var e := EndAt(path);
      var next := Operate(isDir, dirs, cur, path[..e]);
      DirPath(isDir, dirs, cur, path)
      <==> isDir[cur] && (next.Some? ==> isDir[next.value] && DirPath(isDir, dirs, next.value, path[e + 1..]))
  {
    hide DirsOk, Operate;
  }

  lemma EndsAtSlash(name: Name)
    requires forall i :: 0 <= i < |name| ==> name[i] != SLASH
    ensures EndAt(name + [SLASH]) == |name|
    ensures (name + [SLASH])[..|name|] == name && (name + [SLASH])[|name| + 1..] == []
  {
    var e := EndAt(name + [SLASH]);
    assert (name + [SLASH])[|name|] == SLASH;
  }

  // Names of directories keep their meaning.
  ghost predicate KeepsDirs(isDir: seq<bool>, dirs: seq<seq<Entry>>, dirs': seq<seq<Entry>>)
    requires |dirs| == |dirs'| == |isDir|
  {
    forall p, name :: 0 <= p < |isDir| && name in Bindings(dirs[p]) && Bindings(dirs[p])[name] < |isDir|
        && isDir[Bindings(dirs[p])[name]]
      ==> name in Bindings(dirs'[p]) && Bindings(dirs'[p])[name] == Bindings(dirs[p])[name]
  }

  // Directories stay directories.
  ghost predicate StillDirs(isDir: seq<bool>, isDir': seq<bool>) {
    |isDir'| == |isDir| && forall p :: 0 <= p < |isDir| && isDir[p] ==> isDir'[p]
  }

  lemma OperateStays(isDir: seq<bool>, isDir': seq<bool>, dirs: seq<seq<Entry>>, dirs': seq<seq<Entry>>, cur: nat,
                     name: Name)
    requires DirsOk(dirs, |isDir|) && DirsOk(dirs', |isDir|) && KeepsDirs(isDir, dirs, dirs')
    requires StillDirs(isDir, isDir')
    requires cur < |isDir| && isDir[cur]
    requires var next := Operate(isDir, dirs, cur, name); next.Some? && isDir[next.value]
    ensures Operate(isDir', dirs', cur, name) == Operate(isDir, dirs, cur, name)
  {
    if name != [] {
      OperateIs(isDir, dirs, cur, name);
      OperateIs(isDir', dirs', cur, name);
      hide Operate, Bindings, DirsOk;
    }
  }

  // A path through directories leads to the same place when no name of a directory changed.
  lemma {:induction false} WalkStays(isDir: seq<bool>, isDir': seq<bool>, dirs: seq<seq<Entry>>, dirs': seq<seq<Entry>>,
                                     cur: nat, path: Name)
    requires DirsOk(dirs, |isDir|) && DirsOk(dirs', |isDir|) && KeepsDirs(isDir, dirs, dirs')
    requires StillDirs(isDir, isDir')
    requires cur < |isDir| && DirPath(isDir, dirs, cur, path) && Walk(isDir, dirs, cur, path).Some?
    ensures Walk(isDir', dirs', cur, path) == Walk(isDir, dirs, cur, path) && DirPath(isDir', dirs', cur, path)
    ensures isDir[Walk(isDir, dirs, cur, path).value]
    decreases |path|
  {
    hide DirsOk, KeepsDirs, Operate;
    if path != [] {
      var e := EndAt(path);
      OperateStays(isDir, isDir', dirs, dirs', cur, path[..e]);
      var next := Operate(isDir, dirs, cur, path[..e]);
      if e < |path| {
        WalkStays(isDir, isDir', dirs, dirs', next.value, path[e + 1..]);
      }
    }
  }

  // Binding a name that did not mean a directory to something else keeps the names of
  // directories.
  lemma BindKeepsDirs(isDir: seq<bool>, dirs: seq<seq<Entry>>, dirs': seq<seq<Entry>>, p: nat, name: Name, n: Number)
    requires |dirs'| == |dirs| == |isDir| && p < |dirs|
    requires forall q :: 0 <= q < |dirs| && q != p ==> dirs'[q] == dirs[q]
    requires Bindings(dirs'[p]) == Bindings(dirs[p])[name := n]
    requires name in Bindings(dirs[p]) ==> Bindings(dirs[p])[name] < |isDir| && !isDir[Bindings(dirs[p])[name]]
    ensures KeepsDirs(isDir, dirs, dirs')
  {
    hide Bindings;
  }
}
