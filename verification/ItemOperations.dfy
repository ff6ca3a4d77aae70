// Moving and copying a single item (utils/operations.go, MoveItem and CopyItem). A move to another
// device copies under a private stage, publishes the copy by rename and only then removes the source.
module ItemOperations {
  import opened Paths
  import opened FileTree
  import BatchOperations
  import opened BatchCopying

  datatype Code = Done | NotFound | InvalidName | NotDirectory | SelfDescendant | DestinationExists | ExecutionPartial | IoError

  // `at` shows everything that `src` showed in t.
  ghost predicate Whole(t: Tree, u: Tree, src: Path, at: Path) {
    forall p | Under(at, p) :: Lookup(u, p) == Lookup(t, Rebase(p, at, src))
  }

  predicate Movable(t: Tree, src: Path, dir: Path, name: string) {
    && src in t && ValidLeafName(name) && IsDir(t, dir)
    && !(IsDir(t, src) && Under(src, dir)) && dir + [name] !in t
  }

  // Which check answers, the first that fails; past all of them only the file system can object.
  ghost predicate Answer(code: Code, t: Tree, src: Path, dir: Path, name: string) {
    if src !in t then code == NotFound
    else if !ValidLeafName(name) then code == InvalidName
    else if dir !in t then code == NotFound
    else if t[dir].File? then code == NotDirectory
    else if t[src].Dir? && |src| <= |dir| && dir[..|src|] == src then code == SelfDescendant
    else if dir + [name] in t then code == DestinationExists
    else code in {Done, IoError, ExecutionPartial}
  }

  // The checks both operations make before they change anything.
  method Check(fs: FileSystem, src: Path, dir: Path, name: string) returns (code: Code)
    requires fs.Valid()
    ensures code == Done <==> Movable(fs.tree, src, dir, name)
    ensures code !in {ExecutionPartial, IoError} && Answer(code, fs.tree, src, dir, name)
    ensures code == Done ==> forall other | other in {IoError, ExecutionPartial} :: Answer(other, fs.tree, src, dir, name)
  {
    if src !in fs.tree {
      return NotFound;
    }
    if !ValidLeafName(name) {
      return InvalidName;
    }
    if dir !in fs.tree {
      return NotFound;
    }
    if !fs.tree[dir].Dir? {
      return NotDirectory;
    }
    if fs.tree[src].Dir? && Under(src, dir) {
      return SelfDescendant;
    }
    code := if dir + [name] in fs.tree then DestinationExists else Done;
  }

  // A free name in the destination lies neither above nor below the source.
  lemma FreeNameIsApart(t: Tree, src: Path, dir: Path, name: string)
    requires WellFormed(t) && src in t && IsDir(t, dir) && !(IsDir(t, src) && Under(src, dir)) && dir + [name] !in t
    ensures Disjoint(src, dir + [name]) && Parent(dir + [name]) == dir
  {
    var target := dir + [name];
    assert Parent(target) == dir;
    if Under(src, target) {
      UnderParent(src, target);
      if src != dir && Under(src, dir) {
        AncestorsAreDirs(t, src, dir);
      }
    }
    NothingBelowAbsent(t, target);
    assert Lookup(t, src).Some?;
  }

  lemma NeverBoth(a: Path, b: Path, p: Path)
    requires Disjoint(a, b)
    ensures !(Under(a, p) && Under(b, p))
  {
    if Under(a, p) && Under(b, p) {
      BatchOperations.PrefixesNest(a, b, p);
    }
  }

  lemma SiblingsApart(dir: Path, a: string, b: string)
    requires a != b
    ensures Disjoint(dir + [a], dir + [b])
  {
    assert (dir + [a])[|dir|] == a && (dir + [b])[|dir|] == b;
  }

  // os.Rename between places that may be on different devices.
  method RenameOrCross(fs: FileSystem, src: Path, dst: Path, cross: bool, faults: bool) returns (ok: bool, crossDevice: bool)
    requires fs.Valid()
    modifies fs
    ensures fs.Valid()
    ensures if ok then fs.tree == Renamed(old(fs.tree), src, dst) else fs.tree == old(fs.tree)
    ensures cross ==> !ok
    ensures crossDevice ==> cross && !ok
    ensures !faults && cross ==> crossDevice
    ensures !faults && !cross && CanRename(old(fs.tree), src, dst) ==> ok
  {
    if cross {
      var otherError: bool := *;
      return false, !(faults && otherError);
    }
    ok := fs.Rename(src, dst, faults);
    crossDevice := false;
  }

  // MoveItem. `cross` says that source and destination are on different devices, so that a rename
  // between them always fails; `temp` is the free name MkdirTemp found. Whatever fails, the item is
  // whole at its old place or at its new one, and success means exactly what one rename would do.
  method MoveItem(fs: FileSystem, src: Path, dir: Path, name: string, temp: string, cross: bool, faults: bool, undo: bool)
    returns (code: Code)
    requires fs.Valid() && src != [] && dir + [temp] !in fs.tree
    modifies fs
    ensures fs.Valid() && Answer(code, old(fs.tree), src, dir, name)
    ensures code !in {Done, IoError, ExecutionPartial} ==> fs.tree == old(fs.tree)
    ensures code == Done ==> Movable(old(fs.tree), src, dir, name)
    ensures code == Done ==> SameOutside(Renamed(old(fs.tree), src, dir + [name]), fs.tree, dir + [temp])
    ensures code == Done && undo ==> fs.tree == Renamed(old(fs.tree), src, dir + [name])
    ensures code == ExecutionPartial ==> cross && Whole(old(fs.tree), fs.tree, src, dir + [name])
    ensures code == ExecutionPartial ==>
              forall p | !Under(src, p) && !Under(dir + [name], p) && !Under(dir + [temp], p) ::
                Lookup(fs.tree, p) == Lookup(old(fs.tree), p)
    ensures code != Done && code != ExecutionPartial ==> SameOutside(old(fs.tree), fs.tree, dir + [temp])
    ensures code != Done && code != ExecutionPartial && undo ==> fs.tree == old(fs.tree)
    ensures !faults ==> (code == Done <==> Movable(old(fs.tree), src, dir, name) && (cross ==> temp != name))
  {
    hide Renamed, CanRename, WellFormed, Whole, SameOutside, ValidLeafName, Answer;
    ghost var t := fs.tree;
    var target := dir + [name];
    NothingChanged(t, dir + [temp]);
    code := Check(fs, src, dir, name);
    if code != Done {
      return;
    }
    FreeNameIsApart(t, src, dir, name);
    CanMove(t, src, dir, name);
    var ok, crossDevice := RenameOrCross(fs, src, target, cross, faults);
    NothingChanged(fs.tree, dir + [temp]);
    if ok {
      return Done;
    }
    if !crossDevice {
      return IoError;
    }
    code := CopyThenRemove(fs, src, dir, name, temp, faults, undo);
  }

  lemma CanMove(t: Tree, src: Path, dir: Path, name: string)
    requires Movable(t, src, dir, name) && Disjoint(src, dir + [name]) && src != []
    ensures CanRename(t, src, dir + [name])
  {
    assert Parent(dir + [name]) == dir;
  }

  // The copy is published beside the source, and its stage is an empty directory.
  ghost predicate Published(t: Tree, u: Tree, src: Path, dir: Path, name: string, temp: string) {
    forall p :: Lookup(u, p) ==
      if Under(dir + [temp], p) then (if p == dir + [temp] then Some(Dir) else None)
      else if Under(dir + [name], p) then Lookup(t, Rebase(p, dir + [name], src))
      else Lookup(t, p)
  }

  lemma UnderItsParent(dir: Path, n: string, p: Path)
    ensures Under(dir + [n], p) ==> Under(dir, p)
  {
    BatchOperations.ChildUnder(dir, n, p);
  }

  lemma StageReady(t: Tree, src: Path, dir: Path, name: string, temp: string)
    requires WellFormed(t) && Movable(t, src, dir, name) && dir + [temp] !in t
    ensures var stage, staged, t1 := dir + [temp], dir + [temp] + [name], t[dir + [temp] := Dir];
            && src in t1 && staged !in t1 && Disjoint(src, staged) && IsDir(t1, stage) && Parent(staged) == stage
            && SameOutside(t, t1, stage)
  {
    var stage, staged := dir + [temp], dir + [temp] + [name];
    NothingBelowAbsent(t, stage);
    FreeNameIsApart(t, src, dir, temp);
    assert Parent(staged) == stage && Under(stage, staged) && Under(stage, stage);
    assert Lookup(t, staged) == None && Lookup(t, src).Some?;
    if Under(src, staged) { UnderParent(src, staged); }
    UnderItsParent(stage, name, src);
  }

  lemma CopyPublished(t: Tree, u: Tree, src: Path, dir: Path, name: string, temp: string)
    requires WellFormed(t) && Movable(t, src, dir, name) && dir + [temp] !in t && temp != name
    requires CopiedTo(t[dir + [temp] := Dir], u, src, dir + [temp] + [name])
    requires src in t && Disjoint(src, dir + [temp]) && Disjoint(src, dir + [name])
    ensures CanRename(u, dir + [temp] + [name], dir + [name])
    ensures Published(t, Renamed(u, dir + [temp] + [name], dir + [name]), src, dir, name, temp)
  {
    hide ValidLeafName, Renamed, RenamedLookup, CanRename, CopiedTo, WellFormed;
    var stage, staged, target := dir + [temp], dir + [temp] + [name], dir + [name];
    var v := Renamed(u, staged, target);
    RenamedIs(u, staged, target);
    CopyCanBePublished(t, u, src, dir, name, temp);
    forall p ensures Lookup(v, p) ==
      if Under(stage, p) then (if p == stage then Some(Dir) else None)
      else if Under(target, p) then Lookup(t, Rebase(p, target, src))
      else Lookup(t, p)
    {
      PublishedAt(t, u, src, dir, name, temp, p);
    }
  }

  lemma CopyCanBePublished(t: Tree, u: Tree, src: Path, dir: Path, name: string, temp: string)
    requires src in t && IsDir(t, dir) && dir + [name] !in t && temp != name
    requires CopiedTo(t[dir + [temp] := Dir], u, src, dir + [temp] + [name]) && Disjoint(src, dir + [temp])
    ensures CanRename(u, dir + [temp] + [name], dir + [name])
  {
    hide IsEmptyDir;
    var stage, staged, target := dir + [temp], dir + [temp] + [name], dir + [name];
    StagedApart(dir, name, temp);
    SiblingsApart(dir, temp, name);
    assert Under(stage, stage) && Under(staged, staged);
    assert Rebase(staged, staged, src) == src && Lookup(u, staged) == Lookup(t[stage := Dir], src);
    assert Parent(target) == dir && Lookup(u, dir) == Lookup(t[stage := Dir], dir);
    assert Lookup(u, target) == Lookup(t[stage := Dir], target);
  }

  lemma StagedApart(dir: Path, name: string, temp: string)
    requires temp != name
    ensures Disjoint(dir + [temp] + [name], dir + [name]) && !Under(dir + [temp] + [name], dir)
    ensures !Under(dir + [temp], dir) && !Under(dir + [name], dir)
  {
    assert (dir + [temp] + [name])[|dir|] == temp && (dir + [name])[|dir|] == name;
  }

  lemma PublishedAt(t: Tree, u: Tree, src: Path, dir: Path, name: string, temp: string, p: Path)
    requires WellFormed(t) && dir + [temp] !in t && dir + [name] !in t && temp != name
    requires CopiedTo(t[dir + [temp] := Dir], u, src, dir + [temp] + [name])
    requires Disjoint(src, dir + [temp])
    ensures RenamedLookup(u, dir + [temp] + [name], dir + [name], p) ==
      if Under(dir + [temp], p) then (if p == dir + [temp] then Some(Dir) else None)
      else if Under(dir + [name], p) then Lookup(t, Rebase(p, dir + [name], src))
      else Lookup(t, p)
  {
    var stage, staged, target := dir + [temp], dir + [temp] + [name], dir + [name];
    var t1 := t[stage := Dir];
    SiblingsApart(dir, temp, name);
    NothingBelowAbsent(t, stage);
    assert Under(stage, stage);
    if Under(target, p) {
      NeverBoth(target, stage, p);
      var q := Rebase(p, target, staged);
      RebaseBack(p, target, staged);
      assert Rebase(q, staged, src) == Rebase(p, target, src);
      var r := Rebase(p, target, src);
      RebaseBack(p, target, src);
      NeverBoth(src, stage, r);
      assert Lookup(u, q) == Lookup(t1, r) == Lookup(t, r);
    } else if Under(staged, p) {
      assert p[..|stage|] == staged[..|stage|] == stage;
    } else {
      assert Lookup(u, p) == Lookup(t1, p);
    }
  }

  // MoveItem up to the rename that publishes the staged copy.
  method Publish(fs: FileSystem, src: Path, dir: Path, name: string, temp: string, faults: bool, ghost t: Tree)
    returns (ok: bool)
    requires WellFormed(t) && Movable(t, src, dir, name) && dir + [temp] !in t
    requires fs.Valid() && fs.tree == t[dir + [temp] := Dir]
    modifies fs
    ensures fs.Valid()
    ensures ok ==> Published(t, fs.tree, src, dir, name, temp) && temp != name
    ensures !ok ==> SameOutside(t, fs.tree, dir + [temp])
    ensures !faults ==> (ok <==> temp != name)
  {
    hide Renamed, CanRename, WellFormed, SameOutside, ValidLeafName, CopiedTo, Published, Movable, Below;
    var stage := dir + [temp];
    var staged := stage + [name];
    StageReady(t, src, dir, name, temp);
    ok := CopyEntry(fs, src, staged, faults, |Below(fs.tree, src)|);
    OutsideStage(t, t[stage := Dir], fs.tree, stage, name);
    if !ok {
      return;
    }
    if temp == name {
      StageHoldsItsCopy(fs.tree, stage, name);
    } else {
      Apart(t, src, dir, name, temp);
      CopyPublished(t, fs.tree, src, dir, name, temp);
    }
    ok := fs.Rename(staged, dir + [name], faults);
  }

  lemma Apart(t: Tree, src: Path, dir: Path, name: string, temp: string)
    requires WellFormed(t) && Movable(t, src, dir, name) && dir + [temp] !in t
    ensures src in t && Disjoint(src, dir + [temp]) && Disjoint(src, dir + [name])
  {
    FreeNameIsApart(t, src, dir, temp);
    FreeNameIsApart(t, src, dir, name);
  }

  lemma OutsideStage(t: Tree, t1: Tree, u: Tree, stage: Path, name: string)
    requires SameOutside(t, t1, stage) && SameOutside(t1, u, stage + [name])
    ensures SameOutside(t, u, stage)
  {
    OutsideChild(t, t1, u, stage, name);
  }

  lemma StageHoldsItsCopy(u: Tree, stage: Path, name: string)
    ensures !CanRename(u, stage + [name], stage)
  {
    assert Under(stage, stage + [name]);
  }

  // The cross-device part of MoveItem, with the deferred removal of the stage at its end.
  method CopyThenRemove(fs: FileSystem, src: Path, dir: Path, name: string, temp: string, faults: bool, undo: bool)
    returns (code: Code)
    requires fs.Valid() && src != [] && dir + [temp] !in fs.tree && Movable(fs.tree, src, dir, name)
    modifies fs
    ensures fs.Valid() && (code == Done || code == IoError || code == ExecutionPartial)
    ensures code == Done ==> SameOutside(Renamed(old(fs.tree), src, dir + [name]), fs.tree, dir + [temp])
    ensures code == Done && undo ==> fs.tree == Renamed(old(fs.tree), src, dir + [name])
    ensures code == ExecutionPartial ==> Whole(old(fs.tree), fs.tree, src, dir + [name])
    ensures code == ExecutionPartial ==>
              forall p | !Under(src, p) && !Under(dir + [name], p) && !Under(dir + [temp], p) ::
                Lookup(fs.tree, p) == Lookup(old(fs.tree), p)
    ensures code == IoError ==> SameOutside(old(fs.tree), fs.tree, dir + [temp])
    ensures code == IoError && undo ==> fs.tree == old(fs.tree)
    ensures !faults ==> (code == Done <==> temp != name)
  {
    hide Renamed, CanRename, WellFormed, Whole, SameOutside, ValidLeafName, CopiedTo, Removed, Published;
    ghost var t := fs.tree;
    var stage := dir + [temp];
    assert Parent(stage) == dir;
    NothingChanged(t, stage);
    var made := fs.Mkdir(stage, faults);
    if !made {
      return IoError;
    }
    var published := Publish(fs, src, dir, name, temp, faults, t);
    if !published {
      ghost var left := fs.tree;
      StageGone(t, left, stage);
      var _ := fs.RemoveAll(stage, !undo);
      StillOutside(t, left, fs.tree, stage);
      return IoError;
    }
    ghost var u := fs.tree;
    var removed := fs.RemoveAll(src, faults);
    code := Done;
    if !removed {
      // The reverse rename crosses devices just as the first one did, so it never undoes anything.
      var back, _ := RenameOrCross(fs, dir + [name], src, true, faults);
      code := if back then IoError else ExecutionPartial;
    }
    ghost var v := fs.tree;
    var _ := fs.RemoveAll(stage, !undo);
    Apart(t, src, dir, name, temp);
    if removed {
      MovedLikeRename(t, u, fs.tree, src, dir, name, temp);
    } else {
      TargetStaysWhole(t, u, v, fs.tree, src, dir, name, temp);
    }
  }

  lemma StageGone(t: Tree, u: Tree, stage: Path)
    requires WellFormed(t) && stage !in t && SameOutside(t, u, stage)
    ensures Removed(u, stage) == t
  {
    NothingBelowAbsent(t, stage);
    forall p ensures Lookup(Removed(u, stage), p) == Lookup(t, p) {
      assert Under(stage, p) || Lookup(u, p) == Lookup(t, p);
    }
    SameTreeIsEqual(Removed(u, stage), t);
  }

  lemma StillOutside(t: Tree, u: Tree, v: Tree, stage: Path)
    requires SameOutside(t, u, stage) && SameOutside(u, v, stage)
    ensures SameOutside(t, v, stage)
  {
    forall p | !Under(stage, p) ensures Lookup(t, p) == Lookup(v, p) {
      assert Lookup(t, p) == Lookup(u, p);
    }
  }

  // Published, source gone, stage gone or not: the tree after one rename, but for the stage.
  lemma MovedLikeRename(t: Tree, u: Tree, w: Tree, src: Path, dir: Path, name: string, temp: string)
    requires WellFormed(t) && dir + [temp] !in t && temp != name && Published(t, u, src, dir, name, temp)
    requires Disjoint(src, dir + [temp]) && Disjoint(src, dir + [name])
    requires SameOutside(Removed(u, src), w, dir + [temp])
    ensures SameOutside(Renamed(t, src, dir + [name]), w, dir + [temp])
    ensures w == Removed(Removed(u, src), dir + [temp]) ==> w == Renamed(t, src, dir + [name])
  {
    var stage, target := dir + [temp], dir + [name];
    var r := Renamed(t, src, target);
    RenamedIs(t, src, target);
    NothingBelowAbsent(t, stage);
    SiblingsApart(dir, temp, name);
    forall p ensures if Under(stage, p) then Lookup(r, p) == None else Lookup(w, p) == Lookup(r, p) {
      NeverBoth(target, stage, p);
      NeverBoth(target, src, p);
      NeverBoth(src, stage, p);
      assert Lookup(Removed(u, src), p) == if Under(src, p) then None else Lookup(u, p);
    }
    if w == Removed(Removed(u, src), stage) {
      forall p ensures Lookup(w, p) == Lookup(r, p) {
        assert Under(stage, p) ==> Lookup(w, p) == None;
      }
      SameTreeIsEqual(w, r);
    }
  }

  lemma TargetStaysWhole(t: Tree, u: Tree, v: Tree, w: Tree, src: Path, dir: Path, name: string, temp: string)
    requires Published(t, u, src, dir, name, temp) && temp != name && Disjoint(src, dir + [name])
    requires SameOutside(u, v, src) && SameOutside(v, w, dir + [temp])
    ensures Whole(t, w, src, dir + [name])
    ensures forall p | !Under(src, p) && !Under(dir + [name], p) && !Under(dir + [temp], p) :: Lookup(w, p) == Lookup(t, p)
  {
    var stage, target := dir + [temp], dir + [name];
    SiblingsApart(dir, temp, name);
    forall p | !Under(src, p) && !Under(stage, p) ensures Lookup(w, p) == Lookup(u, p) {
      assert Lookup(v, p) == Lookup(u, p);
    }
    forall p | Under(target, p) ensures Lookup(w, p) == Lookup(t, Rebase(p, target, src)) {
      NeverBoth(target, stage, p);
      NeverBoth(target, src, p);
    }
  }

  // CopyItem: an exact copy under a free name, or no change once the clean-up has run.
  method CopyItem(fs: FileSystem, src: Path, dir: Path, name: string, faults: bool, undo: bool) returns (code: Code)
    requires fs.Valid() && src != []
    modifies fs
    ensures fs.Valid() && code != ExecutionPartial && Answer(code, old(fs.tree), src, dir, name)
    ensures code !in {Done, IoError} ==> fs.tree == old(fs.tree)
    ensures code == Done ==> Movable(old(fs.tree), src, dir, name) && CopiedTo(old(fs.tree), fs.tree, src, dir + [name])
    ensures code != Done ==> fs.tree == old(fs.tree) || SameOutside(old(fs.tree), fs.tree, dir + [name])
    ensures code != Done && undo ==> fs.tree == old(fs.tree)
    ensures !faults ==> (code == Done <==> Movable(old(fs.tree), src, dir, name))
  {
    hide WellFormed, SameOutside, ValidLeafName, CopiedTo, Removed, Below, Answer;
    ghost var t := fs.tree;
    var target := dir + [name];
    code := Check(fs, src, dir, name);
    if code != Done {
      return;
    }
    FreeNameIsApart(t, src, dir, name);
    var copied := CopyEntry(fs, src, target, faults, |Below(fs.tree, src)|);
    if !copied {
      ghost var left := fs.tree;
      StageGone(t, left, target);
      if target in fs.tree {
        var _ := fs.RemoveAll(target, !undo);
        StillOutside(t, left, fs.tree, target);
      } else {
        NothingToRemove(left, target);
      }
      code := IoError;
    }
  }

  lemma NothingToRemove(u: Tree, target: Path)
    requires WellFormed(u) && target !in u
    ensures Removed(u, target) == u
  {
    NothingBelowAbsent(u, target);
    forall p ensures Lookup(Removed(u, target), p) == Lookup(u, p) {
      assert Under(target, p) ==> Lookup(u, p) == None;
    }
    SameTreeIsEqual(Removed(u, target), u);
  }
}
