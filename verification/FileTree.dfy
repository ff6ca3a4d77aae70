// The managed directory tree and the file system calls that change it, as utils/operations.go and
// utils/archive.go use them. Paths are lists of accepted name segments below the managed root.
module FileTree {
  import opened Paths

  type Path = seq<string>
  datatype Node = Dir | File(bytes: seq<int>)
  type Tree = map<Path, Node>

  predicate Under(base: Path, p: Path) {
    |base| <= |p| && p[..|base|] == base
  }

  predicate Disjoint(a: Path, b: Path) { !Under(a, b) && !Under(b, a) }

  function Parent(p: Path): Path
    requires p != []
  {
    p[..|p| - 1]
  }

  // The path that sits below `dst` as `p` sits below `src`.
  function Rebase(p: Path, src: Path, dst: Path): Path
    requires Under(src, p)
  {
    dst + p[|src|..]
  }

  predicate IsDir(t: Tree, p: Path) { p in t && t[p].Dir? }

  predicate WellFormed(t: Tree) {
    IsDir(t, []) && forall p | p in t && p != [] :: IsDir(t, Parent(p))
  }

  function Lookup(t: Tree, p: Path): Option<Node> {
    if p in t then Some(t[p]) else None
  }

  ghost predicate SameTree(t: Tree, u: Tree) {
    forall p :: Lookup(t, p) == Lookup(u, p)
  }

  // Nothing but what lies under `base` may differ.
  ghost predicate SameOutside(t: Tree, u: Tree, base: Path) {
    forall p | !Under(base, p) :: Lookup(t, p) == Lookup(u, p)
  }

  // Nothing is new, and what is left shows what it did.
  ghost predicate OnlyRemoves(t: Tree, u: Tree) {
    forall p | p in u :: Lookup(t, p) == Lookup(u, p)
  }

  lemma SameTreeIsEqual(t: Tree, u: Tree)
    requires SameTree(t, u)
    ensures t == u
  {
    assert forall p :: p in t <==> Lookup(t, p).Some?;
    assert forall p :: p in u <==> Lookup(u, p).Some?;
    assert forall p | p in t :: Some(t[p]) == Lookup(t, p) == Lookup(u, p) == Some(u[p]);
  }

  lemma {:induction false} AncestorsAreDirs(t: Tree, base: Path, p: Path)
    requires WellFormed(t) && p in t && Under(base, p) && base != p
    ensures IsDir(t, base)
    decreases |p|
  {
    var q := Parent(p);
    assert Under(base, q) by { assert q[..|base|] == p[..|base|]; }
    if q != base {
      AncestorsAreDirs(t, base, q);
    }
  }

  // Below a free name there is nothing.
  lemma NothingBelowAbsent(t: Tree, base: Path)
    requires WellFormed(t) && base !in t
    ensures forall p | Under(base, p) :: Lookup(t, p) == None
  {
    forall p | Under(base, p) ensures Lookup(t, p) == None {
      if p in t { AncestorsAreDirs(t, base, p); }
    }
  }

  // ----- Rename -----

  function RenamedLookup(t: Tree, src: Path, dst: Path, p: Path): Option<Node> {
    if Under(dst, p) then Lookup(t, Rebase(p, dst, src))
    else if Under(src, p) then None
    else Lookup(t, p)
  }

  function Renamed(t: Tree, src: Path, dst: Path): Tree {
    var keys := t.Keys + set q | q in t && Under(src, q) :: Rebase(q, src, dst);
    map p | p in keys && RenamedLookup(t, src, dst, p).Some? :: RenamedLookup(t, src, dst, p).value
  }

  lemma RebaseBack(p: Path, src: Path, dst: Path)
    requires Under(src, p)
    ensures Under(dst, Rebase(p, src, dst)) && Rebase(Rebase(p, src, dst), dst, src) == p
  {
    var q := Rebase(p, src, dst);
    assert q[..|dst|] == dst && q[|dst|..] == p[|src|..];
    assert p == p[..|src|] + p[|src|..];
  }

  lemma RenamedIs(t: Tree, src: Path, dst: Path)
    ensures forall p :: Lookup(Renamed(t, src, dst), p) == RenamedLookup(t, src, dst, p)
  {
    forall p ensures Lookup(Renamed(t, src, dst), p) == RenamedLookup(t, src, dst, p) {
      if Under(dst, p) {
        RebaseBack(p, dst, src);
        var q := Rebase(p, dst, src);
        if q in t {
          assert p in set q | q in t && Under(src, q) :: Rebase(q, src, dst);
        }
      }
    }
  }

  predicate IsEmptyDir(t: Tree, p: Path) {
    IsDir(t, p) && forall q | q in t && q != [] :: Parent(q) != p
  }

  // When rename(2) can succeed: an existing destination is replaced if both are files or if the
  // destination is an empty directory taking a directory.
  predicate CanRename(t: Tree, src: Path, dst: Path) {
    && src in t && src != [] && dst != [] && Disjoint(src, dst) && IsDir(t, Parent(dst))
    && (dst in t ==> (t[src].File? && t[dst].File?) || (t[src].Dir? && IsEmptyDir(t, dst)))
  }

  lemma UnderParent(base: Path, p: Path)
    requires p != [] && Under(base, p)
    ensures base == p || Under(base, Parent(p))
  {
    if base != p {
      assert p[..|p|] == p;
      assert Parent(p)[..|base|] == p[..|base|];
    }
  }

  lemma ParentUnder(base: Path, p: Path)
    requires p != [] && Under(base, Parent(p))
    ensures Under(base, p) && Rebase(p, base, base) == p
  {
    assert p[..|base|] == Parent(p)[..|base|];
  }

  // Whatever a rename leaves, its parent is still a directory.
  lemma ParentStaysDir(t: Tree, src: Path, dst: Path, p: Path)
    requires WellFormed(t) && CanRename(t, src, dst) && p != [] && RenamedLookup(t, src, dst, p).Some?
    ensures RenamedLookup(t, src, dst, Parent(p)) == Some(Dir)
  {
    hide IsEmptyDir;
    var q := Parent(p);
    if Under(dst, p) {
      UnderParent(dst, p);
      if p == dst {
        NotUnderItself(dst);
        UnderOfParent(src, dst);
      } else {
        RebaseBack(p, dst, src);
        assert Rebase(q, dst, src) == Parent(Rebase(p, dst, src));
      }
    } else {
      UnderOfParent(dst, p);
      UnderOfParent(src, p);
    }
  }

  lemma NotUnderItself(p: Path)
    requires p != []
    ensures !Under(p, Parent(p))
  {
  }

  lemma UnderOfParent(base: Path, p: Path)
    requires p != []
    ensures Under(base, Parent(p)) ==> Under(base, p)
  {
    if Under(base, Parent(p)) { ParentUnder(base, p); }
  }

  lemma RenameKeepsWellFormed(t: Tree, src: Path, dst: Path)
    requires WellFormed(t) && CanRename(t, src, dst)
    ensures WellFormed(Renamed(t, src, dst))
  {
    hide Renamed, IsEmptyDir;
    var u := Renamed(t, src, dst);
    RenamedIs(t, src, dst);
    assert !Under(src, []) && !Under(dst, []);
    assert Lookup(u, []) == Lookup(t, []);
    forall p | p in u && p != [] ensures IsDir(u, Parent(p)) {
      assert Lookup(u, p).Some?;
      ParentStaysDir(t, src, dst, p);
      assert Lookup(u, Parent(p)) == Some(Dir);
    }
  }

  // Renaming back undoes a rename onto a free name.
  lemma RenameBack(t: Tree, src: Path, dst: Path)
    requires WellFormed(t) && CanRename(t, src, dst) && dst !in t
    ensures CanRename(Renamed(t, src, dst), dst, src)
    ensures Renamed(Renamed(t, src, dst), dst, src) == t
  {
    var u := Renamed(t, src, dst);
    RenamedIs(t, src, dst);
    RenamedIs(u, dst, src);
    NothingBelowAbsent(t, dst);
    forall p ensures Lookup(Renamed(u, dst, src), p) == Lookup(t, p) {
      if Under(src, p) { RebaseBack(p, src, dst); }
      if Under(dst, p) { RebaseBack(p, dst, src); }
    }
    SameTreeIsEqual(Renamed(u, dst, src), t);
    assert Under(dst, dst) && Rebase(dst, dst, src) == src;
    assert Lookup(u, dst) == Lookup(t, src);
    assert Under(src, src) && !Under(dst, src) && Lookup(u, src) == None;
    var q := Parent(src);
    assert Lookup(u, q) == Lookup(t, q) by {
      assert !Under(src, q);
      if Under(dst, q) { ParentUnder(dst, src); }
    }
  }

  // ----- Copy and removal -----

  ghost predicate CopiedTo(t: Tree, u: Tree, src: Path, dst: Path) {
    forall p :: Lookup(u, p) == if Under(dst, p) then Lookup(t, Rebase(p, dst, src)) else Lookup(t, p)
  }

  function Removed(t: Tree, base: Path): Tree {
    map p | p in t && !Under(base, p) :: t[p]
  }

  function Children(t: Tree, dir: Path): set<string> {
    set p | p in t && p != [] && Parent(p) == dir :: p[|p| - 1]
  }

  class FileSystem {
    var tree: Tree

    ghost predicate Valid()
      reads this
    {
      WellFormed(tree)
    }

    constructor (tree: Tree)
      requires WellFormed(tree)
      ensures Valid() && this.tree == tree
    {
      this.tree := tree;
    }

    // os.Rename. It has all of its effect or none, and `faults` allows it to fail for no visible reason.
    method Rename(src: Path, dst: Path, faults: bool) returns (ok: bool)
      requires Valid()
      modifies this
      ensures Valid()
      ensures ok ==> CanRename(old(tree), src, dst) && tree == Renamed(old(tree), src, dst)
      ensures !ok ==> tree == old(tree)
      ensures !faults && CanRename(old(tree), src, dst) ==> ok
    {
      var fault: bool := *;
      if (fault && faults) || !CanRename(tree, src, dst) {
        return false;
      }
      RenameKeepsWellFormed(tree, src, dst);
      tree := Renamed(tree, src, dst);
      ok := true;
    }

    // os.Mkdir
    method Mkdir(p: Path, faults: bool) returns (ok: bool)
      requires Valid()
      modifies this
      ensures Valid()
      ensures ok ==> p != [] && p !in old(tree) && IsDir(old(tree), Parent(p)) && tree == old(tree)[p := Dir]
      ensures !ok ==> tree == old(tree)
      ensures !faults && p != [] && p !in tree && IsDir(old(tree), Parent(p)) ==> ok
    {
      var fault: bool := *;
      if (fault && faults) || p == [] || p in tree || !IsDir(tree, Parent(p)) {
        return false;
      }
      tree := tree[p := Dir];
      ok := true;
    }

    // os.OpenFile with O_EXCL and io.Copy: a failed copy may leave a shorter file.
    method CreateFile(p: Path, bytes: seq<int>, faults: bool) returns (ok: bool)
      requires Valid()
      modifies this
      ensures Valid()
      ensures ok ==> p != [] && p !in old(tree) && IsDir(old(tree), Parent(p)) && tree == old(tree)[p := File(bytes)]
      ensures SameOutside(old(tree), tree, p)
      ensures p in old(tree) ==> tree == old(tree)
      ensures !faults && p != [] && p !in old(tree) && IsDir(old(tree), Parent(p)) ==> ok
    {
      var fault: bool := *;
      if p == [] || p in tree || !IsDir(tree, Parent(p)) {
        return false;
      }
      assert Under(p, p);
      if fault && faults {
        var partial: bool := *;
        var written: int := *;
        if partial && 0 <= written <= |bytes| {
          tree := tree[p := File(bytes[..written])];
        }
        return false;
      }
      tree := tree[p := File(bytes)];
      ok := true;
    }

    // os.RemoveAll and os.Remove: when a removal fails, part of what lay below may be gone.
    method RemoveAll(p: Path, faults: bool) returns (ok: bool)
      requires Valid() && p != []
      modifies this
      ensures Valid() && SameOutside(old(tree), tree, p) && OnlyRemoves(old(tree), tree)
      ensures ok ==> tree == Removed(old(tree), p)
      ensures !faults ==> ok
    {
      hide SameOutside, OnlyRemoves, WellFormed, Removed;
      RemovedBelow(tree, p, p);
      var fault: bool := *;
      if fault && faults {
        var gone: Path := *;
        NothingRemoved(tree, p);
        if Under(p, gone) {
          RemovedIsWellFormed(tree, gone);
          RemovedBelow(tree, p, gone);
          tree := Removed(tree, gone);
        }
        return false;
      }
      RemovedIsWellFormed(tree, p);
      tree := Removed(tree, p);
      ok := true;
    }
  }

  lemma RemovedIsWellFormed(t: Tree, base: Path)
    requires WellFormed(t) && base != []
    ensures WellFormed(Removed(t, base))
  {
    var u := Removed(t, base);
    forall p | p in u && p != [] ensures IsDir(u, Parent(p)) {
      if Under(base, Parent(p)) { ParentUnder(base, p); }
    }
  }

  lemma RemovedBelow(t: Tree, base: Path, p: Path)
    requires Under(base, p)
    ensures SameOutside(t, Removed(t, p), base) && OnlyRemoves(t, Removed(t, p))
  {
    forall q | !Under(base, q) ensures Lookup(t, q) == Lookup(Removed(t, p), q) {
      if Under(p, q) { UnderIsTransitive(base, p, q); }
    }
  }

  lemma NothingRemoved(t: Tree, base: Path)
    ensures SameOutside(t, t, base) && OnlyRemoves(t, t)
  {
  }

  lemma UnderIsTransitive(a: Path, b: Path, c: Path)
    requires Under(a, b) && Under(b, c)
    ensures Under(a, c)
  {
    assert c[..|a|] == c[..|b|][..|a|] == b[..|a|];
  }
}
