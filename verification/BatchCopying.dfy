// Batch copy as a transaction: copy everything under private staging names, then promote
// (utils/operations.go, BatchCopy and copyEntry).
module BatchCopying {
  import opened Paths
  import opened Collections
  import opened FileTree
  import opened BatchOperations

  // ----- copyEntry -----

  // A directory copy in progress: `dst` exists and holds the children in `done`.
  ghost predicate PartCopied(t: Tree, u: Tree, src: Path, dst: Path, done: set<string>) {
    forall p :: Lookup(u, p) ==
      if !Under(dst, p) then Lookup(t, p)
      else if p == dst then Some(Dir)
      else if p[|dst|] in done then Lookup(t, Rebase(p, dst, src))
      else None
  }

  ghost function Below(t: Tree, src: Path): set<Path> {
    set p | p in t && Under(src, p)
  }

  lemma BelowChildIsSmaller(t: Tree, u: Tree, src: Path, dst: Path, done: set<string>, n: string)
    requires PartCopied(t, u, src, dst, done) && Disjoint(src, dst) && src in t
    ensures |Below(u, src + [n])| < |Below(t, src)|
  {
    forall p | p in Below(u, src + [n]) ensures p in Below(t, src) && p != src {
      ChildUnder(src, n, p);
      assert Lookup(u, p).Some?;
      if Under(dst, p) { PrefixesNest(src, dst, p); }
    }
    assert src in Below(t, src);
    assert Below(u, src + [n]) <= Below(t, src) - {src};
    SubsetSize(Below(u, src + [n]), Below(t, src) - {src});
  }

  lemma PartStep(t: Tree, u: Tree, v: Tree, src: Path, dst: Path, done: set<string>, n: string)
    requires PartCopied(t, u, src, dst, done) && Disjoint(src, dst) && n !in done
    requires CopiedTo(u, v, src + [n], dst + [n])
    ensures PartCopied(t, v, src, dst, done + {n})
  {
    forall p ensures Lookup(v, p) ==
      if !Under(dst, p) then Lookup(t, p)
      else if p == dst then Some(Dir)
      else if p[|dst|] in done + {n} then Lookup(t, Rebase(p, dst, src))
      else None
    {
      ChildUnder(dst, n, p);
      assert Lookup(u, p) == Lookup(u, p);
      if Under(dst + [n], p) {
        var q := Rebase(p, dst + [n], src + [n]);
        RebaseBack(p, dst + [n], src + [n]);
        ChildUnder(src, n, q);
        assert q == Rebase(p, dst, src);
        if Under(dst, q) { PrefixesNest(src, dst, q); }
        assert Lookup(v, p) == Lookup(u, q) == Lookup(t, q);
      }
    }
  }

  lemma ChildrenAre(t: Tree, dir: Path, n: string)
    ensures n in Children(t, dir) <==> dir + [n] in t
  {
    var p := dir + [n];
    assert p != [] && Parent(p) == dir && p[|p| - 1] == n;
    assert forall q | q in t && q != [] && Parent(q) == dir && q[|q| - 1] == n :: q == p;
  }

  lemma AllPartsAreACopy(t: Tree, u: Tree, src: Path, dst: Path)
    requires WellFormed(t) && IsDir(t, src) && Disjoint(src, dst)
    requires PartCopied(t, u, src, dst, Children(t, src))
    ensures CopiedTo(t, u, src, dst)
  {
    forall p | Under(dst, p) ensures Lookup(u, p) == Lookup(t, Rebase(p, dst, src)) {
      var q := Rebase(p, dst, src);
      if p == dst {
        assert q == src;
      } else if p[|dst|] !in Children(t, src) {
        var child := src + [p[|dst|]];
        ChildrenAre(t, src, p[|dst|]);
        NothingBelowAbsent(t, child);
        assert q[..|child|] == child;
      }
    }
  }

  lemma StartPart(t: Tree, src: Path, dst: Path)
    requires WellFormed(t) && dst !in t
    ensures PartCopied(t, t[dst := Dir], src, dst, {})
  {
    NothingBelowAbsent(t, dst);
    assert Under(dst, dst);
  }

  // copyEntry: an exact copy of `src` with everything below it, or a failure that has touched
  // nothing outside `dst`.
  method CopyEntry(fs: FileSystem, src: Path, dst: Path, faults: bool, ghost depth: nat) returns (ok: bool)
    requires fs.Valid() && src in fs.tree && dst !in fs.tree && dst != [] && Disjoint(src, dst)
    requires |Below(fs.tree, src)| <= depth
    modifies fs
    ensures fs.Valid()
    ensures ok ==> CopiedTo(old(fs.tree), fs.tree, src, dst)
    ensures SameOutside(old(fs.tree), fs.tree, dst)
    ensures !faults && IsDir(old(fs.tree), Parent(dst)) ==> ok
    decreases depth
  {
    hide CopiedTo, PartCopied, Below, SameOutside, Disjoint, WellFormed, Children;
    ghost var t := fs.tree;
    if fs.tree[src].File? {
      ok := fs.CreateFile(dst, fs.tree[src].bytes, faults);
      if ok { FileCopied(t, src, dst); }
      return;
    }
    ok := fs.Mkdir(dst, faults);
    if !ok {
      NothingChanged(t, dst);
      return;
    }
    StartPart(t, src, dst);
    PartIsOutside(t, fs.tree, src, dst, {});
    var unreadable: bool := *;
    if unreadable && faults {
      return false;
    }
    var children := Children(fs.tree, src);
    SameChildren(t, fs.tree, src, dst, {});
    var rest := children;
    assert children - rest == {};
    while rest != {}
      invariant rest <= children && children == Children(t, src)
      invariant fs.Valid() && PartCopied(t, fs.tree, src, dst, children - rest) && SameOutside(t, fs.tree, dst)
      decreases |rest|
    {
      var n :| n in rest;
      ghost var u, done := fs.tree, children - rest;
      ChildReady(t, u, src, dst, done, n);
      BelowChildIsSmaller(t, u, src, dst, done, n);
      ok := CopyEntry(fs, src + [n], dst + [n], faults, depth - 1);
      OutsideChild(t, u, fs.tree, dst, n);
      if !ok {
        return;
      }
      PartStep(t, u, fs.tree, src, dst, done, n);
      rest := rest - {n};
      assert children - rest == done + {n};
    }
    assert children - rest == Children(t, src);
    AllPartsAreACopy(t, fs.tree, src, dst);
    ok := true;
  }

  lemma FileCopied(t: Tree, src: Path, dst: Path)
    requires WellFormed(t) && src in t && t[src].File? && dst !in t && Disjoint(src, dst)
    ensures CopiedTo(t, t[dst := t[src]], src, dst)
  {
    var u := t[dst := t[src]];
    NothingBelowAbsent(t, dst);
    forall p ensures Lookup(u, p) == if Under(dst, p) then Lookup(t, Rebase(p, dst, src)) else Lookup(t, p) {
      if Under(dst, p) {
        var q := Rebase(p, dst, src);
        if p == dst {
          assert q == src;
        } else {
          RebaseBack(p, dst, src);
          assert Rebase(src, src, dst) == dst;
          if q in t { AncestorsAreDirs(t, src, q); }
        }
      } else {
        assert Under(dst, dst);
      }
    }
  }

  lemma ChildReady(t: Tree, u: Tree, src: Path, dst: Path, done: set<string>, n: string)
    requires PartCopied(t, u, src, dst, done) && Disjoint(src, dst) && n in Children(t, src) && n !in done
    ensures src + [n] in u && dst + [n] !in u && Disjoint(src + [n], dst + [n]) && IsDir(u, dst)
  {
    var p :| p in t && p != [] && Parent(p) == src && p[|p| - 1] == n;
    var a, b := src + [n], dst + [n];
    assert p == a;
    ChildUnder(src, n, a);
    ChildUnder(dst, n, b);
    assert Under(a, a) && Under(b, b) && Under(dst, dst);
    if Under(dst, a) { PrefixesNest(src, dst, a); }
    if Under(a, b) { ChildUnder(src, n, b); PrefixesNest(src, dst, b); }
    if Under(b, a) { ChildUnder(dst, n, a); PrefixesNest(src, dst, a); }
    assert Lookup(u, a) == Lookup(t, a) && Lookup(u, b) == None && Lookup(u, dst) == Some(Dir);
  }

  lemma NothingChanged(t: Tree, dst: Path)
    ensures SameOutside(t, t, dst)
  {
  }

  lemma OutsideChild(t: Tree, u: Tree, v: Tree, dst: Path, n: string)
    requires SameOutside(t, u, dst) && SameOutside(u, v, dst + [n])
    ensures SameOutside(t, v, dst)
  {
    forall p | !Under(dst, p) ensures Lookup(t, p) == Lookup(v, p) {
      ChildUnder(dst, n, p);
    }
  }

  lemma PartIsOutside(t: Tree, u: Tree, src: Path, dst: Path, done: set<string>)
    requires PartCopied(t, u, src, dst, done)
    ensures SameOutside(t, u, dst)
  {
  }

  lemma SameChildren(t: Tree, u: Tree, src: Path, dst: Path, done: set<string>)
    requires PartCopied(t, u, src, dst, done) && Disjoint(src, dst) && dst != []
    requires dst !in t
    ensures Children(u, src) == Children(t, src)
  {
    forall p | p != [] && Parent(p) == src ensures Lookup(u, p) == Lookup(t, p) {
      if Under(dst, p) { UnderParent(dst, p); assert Parent(dst) == src || Under(dst, src); }
    }
    assert forall p :: p in u <==> Lookup(u, p).Some?;
  }

  // ----- Staged and promoted entries -----

  // Every placed entry shows a selected item and took a name that was free.
  predicate Placeable(t: Tree, from: Path, to: Path, placed: map<string, string>) {
    && WellFormed(t) && IsDir(t, from) && IsDir(t, to) && from != to
    && forall k | k in placed ::
         to + [k] !in t && from + [placed[k]] in t && !Under(from + [placed[k]], to)
  }

  lemma ItemUntouched(t: Tree, from: Path, to: Path, placed: map<string, string>, n: string, p: Path)
    requires Placeable(t, from, to, placed) && from + [n] in t && !Under(from + [n], to) && Under(from + [n], p)
    ensures PlacedLookup(t, from, to, placed, p) == Lookup(t, p)
  {
    if IsChildOf(to, p) && p[|to|] in placed {
      var k := p[|to|];
      ItemAndTargetDisjoint(t, from, to, n, k);
      ChildUnder(to, k, p);
      PrefixesNest(from + [n], to + [k], p);
    }
  }

  lemma PlacedRoots(t: Tree, u: Tree, from: Path, to: Path, placed: map<string, string>)
    requires Placeable(t, from, to, placed) && Placed(t, u, from, to, placed)
    ensures IsDir(u, to)
  {
    assert Lookup(u, to) == PlacedLookup(t, from, to, placed, to);
  }

  // Copying an item to a free entry places it.
  lemma PlaceOne(t: Tree, u: Tree, v: Tree, from: Path, to: Path, placed: map<string, string>, k: string, n: string)
    requires Placeable(t, from, to, placed[k := n]) && k !in placed && Placed(t, u, from, to, placed)
    requires CopiedTo(u, v, from + [n], to + [k])
    ensures Placed(t, v, from, to, placed[k := n])
  {
    var src, dst, more := from + [n], to + [k], placed[k := n];
    assert more[k] == n;
    forall j | j in placed
      ensures to + [j] !in t && from + [placed[j]] in t && !Under(from + [placed[j]], to)
    {
      assert j in more && more[j] == placed[j];
    }
    forall p ensures Lookup(v, p) == PlacedLookup(t, from, to, more, p) {
      ChildUnder(to, k, p);
      assert Lookup(u, p) == PlacedLookup(t, from, to, placed, p);
      if Under(dst, p) {
        var q := Rebase(p, dst, src);
        RebaseBack(p, dst, src);
        assert q == from + [n] + p[|to| + 1..];
        ItemUntouched(t, from, to, placed, n, q);
        assert Lookup(u, q) == PlacedLookup(t, from, to, placed, q);
      }
    }
  }

  // Before it is placed, an item can be copied: it is there, the entry is free, and they are apart.
  lemma CanPlace(t: Tree, u: Tree, from: Path, to: Path, placed: map<string, string>, k: string, n: string)
    requires Placeable(t, from, to, placed) && Placed(t, u, from, to, placed) && k !in placed
    requires from + [n] in t && !Under(from + [n], to)
    ensures from + [n] in u && (to + [k] in u <==> to + [k] in t)
    ensures to + [k] !in t ==> Disjoint(from + [n], to + [k])
  {
    var src, dst := from + [n], to + [k];
    ItemUntouched(t, from, to, placed, n, src);
    assert Lookup(u, src) == PlacedLookup(t, from, to, placed, src);
    assert dst[..|to|] == to && dst[|to|] == k;
    assert Lookup(u, dst) == PlacedLookup(t, from, to, placed, dst);
    if dst !in t { ItemAndTargetDisjoint(t, from, to, n, k); }
  }

  lemma CanPromote(t: Tree, u: Tree, from: Path, to: Path, placed: map<string, string>, k: string, n: string)
    requires Placeable(t, from, to, placed) && Placed(t, u, from, to, placed)
    requires k in placed && n !in placed && to + [n] !in t
    ensures CanRename(u, to + [k], to + [n]) && to + [n] !in u
  {
    hide WellFormed, IsEmptyDir;
    var src, dst := to + [k], to + [n];
    assert src[..|to|] == to && src[|to|] == k && dst[..|to|] == to && dst[|to|] == n && Parent(dst) == to;
    assert src[|to| + 1..] == [] && from + [placed[k]] + [] == from + [placed[k]];
    assert Lookup(u, src) == PlacedLookup(t, from, to, placed, src);
    assert Lookup(u, dst) == PlacedLookup(t, from, to, placed, dst);
    PlacedRoots(t, u, from, to, placed);
    assert |src| == |dst| && src[..|dst|] == src && dst[..|src|] == dst;
  }

  lemma StillPlaceable(t: Tree, from: Path, to: Path, placed: map<string, string>, k: string, n: string)
    requires Placeable(t, from, to, placed) && k in placed && to + [n] !in t
    ensures Placeable(t, from, to, (placed - {k})[n := placed[k]])
  {
  }

  // Promotion: the rename takes the entry from its staging name to its own, which is free.
  lemma PromoteOne(t: Tree, u: Tree, from: Path, to: Path, placed: map<string, string>, k: string, n: string)
    requires Placeable(t, from, to, placed) && Placed(t, u, from, to, placed)
    requires k in placed && n !in placed && to + [n] !in t
    ensures CanRename(u, to + [k], to + [n]) && to + [n] !in u
    ensures Placeable(t, from, to, (placed - {k})[n := placed[k]])
    ensures Placed(t, Renamed(u, to + [k], to + [n]), from, to, (placed - {k})[n := placed[k]])
  {
    hide Placeable, CanRename, Renamed, RenamedLookup, PlacedLookup;
    CanPromote(t, u, from, to, placed, k, n);
    StillPlaceable(t, from, to, placed, k, n);
    RenamedIs(u, to + [k], to + [n]);
    forall p ensures RenamedLookup(u, to + [k], to + [n], p) == PlacedLookup(t, from, to, (placed - {k})[n := placed[k]], p) {
      PromoteAt(t, u, from, to, placed, k, n, p);
    }
  }

  lemma PlacedOverNothing(t: Tree, from: Path, to: Path, placed: map<string, string>, k: string)
    requires Placeable(t, from, to, placed) && k in placed
    ensures forall p | Under(to + [k], p) :: Lookup(t, p) == None
  {
    NothingBelowAbsent(t, to + [k]);
  }

  lemma PromoteAt(t: Tree, u: Tree, from: Path, to: Path, placed: map<string, string>, k: string, n: string, p: Path)
    requires Placeable(t, from, to, placed) && Placed(t, u, from, to, placed)
    requires k in placed && n !in placed
    ensures RenamedLookup(u, to + [k], to + [n], p) == PlacedLookup(t, from, to, (placed - {k})[n := placed[k]], p)
  {
    hide Placeable, WellFormed;
    var src, dst := to + [k], to + [n];
    PlacedOverNothing(t, from, to, placed, k);
    ChildUnder(to, k, p);
    ChildUnder(to, n, p);
    assert Lookup(u, p) == PlacedLookup(t, from, to, placed, p);
    if Under(dst, p) {
      var q := Rebase(p, dst, src);
      RebaseBack(p, dst, src);
      ChildUnder(to, k, q);
      assert Lookup(u, q) == PlacedLookup(t, from, to, placed, q);
      assert q[|to| + 1..] == p[|to| + 1..];
    }
  }

  // ----- Which names are taken while the batch runs -----

  // The first `i` items are promoted, those from `i` up to `m` are staged.
  predicate InProgress(names: seq<string>, i: nat, m: nat, placed: map<string, string>)
    requires i <= m <= |names|
  {
    && (forall j | 0 <= j < i :: names[j] in placed && placed[names[j]] == names[j])
    && (forall j | i <= j < m :: names[j] + STAGING_SUFFIX in placed && placed[names[j] + STAGING_SUFFIX] == names[j])
    && forall k | k in placed ::
         (exists j :: 0 <= j < i && names[j] == k) || (exists j :: i <= j < m && names[j] + STAGING_SUFFIX == k)
  }

  lemma SortedAreDistinct(names: seq<string>)
    requires SortedNames(names)
    ensures forall i, j | 0 <= i < j < |names| :: names[i] != names[j] && names[i] + STAGING_SUFFIX != names[j] + STAGING_SUFFIX
  {
    forall i, j | 0 <= i < j < |names| ensures names[i] != names[j] && names[i] + STAGING_SUFFIX != names[j] + STAGING_SUFFIX {
      BeforeIsStrict(names[i], names[j]);
      assert (names[i] + STAGING_SUFFIX)[..|names[i]|] == names[i];
      assert (names[j] + STAGING_SUFFIX)[..|names[j]|] == names[j];
    }
  }

  lemma StageNext(names: seq<string>, m: nat, placed: map<string, string>)
    requires SortedNames(names) && m < |names| && InProgress(names, 0, m, placed)
    ensures names[m] + STAGING_SUFFIX !in placed
    ensures InProgress(names, 0, m + 1, placed[names[m] + STAGING_SUFFIX := names[m]])
  {
    SortedAreDistinct(names);
  }

  // The ordering fact batch copy rests on: the next name to be promoted is not the staging name
  // of anything still waiting.
  lemma NextNameIsFree(names: seq<string>, i: nat, placed: map<string, string>)
    requires SortedNames(names) && i < |names| && InProgress(names, i, |names|, placed)
    ensures names[i] !in placed
    ensures forall j | 0 <= j < |names| && names[j] == names[i] + STAGING_SUFFIX :: i < j
  {
    hide Before;
    SortedAreDistinct(names);
    forall j | 0 <= j < |names| && names[i] == names[j] + STAGING_SUFFIX ensures j < i {
      StagingNameComesLater(names, i, j);
    }
    forall j | 0 <= j < |names| && names[j] == names[i] + STAGING_SUFFIX ensures i < j {
      StagingNameComesLater(names, j, i);
    }
  }

  lemma PromotedKeys(names: seq<string>, i: nat, placed: map<string, string>)
    requires SortedNames(names) && i < |names| && InProgress(names, i, |names|, placed)
    ensures var next := (placed - {names[i] + STAGING_SUFFIX})[names[i] := names[i]];
            forall k | k in next ::
              (exists j :: 0 <= j < i + 1 && names[j] == k) || (exists j :: i + 1 <= j < |names| && names[j] + STAGING_SUFFIX == k)
  {
    hide SortedNames;
    var key := names[i] + STAGING_SUFFIX;
    var next := (placed - {key})[names[i] := names[i]];
    forall k | k in next
      ensures (exists j :: 0 <= j < i + 1 && names[j] == k) || (exists j :: i + 1 <= j < |names| && names[j] + STAGING_SUFFIX == k)
    {
      if k != names[i] {
        assert k in placed && k != key;
      }
    }
  }

  lemma PromoteNext(names: seq<string>, i: nat, placed: map<string, string>)
    requires SortedNames(names) && i < |names| && InProgress(names, i, |names|, placed)
    ensures names[i] + STAGING_SUFFIX in placed && placed[names[i] + STAGING_SUFFIX] == names[i] && names[i] !in placed
    ensures InProgress(names, i + 1, |names|, (placed - {names[i] + STAGING_SUFFIX})[names[i] := names[i]])
  {
    hide SortedNames;
    SortedAreDistinct(names);
    NextNameIsFree(names, i, placed);
    PromotedKeys(names, i, placed);
    var key := names[i] + STAGING_SUFFIX;
    var next := (placed - {key})[names[i] := names[i]];
    forall j | 0 <= j < i + 1 ensures names[j] in next && next[names[j]] == names[j] {
      if j < i {
        assert names[j] in placed && names[j] != key;
      }
    }
    forall j | i + 1 <= j < |names| ensures names[j] + STAGING_SUFFIX in next && next[names[j] + STAGING_SUFFIX] == names[j] {
      assert names[j] + STAGING_SUFFIX in placed && names[j] + STAGING_SUFFIX != key;
    }
  }

  // ----- Clean-up -----

  // Only entries of `to` with a name in `taken`, all of them free before, may differ from `t`.
  ghost predicate OnlyTaken(t: Tree, u: Tree, to: Path, taken: set<string>) {
    forall p | !(IsChildOf(to, p) && p[|to|] in taken) :: Lookup(u, p) == Lookup(t, p)
  }

  predicate WereFree(t: Tree, to: Path, taken: set<string>) {
    WellFormed(t) && forall k | k in taken :: to + [k] !in t
  }

  // Everything a half-promoted batch can have put into `to`.
  ghost function Leftovers(names: seq<string>, i: nat): set<string>
    requires i <= |names|
  {
    (set j | 0 <= j < i :: names[j]) + (set j | 0 <= j < |names| :: names[j] + STAGING_SUFFIX)
  }

  // Nothing differs but entries of `to` that were free and carry an item's own or staging name.
  ghost predicate OnlyTargets(t: Tree, u: Tree, to: Path, names: seq<string>) {
    forall p | !(IsChildOf(to, p) && p[|to|] in Leftovers(names, |names|) && to + [p[|to|]] !in t) ::
      Lookup(u, p) == Lookup(t, p)
  }

  lemma TakenAreTargets(t: Tree, u: Tree, to: Path, names: seq<string>, taken: set<string>)
    requires WereFree(t, to, taken) && OnlyTaken(t, u, to, taken) && taken <= Leftovers(names, |names|)
    ensures OnlyTargets(t, u, to, names)
  {
    hide Leftovers, WellFormed;
  }

  lemma StagedAreLeftovers(names: seq<string>, i: nat, placed: map<string, string>)
    requires i <= |names| && InProgress(names, 0, i, placed)
    ensures placed.Keys <= Leftovers(names, |names|)
    ensures i < |names| ==> placed.Keys + {names[i] + STAGING_SUFFIX} <= Leftovers(names, |names|)
  {
  }

  lemma NoTargetTouched(t: Tree, to: Path, names: seq<string>)
    ensures OnlyTargets(t, t, to, names)
  {
  }

  lemma EntryCleared(t: Tree, u: Tree, v: Tree, to: Path, taken: set<string>, k: string)
    requires WereFree(t, to, taken) && k in taken && OnlyTaken(t, u, to, taken) && WellFormed(u)
    requires if to + [k] in u then v == Removed(u, to + [k]) else v == u
    ensures OnlyTaken(t, v, to, taken - {k})
  {
    var base := to + [k];
    NothingBelowAbsent(t, base);
    if base !in u { NothingBelowAbsent(u, base); }
    forall p | !(IsChildOf(to, p) && p[|to|] in taken - {k}) ensures Lookup(v, p) == Lookup(t, p) {
      ChildUnder(to, k, p);
      if Under(base, p) {
        assert Lookup(v, p) == None;
      } else {
        assert Lookup(v, p) == Lookup(u, p);
      }
    }
  }

  lemma AllClearedIsOriginal(t: Tree, u: Tree, to: Path)
    requires OnlyTaken(t, u, to, {})
    ensures u == t
  {
    SameTreeIsEqual(t, u);
  }

  lemma PlacedIsTaken(t: Tree, u: Tree, from: Path, to: Path, placed: map<string, string>)
    requires Placed(t, u, from, to, placed)
    ensures OnlyTaken(t, u, to, placed.Keys)
  {
  }

  // Removes what is there of the given entries; an entry that is missing is skipped.
  method ClearEntries(fs: FileSystem, to: Path, entries: seq<string>, undo: bool, ghost t: Tree, ghost taken: set<string>)
    requires fs.Valid() && WereFree(t, to, taken) && OnlyTaken(t, fs.tree, to, taken)
    requires forall i | 0 <= i < |entries| :: entries[i] in taken
    modifies fs
    ensures fs.Valid() && OnlyTaken(t, fs.tree, to, taken)
    ensures undo ==> OnlyTaken(t, fs.tree, to, taken - (set i | 0 <= i < |entries| :: entries[i]))
  {
    hide OnlyTaken, WereFree, Removed, WellFormed, SameOutside;
    ghost var left := taken;
    var i := 0;
    while i < |entries|
      invariant 0 <= i <= |entries| && fs.Valid()
      invariant left == taken - set j | 0 <= j < i :: entries[j]
      invariant OnlyTaken(t, fs.tree, to, taken)
      invariant undo ==> OnlyTaken(t, fs.tree, to, left)
    {
      var k := entries[i];
      ghost var u := fs.tree;
      NothingChanged(u, to + [k]);
      if to + [k] in fs.tree {
        var _ := fs.RemoveAll(to + [k], !undo);
      }
      StillOnlyTaken(t, u, fs.tree, to, taken, k);
      if undo {
        Widen(t, u, to, left, k);
        FreeAlso(t, to, taken, left, k);
        EntryCleared(t, u, fs.tree, to, left + {k}, k);
        assert left + {k} - {k} == left - {k};
      }
      left := left - {k};
      i := i + 1;
    }
  }

  lemma StillOnlyTaken(t: Tree, u: Tree, v: Tree, to: Path, taken: set<string>, k: string)
    requires OnlyTaken(t, u, to, taken) && k in taken && SameOutside(u, v, to + [k])
    ensures OnlyTaken(t, v, to, taken)
  {
    forall p | !(IsChildOf(to, p) && p[|to|] in taken) ensures Lookup(v, p) == Lookup(t, p) {
      ChildUnder(to, k, p);
    }
  }

  lemma Widen(t: Tree, u: Tree, to: Path, taken: set<string>, k: string)
    requires OnlyTaken(t, u, to, taken)
    ensures OnlyTaken(t, u, to, taken + {k})
  {
  }

  lemma FreeAlso(t: Tree, to: Path, taken: set<string>, left: set<string>, k: string)
    requires WereFree(t, to, taken) && left <= taken && k in taken
    ensures WereFree(t, to, left + {k})
  {
  }

  // ----- Batch copy -----

  // Every selected item has an exact copy in `to` under its own name, and nothing else differs.
  ghost predicate CopiedAll(t: Tree, u: Tree, from: Path, to: Path, names: seq<string>) {
    forall p :: Lookup(u, p) ==
      if IsChildOf(to, p) && p[|to|] in names then Lookup(t, from + p[|to|..]) else Lookup(t, p)
  }

  lemma AllPromoted(t: Tree, u: Tree, from: Path, to: Path, names: seq<string>, placed: map<string, string>)
    requires InProgress(names, |names|, |names|, placed) && Placed(t, u, from, to, placed)
    ensures CopiedAll(t, u, from, to, names)
  {
    forall p ensures Lookup(u, p) ==
      if IsChildOf(to, p) && p[|to|] in names then Lookup(t, from + p[|to|..]) else Lookup(t, p)
    {
      assert Lookup(u, p) == PlacedLookup(t, from, to, placed, p);
      if IsChildOf(to, p) && p[|to|] in names {
        var j :| 0 <= j < |names| && names[j] == p[|to|];
        assert p[|to|..] == [p[|to|]] + p[|to| + 1..];
        assert from + [names[j]] + p[|to| + 1..] == from + p[|to|..];
      }
    }
  }

  // The staging loop of BatchCopy.
  method StageCopies(fs: FileSystem, from: Path, to: Path, names: seq<string>, faults: bool, undo: bool)
    returns (code: Code, ghost placed: map<string, string>)
    requires fs.Valid() && SortedNames(names) && IsDir(fs.tree, from) && IsDir(fs.tree, to) && from != to
    requires forall i | 0 <= i < |names| :: from + [names[i]] in fs.tree && !Under(from + [names[i]], to)
    modifies fs
    ensures fs.Valid() && code in {Done, DestinationBusy, IoError}
    ensures code == Done ==>
              && InProgress(names, 0, |names|, placed) && Placeable(old(fs.tree), from, to, placed)
              && Placed(old(fs.tree), fs.tree, from, to, placed)
    ensures code != Done && undo ==> fs.tree == old(fs.tree)
    ensures code != Done ==> OnlyTargets(old(fs.tree), fs.tree, to, names)
    ensures code == Done ==> forall i | 0 <= i < |names| :: to + [names[i] + STAGING_SUFFIX] !in old(fs.tree)
    ensures !faults && (forall i | 0 <= i < |names| :: to + [names[i] + STAGING_SUFFIX] !in old(fs.tree)) ==> code == Done
  {
    hide Placed, PlacedLookup, OnlyTaken, OnlyTargets, Leftovers, CopiedTo, SortedNames, WellFormed;
    ghost var t := fs.tree;
    placed := map[];
    NothingPlaced(t, from, to, names);
    var staged: seq<string> := [];
    var i := 0;
    while i < |names|
      invariant 0 <= i <= |names| && fs.Valid()
      invariant |staged| == i && forall j | 0 <= j < i :: staged[j] == names[j] + STAGING_SUFFIX
      invariant InProgress(names, 0, i, placed) && Placeable(t, from, to, placed) && Placed(t, fs.tree, from, to, placed)
      invariant forall j | 0 <= j < i :: to + [names[j] + STAGING_SUFFIX] !in t
    {
      var stage := names[i] + STAGING_SUFFIX;
      StageNext(names, i, placed);
      CanPlace(t, fs.tree, from, to, placed, stage, names[i]);
      if to + [stage] in fs.tree {
        TakenWereFree(t, fs.tree, from, to, placed);
        StagedNames(names, i, placed, staged);
        ClearEntries(fs, to, staged, undo, t, placed.Keys);
        StagedAreLeftovers(names, i, placed);
        TakenAreTargets(t, fs.tree, to, names, placed.Keys);
        if undo { AllClearedIsOriginal(t, fs.tree, to); }
        return DestinationBusy, placed;
      }
      staged := staged + [stage];
      ghost var u := fs.tree;
      DestinationIsDir(t, u, from, to, placed, stage);
      var copied := CopyEntry(fs, from + [names[i]], to + [stage], faults, |Below(fs.tree, from + [names[i]])|);
      if !copied {
        TakenWereFree(t, u, from, to, placed);
        AlsoTaken(t, u, fs.tree, to, placed.Keys, stage);
        StagedNamesAnd(names, i, placed, staged);
        ClearEntries(fs, to, staged, undo, t, placed.Keys + {stage});
        StagedAreLeftovers(names, i, placed);
        TakenAreTargets(t, fs.tree, to, names, placed.Keys + {stage});
        if undo { AllClearedIsOriginal(t, fs.tree, to); }
        return IoError, placed;
      }
      PlaceOne(t, u, fs.tree, from, to, placed, stage, names[i]);
      placed := placed[stage := names[i]];
      i := i + 1;
    }
    code := Done;
  }

  lemma NothingPlaced(t: Tree, from: Path, to: Path, names: seq<string>)
    requires WellFormed(t) && IsDir(t, from) && IsDir(t, to) && from != to
    ensures InProgress(names, 0, 0, map[]) && Placeable(t, from, to, map[]) && Placed(t, t, from, to, map[])
  {
  }

  lemma TakenWereFree(t: Tree, u: Tree, from: Path, to: Path, placed: map<string, string>)
    requires Placeable(t, from, to, placed) && Placed(t, u, from, to, placed)
    ensures WereFree(t, to, placed.Keys) && OnlyTaken(t, u, to, placed.Keys)
  {
    PlacedIsTaken(t, u, from, to, placed);
  }

  lemma TreeWasWellFormed(t: Tree, from: Path, to: Path, placed: map<string, string>)
    requires Placeable(t, from, to, placed)
    ensures WellFormed(t)
  {
  }

  lemma DestinationIsDir(t: Tree, u: Tree, from: Path, to: Path, placed: map<string, string>, k: string)
    requires Placeable(t, from, to, placed) && Placed(t, u, from, to, placed)
    ensures Parent(to + [k]) == to && IsDir(u, to)
  {
    PlacedRoots(t, u, from, to, placed);
  }

  lemma AlsoTaken(t: Tree, u: Tree, v: Tree, to: Path, taken: set<string>, k: string)
    requires WereFree(t, to, taken) && to + [k] !in t && OnlyTaken(t, u, to, taken) && SameOutside(u, v, to + [k])
    ensures WereFree(t, to, taken + {k}) && OnlyTaken(t, v, to, taken + {k})
  {
    forall p | !(IsChildOf(to, p) && p[|to|] in taken + {k}) ensures Lookup(v, p) == Lookup(t, p) {
      ChildUnder(to, k, p);
    }
  }

  lemma StagedNames(names: seq<string>, i: nat, placed: map<string, string>, staged: seq<string>)
    requires i <= |names| && InProgress(names, 0, i, placed)
    requires |staged| == i && forall j | 0 <= j < i :: staged[j] == names[j] + STAGING_SUFFIX
    ensures forall j | 0 <= j < i :: staged[j] in placed
    ensures placed.Keys - (set j | 0 <= j < |staged| :: staged[j]) == {}
  {
    forall k | k in placed ensures k in set j | 0 <= j < |staged| :: staged[j] {
      var j :| 0 <= j < i && names[j] + STAGING_SUFFIX == k;
      assert staged[j] == k;
    }
  }

  lemma StagedNamesAnd(names: seq<string>, i: nat, placed: map<string, string>, staged: seq<string>)
    requires i < |names| && InProgress(names, 0, i, placed)
    requires |staged| == i + 1 && forall j | 0 <= j <= i :: staged[j] == names[j] + STAGING_SUFFIX
    ensures forall j | 0 <= j <= i :: staged[j] in placed.Keys + {names[i] + STAGING_SUFFIX}
    ensures placed.Keys + {names[i] + STAGING_SUFFIX} - (set j | 0 <= j < |staged| :: staged[j]) == {}
  {
    StagedNames(names, i, placed, staged[..i]);
    forall k | k in placed.Keys + {names[i] + STAGING_SUFFIX} ensures k in set j | 0 <= j < |staged| :: staged[j] {
      if k in placed {
        var j :| 0 <= j < i && names[j] + STAGING_SUFFIX == k;
        assert staged[j] == k;
      } else {
        assert staged[i] == k;
      }
    }
  }

  // The promotion loop of BatchCopy.
  method PromoteCopies(fs: FileSystem, from: Path, to: Path, names: seq<string>, faults: bool, undo: bool,
                       ghost t: Tree, ghost staged: map<string, string>) returns (ok: bool)
    requires fs.Valid() && SortedNames(names) && InProgress(names, 0, |names|, staged)
    requires Placeable(t, from, to, staged) && Placed(t, fs.tree, from, to, staged)
    requires forall i | 0 <= i < |names| :: to + [names[i]] !in t && to + [names[i] + STAGING_SUFFIX] !in t
    modifies fs
    ensures fs.Valid()
    ensures ok ==> CopiedAll(t, fs.tree, from, to, names)
    ensures !ok && undo ==> fs.tree == t
    ensures !ok ==> OnlyTargets(t, fs.tree, to, names)
    ensures !faults ==> ok
  {
    hide Placed, PlacedLookup, OnlyTaken, OnlyTargets, SortedNames, Renamed, CanRename, CopiedAll, Placeable, WellFormed, InProgress;
    ghost var placed := staged;
    var stages := seq(|names|, j requires 0 <= j < |names| => names[j] + STAGING_SUFFIX);
    var i := 0;
    while i < |names|
      invariant 0 <= i <= |names| && fs.Valid()
      invariant InProgress(names, i, |names|, placed) && Placeable(t, from, to, placed) && Placed(t, fs.tree, from, to, placed)
    {
      var stage := names[i] + STAGING_SUFFIX;
      PromoteNext(names, i, placed);
      PromoteOne(t, fs.tree, from, to, placed, stage, names[i]);
      ok := fs.Rename(to + [stage], to + [names[i]], faults);
      if !ok {
        TakenWereFree(t, fs.tree, from, to, placed);
        TreeWasWellFormed(t, from, to, placed);
        UndoPromotion(fs, to, names, stages, i, undo, t, placed);
        return;
      }
      placed := (placed - {stage})[names[i] := names[i]];
      i := i + 1;
    }
    AllPromoted(t, fs.tree, from, to, names, placed);
    ok := true;
  }

  lemma PlacedAreLeftovers(t: Tree, u: Tree, to: Path, names: seq<string>, i: nat, placed: map<string, string>)
    requires i <= |names| && InProgress(names, i, |names|, placed) && OnlyTaken(t, u, to, placed.Keys)
    requires WellFormed(t) && forall j | 0 <= j < |names| :: to + [names[j]] !in t && to + [names[j] + STAGING_SUFFIX] !in t
    ensures WereFree(t, to, Leftovers(names, i)) && OnlyTaken(t, u, to, Leftovers(names, i))
  {
    assert placed.Keys <= Leftovers(names, i);
  }

  // The promoted entries go first, then whatever is still staged.
  method UndoPromotion(fs: FileSystem, to: Path, names: seq<string>, staged: seq<string>, i: nat, undo: bool,
                       ghost t: Tree, ghost placed: map<string, string>)
    requires fs.Valid() && i <= |names| && InProgress(names, i, |names|, placed) && OnlyTaken(t, fs.tree, to, placed.Keys)
    requires WellFormed(t) && forall j | 0 <= j < |names| :: to + [names[j]] !in t && to + [names[j] + STAGING_SUFFIX] !in t
    requires |staged| == |names| && forall j | 0 <= j < |names| :: staged[j] == names[j] + STAGING_SUFFIX
    modifies fs
    ensures fs.Valid() && OnlyTargets(t, fs.tree, to, names) && (undo ==> fs.tree == t)
  {
    hide OnlyTaken, OnlyTargets, WellFormed, InProgress;
    PlacedAreLeftovers(t, fs.tree, to, names, i, placed);
    ghost var all, gone := Leftovers(names, i), set j | 0 <= j < |names[..i]| :: names[..i][j];
    ghost var waiting := set j | 0 <= j < |staged| :: staged[j];
    ClearEntries(fs, to, names[..i], undo, t, all);
    ghost var rest := if undo then (all - gone) + waiting else all;
    if undo { WidenTo(t, fs.tree, to, all - gone, rest); }
    ClearEntries(fs, to, staged, undo, t, rest);
    assert rest <= Leftovers(names, |names|);
    TakenAreTargets(t, fs.tree, to, names, rest);
    if undo {
      assert forall k | k in all :: k in gone || k in waiting by {
        assert forall j | 0 <= j < i :: names[..i][j] == names[j];
      }
      assert rest - waiting == {};
      AllClearedIsOriginal(t, fs.tree, to);
    }
  }

  lemma WidenTo(t: Tree, u: Tree, to: Path, taken: set<string>, more: set<string>)
    requires OnlyTaken(t, u, to, taken) && taken <= more
    ensures OnlyTaken(t, u, to, more)
  {
  }

  method BatchCopy(fs: FileSystem, from: Path, to: Path, items: seq<Item>, version: Node -> string, faults: bool, undo: bool)
    returns (code: Code)
    requires fs.Valid()
    // ValidateSelection leaves the items in this order and revalidation keeps it.
    requires SortedNames(seq(|items|, i requires 0 <= i < |items| => items[i].name))
    modifies fs
    ensures fs.Valid()
    ensures code == Done ==> PreflightOk(old(fs.tree), from, to, items, version)
    ensures code == Done ==> CopiedAll(old(fs.tree), fs.tree, from, to, seq(|items|, i requires 0 <= i < |items| => items[i].name))
    ensures code != Done && undo ==> fs.tree == old(fs.tree)
    ensures RightAnswer(code, old(fs.tree), from, to, items, version)
    // Nothing is copied if any of the items is gone or is not what the listing showed.
    ensures forall k | 0 <= k < |items| ::
              (from + [items[k].name] !in old(fs.tree) || version(old(fs.tree)[from + [items[k].name]]) != items[k].version) ==>
                code !in {Done, ExecutionPartial} && fs.tree == old(fs.tree)
    // Even if the clean-up fails, nothing that was there is gone or changed.
    ensures code != Done ==>
              OnlyTargets(old(fs.tree), fs.tree, to, seq(|items|, i requires 0 <= i < |items| => items[i].name))
    ensures !faults ==>
              (code == Done <==>
                 && PreflightOk(old(fs.tree), from, to, items, version)
                 && forall i | 0 <= i < |items| :: to + [items[i].name + STAGING_SUFFIX] !in old(fs.tree))
  {
    hide WellFormed, CopiedAll, SortedNames, InProgress, Placeable, Placed, Current, DestinationsFree, DistinctNames;
    hide OnlyTargets, RightAnswer;
    NoTargetTouched(fs.tree, to, seq(|items|, i requires 0 <= i < |items| => items[i].name));
    code := Preflight(fs, from, to, items, version);
    CurrentOrRefused(code, fs.tree, from, to, items, version);
    if code != Done {
      return;
    }
    ghost var t := fs.tree;
    PreflightIsReady(t, from, to, items, version);
    var names := seq(|items|, i requires 0 <= i < |items| => items[i].name);
    assert forall i | 0 <= i < |items| :: names[i] == items[i].name;
    forall i | 0 <= i < |names| ensures names[i] in Names(items) {
      assert names[i] == items[i].name;
    }
    ghost var placed;
    code, placed := StageCopies(fs, from, to, names, faults, undo);
    if code != Done {
      assert code in {DestinationBusy, IoError};
      return;
    }
    var promoted := PromoteCopies(fs, from, to, names, faults, undo, t, placed);
    code := if promoted then Done else ExecutionPartial;
    assert !faults ==> promoted;
  }
}
