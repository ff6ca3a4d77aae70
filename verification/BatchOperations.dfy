// Batch move and batch copy as transactions on the tree (utils/operations.go).
//
// Items are direct children of one directory, taken under operationMu, so nobody else changes the
// tree meanwhile. With `undo` set, the clean-up removals and reverse renames do not fail.
module BatchOperations {
  import opened Paths
  import opened FileTree

  const MAX_SELECTED := 100
  const STAGING_SUFFIX := ".fileharbor-copy-staging"

  datatype Code =
    | Done | InvalidSelection | BatchLimitExceeded | NotFound | NotDirectory | SourceChanged | SameDirectory | DestinationExists
    | SelfDescendant | DestinationBusy | ExecutionPartial | IoError

  // A selected child: its name and the version its listing showed.
  datatype Item = Item(name: string, version: string)

  // The order sort.Slice uses: by Relative, byte by byte.
  predicate Before(a: string, b: string) {
    if b == "" then false
    else if a == "" then true
    else a[0] < b[0] || (a[0] == b[0] && Before(a[1..], b[1..]))
  }

  function Relative(dir: string, name: string): string {
    if dir == "" then name else dir + "/" + name
  }

  lemma {:induction false} BeforeBehindPrefix(prefix: string, a: string, b: string)
    ensures Before(prefix + a, prefix + b) <==> Before(a, b)
  {
    if prefix == "" {
      assert prefix + a == a && prefix + b == b;
    } else {
      BeforeBehindPrefix(prefix[1..], a, b);
      assert (prefix + a)[1..] == prefix[1..] + a && (prefix + b)[1..] == prefix[1..] + b;
    }
  }

  // Items of one directory are ordered by their names alone.
  lemma RelativeOrderIsNameOrder(dir: string, a: string, b: string)
    ensures Before(Relative(dir, a), Relative(dir, b)) <==> Before(a, b)
  {
    if dir != "" {
      BeforeBehindPrefix(dir + "/", a, b);
      assert dir + "/" + a == (dir + "/") + a && dir + "/" + b == (dir + "/") + b;
    }
  }

  lemma {:induction false} ProperPrefixIsBefore(a: string, rest: string)
    requires rest != ""
    ensures Before(a, a + rest)
  {
    if a != "" {
      ProperPrefixIsBefore(a[1..], rest);
      assert (a + rest)[1..] == a[1..] + rest;
    } else {
      assert a + rest == rest;
    }
  }

  lemma {:induction false} BeforeIsStrict(a: string, b: string)
    requires Before(a, b)
    ensures !Before(b, a) && a != b
  {
    if a != "" && a[0] == b[0] {
      BeforeIsStrict(a[1..], b[1..]);
    }
  }

  predicate SortedNames(names: seq<string>) {
    forall i, j | 0 <= i < j < |names| :: Before(names[i], names[j])
  }

  // Sorted, a name that equals another item's staging name belongs to a later item, never to an
  // earlier one: by the time it is promoted the staging name is free again.
  lemma StagingNameComesLater(names: seq<string>, i: nat, j: nat)
    requires SortedNames(names) && i < |names| && j < |names|
    requires names[i] == names[j] + STAGING_SUFFIX
    ensures j < i
  {
    ProperPrefixIsBefore(names[j], STAGING_SUFFIX);
    if i < j {
      BeforeIsStrict(names[i], names[j]);
    }
  }

  // ----- Views of a tree in the middle of a batch -----

  predicate IsChildOf(dir: Path, p: Path) { |p| > |dir| && Under(dir, p) }

  // `placed` says which entries of `to` show a copy of which entry of `from`; everything else is
  // as in `t`.
  function PlacedLookup(t: Tree, from: Path, to: Path, placed: map<string, string>, p: Path): Option<Node> {
    if IsChildOf(to, p) && p[|to|] in placed then Lookup(t, from + [placed[p[|to|]]] + p[|to| + 1..])
    else Lookup(t, p)
  }

  ghost predicate Placed(t: Tree, u: Tree, from: Path, to: Path, placed: map<string, string>) {
    forall p :: Lookup(u, p) == PlacedLookup(t, from, to, placed, p)
  }

  // The entries in `names` have gone from `from` to `to`, each with everything below it.
  function MovedLookup(t: Tree, from: Path, to: Path, names: set<string>, p: Path): Option<Node> {
    if IsChildOf(to, p) && p[|to|] in names then Lookup(t, from + p[|to|..])
    else if IsChildOf(from, p) && p[|from|] in names then None
    else Lookup(t, p)
  }

  ghost predicate Moved(t: Tree, u: Tree, from: Path, to: Path, names: set<string>) {
    forall p :: Lookup(u, p) == MovedLookup(t, from, to, names, p)
  }

  // What the preflight checks establish before anything is changed.
  predicate Ready(t: Tree, from: Path, to: Path, names: set<string>) {
    && WellFormed(t) && IsDir(t, from) && IsDir(t, to) && from != to
    && forall n | n in names :: from + [n] in t && to + [n] !in t && !Under(from + [n], to)
  }

  lemma ChildUnder(dir: Path, n: string, p: Path)
    ensures Under(dir + [n], p) <==> IsChildOf(dir, p) && p[|dir|] == n
    ensures Under(dir + [n], p) ==> p[|dir + [n]|..] == p[|dir| + 1..] && p[|dir|..] == [n] + p[|dir| + 1..]
  {
    if IsChildOf(dir, p) && p[|dir|] == n {
      assert p[..|dir| + 1] == p[..|dir|] + [n];
    }
    if Under(dir + [n], p) {
      assert p[..|dir| + 1][..|dir|] == dir && p[..|dir| + 1][|dir|] == n;
      assert p[..|dir|] == p[..|dir| + 1][..|dir|];
    }
  }

  // A selected item and a free name of the destination lie in separate parts of the tree.
  lemma ItemAndTargetDisjoint(t: Tree, from: Path, to: Path, n: string, k: string)
    requires WellFormed(t) && from + [n] in t && to + [k] !in t && !Under(from + [n], to) && from != to
    ensures Disjoint(from + [n], to + [k])
  {
    assert Parent(to + [k]) == to && Parent(from + [n]) == from;
    if Under(to + [k], from + [n]) && to + [k] != from + [n] {
      AncestorsAreDirs(t, to + [k], from + [n]);
    }
    if Under(from + [n], to + [k]) {
      UnderParent(from + [n], to + [k]);
    }
  }

  // ----- Moving -----

  // One more item renamed from `from` to `to`.
  lemma MoveOne(t: Tree, u: Tree, from: Path, to: Path, names: set<string>, n: string)
    requires Ready(t, from, to, names + {n}) && n !in names && Moved(t, u, from, to, names)
    ensures CanRename(u, from + [n], to + [n]) && to + [n] !in u
    ensures Moved(t, Renamed(u, from + [n], to + [n]), from, to, names + {n})
  {
    var src, dst := from + [n], to + [n];
    ItemAndTargetDisjoint(t, from, to, n, n);
    ChildUnder(from, n, src);
    ChildUnder(to, n, dst);
    ChildUnder(from, n, dst);
    assert Under(src, src) && Under(dst, dst) && Parent(dst) == to;
    OutsideMoved(t, from, to, names, src, n);
    RootsStay(t, from, to, names);
    assert Lookup(u, src) == Lookup(t, src) && Lookup(u, dst) == None && Lookup(u, to) == Lookup(t, to) by {
      TargetStaysFree(t, from, to, names, n);
    }
    RenamedIs(u, src, dst);
    forall p ensures RenamedLookup(u, src, dst, p) == MovedLookup(t, from, to, names + {n}, p) {
      MoveOneAt(t, u, from, to, names, n, p);
    }
  }

  lemma TargetStaysFree(t: Tree, from: Path, to: Path, names: set<string>, n: string)
    requires Ready(t, from, to, names + {n}) && n !in names
    ensures MovedLookup(t, from, to, names, to + [n]) == None
  {
    var dst := to + [n];
    assert dst[..|to|] == to && dst[|to|] == n;
  }

  lemma MoveOneAt(t: Tree, u: Tree, from: Path, to: Path, names: set<string>, n: string, p: Path)
    requires Ready(t, from, to, names + {n}) && n !in names && Moved(t, u, from, to, names)
    ensures RenamedLookup(u, from + [n], to + [n], p) == MovedLookup(t, from, to, names + {n}, p)
  {
    hide Ready;
    var src, dst := from + [n], to + [n];
    ChildUnder(from, n, p);
    ChildUnder(to, n, p);
    assert Lookup(u, p) == MovedLookup(t, from, to, names, p);
    if Under(dst, p) {
      var q := Rebase(p, dst, src);
      assert q == from + p[|to|..];
      RebaseBack(p, dst, src);
      ChildUnder(from, n, q);
      OutsideMoved(t, from, to, names, q, n);
    } else if Under(src, p) {
      OutsideMoved(t, from, to, names, p, n);
      TargetsMissItem(t, from, to, names, n, p);
    }
  }

  lemma TargetsMissItem(t: Tree, from: Path, to: Path, names: set<string>, n: string, p: Path)
    requires Ready(t, from, to, names + {n}) && Under(from + [n], p)
    ensures !(IsChildOf(to, p) && p[|to|] in names)
  {
    if IsChildOf(to, p) && p[|to|] in names {
      var k := p[|to|];
      ItemAndTargetDisjoint(t, from, to, n, k);
      ChildUnder(to, k, p);
      PrefixesNest(from + [n], to + [k], p);
    }
  }

  // What lies below a selected item that has not moved yet looks as it did.
  lemma OutsideMoved(t: Tree, from: Path, to: Path, names: set<string>, p: Path, n: string)
    requires Ready(t, from, to, names + {n}) && n !in names && IsChildOf(from, p) && p[|from|] == n
    ensures MovedLookup(t, from, to, names, p) == Lookup(t, p)
  {
    ChildUnder(from, n, p);
    TargetsMissItem(t, from, to, names, n, p);
  }

  // Two prefixes of one path lie one under the other.
  lemma PrefixesNest(a: Path, b: Path, p: Path)
    requires Under(a, p) && Under(b, p)
    ensures !Disjoint(a, b)
  {
    if |a| <= |b| {
      assert b[..|a|] == p[..|b|][..|a|] == p[..|a|];
    } else {
      assert a[..|b|] == p[..|a|][..|b|] == p[..|b|];
    }
  }

  lemma RootsStay(t: Tree, from: Path, to: Path, names: set<string>)
    requires Ready(t, from, to, names)
    ensures MovedLookup(t, from, to, names, to) == Lookup(t, to) && MovedLookup(t, from, to, names, from) == Lookup(t, from)
  {
    if IsChildOf(from, to) && to[|from|] in names {
      ChildUnder(from, to[|from|], to);
    }
    if IsChildOf(to, from) && from[|to|] in names {
      var k := from[|to|];
      ChildUnder(to, k, from);
      NothingBelowAbsent(t, to + [k]);
    }
  }

  // ----- Selections -----

  function Names(items: seq<Item>): set<string> {
    set i | 0 <= i < |items| :: items[i].name
  }

  predicate DistinctNames(items: seq<Item>) {
    forall i, j | 0 <= i < j < |items| :: items[i].name != items[j].name
  }

  // The item is a child of `dir` and still has the version it was listed with.
  predicate Unchanged(t: Tree, dir: Path, item: Item, version: Node -> string) {
    dir + [item.name] in t && version(t[dir + [item.name]]) == item.version
  }

  predicate Current(t: Tree, dir: Path, items: seq<Item>, version: Node -> string) {
    forall i | 0 <= i < |items| :: ValidLeafName(items[i].name) && Unchanged(t, dir, items[i], version)
  }

  // The item's name is free in the destination, which does not lie below the item.
  predicate DestinationFree(t: Tree, from: Path, to: Path, item: Item) {
    && to + [item.name] !in t
    && (IsDir(t, from + [item.name]) ==> !Under(from + [item.name], to))
  }

  predicate DestinationsFree(t: Tree, from: Path, to: Path, items: seq<Item>) {
    && IsDir(t, to) && from != to
    && forall i | 0 <= i < |items| :: DestinationFree(t, from, to, items[i])
  }

  predicate PreflightOk(t: Tree, from: Path, to: Path, items: seq<Item>, version: Node -> string) {
    && 1 <= |items| <= MAX_SELECTED && DistinctNames(items)
    && Current(t, from, items, version) && DestinationsFree(t, from, to, items)
  }

  // Passing the checks leaves the destination outside every item, files included.
  lemma PreflightIsReady(t: Tree, from: Path, to: Path, items: seq<Item>, version: Node -> string)
    requires WellFormed(t) && PreflightOk(t, from, to, items, version)
    ensures Ready(t, from, to, Names(items))
  {
    forall n | n in Names(items)
      ensures from + [n] in t && to + [n] !in t && !Under(from + [n], to)
    {
      var i :| 0 <= i < |items| && items[i].name == n;
      if Under(from + [n], to) && from + [n] != to {
        AncestorsAreDirs(t, from + [n], to);
      }
    }
    assert Parent(from + [items[0].name]) == from;
  }

  ghost predicate SortedByRelative(dir: string, items: seq<Item>) {
    forall i, j | 0 <= i < j < |items| :: Before(Relative(dir, items[i].name), Relative(dir, items[j].name))
  }

  lemma BehindInserted(dir: string, sorted: seq<Item>, x: Item, at: nat, i: nat)
    requires SortedByRelative(dir, sorted) && at <= i < |sorted| && sorted[at].name != x.name
    requires !Before(Relative(dir, sorted[at].name), Relative(dir, x.name))
    ensures Before(Relative(dir, x.name), Relative(dir, sorted[i].name))
  {
    hide Before, Relative;
    RelativeOrderIsNameOrder(dir, sorted[at].name, x.name);
    RelativeOrderIsNameOrder(dir, x.name, sorted[at].name);
    BeforeIsTotal(sorted[at].name, x.name);
    if i > at {
      BeforeIsTransitive(Relative(dir, x.name), Relative(dir, sorted[at].name), Relative(dir, sorted[i].name));
    }
  }

  lemma InsertedIsSorted(dir: string, sorted: seq<Item>, x: Item, at: nat)
    requires SortedByRelative(dir, sorted) && at <= |sorted|
    requires forall i | 0 <= i < at :: Before(Relative(dir, sorted[i].name), Relative(dir, x.name))
    requires forall i | at <= i < |sorted| :: Before(Relative(dir, x.name), Relative(dir, sorted[i].name))
    ensures SortedByRelative(dir, sorted[..at] + [x] + sorted[at..])
  {
    hide Before, Relative;
  }

  method InsertByRelative(dir: string, sorted: seq<Item>, x: Item) returns (longer: seq<Item>)
    requires SortedByRelative(dir, sorted) && forall i | 0 <= i < |sorted| :: sorted[i].name != x.name
    ensures SortedByRelative(dir, longer) && multiset(longer) == multiset(sorted) + multiset{x}
  {
    hide Relative, Before, SortedByRelative;
    var at := 0;
    while at < |sorted| && Before(Relative(dir, sorted[at].name), Relative(dir, x.name))
      invariant 0 <= at <= |sorted|
      invariant forall i | 0 <= i < at :: Before(Relative(dir, sorted[i].name), Relative(dir, x.name))
    {
      at := at + 1;
    }
    forall i | at <= i < |sorted| ensures Before(Relative(dir, x.name), Relative(dir, sorted[i].name)) {
      BehindInserted(dir, sorted, x, at, i);
    }
    InsertedIsSorted(dir, sorted, x, at);
    longer := sorted[..at] + [x] + sorted[at..];
    assert sorted == sorted[..at] + sorted[at..];
  }

  // sort.Slice on the items by their relative paths.
  method SortByRelative(dir: string, items: seq<Item>) returns (sorted: seq<Item>)
    requires DistinctNames(items)
    ensures multiset(sorted) == multiset(items) && SortedByRelative(dir, sorted)
  {
    hide Before, Relative;
    sorted := [];
    var k := 0;
    while k < |items|
      invariant 0 <= k <= |items|
      invariant multiset(sorted) == multiset(items[..k]) && SortedByRelative(dir, sorted)
    {
      forall i | 0 <= i < |sorted| ensures sorted[i].name != items[k].name {
        assert sorted[i] in multiset(items[..k]);
        assert sorted[i] in items[..k];
      }
      sorted := InsertByRelative(dir, sorted, items[k]);
      assert items[..k + 1] == items[..k] + [items[k]];
      k := k + 1;
    }
    assert items[..k] == items;
  }

  lemma {:induction false} BeforeIsTotal(a: string, b: string)
    requires a != b
    ensures Before(a, b) || Before(b, a)
  {
    if a != "" && b != "" && a[0] == b[0] {
      assert a == [a[0]] + a[1..] && b == [b[0]] + b[1..];
      BeforeIsTotal(a[1..], b[1..]);
    }
  }

  lemma {:induction false} BeforeIsTransitive(a: string, b: string, c: string)
    requires Before(a, b) && Before(b, c)
    ensures Before(a, c)
  {
    if a != "" && a[0] == b[0] == c[0] {
      BeforeIsTransitive(a[1..], b[1..], c[1..]);
    }
  }

  // ----- What a refused batch answers -----

  // Every item is a proper child name, none is there twice, and there are not too many.
  ghost predicate SelectionOk(items: seq<Item>) {
    && 1 <= |items| <= 100 && (forall i | 0 <= i < |items| :: ValidLeafName(items[i].name))
    && forall i, j | 0 <= i < j < |items| :: items[i].name != items[j].name
  }

  // The first item that is gone, or that is not what the listing showed, decides the answer.
  ghost predicate StaleAnswer(code: Code, t: Tree, from: Path, items: seq<Item>, version: Node -> string) {
    forall k | 0 <= k < |items| ::
      (forall j | 0 <= j < k :: from + [items[j].name] in t && version(t[from + [items[j].name]]) == items[j].version) ==>
        && (from + [items[k].name] !in t ==> code == NotFound)
        && (from + [items[k].name] in t && version(t[from + [items[k].name]]) != items[k].version ==> code == SourceChanged)
  }

  ghost predicate AllCurrent(t: Tree, from: Path, items: seq<Item>, version: Node -> string) {
    forall k | 0 <= k < |items| :: from + [items[k].name] in t && version(t[from + [items[k].name]]) == items[k].version
  }

  // Then the destination itself, and then the first item that cannot go there.
  ghost predicate DestinationAnswer(code: Code, t: Tree, from: Path, to: Path, items: seq<Item>) {
    && (to !in t ==> code == NotFound)
    && (to in t && t[to].File? ==> code == NotDirectory)
    && (to in t && t[to].Dir? && to == from ==> code == SameDirectory)
    && (to in t && t[to].Dir? && to != from ==>
          forall k | 0 <= k < |items| ::
            (forall j | 0 <= j < k :: to + [items[j].name] !in t && !IntoItsOwn(t, from, to, items[j])) ==>
              && (to + [items[k].name] in t ==> code == DestinationExists)
              && (to + [items[k].name] !in t && IntoItsOwn(t, from, to, items[k]) ==> code == SelfDescendant))
  }

  // Something stands in the way of the destination or of some item there.
  ghost predicate Obstructed(t: Tree, from: Path, to: Path, items: seq<Item>) {
    || to !in t || t[to].File? || to == from
    || exists k :: 0 <= k < |items| && (to + [items[k].name] in t || IntoItsOwn(t, from, to, items[k]))
  }

  // The item is a directory and the destination is that directory or lies below it.
  ghost predicate IntoItsOwn(t: Tree, from: Path, to: Path, item: Item) {
    IsDir(t, from + [item.name]) && |from| < |to| && to[..|from| + 1] == from + [item.name]
  }

  // An operation goes ahead only with a sound, current selection, and answers for the first obstacle otherwise.
  ghost predicate RightAnswer(code: Code, t: Tree, from: Path, to: Path, items: seq<Item>, version: Node -> string) {
    && (code in {Done, ExecutionPartial, DestinationBusy, IoError} ==> SelectionOk(items) && AllCurrent(t, from, items, version))
    && (|items| == 0 || |items| > 100 ==> code == InvalidSelection)
    && (SelectionOk(items) && !AllCurrent(t, from, items, version) ==> StaleAnswer(code, t, from, items, version))
    && (SelectionOk(items) && AllCurrent(t, from, items, version) && code !in {Done, ExecutionPartial, DestinationBusy, IoError} ==>
          DestinationAnswer(code, t, from, to, items) && Obstructed(t, from, to, items))
  }

  // The entry of one requested item, as ValidateSelection and revalidateSelection look at it.
  method CheckVersion(fs: FileSystem, dir: Path, item: Item, version: Node -> string) returns (code: Code)
    requires fs.Valid()
    ensures code == Done <==> Unchanged(fs.tree, dir, item, version)
    ensures code in {Done, NotFound, SourceChanged}
    ensures code == NotFound <==> dir + [item.name] !in fs.tree
    ensures code == SourceChanged <==> dir + [item.name] in fs.tree && version(fs.tree[dir + [item.name]]) != item.version
  {
    if dir + [item.name] !in fs.tree {
      return NotFound;
    }
    code := if version(fs.tree[dir + [item.name]]) == item.version then Done else SourceChanged;
  }

  lemma SortedByName(dir: string, items: seq<Item>)
    requires SortedByRelative(dir, items)
    ensures SortedNames(seq(|items|, i requires 0 <= i < |items| => items[i].name))
  {
    forall i, j | 0 <= i < j < |items| ensures Before(items[i].name, items[j].name) {
      RelativeOrderIsNameOrder(dir, items[i].name, items[j].name);
    }
  }

  lemma NothingSelected(t: Tree, dir: Path, items: seq<Item>, version: Node -> string)
    ensures Names(items[..0]) == {} && DistinctNames(items[..0]) && Current(t, dir, items[..0], version)
  {
  }

  // One more item of a selection that is checked from the front.
  lemma SelectionStep(t: Tree, dir: Path, items: seq<Item>, k: nat, version: Node -> string)
    requires k < |items|
    ensures Names(items[..k + 1]) == Names(items[..k]) + {items[k].name}
    ensures DistinctNames(items[..k + 1]) <==> DistinctNames(items[..k]) && items[k].name !in Names(items[..k])
    ensures Current(t, dir, items[..k + 1], version) <==>
              Current(t, dir, items[..k], version) && ValidLeafName(items[k].name) && Unchanged(t, dir, items[k], version)
    ensures DistinctNames(items) ==> DistinctNames(items[..k + 1])
    ensures Current(t, dir, items, version) ==> Current(t, dir, items[..k + 1], version)
  {
    hide ValidLeafName, Unchanged;
    var fewer, more := items[..k], items[..k + 1];
    assert forall i | 0 <= i < k :: fewer[i] == items[i] && more[i] == fewer[i];
    assert more[k] == items[k];
    forall n | n in Names(fewer) ensures n in Names(more) {
      var i :| 0 <= i < |fewer| && fewer[i].name == n;
      assert more[i].name == n;
    }
    forall n | n in Names(more) ensures n in Names(fewer) + {items[k].name} {
      var i :| 0 <= i < |more| && more[i].name == n;
      if i < k { assert fewer[i].name == n; }
    }
  }

  // ValidateSelection: `listed` is the listing token, name to version.
  method ValidateSelection(fs: FileSystem, dir: Path, listed: map<string, string>, requested: seq<Item>, version: Node -> string)
    returns (code: Code, items: seq<Item>)
    requires fs.Valid()
    ensures code == Done <==>
              && 1 <= |requested| <= MAX_SELECTED && IsDir(fs.tree, dir) && DistinctNames(requested)
              && Current(fs.tree, dir, requested, version)
              && forall i | 0 <= i < |requested| :: requested[i].name in listed && listed[requested[i].name] == requested[i].version
    ensures code == Done ==> SelectionOk(requested) && AllCurrent(fs.tree, dir, requested, version)
    ensures |requested| == 0 ==> code == InvalidSelection
    ensures |requested| > 100 ==> code == BatchLimitExceeded
    ensures 1 <= |requested| <= 100 && dir !in fs.tree ==> code == NotFound
    ensures 1 <= |requested| <= 100 && dir in fs.tree && fs.tree[dir].File? ==> code == NotDirectory
    ensures SelectionOk(requested) && IsDir(fs.tree, dir)
            && (forall i | 0 <= i < |requested| :: requested[i].name in listed && listed[requested[i].name] == requested[i].version) ==>
              StaleAnswer(code, fs.tree, dir, requested, version)
    ensures code == Done ==> multiset(items) == multiset(requested)
    ensures code == Done ==> SortedNames(seq(|items|, i requires 0 <= i < |items| => items[i].name))
  {
    hide ValidLeafName, Before, Relative, Join, Unchanged, SortedNames, Names, DistinctNames, Current, SelectionOk, StaleAnswer, AllCurrent,
      WellFormed;
    NothingSelected(fs.tree, dir, requested, version);
    NoneStale(fs.tree, dir, requested, version);
    items := [];
    if |requested| == 0 || |requested| > MAX_SELECTED {
      TooFewOrMany(requested);
    }
    if |requested| == 0 {
      return InvalidSelection, [];
    }
    if |requested| > MAX_SELECTED {
      return BatchLimitExceeded, [];
    }
    if dir !in fs.tree {
      return NotFound, [];
    }
    if !fs.tree[dir].Dir? {
      return NotDirectory, [];
    }
    var seen: set<string> := {};
    var k := 0;
    while k < |requested|
      invariant 0 <= k <= |requested| && seen == Names(requested[..k])
      invariant DistinctNames(requested[..k]) && Current(fs.tree, dir, requested[..k], version)
      invariant AllCurrent(fs.tree, dir, requested[..k], version)
      invariant forall i | 0 <= i < k :: requested[i].name in listed && listed[requested[i].name] == requested[i].version
    {
      var item := requested[k];
      SelectionStep(fs.tree, dir, requested, k, version);
      if !ValidLeafName(item.name) || item.name in seen {
        UnsoundSelection(requested, k);
        code := InvalidSelection;
        return;
      }
      seen := seen + {item.name};
      if item.name !in listed || listed[item.name] != item.version {
        return SourceChanged, [];
      }
      code := CheckVersion(fs, dir, item, version);
      if code != Done {
        FirstStale(code, fs.tree, dir, requested, k, version);
        return;
      }
      OneMoreCurrent(fs.tree, dir, requested, k, version);
      k := k + 1;
    }
    assert requested[..k] == requested;
    SelectionIsOk(fs.tree, dir, requested, version);
    items := SortByRelative(Join(dir), requested);
    SortedByName(Join(dir), items);
    code := Done;
  }

  lemma NoneStale(t: Tree, from: Path, items: seq<Item>, version: Node -> string)
    ensures AllCurrent(t, from, items[..0], version)
  {
  }

  lemma SoundIsAccepted(t: Tree, from: Path, items: seq<Item>, version: Node -> string)
    ensures SelectionOk(items) && AllCurrent(t, from, items, version) ==>
              1 <= |items| <= MAX_SELECTED && DistinctNames(items) && Current(t, from, items, version)
  {
    hide ValidLeafName;
  }

  lemma TooFewOrMany(items: seq<Item>)
    requires |items| == 0 || |items| > MAX_SELECTED
    ensures !SelectionOk(items)
  {
    hide ValidLeafName;
  }

  lemma UnsoundSelection(items: seq<Item>, k: nat)
    requires k < |items| && (!ValidLeafName(items[k].name) || items[k].name in Names(items[..k]))
    ensures !SelectionOk(items)
  {
    hide ValidLeafName;
    if items[k].name in Names(items[..k]) {
      var j :| 0 <= j < |items[..k]| && items[..k][j].name == items[k].name;
      assert items[j].name == items[k].name;
    }
  }

  lemma FirstStale(code: Code, t: Tree, from: Path, items: seq<Item>, k: nat, version: Node -> string)
    requires k < |items| && AllCurrent(t, from, items[..k], version)
    requires code == NotFound <==> from + [items[k].name] !in t
    requires code == SourceChanged <==> from + [items[k].name] in t && version(t[from + [items[k].name]]) != items[k].version
    requires code in {NotFound, SourceChanged}
    ensures StaleAnswer(code, t, from, items, version)
  {
    assert forall j | 0 <= j < k :: items[..k][j] == items[j];
  }

  lemma OneMoreCurrent(t: Tree, from: Path, items: seq<Item>, k: nat, version: Node -> string)
    requires k < |items| && AllCurrent(t, from, items[..k], version)
    requires from + [items[k].name] in t && version(t[from + [items[k].name]]) == items[k].version
    ensures AllCurrent(t, from, items[..k + 1], version)
  {
    assert forall j | 0 <= j < k :: items[..k + 1][j] == items[..k][j];
  }

  lemma SelectionIsOk(t: Tree, from: Path, items: seq<Item>, version: Node -> string)
    requires 1 <= |items| <= MAX_SELECTED && DistinctNames(items) && Current(t, from, items, version)
    requires AllCurrent(t, from, items, version)
    ensures SelectionOk(items) && forall code :: StaleAnswer(code, t, from, items, version)
  {
    hide ValidLeafName, Unchanged;
  }

  method RevalidateSelection(fs: FileSystem, from: Path, items: seq<Item>, version: Node -> string) returns (code: Code)
    requires fs.Valid()
    ensures code == Done <==> 1 <= |items| <= MAX_SELECTED && DistinctNames(items) && Current(fs.tree, from, items, version)
    ensures code == Done ==> SelectionOk(items) && AllCurrent(fs.tree, from, items, version)
    ensures SelectionOk(items) ==> StaleAnswer(code, fs.tree, from, items, version)
    ensures SelectionOk(items) && AllCurrent(fs.tree, from, items, version) ==> code == Done
    ensures |items| == 0 || |items| > 100 ==> code == InvalidSelection
    ensures code in {Done, InvalidSelection, NotFound, SourceChanged}
  {
    hide ValidLeafName, Unchanged, Names, DistinctNames, Current, SelectionOk, StaleAnswer, AllCurrent,
      WellFormed;
    NothingSelected(fs.tree, from, items, version);
    if |items| == 0 || |items| > MAX_SELECTED {
      TooFewOrMany(items);
      return InvalidSelection;
    }
    NoneStale(fs.tree, from, items, version);
    SoundIsAccepted(fs.tree, from, items, version);
    var seen: set<string> := {};
    var k := 0;
    while k < |items|
      invariant 0 <= k <= |items| && seen == Names(items[..k])
      invariant DistinctNames(items[..k]) && Current(fs.tree, from, items[..k], version)
      invariant AllCurrent(fs.tree, from, items[..k], version)
    {
      var item := items[k];
      SelectionStep(fs.tree, from, items, k, version);
      if !ValidLeafName(item.name) || item.name in seen {
        UnsoundSelection(items, k);
        return InvalidSelection;
      }
      seen := seen + {item.name};
      code := CheckVersion(fs, from, item, version);
      if code != Done {
        FirstStale(code, fs.tree, from, items, k, version);
        return;
      }
      OneMoreCurrent(fs.tree, from, items, k, version);
      k := k + 1;
    }
    assert items[..k] == items;
    SelectionIsOk(fs.tree, from, items, version);
    code := Done;
  }

  // destinationFor
  method DestinationFor(fs: FileSystem, from: Path, to: Path, item: Item) returns (code: Code)
    requires fs.Valid() && from + [item.name] in fs.tree
    ensures code == Done <==> IsDir(fs.tree, to) && from != to && DestinationFree(fs.tree, from, to, item)
    ensures code in {Done, NotFound, NotDirectory, SameDirectory, DestinationExists, SelfDescendant}
    ensures code == NotFound <==> to !in fs.tree
    ensures code == NotDirectory <==> to in fs.tree && fs.tree[to].File?
    ensures code == SameDirectory <==> IsDir(fs.tree, to) && to == from
    ensures code == DestinationExists <==> IsDir(fs.tree, to) && to != from && to + [item.name] in fs.tree
    ensures code == SelfDescendant <==>
              IsDir(fs.tree, to) && to != from && to + [item.name] !in fs.tree && IntoItsOwn(fs.tree, from, to, item)
  {
    if to !in fs.tree {
      return NotFound;
    }
    if !fs.tree[to].Dir? {
      return NotDirectory;
    }
    if to == from {
      return SameDirectory;
    }
    if to + [item.name] in fs.tree {
      return DestinationExists;
    }
    if fs.tree[from + [item.name]].Dir? && Under(from + [item.name], to) {
      return SelfDescendant;
    }
    code := Done;
  }

  lemma FirstObstacle(code: Code, t: Tree, from: Path, to: Path, items: seq<Item>, k: nat)
    requires k < |items|
    requires forall i | 0 <= i < k :: to + [items[i].name] !in t && !IntoItsOwn(t, from, to, items[i])
    requires code == NotFound <==> to !in t
    requires code == NotDirectory <==> to in t && t[to].File?
    requires code == SameDirectory <==> IsDir(t, to) && to == from
    requires code == DestinationExists <==> IsDir(t, to) && to != from && to + [items[k].name] in t
    requires code == SelfDescendant <==> IsDir(t, to) && to != from && to + [items[k].name] !in t && IntoItsOwn(t, from, to, items[k])
    requires code in {NotFound, NotDirectory, SameDirectory, DestinationExists, SelfDescendant}
    ensures DestinationAnswer(code, t, from, to, items) && Obstructed(t, from, to, items)
  {
    hide IntoItsOwn;
  }

  lemma NoObstacle(code: Code, t: Tree, from: Path, to: Path, items: seq<Item>)
    requires IsDir(t, to) && from != to
    requires forall i | 0 <= i < |items| :: to + [items[i].name] !in t && !IntoItsOwn(t, from, to, items[i])
    ensures DestinationAnswer(code, t, from, to, items)
  {
    hide IntoItsOwn;
  }

  method ValidateDestination(fs: FileSystem, from: Path, to: Path, items: seq<Item>) returns (code: Code)
    requires fs.Valid() && |items| > 0 && forall i | 0 <= i < |items| :: from + [items[i].name] in fs.tree
    ensures code == Done <==> DestinationsFree(fs.tree, from, to, items)
    ensures DestinationAnswer(code, fs.tree, from, to, items)
    ensures code != Done ==> Obstructed(fs.tree, from, to, items)
    ensures code in {Done, NotFound, NotDirectory, SameDirectory, DestinationExists, SelfDescendant}
  {
    hide DestinationFree, WellFormed, IsDir, IntoItsOwn, DestinationAnswer, Obstructed;
    var k := 0;
    while k < |items|
      invariant 0 <= k <= |items|
      invariant k > 0 ==> IsDir(fs.tree, to) && from != to
      invariant forall i | 0 <= i < k :: DestinationFree(fs.tree, from, to, items[i])
      invariant forall i | 0 <= i < k :: to + [items[i].name] !in fs.tree && !IntoItsOwn(fs.tree, from, to, items[i])
    {
      code := DestinationFor(fs, from, to, items[k]);
      if code != Done {
        FirstObstacle(code, fs.tree, from, to, items, k);
        return;
      }
      k := k + 1;
    }
    NoObstacle(Done, fs.tree, from, to, items);
    code := Done;
  }

  // Every check is made before anything changes.
  method Preflight(fs: FileSystem, from: Path, to: Path, items: seq<Item>, version: Node -> string) returns (code: Code)
    requires fs.Valid()
    ensures code == Done <==> PreflightOk(fs.tree, from, to, items, version)
    ensures code !in {ExecutionPartial, DestinationBusy, IoError}
    ensures RightAnswer(code, fs.tree, from, to, items, version)
  {
    hide StaleAnswer, AllCurrent, DestinationAnswer, SelectionOk, Obstructed;
    code := RevalidateSelection(fs, from, items, version);
    if code == Done {
      code := ValidateDestination(fs, from, to, items);
    }
  }

  lemma CurrentOrRefused(code: Code, t: Tree, from: Path, to: Path, items: seq<Item>, version: Node -> string)
    requires RightAnswer(code, t, from, to, items, version)
    ensures code == Done ==> forall other | other in {ExecutionPartial, DestinationBusy, IoError} ::
              RightAnswer(other, t, from, to, items, version)
    ensures forall k | 0 <= k < |items| ::
              (from + [items[k].name] !in t || version(t[from + [items[k].name]]) != items[k].version) ==> code != Done
  {
    hide StaleAnswer, DestinationAnswer, SelectionOk, Obstructed;
    if code == Done { assert |items| > 0 && |items| <= 100 by { SelectionBounds(items); } }
  }

  lemma SelectionBounds(items: seq<Item>)
    requires SelectionOk(items)
    ensures 1 <= |items| <= 100
  {
    hide ValidLeafName;
  }

  // ----- Batch move -----

  // The reverse renames after the rename of item `i` failed. `left` names what they did not bring back.
  method MoveBack(fs: FileSystem, from: Path, to: Path, items: seq<Item>, i: nat, undo: bool, ghost t: Tree)
    returns (ghost left: set<string>)
    requires fs.Valid() && i <= |items| && DistinctNames(items)
    requires Ready(t, from, to, Names(items[..i])) && Moved(t, fs.tree, from, to, Names(items[..i]))
    modifies fs
    ensures fs.Valid() && left <= Names(items[..i]) && Moved(t, fs.tree, from, to, left)
    ensures undo ==> left == {} && fs.tree == t
  {
    hide Renamed, CanRename, WellFormed, Ready, Moved, DistinctNames, Names;
    left := Names(items[..i]);
    NoNames(items);
    var j := i;
    while j > 0
      invariant 0 <= j <= i && fs.Valid() && Names(items[..j]) <= left <= Names(items[..i])
      invariant Moved(t, fs.tree, from, to, left)
      invariant undo ==> left == Names(items[..j])
    {
      j := j - 1;
      NamesGrow(items, j);
      ReadyForFewer(t, from, to, Names(items[..i]), left);
      MoveOneBack(t, fs.tree, from, to, left, items[j].name);
      var back := fs.Rename(to + [items[j].name], from + [items[j].name], !undo);
      if back {
        left := left - {items[j].name};
      }
    }
    if undo { NothingLeftMoved(t, fs.tree, from, to); }
  }

  method BatchMove(fs: FileSystem, from: Path, to: Path, items: seq<Item>, version: Node -> string, faults: bool, undo: bool)
    returns (code: Code)
    requires fs.Valid()
    modifies fs
    ensures fs.Valid()
    ensures code == Done ==> Moved(old(fs.tree), fs.tree, from, to, Names(items))
    ensures code in {Done, ExecutionPartial} ==> PreflightOk(old(fs.tree), from, to, items, version)
    ensures RightAnswer(code, old(fs.tree), from, to, items, version) && code !in {DestinationBusy, IoError}
    // Nothing moves if any of the items is gone or is not what the listing showed.
    ensures forall k | 0 <= k < |items| ::
              (from + [items[k].name] !in old(fs.tree) || version(old(fs.tree)[from + [items[k].name]]) != items[k].version) ==>
                code !in {Done, ExecutionPartial} && fs.tree == old(fs.tree)
    // Even if reverse renames fail, each item is whole at its old or its new place.
    ensures code == ExecutionPartial ==> PartlyMoved(old(fs.tree), fs.tree, from, to, Names(items))
    ensures code != Done && (undo || code != ExecutionPartial) ==> fs.tree == old(fs.tree)
    ensures !faults && PreflightOk(old(fs.tree), from, to, items, version) ==> code == Done
  {
    hide RightAnswer, PreflightOk, MovedLookup, Moved, PartlyMoved, Names, Ready, DistinctNames, Renamed, RenamedLookup, CanRename;
    code := Preflight(fs, from, to, items, version);
    CurrentOrRefused(code, fs.tree, from, to, items, version);
    if code != Done {
      return;
    }
    ghost var t := fs.tree;
    PreflightIsReady(t, from, to, items, version);
    NothingMovedYet(t, from, to);
    PreflightDistinct(t, from, to, items, version);
    NoNames(items);
    var i := 0;
    while i < |items|
      invariant 0 <= i <= |items| && fs.Valid()
      invariant Moved(t, fs.tree, from, to, Names(items[..i]))
    {
      NextName(t, from, to, items, i);
      MoveOne(t, fs.tree, from, to, Names(items[..i]), items[i].name);
      var ok := fs.Rename(from + [items[i].name], to + [items[i].name], faults);
      if !ok {
        NamesGrow(items, i);
        ReadyForFewer(t, from, to, Names(items), Names(items[..i]));
        ghost var left := MoveBack(fs, from, to, items, i, undo, t);
        MovedInPart(t, fs.tree, from, to, left, Names(items));
        return ExecutionPartial;
      }
      i := i + 1;
    }
    assert items[..i] == items;
  }

  // Some of the entries in `names`, but not all of them, have gone from `from` to `to`.
  ghost predicate PartlyMoved(t: Tree, u: Tree, from: Path, to: Path, names: set<string>) {
    exists left | left < names :: Moved(t, u, from, to, left)
  }

  lemma MovedInPart(t: Tree, u: Tree, from: Path, to: Path, left: set<string>, names: set<string>)
    requires Moved(t, u, from, to, left) && left < names
    ensures PartlyMoved(t, u, from, to, names)
  {
  }

  lemma NothingLeftMoved(t: Tree, u: Tree, from: Path, to: Path)
    requires Moved(t, u, from, to, {})
    ensures u == t
  {
    SameTreeIsEqual(u, t);
  }

  // One of the entries that have gone renamed back, whichever of the others are back already.
  lemma MoveOneBack(t: Tree, u: Tree, from: Path, to: Path, left: set<string>, n: string)
    requires Ready(t, from, to, left) && n in left && Moved(t, u, from, to, left)
    ensures CanRename(u, to + [n], from + [n])
    ensures Moved(t, Renamed(u, to + [n], from + [n]), from, to, left - {n})
  {
    hide Ready, Moved, MovedLookup, WellFormed, Renamed, RenamedLookup;
    MovedBackFits(t, u, from, to, left, n);
    RenamedIs(u, to + [n], from + [n]);
    var v := Renamed(u, to + [n], from + [n]);
    forall p ensures Lookup(v, p) == MovedLookup(t, from, to, left - {n}, p) {
      MoveOneBackAt(t, u, from, to, left, n, p);
    }
    IsMoved(t, v, from, to, left - {n});
  }

  lemma IsMoved(t: Tree, u: Tree, from: Path, to: Path, names: set<string>)
    requires forall p :: Lookup(u, p) == MovedLookup(t, from, to, names, p)
    ensures Moved(t, u, from, to, names)
  {
  }

  lemma MovedBackFits(t: Tree, u: Tree, from: Path, to: Path, left: set<string>, n: string)
    requires Ready(t, from, to, left) && n in left && Moved(t, u, from, to, left)
    ensures CanRename(u, to + [n], from + [n])
  {
    hide Ready, Moved, MovedLookup, WellFormed, Under;
    var src, dst := to + [n], from + [n];
    SelectedIsApart(t, from, to, left, n);
    RootsStay(t, from, to, left);
    MovedAt(t, u, from, to, left, from);
    MovedAt(t, u, from, to, left, src);
    MovedAt(t, u, from, to, left, dst);
    PlacesAfterMove(t, from, to, left, n);
    assert Parent(dst) == from;
  }

  lemma SelectedIsApart(t: Tree, from: Path, to: Path, names: set<string>, n: string)
    requires Ready(t, from, to, names) && n in names
    ensures Disjoint(from + [n], to + [n]) && from + [n] in t && IsDir(t, from)
  {
    ItemAndTargetDisjoint(t, from, to, n, n);
  }

  lemma PlacesAfterMove(t: Tree, from: Path, to: Path, left: set<string>, n: string)
    requires Ready(t, from, to, left) && n in left
    ensures MovedLookup(t, from, to, left, to + [n]) == Lookup(t, from + [n])
    ensures MovedLookup(t, from, to, left, from + [n]) == None
  {
    hide Ready;
    var src, dst := to + [n], from + [n];
    assert left - {n} + {n} == left;
    ChildUnder(to, n, src);
    ChildUnder(from, n, dst);
    ChildUnder(to, n, dst);
    SelectedIsApart(t, from, to, left, n);
    assert Under(src, src) && Under(dst, dst);
    assert from + src[|to|..] == dst;
    TargetsMissItem(t, from, to, left - {n}, n, dst);
  }

  lemma MoveOneBackAt(t: Tree, u: Tree, from: Path, to: Path, left: set<string>, n: string, p: Path)
    requires Ready(t, from, to, left) && n in left && Moved(t, u, from, to, left)
    ensures RenamedLookup(u, to + [n], from + [n], p) == MovedLookup(t, from, to, left - {n}, p)
  {
    hide Ready, Moved, WellFormed;
    var src, dst := to + [n], from + [n];
    assert left - {n} + {n} == left;
    ChildUnder(from, n, p);
    ChildUnder(to, n, p);
    MovedAt(t, u, from, to, left, p);
    if Under(dst, p) {
      var q := Rebase(p, dst, src);
      RebaseBack(p, dst, src);
      ChildUnder(to, n, q);
      MovedAt(t, u, from, to, left, q);
      assert from + q[|to|..] == p;
      TargetsMissItem(t, from, to, left - {n}, n, p);
    } else if Under(src, p) {
      TargetIsFree(t, from, to, left, n, p);
    }
  }

  lemma TargetIsFree(t: Tree, from: Path, to: Path, names: set<string>, n: string, p: Path)
    requires Ready(t, from, to, names) && n in names && Under(to + [n], p)
    ensures Lookup(t, p) == None
  {
    NothingBelowAbsent(t, to + [n]);
  }

  lemma NoNames(items: seq<Item>)
    ensures Names(items[..0]) == {}
  {
  }

  lemma NothingMovedYet(t: Tree, from: Path, to: Path)
    ensures Moved(t, t, from, to, {})
  {
  }

  lemma PreflightDistinct(t: Tree, from: Path, to: Path, items: seq<Item>, version: Node -> string)
    requires PreflightOk(t, from, to, items, version)
    ensures DistinctNames(items)
  {
  }

  lemma NamesGrow(items: seq<Item>, i: nat)
    requires DistinctNames(items) && i < |items|
    ensures items[i].name !in Names(items[..i]) && Names(items[..i + 1]) == Names(items[..i]) + {items[i].name}
    ensures Names(items[..i]) + {items[i].name} <= Names(items)
  {
    var fewer, more := items[..i], items[..i + 1];
    assert forall k | 0 <= k < i :: fewer[k] == items[k] && more[k] == items[k];
    assert more[i] == items[i];
    forall n | n in Names(fewer) ensures n in Names(more) && n in Names(items) && n != items[i].name {
      var k :| 0 <= k < |fewer| && fewer[k].name == n;
      assert more[k].name == n && items[k].name == n;
    }
    assert items[i].name in Names(items) && more[i].name in Names(more);
    forall n | n in Names(more) ensures n in Names(fewer) + {items[i].name} {
      var k :| 0 <= k < |more| && more[k].name == n;
      if k < i { assert fewer[k].name == n; }
    }
  }

  lemma ReadyForFewer(t: Tree, from: Path, to: Path, names: set<string>, fewer: set<string>)
    requires Ready(t, from, to, names) && fewer <= names
    ensures Ready(t, from, to, fewer)
  {
    hide WellFormed;
  }

  lemma NextName(t: Tree, from: Path, to: Path, items: seq<Item>, i: nat)
    requires Ready(t, from, to, Names(items)) && DistinctNames(items) && i < |items|
    ensures items[i].name !in Names(items[..i]) && Names(items[..i + 1]) == Names(items[..i]) + {items[i].name}
    ensures Ready(t, from, to, Names(items[..i]) + {items[i].name})
  {
    hide Ready, Names, DistinctNames;
    NamesGrow(items, i);
    ReadyForFewer(t, from, to, Names(items), Names(items[..i]) + {items[i].name});
  }

  lemma EntryKept(t: Tree, u: Tree, from: Path, to: Path, names: set<string>, p: Path)
    requires Ready(t, from, to, names) && Moved(t, u, from, to, names) && p in t
    ensures Lookup(u, if IsChildOf(from, p) && p[|from|] in names then to + p[|from|..] else p) == Some(t[p])
  {
    hide Moved;
    if IsChildOf(from, p) && p[|from|] in names {
      var q := to + p[|from|..];
      assert q[..|to|] == to && q[|to|] == p[|from|] && q[|to|..] == p[|from|..];
      assert from + p[|from|..] == p;
      MovedAt(t, u, from, to, names, q);
    } else {
      MovedAt(t, u, from, to, names, p);
      if IsChildOf(to, p) && p[|to|] in names {
        ChildUnder(to, p[|to|], p);
        NothingBelowAbsent(t, to + [p[|to|]]);
      }
    }
  }

  lemma MovedAt(t: Tree, u: Tree, from: Path, to: Path, names: set<string>, p: Path)
    requires Moved(t, u, from, to, names)
    ensures Lookup(u, p) == MovedLookup(t, from, to, names, p)
  {
  }

  // A finished move keeps every entry, at its old place or at the matching place below `to`, and
  // shows nothing that was not there.
  lemma MoveConservesEntries(t: Tree, u: Tree, from: Path, to: Path, names: set<string>)
    requires Ready(t, from, to, names) && Moved(t, u, from, to, names)
    ensures forall p | p in t ::
              Lookup(u, if IsChildOf(from, p) && p[|from|] in names then to + p[|from|..] else p) == Some(t[p])
    ensures forall q | q in u ::
              Lookup(t, if IsChildOf(to, q) && q[|to|] in names then from + q[|to|..] else q) == Some(u[q])
  {
    hide Moved, Ready;
    forall p | p in t
      ensures Lookup(u, if IsChildOf(from, p) && p[|from|] in names then to + p[|from|..] else p) == Some(t[p])
    {
      EntryKept(t, u, from, to, names, p);
    }
    forall q | q in u
      ensures Lookup(t, if IsChildOf(to, q) && q[|to|] in names then from + q[|to|..] else q) == Some(u[q])
    {
      MovedAt(t, u, from, to, names, q);
    }
  }
}
