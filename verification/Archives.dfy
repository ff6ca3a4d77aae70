// Archive extraction: every entry goes to a private stage first, then the top-level names are
// promoted (utils/archive.go, extractZip and what it calls).
module Archives {
  import opened Paths
  import opened FileTree
  import Batch = BatchOperations

  const MAX_ENTRIES := 10000
  const MAX_BYTES := 0x8000_0000

  datatype Code = Done | InvalidPath | UnsupportedType | LimitExceeded | DestinationExists | IoError

  datatype Kind = Directory | Regular | Unsupported

  // `size` is what the header announces, `bytes` what the entry holds.
  datatype Entry = Entry(name: string, kind: Kind, size: nat, bytes: seq<int>)

  // ----- Names -----

  // archiveDestination: the path below the base, or None for a name that is refused.
  function ArchivePath(name: string): Option<seq<string>> {
    var slashed := Slashed(name);
    if slashed == "" || slashed[0] == '/' then None
    else
      var cleanName := Clean(slashed);
      if cleanName == "." || cleanName == ".." || "../" <= cleanName then None
      else
        var parts := Split(cleanName);
        if exists i | 0 <= i < |parts| :: !ValidLeafName(parts[i]) then None else Some(parts)
  }

  function TopLevelName(name: string): Option<string> {
    var cleanName := Clean(Slashed(name));
    if cleanName == "." || cleanName == ".." || "../" <= cleanName || "/" <= cleanName then None
    else
      var top := Split(cleanName)[0];
      if ValidLeafName(top) then Some(top) else None
  }

  // An accepted name is its dot-segment reduction: at least one segment, none of them empty, "." or
  // "..", so the target lies strictly below the base; and both functions agree on the first one.
  lemma AcceptedNames(name: string)
    requires ArchivePath(name).Some?
    ensures var parts := ArchivePath(name).value;
            && parts == Reduce(Split(Slashed(name))) && parts != []
            && (forall i | 0 <= i < |parts| :: ValidLeafName(parts[i]) && parts[i] in Split(Slashed(name)))
            && TopLevelName(name) == Some(parts[0])
  {
    var segments := Split(Slashed(name));
    var reduced := Reduce(segments);
    ReduceIsReduced(segments);
    assert forall i | 0 <= i < |reduced| :: reduced[i] in reduced && reduced[i] in segments;
    SplitJoin(reduced);
    var parts := ArchivePath(name).value;
    assert parts == reduced;
    assert ValidLeafName(parts[0]);
    if "/" <= Clean(Slashed(name)) {
      StartsWithSlash(Clean(Slashed(name)));
    }
  }

  // And nothing else is refused: a relative name whose reduction is not empty and has valid segments only.
  lemma AcceptedNamesExactly(name: string)
    ensures var reduced := Reduce(Split(Slashed(name)));
            ArchivePath(name).Some? <==>
              && name != "" && name[0] !in "/\\" && reduced != []
              && forall i | 0 <= i < |reduced| :: ValidLeafName(reduced[i])
  {
    var segments := Split(Slashed(name));
    var reduced := Reduce(segments);
    ReduceIsReduced(segments);
    assert forall i | 0 <= i < |reduced| :: reduced[i] in reduced && reduced[i] in segments;
    if ArchivePath(name).Some? {
      AcceptedNames(name);
    } else if reduced != [] && forall i | 0 <= i < |reduced| :: ValidLeafName(reduced[i]) {
      assert forall i | 0 <= i < |reduced| :: SlashFree(reduced[i]);
      SplitJoin(reduced);
      UpOutside(Join(reduced));
      SplitSlashFree(".");
      SplitSlashFree("..");
    }
  }

  lemma UpOutside(s: string)
    ensures "../" <= s ==> Split(s)[0] == ".."
  {
    if "../" <= s {
      SplitPrefix("..", s[3..]);
      assert s == ".." + "/" + s[3..];
    }
  }

  lemma StartsWithSlash(s: string)
    requires "/" <= s
    ensures Split(s)[0] == ""
  {
  }

  // ----- What an archive says -----

  predicate NonEmptyPrefix(rel: Path, path: Path) { rel != [] && Under(rel, path) }

  // What one entry puts at `rel`: itself, or a directory on the way to itself.
  function NodeOf(e: Entry, rel: Path): Option<Node> {
    var path := ArchivePath(e.name);
    if path.None? || !NonEmptyPrefix(rel, path.value) then None
    else if rel == path.value && e.kind.Regular? then Some(File(e.bytes))
    else Some(Dir)
  }

  function EntryAt(entries: seq<Entry>, rel: Path): Option<Node> {
    if entries == [] then None
    else
      var before := EntryAt(entries[..|entries| - 1], rel);
      var last := NodeOf(entries[|entries| - 1], rel);
      if before.Some? then before else last
  }

  // Two entries that cannot both be extracted: a file, and something at or below its name.
  predicate Clash(e: Entry, f: Entry) {
    && ArchivePath(e.name).Some? && ArchivePath(f.name).Some? && e.kind.Regular?
    && Under(ArchivePath(e.name).value, ArchivePath(f.name).value)
  }

  predicate Clashes(e: Entry, f: Entry) { Clash(e, f) || Clash(f, e) }

  predicate ClashFree(entries: seq<Entry>) {
    forall i, j | 0 <= i < j < |entries| :: !Clashes(entries[i], entries[j])
  }

  predicate PutsFile(e: Entry, rel: Path, bytes: seq<int>) {
    e.kind.Regular? && ArchivePath(e.name) == Some(rel) && rel != [] && e.bytes == bytes
  }

  // The entry is at `rel` or below it.
  predicate Touches(e: Entry, rel: Path) {
    ArchivePath(e.name).Some? && NonEmptyPrefix(rel, ArchivePath(e.name).value)
  }

  lemma NodeOfIs(e: Entry, rel: Path, bytes: seq<int>)
    ensures NodeOf(e, rel).Some? <==> Touches(e, rel)
    ensures NodeOf(e, rel) == Some(File(bytes)) <==> PutsFile(e, rel, bytes)
  {
    hide ArchivePath;
  }

  // A file cannot come after something at or below its name.
  lemma NoLateFile(init: seq<Entry>, last: Entry, rel: Path, e: Entry, bytes: seq<int>)
    requires ClashFree(init + [last]) && e in init && Touches(e, rel)
    ensures !PutsFile(last, rel, bytes)
  {
    hide ArchivePath;
    var i :| 0 <= i < |init| && init[i] == e;
    var all := init + [last];
    assert all[i] == e && all[|init|] == last;
    assert !Clashes(e, last);
  }

  lemma ClashFreeInit(init: seq<Entry>, last: Entry)
    requires ClashFree(init + [last])
    ensures ClashFree(init)
  {
    hide Clashes;
    var all := init + [last];
    assert forall i | 0 <= i < |init| :: all[i] == init[i];
  }

  // The archive's own reading, without reference to order: a file is exactly a file entry, a
  // directory is exactly a directory entry or a proper ancestor of some entry.
  lemma {:induction false} EntryAtIsExact(entries: seq<Entry>, rel: Path)
    requires ClashFree(entries)
    ensures forall b :: EntryAt(entries, rel) == Some(File(b)) <==> exists e :: e in entries && PutsFile(e, rel, b)
    ensures EntryAt(entries, rel).Some? <==> exists e :: e in entries && Touches(e, rel)
  {
    hide NodeOf, PutsFile, Touches, ClashFree;
    if entries != [] {
      var init, last := entries[..|entries| - 1], entries[|entries| - 1];
      assert entries == init + [last];
      ClashFreeInit(init, last);
      EntryAtIsExact(init, rel);
      NodeOfIs(last, rel, []);
      assert forall e :: e in entries <==> e in init || e == last;
      forall b ensures EntryAt(entries, rel) == Some(File(b)) <==> exists e :: e in entries && PutsFile(e, rel, b) {
        NodeOfIs(last, rel, b);
        if EntryAt(init, rel).Some? {
          var e :| e in init && Touches(e, rel);
          NoLateFile(init, last, rel, e, b);
        }
      }
    }
  }

  // ----- Staging -----

  // The stage holds exactly what the entries so far say; outside it nothing has changed.
  ghost predicate Filled(t: Tree, u: Tree, stage: Path, entries: seq<Entry>) {
    forall p :: Lookup(u, p) ==
      if !Under(stage, p) then Lookup(t, p)
      else if p == stage then Some(Dir)
      else EntryAt(entries, p[|stage|..])
  }

  // os.MkdirAll below an existing directory.
  ghost predicate DirsMade(t: Tree, u: Tree, base: Path, rel: Path) {
    forall p :: Lookup(u, p) ==
      if Under(base, p) && NonEmptyPrefix(p[|base|..], rel) then Some(Dir) else Lookup(t, p)
  }

  predicate FileAt(t: Tree, p: Path) { p in t && t[p].File? }

  predicate FileOnTheWay(t: Tree, base: Path, rel: Path) {
    exists q :: q in t && FileAt(t, q) && Under(base, q) && NonEmptyPrefix(q[|base|..], rel)
  }

  method MkdirAll(fs: FileSystem, base: Path, rel: Path, faults: bool) returns (ok: bool)
    requires fs.Valid() && IsDir(fs.tree, base)
    modifies fs
    ensures fs.Valid() && SameOutside(old(fs.tree), fs.tree, base)
    ensures ok ==> DirsMade(old(fs.tree), fs.tree, base, rel) && !FileOnTheWay(old(fs.tree), base, rel)
    ensures !faults && !FileOnTheWay(old(fs.tree), base, rel) ==> ok
  {
    hide WellFormed;
    ghost var t := fs.tree;
    var k := 0;
    assert base + rel[..0] == base;
    while k < |rel|
      invariant 0 <= k <= |rel| && fs.Valid()
      invariant DirsMade(t, fs.tree, base, rel[..k]) && SameOutside(t, fs.tree, base)
      invariant IsDir(fs.tree, base + rel[..k])
      invariant !FileOnTheWay(t, base, rel[..k])
    {
      var p := base + rel[..k + 1];
      ghost var u := fs.tree;
      NextDir(t, u, base, rel, k);
      if p in fs.tree {
        if fs.tree[p].File? {
          return false;
        }
      } else {
        ok := fs.Mkdir(p, faults);
        if !ok {
          return;
        }
      }
      DirMade(t, u, fs.tree, base, rel, k);
      k := k + 1;
    }
    assert rel[..k] == rel;
    ok := true;
  }

  lemma NextDir(t: Tree, u: Tree, base: Path, rel: Path, k: nat)
    requires k < |rel| && DirsMade(t, u, base, rel[..k])
    ensures var p := base + rel[..k + 1];
            && Parent(p) == base + rel[..k] && Under(base, p) && p != []
            && Lookup(u, p) == Lookup(t, p)
    ensures FileAt(t, base + rel[..k + 1]) ==> FileOnTheWay(t, base, rel)
  {
    var p := base + rel[..k + 1];
    assert p[..|base|] == base && p[|base|..] == rel[..k + 1];
    assert |rel[..k + 1]| > |rel[..k]|;
    assert NonEmptyPrefix(rel[..k + 1], rel);
  }

  lemma DirMade(t: Tree, u: Tree, v: Tree, base: Path, rel: Path, k: nat)
    requires k < |rel| && DirsMade(t, u, base, rel[..k]) && SameOutside(t, u, base) && !FileOnTheWay(t, base, rel[..k])
    requires Lookup(u, base + rel[..k + 1]) == Lookup(t, base + rel[..k + 1])
    requires var p := base + rel[..k + 1]; if p in u then u[p].Dir? && v == u else v == u[p := Dir]
    ensures DirsMade(t, v, base, rel[..k + 1]) && SameOutside(t, v, base)
    ensures IsDir(v, base + rel[..k + 1]) && !FileOnTheWay(t, base, rel[..k + 1])
  {
    var q := base + rel[..k + 1];
    assert q[..|base|] == base && q[|base|..] == rel[..k + 1];
    forall p ensures Lookup(v, p) ==
      if Under(base, p) && NonEmptyPrefix(p[|base|..], rel[..k + 1]) then Some(Dir) else Lookup(t, p)
    {
      PrefixOfLonger(base, rel, k, p);
    }
    forall p | p in t && FileAt(t, p) ensures !(Under(base, p) && NonEmptyPrefix(p[|base|..], rel[..k + 1])) {
      PrefixOfLonger(base, rel, k, p);
    }
  }

  // The non-empty prefixes of a path one longer: the old ones and the path itself.
  lemma PrefixOfLonger(base: Path, rel: Path, k: nat, p: Path)
    requires k < |rel|
    ensures Under(base, p) && NonEmptyPrefix(p[|base|..], rel[..k + 1]) <==>
            (Under(base, p) && NonEmptyPrefix(p[|base|..], rel[..k])) || p == base + rel[..k + 1]
  {
    var q := base + rel[..k + 1];
    assert q[..|base|] == base && q[|base|..] == rel[..k + 1];
    if Under(base, p) {
      var x := p[|base|..];
      assert p == base + x;
      if |x| <= k {
        assert rel[..k + 1][..|x|] == rel[..|x|] == rel[..k][..|x|];
      } else if |x| == k + 1 {
        assert rel[..k + 1][..|x|] == rel[..k + 1];
      }
    }
  }

  lemma FilledAt(t: Tree, u: Tree, stage: Path, entries: seq<Entry>, rel: Path)
    requires Filled(t, u, stage, entries) && rel != []
    ensures Under(stage, stage + rel) && (stage + rel)[|stage|..] == rel && stage + rel != stage
    ensures Lookup(u, stage + rel) == EntryAt(entries, rel)
  {
    assert (stage + rel)[..|stage|] == stage && (stage + rel)[|stage|..] == rel;
  }

  // A file already stands on the way exactly when an earlier file entry does.
  lemma BlockedByEarlierFile(t: Tree, u: Tree, stage: Path, entries: seq<Entry>, path: Path)
    requires Filled(t, u, stage, entries) && ClashFree(entries)
    ensures FileOnTheWay(u, stage, path) <==>
              exists e :: e in entries && e.kind.Regular? && ArchivePath(e.name).Some? && NonEmptyPrefix(ArchivePath(e.name).value, path)
  {
    hide ArchivePath;
    forall q | q in u && FileAt(u, q) && Under(stage, q) && NonEmptyPrefix(q[|stage|..], path)
      ensures exists e :: e in entries && e.kind.Regular? && ArchivePath(e.name).Some? && NonEmptyPrefix(ArchivePath(e.name).value, path)
    {
      var rel := q[|stage|..];
      EntryAtIsExact(entries, rel);
      assert Lookup(u, q) == EntryAt(entries, rel);
    }
    forall e | e in entries && e.kind.Regular? && ArchivePath(e.name).Some? && NonEmptyPrefix(ArchivePath(e.name).value, path)
      ensures FileOnTheWay(u, stage, path)
    {
      var rel := ArchivePath(e.name).value;
      EntryAtIsExact(entries, rel);
      FilledAt(t, u, stage, entries, rel);
      assert EntryAt(entries, rel) == Some(File(e.bytes));
      assert Lookup(u, stage + rel) == Some(File(e.bytes));
      assert FileAt(u, stage + rel);
    }
  }

  lemma FillDirectory(t: Tree, u: Tree, v: Tree, stage: Path, entries: seq<Entry>, e: Entry)
    requires Filled(t, u, stage, entries) && ArchivePath(e.name).Some? && !e.kind.Regular?
    requires DirsMade(u, v, stage, ArchivePath(e.name).value) && !FileOnTheWay(u, stage, ArchivePath(e.name).value)
    ensures Filled(t, v, stage, entries + [e])
  {
    hide ArchivePath;
    assert (entries + [e])[..|entries|] == entries;
    forall p ensures Lookup(v, p) ==
      if !Under(stage, p) then Lookup(t, p) else if p == stage then Some(Dir) else EntryAt(entries + [e], p[|stage|..])
    {
      if Under(stage, p) && p != stage {
        assert p == stage + p[|stage|..];
        assert Lookup(u, p) == EntryAt(entries, p[|stage|..]);
        assert p in u ==> (FileAt(u, p) <==> u[p].File?);
      } else if p == stage {
        assert p[|stage|..] == [];
      }
    }
  }

  lemma FillFile(t: Tree, u: Tree, w: Tree, stage: Path, entries: seq<Entry>, e: Entry)
    requires Filled(t, u, stage, entries) && ArchivePath(e.name).Some? && e.kind.Regular?
    requires ArchivePath(e.name).value != []
    requires DirsMade(u, w, stage, Parent(ArchivePath(e.name).value)) && !FileOnTheWay(u, stage, Parent(ArchivePath(e.name).value))
    requires stage + ArchivePath(e.name).value !in w
    ensures Filled(t, w[stage + ArchivePath(e.name).value := File(e.bytes)], stage, entries + [e])
    ensures stage + ArchivePath(e.name).value !in u
  {
    hide ArchivePath;
    var path := ArchivePath(e.name).value;
    var target := stage + path;
    var v := w[target := File(e.bytes)];
    FilledAt(t, u, stage, entries, path);
    assert Lookup(w, target) == Lookup(u, target);
    assert (entries + [e])[..|entries|] == entries;
    forall p ensures Lookup(v, p) ==
      if !Under(stage, p) then Lookup(t, p) else if p == stage then Some(Dir) else EntryAt(entries + [e], p[|stage|..])
    {
      assert Lookup(w, p) ==
        if Under(stage, p) && NonEmptyPrefix(p[|stage|..], Parent(path)) then Some(Dir) else Lookup(u, p);
      if Under(stage, p) && p != stage {
        assert p == stage + p[|stage|..];
        assert Lookup(u, p) == EntryAt(entries, p[|stage|..]);
        assert p in u ==> (FileAt(u, p) <==> u[p].File?);
        ShorterPrefix(p[|stage|..], path);
      } else if p == stage {
        assert p[|stage|..] == [];
      }
    }
  }

  lemma ShorterPrefix(x: Path, path: Path)
    requires path != []
    ensures NonEmptyPrefix(x, path) <==> x == path || NonEmptyPrefix(x, Parent(path))
  {
    if |x| < |path| {
      assert Parent(path)[..|x|] == path[..|x|];
    } else if |x| == |path| {
      assert path[..|x|] == path;
    }
  }

  // One round of the extraction loop.
  method ExtractEntry(fs: FileSystem, stage: Path, e: Entry, faults: bool, ghost t: Tree, ghost before: seq<Entry>)
    returns (code: Code)
    requires fs.Valid() && Filled(t, fs.tree, stage, before) && ArchivePath(e.name).Some? && ClashFree(before)
    modifies fs
    ensures fs.Valid() && SameOutside(old(fs.tree), fs.tree, stage)
    ensures code == Done ==> Filled(t, fs.tree, stage, before + [e]) && ClashFree(before + [e])
    ensures !faults ==> (code == Done <==> ClashFree(before + [e]))
  {
    hide ArchivePath, Filled, DirsMade, WellFormed, FileOnTheWay, ClashFree;
    AcceptedNames(e.name);
    var path := ArchivePath(e.name).value;
    ghost var u := fs.tree;
    StageIsDir(t, u, stage, before);
    OneMoreEntry(t, u, stage, before, e);
    if !e.kind.Regular? {
      var made := MkdirAll(fs, stage, path, faults);
      if made { FillDirectory(t, u, fs.tree, stage, before, e); }
      return if made then Done else IoError;
    }
    var parents := MkdirAll(fs, stage, Parent(path), faults);
    if !parents {
      return IoError;
    }
    ghost var w := fs.tree;
    ParentMade(u, w, stage, path);
    if stage + path in fs.tree {
      return DestinationExists;
    }
    FillFile(t, u, w, stage, before, e);
    var created := fs.CreateFile(stage + path, e.bytes, faults);
    FileStaysBelow(u, w, fs.tree, stage, path);
    code := if created then Done else IoError;
  }

  lemma StageIsDir(t: Tree, u: Tree, stage: Path, entries: seq<Entry>)
    requires Filled(t, u, stage, entries)
    ensures IsDir(u, stage)
  {
    assert Under(stage, stage);
    assert Lookup(u, stage) == Some(Dir);
  }

  // The next entry clashes with an earlier one exactly when a file is on its way or, for a file,
  // when its own place is taken.
  lemma OneMoreEntry(t: Tree, u: Tree, stage: Path, before: seq<Entry>, e: Entry)
    requires Filled(t, u, stage, before) && ArchivePath(e.name).Some? && ArchivePath(e.name).value != [] && ClashFree(before)
    ensures var path := ArchivePath(e.name).value;
            ClashFree(before + [e]) <==>
              if e.kind.Regular? then !FileOnTheWay(u, stage, Parent(path)) && stage + path !in u
              else !FileOnTheWay(u, stage, path)
  {
    hide ArchivePath;
    var path, all := ArchivePath(e.name).value, before + [e];
    BlockedByEarlierFile(t, u, stage, before, path);
    BlockedByEarlierFile(t, u, stage, before, Parent(path));
    EntryAtIsExact(before, path);
    FilledAt(t, u, stage, before, path);
    EarlierClash(before, e);
    forall f | f in before && ArchivePath(f.name).Some? && ArchivePath(f.name).value != []
      ensures NonEmptyPrefix(ArchivePath(f.name).value, path) <==>
              ArchivePath(f.name).value == path || NonEmptyPrefix(ArchivePath(f.name).value, Parent(path))
    {
      ShorterPrefix(ArchivePath(f.name).value, path);
    }
    forall f | f in before && ArchivePath(f.name).Some? ensures ArchivePath(f.name).value != [] {
      AcceptedNames(f.name);
    }
    assert Under(path, path) by { assert path[..|path|] == path; }
  }

  lemma EarlierClash(before: seq<Entry>, e: Entry)
    requires ClashFree(before)
    ensures ClashFree(before + [e]) <==> forall f | f in before :: !Clashes(f, e)
  {
    var all := before + [e];
    forall f | f in before && ClashFree(all) ensures !Clashes(f, e) {
      var i :| 0 <= i < |before| && before[i] == f;
      assert all[i] == f && all[|before|] == e;
    }
  }

  lemma ParentMade(u: Tree, w: Tree, stage: Path, path: Path)
    requires path != [] && IsDir(u, stage) && DirsMade(u, w, stage, Parent(path))
    ensures Parent(stage + path) == stage + Parent(path) && IsDir(w, stage + Parent(path))
    ensures stage + path in w <==> stage + path in u
  {
    var q, r := stage + Parent(path), stage + path;
    assert q[..|stage|] == stage && q[|stage|..] == Parent(path) && r[..|stage|] == stage && r[|stage|..] == path;
    if Parent(path) == [] { assert q == stage; }
    assert Parent(path)[..|Parent(path)|] == Parent(path);
    assert Lookup(w, q) == if NonEmptyPrefix(Parent(path), Parent(path)) then Some(Dir) else Lookup(u, q);
    assert Lookup(w, r) == Lookup(u, r);
  }

  lemma UnderLonger(stage: Path, path: Path, p: Path)
    ensures Under(stage + path, p) ==> Under(stage, p)
  {
    assert (stage + path)[..|stage|] == stage;
    if Under(stage + path, p) {
      assert p[..|stage + path|][..|stage|] == p[..|stage|];
    }
  }

  lemma FileStaysBelow(u: Tree, w: Tree, v: Tree, stage: Path, path: Path)
    requires SameOutside(u, w, stage) && SameOutside(w, v, stage + path)
    ensures SameOutside(u, v, stage)
  {
    forall p | !Under(stage, p) ensures Lookup(u, p) == Lookup(v, p) {
      UnderLonger(stage, path, p);
    }
  }

  // ----- Preflight -----

  function Tops(entries: seq<Entry>): set<string> {
    set i | 0 <= i < |entries| && TopLevelName(entries[i].name).Some? :: TopLevelName(entries[i].name).value
  }

  function TotalSize(entries: seq<Entry>): nat {
    if entries == [] then 0 else TotalSize(entries[..|entries| - 1]) + entries[|entries| - 1].size
  }

  lemma {:induction false} TotalOfBoth(a: seq<Entry>, b: seq<Entry>)
    ensures TotalSize(a + b) == TotalSize(a) + TotalSize(b)
    ensures forall e: Entry :: TotalSize([e]) == e.size
    decreases |b|
  {
    forall e: Entry ensures TotalSize([e]) == e.size {
      assert [e][..0] == [];
    }
    if b == [] {
      assert a + b == a;
    } else {
      var n := |b| - 1;
      TotalOfBoth(a, b[..n]);
      assert (a + b)[..|a| + n] == a + b[..n] && (a + b)[|a| + n] == b[n];
    }
  }

  // The limits on an archive, and the kinds of entry it may hold.
  predicate WithinLimits(entries: seq<Entry>) {
    && |entries| <= MAX_ENTRIES && TotalSize(entries) <= MAX_BYTES
    && forall i | 0 <= i < |entries| :: !entries[i].kind.Unsupported?
  }

  // What validateZipEntries and preflightExtractionTargets demand.
  predicate ValidArchive(t: Tree, output: Path, entries: seq<Entry>) {
    && WithinLimits(entries)
    && (forall i | 0 <= i < |entries| :: ArchivePath(entries[i].name).Some?)
    && forall top | top in Tops(entries) :: output + [top] !in t
  }

  lemma {:induction false} SizeOfPrefix(entries: seq<Entry>, n: nat)
    requires n <= |entries|
    ensures TotalSize(entries[..n]) <= TotalSize(entries)
    decreases |entries|
  {
    if n < |entries| {
      SizeOfPrefix(entries[..|entries| - 1], n);
      assert entries[..|entries| - 1][..n] == entries[..n];
    } else {
      assert entries[..n] == entries;
    }
  }

  lemma TotalGrows(entries: seq<Entry>, k: nat)
    requires k < |entries|
    ensures TotalSize(entries[..k + 1]) == TotalSize(entries[..k]) + entries[k].size
    ensures TotalSize(entries[..k + 1]) <= TotalSize(entries)
  {
    SizeOfPrefix(entries, k + 1);
    assert entries[..k + 1][..k] == entries[..k];
  }

  lemma NoTotal(entries: seq<Entry>)
    ensures TotalSize(entries[..0]) == 0
  {
  }

  lemma TopsOfMore(entries: seq<Entry>, k: nat)
    requires k < |entries| && ArchivePath(entries[k].name).Some?
    ensures TopLevelName(entries[k].name).Some?
    ensures Tops(entries[..k + 1]) == Tops(entries[..k]) + {TopLevelName(entries[k].name).value}
  {
    hide ArchivePath, TopLevelName;
    AcceptedNames(entries[k].name);
    var longer := entries[..k + 1];
    assert longer[k] == entries[k] && forall i | 0 <= i < k :: longer[i] == entries[..k][i];
    forall top | top in Tops(entries[..k]) ensures top in Tops(longer) {
      var i :| 0 <= i < |entries[..k]| && TopLevelName(entries[..k][i].name) == Some(top);
      assert longer[i] == entries[..k][i];
    }
    forall top | top in Tops(longer) ensures top in Tops(entries[..k]) + {TopLevelName(entries[k].name).value} {
      var i :| 0 <= i < |longer| && TopLevelName(longer[i].name) == Some(top);
      if i < k { assert entries[..k][i] == longer[i]; }
    }
  }

  // validateZipEntries: the type and size checks, overflow-free.
  method ValidateZipEntries(fs: FileSystem, output: Path, entries: seq<Entry>) returns (code: Code, tops: seq<string>)
    requires fs.Valid()
    ensures code == Done <==> ValidArchive(fs.tree, output, entries)
    ensures code == UnsupportedType ==> exists i :: 0 <= i < |entries| && entries[i].kind.Unsupported?
    ensures code == LimitExceeded ==> |entries| > 10000 || TotalSize(entries) > 0x8000_0000
    ensures code == InvalidPath ==> exists i :: 0 <= i < |entries| && ArchivePath(entries[i].name).None?
    ensures code == DestinationExists ==> exists top :: top in Tops(entries) && output + [top] in fs.tree
    ensures code == Done ==> Batch.SortedNames(tops) && forall top :: top in tops <==> top in Tops(entries)
  {
    hide ArchivePath, TopLevelName, Batch.SortedNames, TotalSize;
    NoTotal(entries);
    tops := [];
    if |entries| > MAX_ENTRIES {
      return LimitExceeded, tops;
    }
    var total := 0;
    var k := 0;
    while k < |entries|
      invariant 0 <= k <= |entries|
      invariant total == TotalSize(entries[..k]) <= MAX_BYTES
      invariant forall i | 0 <= i < k :: !entries[i].kind.Unsupported?
    {
      TotalGrows(entries, k);
      if entries[k].kind.Unsupported? {
        return UnsupportedType, tops;
      }
      if entries[k].size > MAX_BYTES || total > MAX_BYTES - entries[k].size {
        return LimitExceeded, tops;
      }
      total := total + entries[k].size;
      k := k + 1;
    }
    assert entries[..k] == entries;
    code, tops := PreflightExtractionTargets(fs, output, entries);
  }

  method PreflightExtractionTargets(fs: FileSystem, output: Path, entries: seq<Entry>) returns (code: Code, tops: seq<string>)
    requires fs.Valid()
    ensures code in {Done, InvalidPath, DestinationExists}
    ensures code == InvalidPath ==> exists i :: 0 <= i < |entries| && ArchivePath(entries[i].name).None?
    ensures code == DestinationExists ==> exists top :: top in Tops(entries) && output + [top] in fs.tree
    ensures code == Done <==>
              && (forall i | 0 <= i < |entries| :: ArchivePath(entries[i].name).Some?)
              && forall top | top in Tops(entries) :: output + [top] !in fs.tree
    ensures code == Done ==> Batch.SortedNames(tops) && forall top :: top in tops <==> top in Tops(entries)
  {
    hide ArchivePath, TopLevelName, Batch.SortedNames, ValidLeafName;
    var found: set<string> := {};
    tops := [];
    var k := 0;
    while k < |entries|
      invariant 0 <= k <= |entries| && found == Tops(entries[..k])
      invariant forall i | 0 <= i < k :: ArchivePath(entries[i].name).Some?
    {
      if ArchivePath(entries[k].name).None? {
        return InvalidPath, tops;
      }
      TopsOfMore(entries, k);
      found := found + {TopLevelName(entries[k].name).value};
      k := k + 1;
    }
    assert entries[..k] == entries;
    NoNamesSorted();
    var rest := found;
    while rest != {}
      invariant rest <= found && Batch.SortedNames(tops)
      invariant forall top :: top in tops <==> top in found - rest
      invariant forall top | top in found - rest :: output + [top] !in fs.tree
      decreases |rest|
    {
      var top :| top in rest;
      if output + [top] in fs.tree {
        return DestinationExists, tops;
      }
      tops := InsertSorted(tops, top);
      rest := rest - {top};
    }
    code := Done;
  }

  lemma NoNamesSorted()
    ensures Batch.SortedNames([])
  {
  }

  // sort.Strings, one name at a time.
  method InsertSorted(names: seq<string>, x: string) returns (longer: seq<string>)
    requires Batch.SortedNames(names) && x !in names
    ensures Batch.SortedNames(longer) && forall n :: n in longer <==> n in names || n == x
  {
    hide Batch.Before;
    var at := 0;
    while at < |names| && Batch.Before(names[at], x)
      invariant 0 <= at <= |names|
      invariant forall i | 0 <= i < at :: Batch.Before(names[i], x)
    {
      at := at + 1;
    }
    forall i | at <= i < |names| ensures Batch.Before(x, names[i]) {
      Batch.BeforeIsTotal(names[at], x);
      if i > at { Batch.BeforeIsTransitive(x, names[at], names[i]); }
    }
    longer := names[..at] + [x] + names[at..];
    assert names == names[..at] + names[at..];
  }

  // ----- Extraction -----

  // The output directory shows the archive's entries; everything else is as it was.
  ghost predicate Extracted(t: Tree, u: Tree, output: Path, entries: seq<Entry>) {
    forall p :: Lookup(u, p) ==
      if Batch.IsChildOf(output, p) && EntryAt(entries, p[|output|..]).Some?
      then EntryAt(entries, p[|output|..]) else Lookup(t, p)
  }

  // The top-level names in `names` show all their entries; nothing else outside the stage differs.
  ghost predicate ShowsTops(t: Tree, u: Tree, output: Path, temp: string, entries: seq<Entry>, names: set<string>) {
    forall p | !Under(output + [temp], p) :: Lookup(u, p) ==
      if Batch.IsChildOf(output, p) && p[|output|] in names then EntryAt(entries, p[|output|..]) else Lookup(t, p)
  }

  // What an extraction can leave whose rollback fails: its stage, and some top-level names, whole.
  ghost predicate PartlyExtracted(t: Tree, u: Tree, output: Path, temp: string, entries: seq<Entry>) {
    exists names | names <= Tops(entries) :: ShowsTops(t, u, output, temp, entries, names)
  }

  // Of the stage nothing but its empty directory is there.
  ghost predicate StageIsEmpty(u: Tree, stage: Path) {
    forall p | p in u && Under(stage, p) :: p == stage && u[p].Dir?
  }

  // The extraction loop.
  method FillStage(fs: FileSystem, stage: Path, entries: seq<Entry>, faults: bool, ghost t: Tree) returns (code: Code)
    requires fs.Valid() && Filled(t, fs.tree, stage, [])
    requires forall i | 0 <= i < |entries| :: ArchivePath(entries[i].name).Some?
    modifies fs
    ensures fs.Valid() && SameOutside(old(fs.tree), fs.tree, stage)
    ensures code == Done ==> Filled(t, fs.tree, stage, entries) && ClashFree(entries)
    ensures !faults ==> (code == Done <==> ClashFree(entries))
  {
    hide ArchivePath, Filled, WellFormed, ClashFree;
    ghost var first := fs.tree;
    var k := 0;
    NothingClashes();
    assert entries[..0] == [];
    while k < |entries|
      invariant 0 <= k <= |entries| && fs.Valid() && SameOutside(first, fs.tree, stage)
      invariant Filled(t, fs.tree, stage, entries[..k]) && ClashFree(entries[..k])
    {
      assert entries[..k + 1] == entries[..k] + [entries[k]];
      ClashFreePrefix(entries, k + 1);
      code := ExtractEntry(fs, stage, entries[k], faults, t, entries[..k]);
      if code != Done {
        return;
      }
      k := k + 1;
    }
    assert entries[..k] == entries;
    code := Done;
  }

  lemma NothingClashes()
    ensures ClashFree([])
  {
  }

  lemma ClashFreePrefix(entries: seq<Entry>, n: nat)
    requires n <= |entries|
    ensures ClashFree(entries) ==> ClashFree(entries[..n])
  {
    hide Clashes;
    assert forall i | 0 <= i < n :: entries[..n][i] == entries[i];
  }

  function AsItems(tops: seq<string>): (items: seq<Batch.Item>)
    ensures |items| == |tops| && forall i | 0 <= i < |tops| :: items[i].name == tops[i]
  {
    seq(|tops|, i requires 0 <= i < |tops| => Batch.Item(tops[i], ""))
  }

  lemma ItemNames(tops: seq<string>)
    ensures forall n :: n in Batch.Names(AsItems(tops)) <==> n in tops
  {
    var items := AsItems(tops);
    forall i | 0 <= i < |tops| ensures tops[i] in Batch.Names(items) {
      assert items[i].name == tops[i];
    }
  }

  lemma SortedNamesDiffer(tops: seq<string>)
    requires Batch.SortedNames(tops)
    ensures Batch.DistinctNames(AsItems(tops))
  {
    forall i, j | 0 <= i < j < |tops| ensures tops[i] != tops[j] {
      Batch.BeforeIsStrict(tops[i], tops[j]);
    }
  }

  lemma NextTop(t: Tree, stage: Path, output: Path, items: seq<Batch.Item>, i: nat, temp: string)
    requires Batch.Ready(t, stage, output, Batch.Names(items) - {temp}) && Batch.DistinctNames(items) && i < |items|
    requires temp !in Batch.Names(items[..i])
    ensures items[i].name !in Batch.Names(items[..i]) && Batch.Names(items[..i]) < Batch.Names(items)
    ensures Batch.Names(items[..i + 1]) == Batch.Names(items[..i]) + {items[i].name}
    ensures Batch.Ready(t, stage, output, Batch.Names(items[..i]))
    ensures items[i].name != temp ==> Batch.Ready(t, stage, output, Batch.Names(items[..i]) + {items[i].name})
  {
    hide Batch.Ready, Batch.Names, Batch.DistinctNames;
    Batch.NamesGrow(items, i);
    Batch.ReadyForFewer(t, stage, output, Batch.Names(items) - {temp}, Batch.Names(items[..i]));
    if items[i].name != temp {
      Batch.ReadyForFewer(t, stage, output, Batch.Names(items) - {temp}, Batch.Names(items[..i]) + {items[i].name});
    }
  }

  lemma IntoItself(u: Tree, output: Path, temp: string)
    ensures !CanRename(u, output + [temp] + [temp], output + [temp])
  {
    assert (output + [temp] + [temp])[..|output + [temp]|] == output + [temp];
  }

  // promoteExtractionStage. A top-level name equal to the stage's own name would have to be moved
  // onto its own parent: that rename is refused and what was promoted before is taken back.
  method PromoteStage(fs: FileSystem, stage: Path, output: Path, tops: seq<string>, faults: bool, undo: bool, ghost temp: string)
    returns (ok: bool)
    requires fs.Valid() && Batch.SortedNames(tops) && stage == output + [temp]
    requires Batch.Ready(fs.tree, stage, output, Batch.Names(AsItems(tops)) - {temp})
    modifies fs
    ensures fs.Valid()
    ensures ok ==> temp !in tops && Batch.Moved(old(fs.tree), fs.tree, stage, output, Batch.Names(AsItems(tops)))
    ensures !ok ==> Batch.PartlyMoved(old(fs.tree), fs.tree, stage, output, Batch.Names(AsItems(tops)))
    ensures !ok && undo ==> fs.tree == old(fs.tree)
    ensures !faults && temp !in tops ==> ok
  {
    hide Batch.Moved, Batch.PartlyMoved, Batch.MovedLookup, Batch.Names, Batch.Ready, Batch.DistinctNames, Batch.SortedNames;
    hide Renamed, CanRename, WellFormed;
    ghost var t, items := fs.tree, AsItems(tops);
    SortedNamesDiffer(tops);
    Batch.NothingMovedYet(t, stage, output);
    Batch.NoNames(items);
    var i := 0;
    while i < |tops|
      invariant 0 <= i <= |tops| && fs.Valid()
      invariant Batch.Moved(t, fs.tree, stage, output, Batch.Names(items[..i]))
      invariant temp !in Batch.Names(items[..i]) && temp !in tops[..i]
    {
      NextTop(t, stage, output, items, i, temp);
      if tops[i] == temp {
        IntoItself(fs.tree, output, temp);
      } else {
        Batch.MoveOne(t, fs.tree, stage, output, Batch.Names(items[..i]), items[i].name);
      }
      ok := fs.Rename(stage + [tops[i]], output + [tops[i]], faults);
      if !ok {
        ghost var left := Batch.MoveBack(fs, stage, output, AsItems(tops), i, undo, t);
        Batch.MovedInPart(t, fs.tree, stage, output, left, Batch.Names(items));
        return;
      }
      i := i + 1;
    }
    assert items[..i] == items;
    ok := true;
  }

  // ----- The whole extraction -----

  lemma TopsOfEntry(entries: seq<Entry>, rel: Path)
    requires forall i | 0 <= i < |entries| :: ArchivePath(entries[i].name).Some?
    ensures EntryAt(entries, rel).Some? ==> rel != [] && rel[0] in Tops(entries)
    ensures |rel| == 1 && rel[0] in Tops(entries) ==> EntryAt(entries, rel).Some?
  {
    hide ArchivePath, TopLevelName;
    TopsOfEntries(entries, rel);
  }

  lemma {:induction false} TopsOfEntries(entries: seq<Entry>, rel: Path)
    requires forall i | 0 <= i < |entries| :: ArchivePath(entries[i].name).Some?
    ensures EntryAt(entries, rel).Some? ==> rel != [] && rel[0] in Tops(entries)
    ensures |rel| == 1 && rel[0] in Tops(entries) ==> EntryAt(entries, rel).Some?
  {
    hide ArchivePath, TopLevelName, NodeOf, Tops;
    if entries == [] {
      NoTops();
    } else {
      var n := |entries| - 1;
      TopsOfEntries(entries[..n], rel);
      TopsOfMore(entries, n);
      assert entries[..n + 1] == entries;
      TopOfOne(entries[n], rel);
    }
  }

  lemma NoTops()
    ensures Tops([]) == {}
  {
  }

  // What one entry puts anywhere lies at or below its top-level name.
  lemma TopOfOne(e: Entry, rel: Path)
    requires ArchivePath(e.name).Some? && TopLevelName(e.name).Some?
    ensures NodeOf(e, rel).Some? ==> rel != [] && rel[0] == TopLevelName(e.name).value
    ensures |rel| == 1 && rel[0] == TopLevelName(e.name).value ==> NodeOf(e, rel).Some?
  {
    hide ArchivePath, TopLevelName;
    AcceptedNames(e.name);
    var path := ArchivePath(e.name).value;
    if rel != [] {
      assert Under(rel, path) ==> rel[0] == path[0] by {
        if Under(rel, path) { assert path[..|rel|][0] == path[0]; }
      }
      if |rel| == 1 && rel[0] == path[0] { assert path[..1] == rel; }
    }
  }

  lemma StageReady(t: Tree, u: Tree, output: Path, temp: string, entries: seq<Entry>, tops: seq<string>)
    requires WellFormed(u) && IsDir(t, output) && Filled(t, u, output + [temp], entries)
    requires forall i | 0 <= i < |entries| :: ArchivePath(entries[i].name).Some?
    requires forall top :: top in tops <==> top in Tops(entries)
    requires forall top | top in tops :: output + [top] !in t
    ensures Batch.Ready(u, output + [temp], output, Batch.Names(AsItems(tops)) - {temp})
  {
    hide ArchivePath, Tops, EntryAt;
    var stage := output + [temp];
    ItemNames(tops);
    StageIsDir(t, u, stage, entries);
    assert !Under(stage, output);
    assert Lookup(u, output) == Lookup(t, output);
    forall n | n in tops && n != temp ensures stage + [n] in u && output + [n] !in u && !Under(stage + [n], output) {
      TopsOfEntry(entries, [n]);
      FilledAt(t, u, stage, entries, [n]);
      assert Lookup(u, stage + [n]).Some?;
      assert !Under(stage, output + [n]) by {
        assert (output + [n])[..|stage|] == output + [n] && (output + [n])[|output|] == n && stage[|output|] == temp;
      }
      assert Lookup(u, output + [n]) == Lookup(t, output + [n]);
    }
  }

  // What a promotion under way has in common at every point of the tree.
  ghost predicate Promoted(t: Tree, u: Tree, v: Tree, output: Path, temp: string, entries: seq<Entry>, names: set<string>) {
    && WellFormed(t) && output + [temp] !in t && Filled(t, u, output + [temp], entries)
    && (forall rel | EntryAt(entries, rel).Some? :: rel != [] && rel[0] in names)
    && temp !in names && (forall n | n in names :: output + [n] !in t)
    && Batch.Moved(u, v, output + [temp], output, names)
  }

  lemma PromotedTop(t: Tree, u: Tree, v: Tree, output: Path, temp: string, entries: seq<Entry>, names: set<string>, p: Path)
    requires Promoted(t, u, v, output, temp, entries, names)
    requires Batch.IsChildOf(output, p) && p[|output|] in names
    ensures !Under(output + [temp], p)
    ensures Lookup(v, p) == EntryAt(entries, p[|output|..]) && Lookup(t, p) == None
  {
    hide EntryAt;
    var stage, rel := output + [temp], p[|output|..];
    assert Lookup(v, p) == Batch.MovedLookup(u, stage, output, names, p);
    Batch.ChildUnder(output, temp, p);
    Batch.ChildUnder(output, p[|output|], p);
    FilledAt(t, u, stage, entries, rel);
    NothingBelowAbsent(t, output + [p[|output|]]);
  }

  lemma PromotedStage(t: Tree, u: Tree, v: Tree, output: Path, temp: string, entries: seq<Entry>, names: set<string>, p: Path)
    requires Promoted(t, u, v, output, temp, entries, names) && Under(output + [temp], p)
    ensures p in v ==> p == output + [temp] && v[p].Dir?
    ensures Lookup(t, p) == None && Batch.IsChildOf(output, p) && p[|output|] !in names
  {
    hide EntryAt;
    var stage := output + [temp];
    Batch.ChildUnder(output, temp, p);
    NothingBelowAbsent(t, stage);
    assert Lookup(v, p) == Batch.MovedLookup(u, stage, output, names, p);
    if p == stage {
      StageIsDir(t, u, stage, entries);
    } else {
      var inner := p[|stage|..];
      assert p == stage + inner;
      assert stage + [] == stage;
      FilledAt(t, u, stage, entries, inner);
      assert Lookup(u, p) == EntryAt(entries, inner);
      assert Batch.IsChildOf(stage, p) && p[|stage|] == inner[0];
    }
  }

  lemma PromotedElsewhere(t: Tree, u: Tree, v: Tree, output: Path, temp: string, entries: seq<Entry>, names: set<string>, p: Path)
    requires Promoted(t, u, v, output, temp, entries, names) && !Under(output + [temp], p)
    requires !(Batch.IsChildOf(output, p) && p[|output|] in names)
    ensures Lookup(v, p) == Lookup(t, p)
  {
    hide EntryAt;
    var stage := output + [temp];
    assert Lookup(v, p) == Batch.MovedLookup(u, stage, output, names, p);
    assert Lookup(u, p) == Lookup(t, p);
  }

  lemma PromotedIsExtracted(t: Tree, u: Tree, v: Tree, output: Path, temp: string, entries: seq<Entry>, names: set<string>)
    requires Promoted(t, u, v, output, temp, entries, names)
    ensures Extracted(t, Removed(v, output + [temp]), output, entries)
    ensures StageIsEmpty(v, output + [temp])
  {
    hide EntryAt;
    var stage := output + [temp];
    var w := Removed(v, stage);
    forall p
      ensures Lookup(w, p) ==
        if Batch.IsChildOf(output, p) && EntryAt(entries, p[|output|..]).Some?
        then EntryAt(entries, p[|output|..]) else Lookup(t, p)
      ensures p in v && Under(stage, p) ==> p == stage && v[p].Dir?
    {
      assert Lookup(w, p) == if Under(stage, p) then None else Lookup(v, p);
      if Batch.IsChildOf(output, p) {
        assert p[|output|..][0] == p[|output|];
      }
      if Under(stage, p) {
        PromotedStage(t, u, v, output, temp, entries, names, p);
      } else if Batch.IsChildOf(output, p) && p[|output|] in names {
        PromotedTop(t, u, v, output, temp, entries, names, p);
      } else {
        PromotedElsewhere(t, u, v, output, temp, entries, names, p);
      }
    }
  }

  // However much of the empty stage is removed.
  lemma StageMayStay(v: Tree, w: Tree, stage: Path)
    requires SameOutside(v, w, stage) && OnlyRemoves(v, w) && StageIsEmpty(v, stage)
    ensures Removed(w, stage) == Removed(v, stage) && StageIsEmpty(w, stage)
  {
    forall p ensures Lookup(Removed(w, stage), p) == Lookup(Removed(v, stage), p) {
      assert Under(stage, p) || Lookup(w, p) == Lookup(v, p);
    }
    SameTreeIsEqual(Removed(w, stage), Removed(v, stage));
    forall p | p in w && Under(stage, p) ensures p == stage && w[p].Dir? {
      assert Lookup(v, p) == Lookup(w, p);
    }
  }

  lemma PartlyPromoted(t: Tree, u: Tree, v: Tree, w: Tree, output: Path, temp: string, entries: seq<Entry>, tops: seq<string>)
    requires Filled(t, u, output + [temp], entries) && (forall top :: top in tops <==> top in Tops(entries))
    requires Batch.PartlyMoved(u, v, output + [temp], output, Batch.Names(AsItems(tops)))
    requires SameOutside(v, w, output + [temp])
    ensures PartlyExtracted(t, w, output, temp, entries)
  {
    hide EntryAt, Filled, Tops, Batch.Moved, SameOutside, Batch.Names, ShowsTops;
    ItemNames(tops);
    var left :| left < Batch.Names(AsItems(tops)) && Batch.Moved(u, v, output + [temp], output, left);
    TopsShown(t, u, v, w, output, temp, entries, left);
  }

  lemma TopsShown(t: Tree, u: Tree, v: Tree, w: Tree, output: Path, temp: string, entries: seq<Entry>, left: set<string>)
    requires Filled(t, u, output + [temp], entries) && Batch.Moved(u, v, output + [temp], output, left)
    requires SameOutside(v, w, output + [temp])
    ensures ShowsTops(t, w, output, temp, entries, left)
  {
    hide EntryAt, Filled;
    var stage := output + [temp];
    forall p | !Under(stage, p)
      ensures Lookup(w, p) ==
        if Batch.IsChildOf(output, p) && p[|output|] in left then EntryAt(entries, p[|output|..]) else Lookup(t, p)
    {
      assert Lookup(w, p) == Lookup(v, p) == Batch.MovedLookup(u, stage, output, left, p);
      if Batch.IsChildOf(output, p) && p[|output|] in left {
        FilledAt(t, u, stage, entries, p[|output|..]);
      } else {
        FilledElsewhere(t, u, stage, entries, p);
      }
    }
  }

  lemma FilledElsewhere(t: Tree, u: Tree, stage: Path, entries: seq<Entry>, p: Path)
    requires Filled(t, u, stage, entries) && !Under(stage, p)
    ensures Lookup(u, p) == Lookup(t, p)
  {
  }

  lemma NothingExtracted(t: Tree, u: Tree, output: Path, temp: string, entries: seq<Entry>)
    requires SameOutside(t, u, output + [temp])
    ensures PartlyExtracted(t, u, output, temp, entries)
  {
    hide EntryAt, Tops;
    assert ShowsTops(t, u, output, temp, entries, {});
  }

  lemma StageRemovedIsOriginal(t: Tree, u: Tree, stage: Path)
    requires WellFormed(t) && stage !in t && SameOutside(t, u, stage)
    ensures Removed(u, stage) == t
  {
    NothingBelowAbsent(t, stage);
    forall p ensures Lookup(Removed(u, stage), p) == Lookup(t, p) {
      assert Under(stage, p) || Lookup(u, p) == Lookup(t, p);
    }
    SameTreeIsEqual(Removed(u, stage), t);
  }

  // From a filled stage, or one whose filling failed, to the end: promote and drop the stage.
  method PublishStage(fs: FileSystem, output: Path, entries: seq<Entry>, tops: seq<string>, temp: string, filled: Code,
                      faults: bool, undo: bool, ghost t: Tree) returns (code: Code)
    requires fs.Valid() && WellFormed(t) && IsDir(t, output) && output + [temp] !in t && SameOutside(t, fs.tree, output + [temp])
    requires ValidArchive(t, output, entries) && Batch.SortedNames(tops) && forall top :: top in tops <==> top in Tops(entries)
    requires filled == Done ==> Filled(t, fs.tree, output + [temp], entries)
    modifies fs
    ensures fs.Valid()
    ensures code == Done ==> filled == Done && temp !in Tops(entries)
    ensures code == Done ==> Extracted(t, Removed(fs.tree, output + [temp]), output, entries)
    ensures code == Done ==> StageIsEmpty(fs.tree, output + [temp])
    ensures code == Done && undo ==> Extracted(t, fs.tree, output, entries)
    ensures code != Done ==> PartlyExtracted(t, fs.tree, output, temp, entries)
    ensures code != Done && undo ==> fs.tree == t
    ensures !faults && temp !in Tops(entries) ==> (code == Done <==> filled == Done)
  {
    hide Filled, Promoted, Extracted, PartlyExtracted, StageIsEmpty, Batch.Moved, Batch.PartlyMoved, Batch.Ready;
    hide ArchivePath, Tops, WellFormed, SameOutside, OnlyRemoves, Removed, Batch.SortedNames;
    var stage := output + [temp];
    code := filled;
    ghost var u := fs.tree;
    StageRemovedIsOriginal(t, u, stage);
    if code != Done {
      var _ := fs.RemoveAll(stage, !undo);
      StageOutside(t, u, fs.tree, stage);
      NothingExtracted(t, fs.tree, output, temp, entries);
      return;
    }
    StageReady(t, u, output, temp, entries, tops);
    var promoted := PromoteStage(fs, stage, output, tops, faults, undo, temp);
    ghost var v := fs.tree;
    if !promoted {
      var _ := fs.RemoveAll(stage, !undo);
      PartlyPromoted(t, u, v, fs.tree, output, temp, entries, tops);
      return IoError;
    }
    PromotionHolds(t, u, v, output, temp, entries, tops);
    PromotedIsExtracted(t, u, v, output, temp, entries, Batch.Names(AsItems(tops)));
    var _ := fs.RemoveAll(stage, !undo);
    StageMayStay(v, fs.tree, stage);
  }

  // extractZip. `temp` is the free name MkdirTemp found for the stage, which may be anything. The
  // result of the deferred removal of the stage is ignored, so success may leave it behind, empty.
  method ExtractZip(fs: FileSystem, output: Path, entries: seq<Entry>, temp: string, faults: bool, undo: bool)
    returns (code: Code)
    requires fs.Valid() && IsDir(fs.tree, output) && output + [temp] !in fs.tree
    modifies fs
    ensures fs.Valid()
    ensures code == Done ==> ValidArchive(old(fs.tree), output, entries) && ClashFree(entries) && temp !in Tops(entries)
    ensures code == Done ==> Extracted(old(fs.tree), Removed(fs.tree, output + [temp]), output, entries)
    ensures code == Done ==> StageIsEmpty(fs.tree, output + [temp])
    ensures code == Done && undo ==> Extracted(old(fs.tree), fs.tree, output, entries)
    // What must not be extracted changes nothing.
    ensures |entries| > 10000 || TotalSize(entries) > 0x8000_0000 ==> code != Done && fs.tree == old(fs.tree)
    ensures forall i | 0 <= i < |entries| && entries[i].kind.Unsupported? :: code != Done && fs.tree == old(fs.tree)
    ensures forall i | 0 <= i < |entries| && ArchivePath(entries[i].name).None? :: code != Done && fs.tree == old(fs.tree)
    ensures code != Done ==> PartlyExtracted(old(fs.tree), fs.tree, output, temp, entries)
    ensures code != Done && undo ==> fs.tree == old(fs.tree)
    ensures !faults && temp !in Tops(entries) ==>
              (code == Done <==> ValidArchive(old(fs.tree), output, entries) && ClashFree(entries))
  {
    hide Filled, Extracted, PartlyExtracted, StageIsEmpty, Removed, ClashFree, ArchivePath, Tops, WellFormed, SameOutside;
    hide Batch.SortedNames;
    ghost var t := fs.tree;
    var stage := output + [temp];
    NothingOutside(t, stage);
    NothingExtracted(t, t, output, temp, entries);
    var tops;
    code, tops := ValidateZipEntries(fs, output, entries);
    if code != Done {
      return;
    }
    assert Parent(stage) == output;
    var made := fs.Mkdir(stage, faults);
    if !made {
      return IoError;
    }
    EmptyStage(t, stage);
    code := FillStage(fs, stage, entries, faults, t);
    StageOutside(t, t[stage := Dir], fs.tree, stage);
    code := PublishStage(fs, output, entries, tops, temp, code, faults, undo, t);
  }

  // scanTarGz: the first pass over the archive checks each header as it is read.
  method ScanTarGz(fs: FileSystem, output: Path, entries: seq<Entry>, faults: bool) returns (code: Code, tops: seq<string>)
    requires fs.Valid()
    ensures code == Done ==> ValidArchive(fs.tree, output, entries)
    ensures code == Done ==> Batch.SortedNames(tops) && forall top :: top in tops <==> top in Tops(entries)
    ensures !faults && ValidArchive(fs.tree, output, entries) ==> code == Done
    ensures code == UnsupportedType ==> exists i :: 0 <= i < |entries| && entries[i].kind.Unsupported?
    ensures code == LimitExceeded ==> |entries| > 10000 || TotalSize(entries) > 0x8000_0000
    ensures code == InvalidPath ==> exists i :: 0 <= i < |entries| && ArchivePath(entries[i].name).None?
    ensures code == DestinationExists ==> exists top :: top in Tops(entries) && output + [top] in fs.tree
  {
    hide ArchivePath, TopLevelName, Batch.SortedNames, TotalSize;
    NoTotal(entries);
    tops := [];
    var total := 0;
    var k := 0;
    while k < |entries|
      invariant 0 <= k <= |entries|
      invariant total == TotalSize(entries[..k]) <= MAX_BYTES && k <= MAX_ENTRIES
      invariant forall i | 0 <= i < k :: !entries[i].kind.Unsupported?
    {
      TotalGrows(entries, k);
      var unreadable: bool := *;
      if unreadable && faults {
        return IoError, tops;
      }
      if k + 1 > MAX_ENTRIES || entries[k].size > MAX_BYTES || total > MAX_BYTES - entries[k].size {
        return LimitExceeded, tops;
      }
      total := total + entries[k].size;
      if entries[k].kind.Unsupported? {
        return UnsupportedType, tops;
      }
      k := k + 1;
    }
    assert entries[..k] == entries;
    code, tops := PreflightExtractionTargets(fs, output, entries);
  }

  // The second pass of extractTarGz, which checks every header once more before extracting it.
  method FillFromTar(fs: FileSystem, stage: Path, entries: seq<Entry>, faults: bool, ghost t: Tree) returns (code: Code)
    requires fs.Valid() && Filled(t, fs.tree, stage, [])
    requires forall i | 0 <= i < |entries| :: ArchivePath(entries[i].name).Some?
    modifies fs
    ensures fs.Valid() && SameOutside(old(fs.tree), fs.tree, stage)
    ensures code == Done ==> Filled(t, fs.tree, stage, entries) && ClashFree(entries)
    ensures !faults && WithinLimits(entries) ==> (code == Done <==> ClashFree(entries))
  {
    hide ArchivePath, Filled, WellFormed, ClashFree, TotalSize, SameOutside;
    NothingOutside(fs.tree, stage);
    NoTotal(entries);
    ghost var first := fs.tree;
    var total := 0;
    var k := 0;
    NothingClashes();
    assert entries[..0] == [];
    while k < |entries|
      invariant 0 <= k <= |entries| && fs.Valid() && SameOutside(first, fs.tree, stage)
      invariant Filled(t, fs.tree, stage, entries[..k]) && ClashFree(entries[..k])
      invariant total == TotalSize(entries[..k])
    {
      assert entries[..k + 1] == entries[..k] + [entries[k]];
      TotalGrows(entries, k);
      if k + 1 > MAX_ENTRIES || entries[k].size > MAX_BYTES || total > MAX_BYTES - entries[k].size {
        return LimitExceeded;
      }
      total := total + entries[k].size;
      if entries[k].kind.Unsupported? {
        return UnsupportedType;
      }
      ClashFreePrefix(entries, k + 1);
      ghost var before := fs.tree;
      code := ExtractEntry(fs, stage, entries[k], faults, t, entries[..k]);
      StageOutside(first, before, fs.tree, stage);
      if code != Done {
        return;
      }
      k := k + 1;
    }
    assert entries[..k] == entries;
    code := Done;
  }

  lemma NothingOutside(t: Tree, stage: Path)
    ensures SameOutside(t, t, stage)
  {
  }

  // extractTarGz, whose two passes read the same file.
  method ExtractTarGz(fs: FileSystem, output: Path, entries: seq<Entry>, temp: string, faults: bool, undo: bool)
    returns (code: Code)
    requires fs.Valid() && IsDir(fs.tree, output) && output + [temp] !in fs.tree
    modifies fs
    ensures fs.Valid()
    ensures code == Done ==> ValidArchive(old(fs.tree), output, entries) && ClashFree(entries) && temp !in Tops(entries)
    ensures code == Done ==> Extracted(old(fs.tree), Removed(fs.tree, output + [temp]), output, entries)
    ensures code == Done ==> StageIsEmpty(fs.tree, output + [temp])
    ensures code == Done && undo ==> Extracted(old(fs.tree), fs.tree, output, entries)
    // What must not be extracted changes nothing.
    ensures |entries| > 10000 || TotalSize(entries) > 0x8000_0000 ==> code != Done && fs.tree == old(fs.tree)
    ensures forall i | 0 <= i < |entries| && entries[i].kind.Unsupported? :: code != Done && fs.tree == old(fs.tree)
    ensures forall i | 0 <= i < |entries| && ArchivePath(entries[i].name).None? :: code != Done && fs.tree == old(fs.tree)
    ensures code != Done ==> PartlyExtracted(old(fs.tree), fs.tree, output, temp, entries)
    ensures code != Done && undo ==> fs.tree == old(fs.tree)
    ensures !faults && temp !in Tops(entries) ==>
              (code == Done <==> ValidArchive(old(fs.tree), output, entries) && ClashFree(entries))
  {
    hide Filled, Extracted, PartlyExtracted, StageIsEmpty, Removed, ClashFree, ArchivePath, Tops, WellFormed, SameOutside;
    hide Batch.SortedNames, TotalSize;
    ghost var t := fs.tree;
    var stage := output + [temp];
    NothingOutside(t, stage);
    NothingExtracted(t, t, output, temp, entries);
    var tops;
    code, tops := ScanTarGz(fs, output, entries, faults);
    if code != Done {
      return;
    }
    assert Parent(stage) == output;
    var made := fs.Mkdir(stage, faults);
    if !made {
      return IoError;
    }
    EmptyStage(t, stage);
    code := FillFromTar(fs, stage, entries, faults, t);
    StageOutside(t, t[stage := Dir], fs.tree, stage);
    code := PublishStage(fs, output, entries, tops, temp, code, faults, undo, t);
  }

  lemma EmptyStage(t: Tree, stage: Path)
    requires WellFormed(t) && stage !in t
    ensures Filled(t, t[stage := Dir], stage, []) && SameOutside(t, t[stage := Dir], stage)
  {
    NothingBelowAbsent(t, stage);
    assert Under(stage, stage);
  }

  lemma StageOutside(t: Tree, u: Tree, v: Tree, stage: Path)
    requires SameOutside(t, u, stage) && SameOutside(u, v, stage)
    ensures SameOutside(t, v, stage)
  {
    forall p | !Under(stage, p) ensures Lookup(t, p) == Lookup(v, p) {
      assert Lookup(t, p) == Lookup(u, p);
    }
  }

  lemma PromotionHolds(t: Tree, u: Tree, v: Tree, output: Path, temp: string, entries: seq<Entry>, tops: seq<string>)
    requires WellFormed(t) && output + [temp] !in t && Filled(t, u, output + [temp], entries)
    requires ValidArchive(t, output, entries)
    requires (forall top :: top in tops <==> top in Tops(entries)) && temp !in tops
    requires Batch.Moved(u, v, output + [temp], output, Batch.Names(AsItems(tops)))
    ensures Promoted(t, u, v, output, temp, entries, Batch.Names(AsItems(tops)))
  {
    hide EntryAt, Tops, ArchivePath, Filled, Batch.Moved, WellFormed;
    ItemNames(tops);
    forall rel | EntryAt(entries, rel).Some? ensures rel != [] && rel[0] in Batch.Names(AsItems(tops)) {
      TopsOfEntry(entries, rel);
    }
  }
}
