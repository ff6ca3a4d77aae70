// The embedded web manifest: what it must satisfy to be served, and the walk over static imports
// that collects the stylesheets of the entry page (web.go).
module WebAssets {
  import Collections
  import Paths

  datatype Entry = Entry(file: string, css: seq<string>, assets: seq<string>, imports: seq<string>,
                         dynamicImports: seq<string>, isEntry: bool)
  type Manifest = map<string, Entry>

  const INDEX := "index.html"

  // ----- Accepting a manifest -----

  predicate SafeWebAssetPath(value: string) {
    && value != "" && value[0] != '/' && '\\' !in value && '\0' !in value
    && var cleaned := Paths.Clean(value);
       cleaned == value && cleaned != "." && !("../" <= cleaned)
  }

  predicate Ordinary(segment: string) { segment != "" && segment != "." && segment != ".." }

  // Exactly the relative paths of ordinary segments pass, and ".." itself.
  lemma SafePathsExactly(value: string)
    ensures SafeWebAssetPath(value) <==>
            '\\' !in value && '\0' !in value && (value == ".." || forall part | part in Paths.Split(value) :: Ordinary(part))
  {
    if SafeWebAssetPath(value) {
      SafeIsOrdinary(value);
    }
    if '\\' !in value && '\0' !in value {
      if value == ".." {
        Paths.SplitSlashFree(value);
        Paths.ReduceFixed([".."]);
      } else if forall part | part in Paths.Split(value) :: Ordinary(part) {
        OrdinaryStays(value);
      }
    }
  }

  lemma SafeIsOrdinary(value: string)
    requires SafeWebAssetPath(value)
    ensures value == ".." || forall part | part in Paths.Split(value) :: Ordinary(part)
  {
    var parts := Paths.Split(value);
    var reduced := Paths.Reduce(parts);
    Paths.ReduceIsReduced(parts);
    assert reduced != [];
    forall i | 0 <= i < |reduced| ensures Paths.SlashFree(reduced[i]) {
      assert reduced[i] in parts;
    }
    Paths.SplitJoin(reduced);
    if reduced[0] == ".." {
      StartsWithParent(reduced);
    } else {
      Paths.AllOrdinary(reduced);
    }
  }

  lemma StartsWithParent(parts: seq<string>)
    requires parts != [] && parts[0] == ".."
    ensures if |parts| == 1 then Paths.Join(parts) == ".." else "../" <= Paths.Join(parts)
  {
  }

  lemma FirstPart(value: string)
    ensures value == "" || value[0] == '/' ==> Paths.Split(value)[0] == ""
    ensures value == "." ==> Paths.Split(value)[0] == "."
    ensures "../" <= value ==> Paths.Split(value)[0] == ".."
  {
    if "../" <= value {
      Paths.SplitPrefix("..", value[3..]);
      assert value == ".." + "/" + value[3..];
    } else if value == "." {
      Paths.SplitSlashFree(value);
    }
  }

  lemma OrdinaryStays(value: string)
    requires forall part | part in Paths.Split(value) :: Ordinary(part)
    ensures Paths.Clean(value) == value && value != "" && value[0] != '/' && value != "." && !("../" <= value)
  {
    var parts := Paths.Split(value);
    assert forall i | 0 <= i < |parts| :: parts[i] in parts;
    assert Paths.Reduced(parts);
    Paths.ReduceFixed(parts);
    Paths.JoinSplit(value);
    FirstPart(value);
  }

  predicate SafeManifestName(value: string) { value == INDEX || SafeWebAssetPath(value) }

  function Elements(s: seq<string>): set<string> { set x | x in s }

  // The files an entry makes public.
  function FilesOf(e: Entry): set<string> { {e.file} + Elements(e.css) + Elements(e.assets) }

  predicate AllSafe(paths: seq<string>) { forall p | p in paths :: SafeWebAssetPath(p) }

  predicate EntryAccepted(manifest: Manifest, name: string, e: Entry) {
    && name != "" && SafeManifestName(name) && SafeWebAssetPath(e.file)
    && AllSafe(e.css) && AllSafe(e.assets)
    && forall i | i in e.imports + e.dynamicImports :: SafeManifestName(i) && i in manifest
  }

  // A file is public when some entry of the manifest names it.
  ghost predicate Public(manifest: Manifest, file: string) {
    exists name :: name in manifest && file in FilesOf(manifest[name])
  }

  ghost predicate Servable(manifest: Manifest, present: set<string>) {
    && INDEX in manifest
    && (forall name | name in manifest :: EntryAccepted(manifest, name, manifest[name]))
    && (forall name | name in manifest :: manifest[name].isEntry <==> name == INDEX)
    && (forall name | name in manifest :: FilesOf(manifest[name]) <= present)
  }

  lemma NoElements()
    ensures Elements([]) == {}
  {
  }

  lemma OneMoreElement(s: seq<string>, i: nat)
    requires i < |s|
    ensures Elements(s[..i + 1]) == Elements(s[..i]) + {s[i]}
  {
    assert s[..i + 1] == s[..i] + [s[i]];
  }

  // The checks of loadWebAssets on one list of files.
  method CheckPaths(paths: seq<string>, before: set<string>) returns (ok: bool, public: set<string>)
    ensures ok <==> AllSafe(paths)
    ensures ok ==> public == before + Elements(paths)
  {
    hide SafeWebAssetPath, Elements;
    NoElements();
    assert paths[..0] == [];
    public := before;
    for i := 0 to |paths|
      invariant forall k | 0 <= k < i :: SafeWebAssetPath(paths[k])
      invariant public == before + Elements(paths[..i])
    {
      if !SafeWebAssetPath(paths[i]) {
        return false, public;
      }
      OneMoreElement(paths, i);
      public := public + {paths[i]};
    }
    assert paths[..|paths|] == paths;
    ok := true;
  }

  method CheckEntry(manifest: Manifest, name: string, e: Entry, before: set<string>) returns (ok: bool, public: set<string>)
    ensures ok <==> EntryAccepted(manifest, name, e)
    ensures ok ==> public == before + FilesOf(e)
  {
    hide SafeWebAssetPath, Elements, AllSafe;
    public := before;
    if name == "" || !SafeManifestName(name) || !SafeWebAssetPath(e.file) {
      return false, public;
    }
    public := public + {e.file};
    ok, public := CheckPaths(e.css, public);
    if !ok {
      return;
    }
    ok, public := CheckPaths(e.assets, public);
    if !ok {
      return;
    }
    var imports := e.imports + e.dynamicImports;
    for i := 0 to |imports|
      invariant forall k | 0 <= k < i :: SafeManifestName(imports[k]) && imports[k] in manifest
    {
      if !SafeManifestName(imports[i]) || imports[i] !in manifest {
        return false, public;
      }
    }
  }

  // What the loop over the entries has established once it has seen those in `done`.
  ghost predicate Checked(manifest: Manifest, done: set<string>, entries: set<string>, public: set<string>) {
    && done <= manifest.Keys
    && entries == (set name | name in done && manifest[name].isEntry)
    && (forall name | name in done :: EntryAccepted(manifest, name, manifest[name]) && FilesOf(manifest[name]) <= public)
    && forall file | file in public :: exists name :: name in done && file in FilesOf(manifest[name])
  }

  lemma CheckedOneMore(manifest: Manifest, done: set<string>, entries: set<string>, public: set<string>, name: string)
    requires Checked(manifest, done, entries, public)
    requires name in manifest && EntryAccepted(manifest, name, manifest[name])
    ensures var one := if manifest[name].isEntry then {name} else {};
            Checked(manifest, done + {name}, entries + one, public + FilesOf(manifest[name]))
  {
    hide EntryAccepted, FilesOf;
    var more := public + FilesOf(manifest[name]);
    forall file | file in more ensures exists n :: n in done + {name} && file in FilesOf(manifest[n]) {
      if file in public {
        var n :| n in done && file in FilesOf(manifest[n]);
        assert n in done + {name};
      } else {
        assert name in done + {name};
      }
    }
  }

  // After the loop, the remaining tests decide exactly whether the manifest is servable.
  lemma CheckedAll(manifest: Manifest, entries: set<string>, public: set<string>, present: set<string>)
    requires Checked(manifest, manifest.Keys, entries, public) && INDEX in manifest && manifest[INDEX].isEntry
    ensures Servable(manifest, present) <==> |entries| == 1 && public <= present
    ensures forall file :: file in public <==> Public(manifest, file)
  {
    hide EntryAccepted, FilesOf;
    assert INDEX in entries;
    if |entries| == 1 {
      Collections.SubsetOfSameSize({INDEX}, entries);
    }
    if |entries| == 1 && public <= present {
      forall name | name in manifest ensures manifest[name].isEntry <==> name == INDEX {
        assert name in entries <==> manifest[name].isEntry;
      }
      assert Servable(manifest, present);
    }
    if Servable(manifest, present) {
      assert entries == {INDEX};
      assert |{INDEX}| == 1;
      forall file | file in public ensures file in present {
        var name :| name in manifest.Keys && file in FilesOf(manifest[name]);
      }
    }
  }

  // A path of ordinary segments, or "..".
  predicate Tame(path: string) {
    '\\' !in path && '\0' !in path && (path == ".." || forall part | part in Paths.Split(path) :: Ordinary(part))
  }

  // The same in full: which paths, names and imports an accepted manifest may hold.
  ghost predicate InOrder(manifest: Manifest, present: set<string>) {
    && "index.html" in manifest
    && forall name | name in manifest ::
         && (name == "index.html" <==> manifest[name].isEntry)
         && (name == "index.html" || Tame(name))
         && (forall file | file == manifest[name].file || file in manifest[name].css || file in manifest[name].assets ::
               Tame(file) && file in present)
         && forall i | i in manifest[name].imports || i in manifest[name].dynamicImports ::
              i in manifest && (i == "index.html" || Tame(i))
  }

  lemma EntryInFull(manifest: Manifest, name: string, e: Entry, present: set<string>)
    ensures EntryAccepted(manifest, name, e) && FilesOf(e) <= present <==>
              && name != "" && (name == "index.html" || Tame(name))
              && (forall file | file == e.file || file in e.css || file in e.assets :: Tame(file) && file in present)
              && forall i | i in e.imports || i in e.dynamicImports :: i in manifest && (i == "index.html" || Tame(i))
  {
    hide SafeWebAssetPath, Tame;
    forall path ensures SafeWebAssetPath(path) <==> Tame(path) {
      TameIsSafe(path);
    }
    assert forall i :: i in e.imports + e.dynamicImports <==> i in e.imports || i in e.dynamicImports;
    assert forall file :: file in FilesOf(e) <==> file == e.file || file in e.css || file in e.assets;
  }

  lemma TameIsSafe(path: string)
    ensures SafeWebAssetPath(path) <==> Tame(path)
  {
    SafePathsExactly(path);
  }

  lemma ServableInFull(manifest: Manifest, present: set<string>)
    ensures Servable(manifest, present) <==> InOrder(manifest, present)
  {
    hide EntryAccepted, FilesOf, Tame;
    TameIsNotEmpty();
    forall name | name in manifest
      ensures EntryAccepted(manifest, name, manifest[name]) && FilesOf(manifest[name]) <= present <==>
                && name != "" && (name == "index.html" || Tame(name))
                && (forall file | file == manifest[name].file || file in manifest[name].css || file in manifest[name].assets ::
                      Tame(file) && file in present)
                && forall i | i in manifest[name].imports || i in manifest[name].dynamicImports ::
                     i in manifest && (i == "index.html" || Tame(i))
    {
      EntryInFull(manifest, name, manifest[name], present);
    }
  }

  lemma TameIsNotEmpty()
    ensures !Tame("")
  {
    Paths.SplitSlashFree("");
    assert "" in Paths.Split("") && !Ordinary("");
  }

  // loadWebAssets after decoding. It accepts exactly the servable manifests, whatever order the
  // entries come in, and the public files are then exactly those the entries name.
  method LoadWebAssets(manifest: Manifest, present: set<string>) returns (ok: bool, public: set<string>)
    ensures ok <==> Servable(manifest, present)
    ensures ok <==> InOrder(manifest, present)
    ensures ok ==> forall file :: file in public <==> Public(manifest, file)
  {
    hide EntryAccepted, FilesOf, SafeWebAssetPath, Checked, InOrder, Public;
    ServableInFull(manifest, present);
    public := {};
    UnsafeIndex(manifest);
    if INDEX !in manifest || !manifest[INDEX].isEntry || !SafeWebAssetPath(manifest[INDEX].file) {
      return false, public;
    }
    var pending, entries: set<string> := manifest.Keys, {};
    NothingChecked(manifest);
    while pending != {}
      invariant pending <= manifest.Keys
      invariant Checked(manifest, manifest.Keys - pending, entries, public)
    {
      var name :| name in pending;
      var accepted, more := CheckEntry(manifest, name, manifest[name], public);
      if !accepted {
        return false, public;
      }
      CheckedOneMore(manifest, manifest.Keys - pending, entries, public, name);
      assert manifest.Keys - (pending - {name}) == manifest.Keys - pending + {name};
      entries := entries + if manifest[name].isEntry then {name} else {};
      pending, public := pending - {name}, more;
    }
    assert manifest.Keys - pending == manifest.Keys;
    CheckedAll(manifest, entries, public, present);
    ok := |entries| == 1 && public <= present;
  }

  lemma NothingChecked(manifest: Manifest)
    ensures Checked(manifest, manifest.Keys - manifest.Keys, {}, {})
  {
  }

  lemma UnsafeIndex(manifest: Manifest)
    ensures INDEX in manifest && !SafeWebAssetPath(manifest[INDEX].file) ==> !EntryAccepted(manifest, INDEX, manifest[INDEX])
  {
  }

  // ----- Walking the imports -----

  predicate Imports(manifest: Manifest, importer: string, imported: string) {
    importer in manifest && imported in manifest[importer].imports
  }

  // A chain of static imports that starts at an entry.
  ghost predicate ImportPath(manifest: Manifest, e: Entry, path: seq<string>) {
    && (path != [] ==> path[0] in e.imports)
    && forall j, k | 0 <= j < k == j + 1 < |path| :: Imports(manifest, path[j], path[k])
  }

  ghost predicate Reachable(manifest: Manifest, e: Entry, name: string) {
    exists path :: path != [] && path[|path| - 1] == name && ImportPath(manifest, e, path)
  }

  // The module at the end of a path; the entry itself when the path is empty.
  ghost function Module(manifest: Manifest, e: Entry, path: seq<string>): Entry {
    if path != [] && path[|path| - 1] in manifest then manifest[path[|path| - 1]] else e
  }

  // The walk up to now: the import paths of the modules whose stylesheets have been emitted.
  ghost predicate Emitted(order: seq<seq<string>>, name: string) {
    exists k :: 0 <= k < |order| && order[k] != [] && order[k][|order[k]| - 1] == name
  }

  // The k-th emission: a chain of imports leads there, nothing was emitted twice, and everything
  // the module imports came earlier unless it lies on that very chain.
  ghost predicate Settled(manifest: Manifest, e: Entry, order: seq<seq<string>>, k: nat)
    requires k < |order|
  {
    var path := order[k];
    && ImportPath(manifest, e, path)
    && (path != [] ==> path[|path| - 1] in manifest && !Emitted(order[..k], path[|path| - 1]))
    && forall i | i in Module(manifest, e, path).imports && i in manifest :: i in path || Emitted(order[..k], i)
  }

  ghost function StylesOf(manifest: Manifest, e: Entry, order: seq<seq<string>>): seq<string> {
    if order == [] then []
    else StylesOf(manifest, e, order[..|order| - 1]) + Module(manifest, e, order[|order| - 1]).css
  }

  lemma {:induction false} StylesComeFromModules(manifest: Manifest, e: Entry, order: seq<seq<string>>, x: string)
    ensures x in StylesOf(manifest, e, order) <==> exists k :: 0 <= k < |order| && x in Module(manifest, e, order[k]).css
  {
    if order != [] {
      var n := |order| - 1;
      StylesComeFromModules(manifest, e, order[..n], x);
      if k :| 0 <= k < |order| && x in Module(manifest, e, order[k]).css {
        assert k < n ==> order[..n][k] == order[k];
      }
      if k :| 0 <= k < n && x in Module(manifest, e, order[..n][k]).css {
        assert x in Module(manifest, e, order[k]).css;
      }
      assert x in StylesOf(manifest, e, order) <==> x in StylesOf(manifest, e, order[..n]) || x in Module(manifest, e, order[n]).css;
    }
  }

  // A path through i to a module that imports i shows a cycle at i.
  lemma CycleThrough(manifest: Manifest, e: Entry, path: seq<string>, i: string)
    requires ImportPath(manifest, e, path) && i in path && Imports(manifest, path[|path| - 1], i) && i in manifest
    ensures Reachable(manifest, manifest[i], i)
  {
    var t :| 0 <= t < |path| && path[t] == i;
    var cycle := path[t + 1..] + [i];
    forall a, b | 0 <= a < b == a + 1 < |cycle| ensures Imports(manifest, cycle[a], cycle[b]) {
      assert cycle[a] == path[t + 1 + a];
      assert b < |cycle| - 1 ==> cycle[b] == path[t + 2 + a];
    }
    assert t + 1 < |path| ==> Imports(manifest, path[t], path[t + 1]);
    assert ImportPath(manifest, manifest[i], cycle) && cycle[|cycle| - 1] == i;
  }

  // Outside import cycles, an imported module's styles come before its importer's.
  lemma ImportedFirst(manifest: Manifest, e: Entry, order: seq<seq<string>>, k: nat, i: string)
    requires k < |order| && Settled(manifest, e, order, k)
    requires i in Module(manifest, e, order[k]).imports && i in manifest
    requires !Reachable(manifest, manifest[i], i)
    ensures Emitted(order[..k], i)
  {
    if i in order[k] {
      CycleThrough(manifest, e, order[k], i);
    }
  }

  class Walker {
    const manifest: Manifest
    const entry: Entry
    var seen: set<string>
    var styles: seq<string>
    ghost var order: seq<seq<string>>

    constructor (manifest: Manifest, entry: Entry)
      ensures Valid() && seen == {} && styles == [] && order == []
      ensures this.manifest == manifest && this.entry == entry
    {
      this.manifest, this.entry := manifest, entry;
      seen, styles, order := {}, [], [];
    }

    ghost predicate Valid()
      reads this
    {
      && (forall name | name in seen :: Reachable(manifest, entry, name))
      && (forall name | Emitted(order, name) :: name in seen)
      && (forall k | 0 <= k < |order| :: Settled(manifest, entry, order, k))
      && (forall k | 0 <= k < |order| :: forall i | i in Module(manifest, entry, order[k]).imports :: i in seen)
      && styles == StylesOf(manifest, entry, order)
    }

    // Every module seen so far has been emitted or is on the way to being so.
    ghost predicate UnderWay(path: seq<string>)
      reads this
    {
      forall name | name in seen && name in manifest :: name in path || Emitted(order, name)
    }

    // What a call for the module at the end of `path` may rely on.
    ghost predicate Ready(e: Entry, path: seq<string>)
      reads this
    {
      && Valid() && UnderWay(path)
      && ImportPath(manifest, entry, path) && e == Module(manifest, entry, path)
      && (forall name | name in path :: name in seen)
      && (path != [] ==> path[|path| - 1] in manifest && !Emitted(order, path[|path| - 1]))
    }

    // The closure `add` of resolveEntryAssets.
    method Add(e: Entry, ghost path: seq<string>)
      requires Ready(e, path)
      modifies this
      ensures Valid() && old(seen) <= seen && old(order) <= order && |old(order)| < |order|
      ensures order[|order| - 1] == path && UnderWay(path) && (path != [] ==> Emitted(order, path[|path| - 1]))
      ensures forall name | name in old(seen) && (path == [] || name != path[|path| - 1]) :: Emitted(order, name) ==> Emitted(old(order), name)
      decreases manifest.Keys - seen, 1
    {
      hide Settled, ImportPath, Module, Reachable, StylesOf;
      for idx := 0 to |e.imports|
        invariant Ready(e, path) && old(seen) <= seen && old(order) <= order
        invariant forall j | 0 <= j < idx :: e.imports[j] in seen
        invariant forall name | name in old(seen) :: Emitted(order, name) ==> Emitted(old(order), name)
      {
        var imported := e.imports[idx];
        if imported !in seen {
          Visit(e, path, imported);
        }
      }
      Emit(e, path);
    }

    // The body of the loop of `add` for an import not seen before.
    method Visit(e: Entry, ghost path: seq<string>, imported: string)
      requires Ready(e, path) && imported in e.imports && imported !in seen
      modifies this
      ensures Ready(e, path) && old(seen) <= seen && old(order) <= order && imported in seen
      ensures forall name | name in old(seen) :: Emitted(order, name) ==> Emitted(old(order), name)
      decreases manifest.Keys - seen, 0
    {
      hide Settled, StylesOf, Emitted, ImportPath, Reachable, Module;
      ghost var chain := path + [imported];
      ImportExtends(manifest, entry, path, imported);
      seen := seen + {imported};
      if imported in manifest {
        assert chain[|chain| - 1] == imported;
        Add(manifest[imported], chain);
      }
    }

    // The end of `add`: the module's own stylesheets, after those of its imports.
    method Emit(e: Entry, ghost path: seq<string>)
      requires Ready(e, path)
      requires forall i | i in e.imports :: i in seen
      modifies this`styles, this`order
      ensures Valid() && order == old(order) + [path] && UnderWay(path)
    {
      hide ImportPath, Reachable, Settled, Emitted, Module;
      SettlesNext(manifest, entry, order, seen, path);
      EmittedOneMore(order, path);
      assert (order + [path])[..|order|] == order;
      order := order + [path];
      styles := styles + e.css;
    }
  }

  // Emitting the module at the end of `path` settles it and leaves the earlier emissions settled.
  lemma SettlesNext(manifest: Manifest, e: Entry, order: seq<seq<string>>, seen: set<string>, path: seq<string>)
    requires forall k | 0 <= k < |order| :: Settled(manifest, e, order, k)
    requires ImportPath(manifest, e, path)
    requires path != [] ==> path[|path| - 1] in manifest && !Emitted(order, path[|path| - 1])
    requires forall i | i in Module(manifest, e, path).imports :: i in seen
    requires forall name | name in seen && name in manifest :: name in path || Emitted(order, name)
    ensures forall k | 0 <= k < |order| + 1 :: Settled(manifest, e, order + [path], k)
  {
    hide ImportPath, Emitted, Module;
    var more := order + [path];
    forall k | 0 <= k < |more| ensures Settled(manifest, e, more, k) {
      assert more[..k] == order[..k];
      assert order[..|order|] == order;
      assert k < |order| ==> more[k] == order[k] && Settled(manifest, e, order, k);
    }
  }

  lemma ImportExtends(manifest: Manifest, e: Entry, path: seq<string>, imported: string)
    requires ImportPath(manifest, e, path) && imported in Module(manifest, e, path).imports
    requires path != [] ==> path[|path| - 1] in manifest
    ensures ImportPath(manifest, e, path + [imported]) && Reachable(manifest, e, imported)
    ensures imported in manifest ==> Module(manifest, e, path + [imported]) == manifest[imported]
  {
    var chain := path + [imported];
    assert ImportPath(manifest, e, chain) && chain[|chain| - 1] == imported;
  }

  lemma EmittedOneMore(order: seq<seq<string>>, path: seq<string>)
    ensures forall name :: Emitted(order + [path], name) <==>
              Emitted(order, name) || (path != [] && path[|path| - 1] == name)
  {
    var more := order + [path];
    forall name | Emitted(order, name) ensures Emitted(more, name) {
      var k :| 0 <= k < |order| && order[k] != [] && order[k][|order[k]| - 1] == name;
      assert more[k] == order[k];
    }
    if path != [] {
      assert more[|order|] == path;
    }
  }

  // A set of modules closed under static imports holds everything reachable.
  lemma {:induction false} ClosedHoldsReachable(manifest: Manifest, e: Entry, seen: set<string>, path: seq<string>)
    requires forall i | i in e.imports :: i in seen
    requires forall a, b | a in seen && Imports(manifest, a, b) :: b in seen
    requires ImportPath(manifest, e, path) && path != []
    ensures path[|path| - 1] in seen
  {
    var n := |path| - 1;
    if n > 0 {
      ClosedHoldsReachable(manifest, e, seen, path[..n]);
      assert Imports(manifest, path[n - 1], path[n]);
    }
  }

  // ----- Removing duplicates -----

  function FirstOccurrences(paths: seq<string>): seq<string> {
    if paths == [] then []
    else
      var init, last := FirstOccurrences(paths[..|paths| - 1]), paths[|paths| - 1];
      if last in init then init else init + [last]
  }

  ghost predicate NoDuplicates(s: seq<string>) {
    forall i, j | 0 <= i < j < |s| :: s[i] != s[j]
  }

  function FirstIndex(s: seq<string>, x: string): (i: nat)
    requires x in s
    ensures i < |s| && s[i] == x && x !in s[..i]
  {
    if s[0] == x then 0 else 1 + FirstIndex(s[1..], x)
  }

  lemma FirstIndexUnique(s: seq<string>, x: string, i: nat)
    requires i < |s| && s[i] == x && x !in s[..i]
    ensures FirstIndex(s, x) == i
  {
    var k := FirstIndex(s, x);
    assert forall j | 0 <= j < i :: s[..i][j] == s[j] && s[..i][j] in s[..i];
    assert forall j | 0 <= j < k :: s[..k][j] == s[j] && s[..k][j] in s[..k];
  }

  // Each path stays exactly once, in the order in which the paths first occur.
  lemma {:induction false} FirstOccurrencesAre(paths: seq<string>)
    ensures var r := FirstOccurrences(paths);
            && NoDuplicates(r)
            && (forall x :: x in r <==> x in paths)
            && forall i, j | 0 <= i < j < |r| :: FirstIndex(paths, r[i]) < FirstIndex(paths, r[j])
  {
    var r := FirstOccurrences(paths);
    if paths != [] {
      var n := |paths| - 1;
      var before, last := paths[..n], paths[n];
      FirstOccurrencesAre(before);
      var init := FirstOccurrences(before);
      assert paths == before + [last];
      forall x | x in before ensures FirstIndex(paths, x) == FirstIndex(before, x) < n {
        var k := FirstIndex(before, x);
        assert paths[..k] == before[..k];
        FirstIndexUnique(paths, x, k);
      }
      if last !in before {
        FirstIndexUnique(paths, last, n);
      }
      forall i, j | 0 <= i < j < |r| ensures FirstIndex(paths, r[i]) < FirstIndex(paths, r[j]) {
        assert r[i] == init[i] && init[i] in before;
      }
    }
  }

  method UniqueAssetPaths(paths: seq<string>) returns (unique: seq<string>)
    ensures unique == FirstOccurrences(paths)
  {
    var seen: set<string> := {};
    unique := [];
    for i := 0 to |paths|
      invariant unique == FirstOccurrences(paths[..i])
      invariant forall x :: x in seen <==> x in unique
    {
      assert paths[..i + 1][..i] == paths[..i];
      if paths[i] !in seen {
        seen := seen + {paths[i]};
        unique := unique + [paths[i]];
      }
    }
    assert paths[..|paths|] == paths;
  }

  // ----- The entry's assets -----

  // The stylesheets of the entry and of every module it reaches by static imports.
  ghost predicate Needed(manifest: Manifest, e: Entry, x: string) {
    x in e.css || exists name :: name in manifest && Reachable(manifest, e, name) && x in manifest[name].css
  }

  // The whole walk: `order` is the entry last, after every reachable module exactly once.
  ghost predicate CompleteWalk(manifest: Manifest, e: Entry, order: seq<seq<string>>) {
    && (forall k | 0 <= k < |order| :: Settled(manifest, e, order, k))
    && |order| > 0 && order[|order| - 1] == []
    && forall name | name in manifest :: Reachable(manifest, e, name) <==> Emitted(order, name)
  }

  lemma WalkEmitsNeeded(manifest: Manifest, e: Entry, order: seq<seq<string>>, x: string)
    requires CompleteWalk(manifest, e, order)
    ensures x in StylesOf(manifest, e, order) <==> Needed(manifest, e, x)
  {
    StylesComeFromModules(manifest, e, order, x);
    if x in e.css {
      assert x in Module(manifest, e, order[|order| - 1]).css;
    }
    if name :| name in manifest && Reachable(manifest, e, name) && x in manifest[name].css {
      var k :| 0 <= k < |order| && order[k] != [] && order[k][|order[k]| - 1] == name;
      assert x in Module(manifest, e, order[k]).css;
    }
    if k :| 0 <= k < |order| && x in Module(manifest, e, order[k]).css {
      assert Settled(manifest, e, order, k);
      if order[k] != [] {
        assert Emitted(order, order[k][|order[k]| - 1]);
      }
    }
  }

  // resolveEntryAssets, for any manifest at all, cyclic or with unknown imports.
  method ResolveEntryAssets(manifest: Manifest, entry: Entry)
    returns (styles: seq<string>, scripts: seq<string>, ghost order: seq<seq<string>>)
    ensures scripts == [entry.file]
    ensures NoDuplicates(styles) && forall x :: x in styles <==> Needed(manifest, entry, x)
    ensures CompleteWalk(manifest, entry, order) && styles == FirstOccurrences(StylesOf(manifest, entry, order))
  {
    hide Settled, Needed;
    var walker := new Walker(manifest, entry);
    walker.Add(entry, []);
    order := walker.order;
    WalkIsComplete(walker);
    styles := UniqueAssetPaths(walker.styles);
    FirstOccurrencesAre(walker.styles);
    forall x ensures x in styles <==> Needed(manifest, entry, x) {
      WalkEmitsNeeded(manifest, entry, order, x);
    }
    scripts := [entry.file];
  }

  lemma SeenIsClosed(manifest: Manifest, e: Entry, order: seq<seq<string>>, seen: set<string>)
    requires forall k | 0 <= k < |order| :: forall i | i in Module(manifest, e, order[k]).imports :: i in seen
    requires forall name | name in seen && name in manifest :: Emitted(order, name)
    ensures forall a, b | a in seen && Imports(manifest, a, b) :: b in seen
  {
    forall a, b | a in seen && Imports(manifest, a, b) ensures b in seen {
      var k :| 0 <= k < |order| && order[k] != [] && order[k][|order[k]| - 1] == a;
      assert Module(manifest, e, order[k]) == manifest[a];
    }
  }

  lemma WalkIsComplete(walker: Walker)
    requires walker.Valid() && walker.UnderWay([])
    requires |walker.order| > 0 && walker.order[|walker.order| - 1] == []
    ensures CompleteWalk(walker.manifest, walker.entry, walker.order)
  {
    hide Settled, StylesOf;
    var manifest, e, order, seen := walker.manifest, walker.entry, walker.order, walker.seen;
    assert Module(manifest, e, order[|order| - 1]) == e;
    SeenIsClosed(manifest, e, order, seen);
    hide Module;
    forall name | name in manifest && Reachable(manifest, e, name) ensures Emitted(order, name) {
      var path :| path != [] && path[|path| - 1] == name && ImportPath(manifest, e, path);
      ClosedHoldsReachable(manifest, e, seen, path);
    }
  }

  // What an accepted bundle's page asks for is always served.
  lemma ResolvedIsPublic(manifest: Manifest, present: set<string>, x: string)
    requires Servable(manifest, present)
    requires Needed(manifest, manifest[INDEX], x) || x == manifest[INDEX].file
    ensures Public(manifest, x) && SafeWebAssetPath(x) && x in present
  {
    var e := manifest[INDEX];
    if x in e.css || x == e.file {
      assert x in FilesOf(e);
    } else {
      var name :| name in manifest && Reachable(manifest, e, name) && x in manifest[name].css;
      assert x in FilesOf(manifest[name]);
    }
  }
}
