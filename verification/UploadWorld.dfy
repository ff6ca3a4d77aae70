// Any number of uploads over one managed tree, each with its own private files, and everyone else.
// What UploadSafety says of one upload's runs holds for each of them in every run of all.
module UploadWorld {
  import opened UploadRecord
  import opened UploadProtocol
  import opened UploadSafety

  // What belongs to one upload alone.
  datatype Private = Private(record: Manifest, parts: map<int, Bytes>, temps: map<int, Bytes>)

  datatype World = World(uploads: seq<Private>, shared: Shared)

  datatype Event =
    | Own(index: nat, action: Action)
    | Others(after: Shared)

  function View(w: World, k: nat): Disk
    requires k < |w.uploads|
  {
    var p := w.uploads[k];
    Disk(p.record, p.parts, p.temps, w.shared)
  }

  function PrivateOf(d: Disk): Private { Private(d.record, d.parts, d.temps) }

  predicate Happens(c: Config, w: World, e: Event) {
    match e
    case Own(i, a) => i < |w.uploads| && !a.Environment? && Guard(c, View(w, i), a)
    case Others(after) =>
      WellFormed(after) && forall k | 0 <= k < |w.uploads| :: EnvironmentOk(w.uploads[k].record.meta, w.shared, after)
  }

  function Next(w: World, e: Event): World {
    match e
    case Own(i, a) =>
      if i < |w.uploads| then
        var d := Effect(View(w, i), a);
        World(w.uploads[i := PrivateOf(d)], d.shared)
      else w
    case Others(after) => w.(shared := after)
  }

  predicate WorldRun(c: Config, w: World, run: seq<Event>) {
    run == [] ||
    (WorldRun(c, w, run[..|run| - 1]) && Happens(c, Later(w, run[..|run| - 1]), run[|run| - 1]))
  }

  function Later(w: World, run: seq<Event>): World {
    if run == [] then w else Next(Later(w, run[..|run| - 1]), run[|run| - 1])
  }

  // What an event is to upload k: its own action, or something the others did.
  function SeenBy(w: World, e: Event, k: nat): Action {
    if e.Own? && e.index == k then e.action else Environment(Next(w, e).shared)
  }

  // The run as upload k lives through it.
  function Seen(w: World, run: seq<Event>, k: nat): seq<Action> {
    if run == [] then []
    else Seen(w, run[..|run| - 1], k) + [SeenBy(Later(w, run[..|run| - 1]), run[|run| - 1], k)]
  }

  // Different uploads, each in a consistent state.
  predicate WorldOk(c: Config, w: World) {
    && WellFormed(w.shared)
    && (forall k | 0 <= k < |w.uploads| :: StoreOk(c, View(w, k)))
    && forall j, k | 0 <= j < k < |w.uploads| :: w.uploads[j].record.meta.id != w.uploads[k].record.meta.id
  }

  // One event is one legal step of every upload's own protocol.
  lemma EventIsAStepOfEach(c: Config, w: World, e: Event, k: nat)
    requires WorldOk(c, w) && Happens(c, w, e) && k < |w.uploads|
    ensures Guard(c, View(w, k), SeenBy(w, e, k))
    ensures |Next(w, e).uploads| == |w.uploads| && View(Next(w, e), k) == Effect(View(w, k), SeenBy(w, e, k))
  {
    hide StoreOk, EnvironmentOk, WellFormed;
    if e.Own? && e.index != k {
      assert StoreOk(c, View(w, k)) && StoreOk(c, View(w, e.index));
      ValidRecordOf(c, View(w, k));
      ValidRecordOf(c, View(w, e.index));
      hide Effect, Guard;
      UploadsAreEachOthersEnvironment(c, View(w, e.index), e.action, View(w, k));
      EnvironmentIsAllTheySee(View(w, k), Effect(View(w, e.index), e.action).shared);
    }
  }

  lemma ValidRecordOf(c: Config, d: Disk)
    requires StoreOk(c, d)
    ensures ValidManifest(c, d.record) && WellFormed(d.shared)
  {
  }

  lemma EnvironmentIsAllTheySee(d: Disk, after: Shared)
    ensures Effect(d, Environment(after)) == d.(shared := after)
  {
  }

  lemma EventKeepsWorld(c: Config, w: World, e: Event)
    requires WorldOk(c, w) && Happens(c, w, e)
    ensures WorldOk(c, Next(w, e)) && |Next(w, e).uploads| == |w.uploads|
  {
    hide StoreOk, Happens, Guard, Effect, SeenBy, Next, WellFormed;
    var v := Next(w, e);
    forall k | 0 <= k < |w.uploads|
      ensures |v.uploads| == |w.uploads| && StoreOk(c, View(v, k)) && v.uploads[k].record.meta == w.uploads[k].record.meta
    {
      EventIsAStepOfEach(c, w, e, k);
      StepKeepsStore(c, View(w, k), SeenBy(w, e, k));
      StepNeverGoesBack(c, View(w, k), SeenBy(w, e, k));
    }
    TreeStaysWellFormed(c, w, e);
  }

  lemma TreeStaysWellFormed(c: Config, w: World, e: Event)
    requires WorldOk(c, w) && Happens(c, w, e)
    ensures WellFormed(Next(w, e).shared) && |Next(w, e).uploads| == |w.uploads|
  {
    if e.Own? {
      EventIsAStepOfEach(c, w, e, e.index);
      StepKeepsStore(c, View(w, e.index), e.action);
    }
  }

  // A run of all uploads is, for each of them, a run of its own protocol that ends in the same state.
  lemma {:induction false} RunOfAllIsARunOfEach(c: Config, w: World, run: seq<Event>, k: nat)
    requires WorldOk(c, w) && WorldRun(c, w, run) && k < |w.uploads|
    ensures WorldOk(c, Later(w, run)) && |Later(w, run).uploads| == |w.uploads|
    ensures RunOk(c, View(w, k), Seen(w, run, k))
    ensures After(View(w, k), Seen(w, run, k)) == View(Later(w, run), k)
  {
    hide WorldOk, Happens, Next, Guard, Effect, SeenBy;
    if run != [] {
      var before := run[..|run| - 1];
      var u, e := Later(w, before), run[|run| - 1];
      RunOfAllIsARunOfEach(c, w, before, k);
      EventIsAStepOfEach(c, u, e, k);
      EventKeepsWorld(c, u, e);
      var seen, a := Seen(w, before, k), SeenBy(u, e, k);
      assert Seen(w, run, k) == seen + [a] && (seen + [a])[..|seen|] == seen;
    }
  }

  // So whatever happens, no upload's record goes back, and every record stays one that was saved.
  lemma EachMovesOn(c: Config, w: World, run: seq<Event>, k: nat)
    requires WorldOk(c, w) && WorldRun(c, w, run) && k < |w.uploads|
    ensures |Later(w, run).uploads| == |w.uploads|
    ensures NoGoingBack(w.uploads[k].record, Later(w, run).uploads[k].record)
    ensures ValidManifest(c, Later(w, run).uploads[k].record)
  {
    hide Effect, Guard, StoreOk, WorldRun, Later, Seen;
    RunOfAllIsARunOfEach(c, w, run, k);
    var seen := Seen(w, run, k);
    LifecycleIsMonotone(c, View(w, k), seen, 0, |seen|);
    assert seen[..0] == [] && seen[..|seen|] == seen;
    ValidRecordOf(c, View(Later(w, run), k));
  }

  // And a published file stays what it is, whichever upload published it and whatever the others do.
  lemma PublishedStaysPublished(c: Config, w: World, run: seq<Event>, k: nat)
    requires WorldOk(c, w) && WorldRun(c, w, run) && k < |w.uploads|
    requires Dest(w.uploads[k].record.meta) in w.shared.names
    ensures SameFile(w.shared, Later(w, run).shared, Dest(w.uploads[k].record.meta))
  {
    hide Effect, Guard, StoreOk, WorldRun, Later, Seen;
    RunOfAllIsARunOfEach(c, w, run, k);
    var seen := Seen(w, run, k);
    DestinationIsPermanent(c, View(w, k), seen, 0, |seen|);
    assert seen[..0] == [] && seen[..|seen|] == seen;
  }
}
