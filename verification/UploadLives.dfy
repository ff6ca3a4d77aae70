// A stage name over the whole life of an upload id, through creation, operations, stops, recoveries and
// reaping, whole or half, and through a second life of the same id in the same directory (upload_store.go,
// upload_publish.go).
module UploadLives {
  import opened Paths
  import opened UploadRecord
  import opened UploadRecordSize
  import opened UploadProtocol
  import opened UploadSafety
  import opened UploadStore
  import opened UploadOutcomes
  import opened UploadStartUp
  import Uploads = UploadDirectory

  // Of a wrecked upload the directory is there, but no record or not every part the record needs.
  datatype Life = Gone(shared: Shared) | Alive(disk: Disk) | Wrecked(left: Upload, shared: Shared)

  // An operation is what one call does up to its end or to a stop inside it. While the upload does not
  // exist or is wrecked only others and the reaper are at work: nothing loads a missing record, every call
  // refuses an expired upload, and recovery refuses missing parts (WreckIsRefused).
  datatype Event =
    | Operation(run: seq<Action>)
    | Recovery(now: int)
    | Reaping(now: int)
    | HalfReaping(now: int, left: Upload)
    | Creation(record: Manifest)
    | HalfCreation(left: Upload)
    | Others(after: Shared)

  function Tree(l: Life): Shared { if l.Alive? then l.disk.shared else l.shared }

  // What is left of the upload's own directory.
  function Left(l: Life): Upload
    requires !l.Gone?
  {
    if l.Alive? then Uploads.Entry(l.disk.record.meta.id, Some(l.disk.record), l.disk.parts, l.disk.temps) else l.left
  }

  function Found(u: Upload, shared: Shared): Life {
    if Usable(u) then Alive(DiskOf(u, shared)) else Wrecked(u, shared)
  }

  // The reaper looks at the expiry alone, whatever the state.
  predicate Expired(l: Life, now: int) {
    !l.Gone? && Left(l).record.Some? && now >= Left(l).record.value.expiresAt
  }

  // Calls on a finished upload do nothing but finish its clean-up.
  predicate Restful(run: seq<Action>) {
    forall i | 0 <= i < |run| :: run[i].Environment? || run[i].PurgeParts?
  }

  predicate Possible(c: Config, stage: Name, l: Life, e: Event) {
    match e
    case Operation(run) =>
      l.Alive? && RunOk(c, l.disk, run) && (l.disk.record.state in {Completed, Cancelled} ==> Restful(run))
    case Recovery(now) => l.Alive? && RecoveryAccepts(c, l.disk) && now > 0
    case Reaping(now) => Expired(l, now)
    case HalfReaping(now, left) => Expired(l, now) && Uploads.PartlyRemoved(Left(l), left)
    case Creation(record) =>
      l.Gone? && ValidManifest(c, record) && record.state == Active && record.parts == map[] && Stage(record.meta) == stage
    // Create was stopped before its first save, or its clean-up failed.
    case HalfCreation(left) => l.Gone? && left.record.None?
    case Others(after) => !l.Alive? && WellFormed(after) && (stage in after.names <==> stage in l.shared.names)
  }

  function Next(c: Config, stage: Name, l: Life, e: Event): Life
    requires Possible(c, stage, l, e)
  {
    match e
    case Operation(run) => Alive(After(l.disk, run))
    case Recovery(now) => Alive(RecoveredDisk(c, l.disk, now))
    case Reaping(_) => Gone(Tree(l))
    case HalfReaping(_, left) => Found(left, Tree(l))
    case Creation(record) => Alive(Disk(record, map[], map[], l.shared))
    case HalfCreation(left) => Wrecked(left, l.shared)
    case Others(after) => l.(shared := after)
  }

  predicate LifeOk(c: Config, stage: Name, l: Life) {
    match l
    case Gone(shared) => WellFormed(shared)
    case Alive(d) => StoreOk(c, d) && Stage(d.record.meta) == stage
    case Wrecked(left, shared) => WellFormed(shared) && !Usable(left)
  }

  // The name is there with no call under way and nobody about to take it down.
  predicate LeftBehind(stage: Name, l: Life) {
    stage in Tree(l).names && (l.Alive? ==> l.disk.record.state != Finalizing)
  }

  // An event leaves the name behind: a call that ends or stops with the completed record saved and the
  // stage still up, or the reaper that removes an upload whose stage is up, in any state, or enough of it
  // to wreck it.
  predicate Strands(stage: Name, l: Life, e: Event) {
    match e
    case Operation(run) =>
      l.Alive? && After(l.disk, run).record.state == Completed && StageUp(stage in l.disk.shared.names, run)
    case Reaping(_) => stage in Tree(l).names
    case HalfReaping(_, left) => stage in Tree(l).names && !Usable(left)
    case _ => false
  }

  // Only a new publication under the same id takes such a name down again.
  predicate Republishes(l: Life, e: Event) {
    e.Operation? && l.Alive? && exists i :: 0 <= i <= |e.run| && At(l.disk, e.run, i).record.state == Finalizing
  }

  lemma OperationIsOk(c: Config, stage: Name, l: Life, run: seq<Action>)
    requires ValidConfig(c) && LifeOk(c, stage, l) && Possible(c, stage, l, Operation(run))
    ensures LifeOk(c, stage, Next(c, stage, l, Operation(run)))
  {
    hide StoreOk, Guard, Effect, RecoveryAccepts;
    AtStoreOk(c, l.disk, run, |run|);
    assert run[..|run|] == run;
  }

  lemma RecoveryIsOk(c: Config, stage: Name, d: Disk, now: int)
    requires ValidConfig(c) && now > 0 && StoreOk(c, d) && Stage(d.record.meta) == stage && RecoveryAccepts(c, d)
    ensures StoreOk(c, RecoveredDisk(c, d, now)) && Stage(RecoveredDisk(c, d, now).record.meta) == stage
  {
    hide ValidManifest, ValidConfig, PartsIntact, Matches, WholeFile, UploadStageName;
    if d.record.state in {Active, Finalizing} {
      RecoveryEstablishesStore(c, d, now);
    }
  }

  lemma CreationIsOk(c: Config, record: Manifest, shared: Shared)
    requires ValidManifest(c, record) && record.state == Active && record.parts == map[] && WellFormed(shared)
    ensures StoreOk(c, Disk(record, map[], map[], shared))
  {
    hide ValidManifest;
  }

  lemma WreckedStaysWrecked(u: Upload, left: Upload)
    requires Uploads.PartlyRemoved(u, left)
    ensures Usable(left) ==> Usable(u)
  {
  }

  // What a half-done reaping leaves usable is a disk the store has kept, only with fewer leftovers.
  lemma UsableIsKept(c: Config, stage: Name, l: Life, left: Upload)
    requires LifeOk(c, stage, l) && !l.Gone? && Uploads.PartlyRemoved(Left(l), left) && Usable(left)
    ensures l.Alive? && left.record == Some(l.disk.record)
    ensures StoreOk(c, DiskOf(left, l.disk.shared))
  {
    hide ValidManifest, Matches, UploadStageName;
    WreckedStaysWrecked(Left(l), left);
    if l.Alive? {
      FewerLeftovers(c, l.disk, DiskOf(left, l.disk.shared));
    }
  }

  lemma FewerLeftovers(c: Config, d: Disk, e: Disk)
    requires StoreOk(c, d) && e.record == d.record && e.shared == d.shared && Uploads.SubMap(e.parts, d.parts)
    requires d.record.state in {Active, Finalizing} ==> forall p | p in d.record.parts :: p in e.parts
    ensures StoreOk(c, e)
  {
    hide ValidManifest, Matches, UploadStageName;
    if d.record.state in {Active, Finalizing} {
      assert forall p | p in d.record.parts :: PartIntact(c, d.record.parts, d.parts, p) && e.parts[p] == d.parts[p];
      if d.record.state == Finalizing {
        SameAssembly(c, d, e);
      }
    }
  }

  // No start-up gets past a wrecked upload.
  lemma WreckIsRefused(c: Config, stage: Name, l: Life)
    requires LifeOk(c, stage, l) && l.Wrecked?
    ensures !Recoverable(c, l.left, l.shared)
  {
    hide ValidManifest, Fits;
    if l.left.record.Some? {
      var p :| p in l.left.record.value.parts && p !in l.left.parts;
      MissingFileIsNotIntact(c, DiskOf(l.left, l.shared), p);
    }
  }

  lemma EventIsOk(c: Config, stage: Name, l: Life, e: Event)
    requires ValidConfig(c) && LifeOk(c, stage, l) && Possible(c, stage, l, e)
    ensures LifeOk(c, stage, Next(c, stage, l, e))
  {
    hide ValidManifest, ValidConfig, RecoveryAccepts, RecoveredDisk, RunOk, After, PartsIntact, AllPartsHere, Matches;
    match e
    case Operation(run) => OperationIsOk(c, stage, l, run);
    case Recovery(now) => RecoveryIsOk(c, stage, l.disk, now);
    case Reaping(_) =>
    case HalfReaping(_, left) => if Usable(left) { UsableIsKept(c, stage, l, left); }
    case Creation(record) => CreationIsOk(c, record, l.shared);
    case HalfCreation(_) =>
    case Others(_) =>
  }

  lemma {:induction false} RestfulRun(c: Config, d: Disk, run: seq<Action>)
    requires RunOk(c, d, run) && Restful(run) && d.record.state in {Completed, Cancelled}
    ensures forall before :: StageUp(before, run) == before
    ensures forall i | 0 <= i <= |run| :: At(d, run, i).record == d.record
  {
    hide Guard, Effect;
    LastOfWhole(d, run);
    if run != [] {
      var n := |run| - 1;
      PrefixOfRun(c, d, run, n);
      RestfulRun(c, d, run[..n]);
      forall i | 0 <= i <= |run| ensures At(d, run, i).record == d.record {
        if i <= n { assert run[..n][..i] == run[..i]; }
        LifecycleIsMonotone(c, d, run, 0, i);
        LastOfWhole(d, run);
      }
    } else {
      assert forall i | 0 <= i <= |run| :: run[..i] == [];
    }
  }

  lemma LastOfWhole(d: Disk, run: seq<Action>)
    ensures At(d, run, 0) == d && At(d, run, |run|) == After(d, run)
  {
    assert run[..0] == [] && run[..|run|] == run;
  }

  lemma FourStates(s: UploadState)
    ensures s in {Active, Finalizing, Completed, Cancelled}
  {
  }

  lemma OperationLeavesBehind(c: Config, stage: Name, l: Life, run: seq<Action>)
    requires LifeOk(c, stage, l) && Possible(c, stage, l, Operation(run))
    ensures LeftBehind(stage, Next(c, stage, l, Operation(run))) <==>
              Strands(stage, l, Operation(run)) || (LeftBehind(stage, l) && !Republishes(l, Operation(run)))
  {
    hide StoreOk, Guard, Effect, RecoveryAccepts, RunOk, After, StageUp, At;
    var d, n := l.disk, |run|;
    LastOfWhole(d, run);
    FourStates(d.record.state);
    FourStates(At(d, run, n).record.state);
    StageFollowsRun(c, d, run, n);
    assert run[..n] == run;
    if d.record.state in {Completed, Cancelled} {
      RestfulRun(c, d, run);
    } else if At(d, run, n).record.state in {Active, Cancelled} {
      if stage in At(d, run, n).shared.names {
        StageOnlyInherited(c, d, run, n);
      } else {
        GoneOnlyByPublishing(c, d, run, n);
      }
    } else if At(d, run, n).record.state == Completed {
      CompletedOnlyByPublishing(c, d, run, n);
    }
  }

  lemma StepWithoutPublishing(c: Config, d: Disk, a: Action)
    requires StoreOk(c, d) && Guard(c, d, a) && d.record.state in {Active, Cancelled}
    ensures Effect(d, a).record.state in {Active, Cancelled, Finalizing}
    ensures Stage(d.record.meta) in Effect(d, a).shared.names <==> Stage(d.record.meta) in d.shared.names
  {
    hide ValidMeta, ValidParts, PartsIntact, AllPartsHere, Matches, ExclusiveStage, UploadStageName;
  }

  // Without publishing an active upload neither completes nor loses a stage it found.
  lemma {:induction false} OnlyByPublishing(c: Config, d: Disk, run: seq<Action>, i: nat)
    requires StoreOk(c, d) && RunOk(c, d, run) && i <= |run| && d.record.state in {Active, Cancelled}
    requires forall j | 0 <= j <= i :: At(d, run, j).record.state != Finalizing
    ensures At(d, run, i).record.state in {Active, Cancelled}
    ensures Stage(d.record.meta) in At(d, run, i).shared.names <==> Stage(d.record.meta) in d.shared.names
  {
    hide Effect, Guard, StoreOk, RunOk, At, Stage;
    if i == 0 {
      NothingRunYet(d, run);
    } else {
      OnlyByPublishing(c, d, run, i - 1);
      AtStoreOk(c, d, run, i - 1);
      AtNext(c, d, run, i - 1);
      StepWithoutPublishing(c, At(d, run, i - 1), run[i - 1]);
    }
  }

  lemma GoneOnlyByPublishing(c: Config, d: Disk, run: seq<Action>, n: nat)
    requires StoreOk(c, d) && RunOk(c, d, run) && n == |run| && d.record.state in {Active, Finalizing}
    requires Stage(d.record.meta) !in At(d, run, n).shared.names
    ensures d.record.state == Active && Stage(d.record.meta) in d.shared.names ==> Republishes(Alive(d), Operation(run))
  {
    hide StoreOk, RunOk, At, Stage;
    if d.record.state == Active && forall j | 0 <= j <= n :: At(d, run, j).record.state != Finalizing {
      OnlyByPublishing(c, d, run, n);
    }
  }

  lemma CompletedOnlyByPublishing(c: Config, d: Disk, run: seq<Action>, n: nat)
    requires StoreOk(c, d) && RunOk(c, d, run) && n == |run| && d.record.state in {Active, Finalizing}
    requires At(d, run, n).record.state == Completed
    ensures Republishes(Alive(d), Operation(run))
  {
    hide StoreOk, RunOk, At, Stage;
    LastOfWhole(d, run);
    if d.record.state == Finalizing {
      assert At(d, run, 0).record.state == Finalizing;
    } else if forall j | 0 <= j <= n :: At(d, run, j).record.state != Finalizing {
      OnlyByPublishing(c, d, run, n);
    }
  }

  // One event: the name is left behind after it exactly when the event strands it, or it was left behind
  // before and no publication under the same id has begun.
  lemma LeftBehindAfterEvent(c: Config, stage: Name, l: Life, e: Event)
    requires ValidConfig(c) && LifeOk(c, stage, l) && Possible(c, stage, l, e)
    ensures LeftBehind(stage, Next(c, stage, l, e)) <==>
              Strands(stage, l, e) || (LeftBehind(stage, l) && !Republishes(l, e))
    // Reaping takes no name out of the tree, done whole or half.
    ensures e.Reaping? || e.HalfReaping? ==> Tree(Next(c, stage, l, e)) == Tree(l)
  {
    hide ValidManifest, ValidConfig, RunOk, After, At, StageUp, PartsIntact, AllPartsHere, Matches;
    match e
    case Operation(run) => OperationLeavesBehind(c, stage, l, run);
    case Recovery(now) =>
      RecoveryDropsStage(c, l.disk, now);
      RecoverySettles(c, l.disk, now);
    case Reaping(_) =>
    case HalfReaping(_, left) => if Usable(left) { UsableIsKept(c, stage, l, left); }
    case Creation(_) =>
    case HalfCreation(_) =>
    case Others(_) =>
  }

  lemma RecoverySettles(c: Config, d: Disk, now: int)
    requires RecoveryAccepts(c, d)
    ensures RecoveredDisk(c, d, now).record.state != Finalizing
  {
    hide ValidManifest, PartsIntact, AllPartsHere, Matches, WholeFile;
  }

  // ----- Whole lives -----

  predicate LifeGoesOn(c: Config, stage: Name, l: Life, events: seq<Event>)
    decreases |events|
  {
    events == [] || (Possible(c, stage, l, events[0]) && LifeGoesOn(c, stage, Next(c, stage, l, events[0]), events[1..]))
  }

  function Afterwards(c: Config, stage: Name, l: Life, events: seq<Event>): Life
    requires LifeGoesOn(c, stage, l, events)
    decreases |events|
  {
    if events == [] then l else Afterwards(c, stage, Next(c, stage, l, events[0]), events[1..])
  }

  // Some event strands the name and no later one begins a publication.
  predicate StrandedForGood(c: Config, stage: Name, l: Life, events: seq<Event>)
    requires LifeGoesOn(c, stage, l, events)
    decreases |events|
  {
    events != [] &&
    var next := Next(c, stage, l, events[0]);
    || (Strands(stage, l, events[0]) && NeverRepublished(c, stage, next, events[1..]))
    || StrandedForGood(c, stage, next, events[1..])
  }

  predicate NeverRepublished(c: Config, stage: Name, l: Life, events: seq<Event>)
    requires LifeGoesOn(c, stage, l, events)
    decreases |events|
  {
    events != [] ==>
      !Republishes(l, events[0]) && NeverRepublished(c, stage, Next(c, stage, l, events[0]), events[1..])
  }

  // At the end of any life the stage name is left behind exactly when some call ended or stopped with the
  // completed record saved and the stage up, or some upload was reaped or wrecked with its stage up, and nothing was
  // published under the same id afterwards; or when it was there to begin with and nothing was published.
  lemma {:induction false} LeftBehindExactly(c: Config, stage: Name, l: Life, events: seq<Event>)
    requires ValidConfig(c) && LifeOk(c, stage, l) && LifeGoesOn(c, stage, l, events)
    ensures LeftBehind(stage, Afterwards(c, stage, l, events)) <==>
              StrandedForGood(c, stage, l, events) || (LeftBehind(stage, l) && NeverRepublished(c, stage, l, events))
    decreases |events|
  {
    hide ValidConfig, LifeOk, Possible, Next, Strands, Republishes, LeftBehind;
    if events != [] {
      EventIsOk(c, stage, l, events[0]);
      LeftBehindAfterEvent(c, stage, l, events[0]);
      LeftBehindExactly(c, stage, Next(c, stage, l, events[0]), events[1..]);
    }
  }

  // It takes no stop: after a link whose directory sync fails the record stays finalizing, and when it expires
  // the upload is reaped with its stage up. The published file then keeps a second, hidden name.
  lemma SyncErrorThenReaped(c: Config, d: Disk, now: int)
    requires ValidConfig(c) && StoreOk(c, d) && Guard(c, d, LinkDestination) && now >= d.record.expiresAt
    ensures var stage, events := Stage(d.record.meta), [Operation([LinkDestination]), Reaping(now)];
            && LifeGoesOn(c, stage, Alive(d), events)
            && var end := Afterwards(c, stage, Alive(d), events);
               && end.Gone? && LeftBehind(stage, end) && Dest(d.record.meta) in end.shared.names
               && end.shared.names[stage] == end.shared.names[Dest(d.record.meta)]
  {
    hide ValidManifest, ValidConfig, PartsIntact, WholeFile, UploadStageName;
    OneStep(c, d, LinkDestination);
    DestinationIsNotStage(c, d.record);
    TwoEvents(c, Stage(d.record.meta), Alive(d), Operation([LinkDestination]), Reaping(now));
  }

  lemma TwoEvents(c: Config, stage: Name, l: Life, e: Event, f: Event)
    requires Possible(c, stage, l, e) && Possible(c, stage, Next(c, stage, l, e), f)
    ensures LifeGoesOn(c, stage, l, [e, f])
    ensures Afterwards(c, stage, l, [e, f]) == Next(c, stage, Next(c, stage, l, e), f)
  {
    hide Possible, Next;
    var next := Next(c, stage, l, e);
    assert [e, f][1..] == [f] && [f][1..] == [];
    assert LifeGoesOn(c, stage, Next(c, stage, next, f), []);
    assert LifeGoesOn(c, stage, next, [f]);
    assert Afterwards(c, stage, next, [f]) == Afterwards(c, stage, Next(c, stage, next, f), [f][1..]);
    assert Afterwards(c, stage, l, [e, f]) == Afterwards(c, stage, next, [e, f][1..]);
  }
}
