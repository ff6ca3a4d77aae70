// Where the upload store does not do what one would expect of it, and exactly when; and what can
// never matter to it (upload_store.go, upload_publish.go).
module UploadOutcomes {
  import opened UploadParts
  import opened UploadRecord
  import opened UploadProtocol
  import opened UploadSafety
  import opened UploadStore

  // ----- Runs of a few steps -----

  lemma OneStep(c: Config, d: Disk, x: Action)
    ensures After(d, [x]) == Effect(d, x)
    ensures RunOk(c, d, [x]) <==> Guard(c, d, x)
  {
    hide Guard, Effect;
    assert [x][..0] == [];
    assert RunOk(c, d, []) && After(d, []) == d;
  }

  lemma OneMoreStep(c: Config, d: Disk, run: seq<Action>, x: Action)
    ensures After(d, run + [x]) == Effect(After(d, run), x)
    ensures RunOk(c, d, run + [x]) <==> RunOk(c, d, run) && Guard(c, After(d, run), x)
  {
    hide Guard, Effect;
    assert (run + [x])[..|run|] == run;
  }

  lemma ThreeSteps(c: Config, d: Disk, x: Action, y: Action, z: Action)
    ensures After(d, [x, y, z]) == Effect(Effect(Effect(d, x), y), z)
    ensures RunOk(c, d, [x, y, z]) <==>
              Guard(c, d, x) && Guard(c, Effect(d, x), y) && Guard(c, Effect(Effect(d, x), y), z)
  {
    hide Guard, Effect, After, RunOk;
    OneStep(c, d, x);
    OneMoreStep(c, d, [x], y);
    OneMoreStep(c, d, [x, y], z);
    assert [x] + [y] == [x, y] && [x, y] + [z] == [x, y, z];
  }

  // ----- The stage name -----

  // Only an upload that is being published, or has just been, owns a stage.
  predicate StageReserved(d: Disk) {
    Stage(d.record.meta) in d.shared.names ==> d.record.state in {Finalizing, Completed}
  }

  lemma StepKeepsStageReserved(c: Config, d: Disk, a: Action)
    requires StoreOk(c, d) && Guard(c, d, a) && StageReserved(d)
    ensures StageReserved(Effect(d, a))
  {
    hide ValidMeta, ValidParts, PartsIntact, AllPartsHere, Matches, ExclusiveStage, UploadStageName;
    DestinationIsNotStage(c, d.record);
  }

  lemma {:induction false} RunKeepsStageReserved(c: Config, d: Disk, run: seq<Action>, i: nat)
    requires StoreOk(c, d) && RunOk(c, d, run) && StageReserved(d) && i <= |run|
    ensures StageReserved(At(d, run, i)) && StoreOk(c, At(d, run, i)) && At(d, run, i).record.meta == d.record.meta
  {
    hide Effect, Guard, StoreOk, StageReserved;
    AtStoreOk(c, d, run, i);
    if i == 0 {
      assert run[..0] == [];
    } else {
      RunKeepsStageReserved(c, d, run, i - 1);
      AtNext(c, d, run, i - 1);
      StepKeepsStageReserved(c, At(d, run, i - 1), run[i - 1]);
    }
  }

  // Whether the stage is up after a run: the last creation or removal decides.
  function StageUp(before: bool, run: seq<Action>): bool {
    if run == [] then before
    else match run[|run| - 1]
      case CreateStage => true
      case RemoveStage => false
      case _ => StageUp(before, run[..|run| - 1])
  }

  lemma StageUpStep(before: bool, run: seq<Action>, i: nat)
    requires i < |run|
    ensures StageUp(before, run[..i + 1]) <==> run[i].CreateStage? || (!run[i].RemoveStage? && StageUp(before, run[..i]))
  {
    assert run[..i + 1][..i] == run[..i] && run[..i + 1][i] == run[i];
  }

  lemma StepMovesStage(c: Config, d: Disk, a: Action)
    requires Guard(c, d, a) && ValidManifest(c, d.record)
    ensures Stage(d.record.meta) in Effect(d, a).shared.names <==>
              a.CreateStage? || (!a.RemoveStage? && Stage(d.record.meta) in d.shared.names)
  {
    hide ValidManifest, ValidMeta, ValidParts, PartsIntact, AllPartsHere, Matches, ExclusiveStage, UploadStageName;
    DestinationIsNotStage(c, d.record);
  }

  lemma RecordIsValid(c: Config, d: Disk)
    requires StoreOk(c, d)
    ensures ValidManifest(c, d.record)
  {
  }

  lemma NothingRunYet(d: Disk, run: seq<Action>)
    ensures At(d, run, 0) == d && forall before :: StageUp(before, run[..0]) == before
  {
    assert run[..0] == [];
  }

  lemma {:induction false} StageFollowsRun(c: Config, d: Disk, run: seq<Action>, i: nat)
    requires StoreOk(c, d) && RunOk(c, d, run) && i <= |run|
    ensures Stage(d.record.meta) in At(d, run, i).shared.names <==>
              StageUp(Stage(d.record.meta) in d.shared.names, run[..i])
  {
    hide Effect, Guard, StoreOk, RunOk, StageUp, At, Stage, ValidManifest;
    if i == 0 {
      NothingRunYet(d, run);
    } else {
      var e := At(d, run, i - 1);
      StageFollowsRun(c, d, run, i - 1);
      AtStoreOk(c, d, run, i - 1);
      AtNext(c, d, run, i - 1);
      RecordIsValid(c, e);
      StepMovesStage(c, e, run[i - 1]);
      StageUpStep(Stage(d.record.meta) in d.shared.names, run, i - 1);
    }
  }

  lemma RecoveryDropsStage(c: Config, d: Disk, now: int)
    requires RecoveryAccepts(c, d)
    ensures Stage(d.record.meta) in RecoveredDisk(c, d, now).shared.names <==>
              d.record.state != Finalizing && Stage(d.record.meta) in d.shared.names
  {
    hide ValidManifest, PartsIntact, AllPartsHere, Matches, UploadStageName;
  }

  // Stop a run anywhere and recover: the stage name is still there exactly when the stage, once created
  // or found, has not been removed and the record is not finalizing.
  lemma StageLeftBehind(c: Config, d: Disk, run: seq<Action>, i: nat, now: int)
    requires StoreOk(c, d) && RunOk(c, d, run) && i <= |run|
    requires RecoveryAccepts(c, At(d, run, i))
    ensures Stage(d.record.meta) in RecoveredDisk(c, At(d, run, i), now).shared.names <==>
              At(d, run, i).record.state != Finalizing && StageUp(Stage(d.record.meta) in d.shared.names, run[..i])
  {
    hide Effect, Guard, StoreOk, RecoveryAccepts, RecoveredDisk;
    AtStoreOk(c, d, run, i);
    StageFollowsRun(c, d, run, i);
    RecoveryDropsStage(c, At(d, run, i), now);
  }

  lemma StepInheritsStage(c: Config, d: Disk, a: Action)
    requires StoreOk(c, d) && Guard(c, d, a)
    requires Stage(d.record.meta) in Effect(d, a).shared.names && Effect(d, a).record.state in {Active, Cancelled}
    ensures Stage(d.record.meta) in d.shared.names && d.record.state in {Active, Cancelled}
  {
    hide ValidMeta, ValidParts, PartsIntact, AllPartsHere, Matches, ExclusiveStage, UploadStageName;
    DestinationIsNotStage(c, d.record);
  }

  // An active or cancelled upload with a stage found it when it was created and has not been published since.
  lemma {:induction false} StageOnlyInherited(c: Config, d: Disk, run: seq<Action>, i: nat)
    requires StoreOk(c, d) && RunOk(c, d, run) && i <= |run|
    requires Stage(d.record.meta) in At(d, run, i).shared.names && At(d, run, i).record.state in {Active, Cancelled}
    ensures Stage(d.record.meta) in d.shared.names
    ensures forall j | 0 <= j <= i :: At(d, run, j).record.state in {Active, Cancelled}
  {
    hide Effect, Guard, StoreOk, RunOk, At, Stage;
    if i == 0 {
      NothingRunYet(d, run);
    } else {
      AtStoreOk(c, d, run, i - 1);
      AtNext(c, d, run, i - 1);
      StepInheritsStage(c, At(d, run, i - 1), run[i - 1]);
      StageOnlyInherited(c, d, run, i - 1);
    }
  }

  // It does happen: a stop right after the completed record is saved.
  lemma OrphanStageSurvives(c: Config, d: Disk, now: int, later: int)
    requires ValidConfig(c) && StoreOk(c, d) && d.record.state == Finalizing && now > 0 && d.record.finalSha != ""
    requires Dest(d.record.meta) in d.shared.names && Stage(d.record.meta) in d.shared.names
    requires Matches(c, d.shared, Dest(d.record.meta), d.record.meta.size, d.record.finalSha)
    ensures var crash := [Save(CompletedRecord(c, d.record, d.record.finalSha, now))];
            && RunOk(c, d, crash) && StoreOk(c, After(d, crash))
            && Stage(d.record.meta) in RecoveredDisk(c, After(d, crash), later).shared.names
  {
    NextRecordsAreValid(c, d.record, now);
    OneStep(c, d, Save(CompletedRecord(c, d.record, d.record.finalSha, now)));
  }

  // ----- The destination name -----

  lemma StepTakesDestination(c: Config, d: Disk, a: Action)
    requires StoreOk(c, d) && Guard(c, d, a)
    requires a.Environment? && Dest(d.record.meta) in a.after.names ==> Dest(d.record.meta) in d.shared.names
    ensures Dest(d.record.meta) in Effect(d, a).shared.names <==>
              Dest(d.record.meta) in d.shared.names || a == LinkDestination
  {
    hide ValidMeta, ValidParts, PartsIntact, Matches, UploadStageName;
    DestinationIsNotStage(c, d.record);
    if Dest(d.record.meta) in d.shared.names {
      StepKeepsDestination(c, d, a);
    }
  }

  // Starting from a free destination name that nobody else takes, the name is held at a stop exactly
  // when this upload has linked it, whatever the link reported and whatever the record says.
  lemma {:induction false} DestinationTakenByOwnLink(c: Config, d: Disk, run: seq<Action>, i: nat)
    requires StoreOk(c, d) && RunOk(c, d, run) && NoForeignFile(d, run) && i <= |run|
    requires Dest(d.record.meta) !in d.shared.names
    ensures Dest(d.record.meta) in At(d, run, i).shared.names <==> exists j :: 0 <= j < i && run[j] == LinkDestination
  {
    hide Effect, Guard, StoreOk;
    if i == 0 {
      assert run[..0] == [];
    } else {
      DestinationTakenByOwnLink(c, d, run, i - 1);
      AtStoreOk(c, d, run, i - 1);
      AtNext(c, d, run, i - 1);
      StepTakesDestination(c, At(d, run, i - 1), run[i - 1]);
    }
  }

  // So an active upload with all its parts can be completed exactly when its directory resolves, the
  // declared digest is absent or right, no foreign object has its stage name, and none of its own earlier
  // links took effect.
  lemma CompletableUnlessLinked(c: Config, d: Disk, run: seq<Action>, i: nat, now: int)
    requires ValidConfig(c) && StoreOk(c, d) && RunOk(c, d, run) && NoForeignFile(d, run) && i <= |run|
    requires Dest(d.record.meta) !in d.shared.names
    requires At(d, run, i).record.state == Active
    requires |At(d, run, i).record.parts| == d.record.meta.partCount
    ensures AllPartsHere(At(d, run, i))
    ensures var e := At(d, run, i);
            CompleteAccepts(c, e, now) <==>
              && d.record.meta.path in e.shared.dirs && d.record.meta.expectedSha in {"", c.sha256(WholeFile(e))}
              && StageIsFile(e)
              && !exists j :: 0 <= j < i && run[j] == LinkDestination
  {
    hide Effect, Guard, ValidManifest, NoForeignFile, PartIntact;
    var e := At(d, run, i);
    AtStoreOk(c, d, run, i);
    DestinationTakenByOwnLink(c, d, run, i);
    FullRecordHasAllParts(c, e);
  }

  // A link that takes effect and still reports an error is rolled back in the record only: the
  // file stays published under an active record that can no longer be completed.
  lemma LinkErrorAfterEffect(c: Config, d: Disk, now: int)
    requires ValidConfig(c) && StoreOk(c, d) && now > 0 && Guard(c, d, LinkDestination)
    ensures var run := [LinkDestination, RemoveStage, Save(ActiveAgain(c, d.record, now))];
            var e := After(d, run);
            && RunOk(c, d, run) && e.record.state == Active && e.record.parts == d.record.parts
            && IsFile(e.shared, Dest(d.record.meta)) && Contents(e.shared, Dest(d.record.meta)) == WholeFile(d)
            && !CompleteAccepts(c, e, now)
  {
    hide ValidMeta, ValidParts, ValidConfig, ValidManifest, UploadStageName, PartIntact, WellFormed, RunOk, After, PartsIntact, Matches;
    assert ValidManifest(c, d.record);
    NextRecordsAreValid(c, d.record, now);
    DestinationIsNotStage(c, d.record);
    var linked := Effect(d, LinkDestination);
    var bare := Effect(linked, RemoveStage);
    assert Stage(d.record.meta) !in bare.shared.names;
    ThreeSteps(c, d, LinkDestination, RemoveStage, Save(ActiveAgain(c, d.record, now)));
  }

  // ----- Leftovers -----

  // The disks agree on the record, on the tree and on the file of every recorded part.
  predicate SameButLeftovers(d: Disk, e: Disk) {
    && e.record == d.record && e.shared == d.shared
    && forall k | k in d.record.parts :: (k in d.parts <==> k in e.parts) && (k in d.parts ==> d.parts[k] == e.parts[k])
  }

  lemma SameVerification(c: Config, d: Disk, e: Disk)
    requires SameButLeftovers(d, e)
    ensures PartsIntact(c, d) <==> PartsIntact(c, e)
  {
    forall k | k in d.record.parts
      ensures PartIntact(c, d.record.parts, d.parts, k) <==> PartIntact(c, e.record.parts, e.parts, k)
    {
    }
  }

  lemma SameAssembly(c: Config, d: Disk, e: Disk)
    requires SameButLeftovers(d, e) && ValidManifest(c, d.record) && d.record.state in {Active, Finalizing}
    requires |d.record.parts| == d.record.meta.partCount && PartsIntact(c, d)
    ensures AllPartsHere(d) && AllPartsHere(e) && WholeFile(e) == WholeFile(d)
  {
    SameVerification(c, d, e);
    FullRecordHasAllParts(c, d);
    FullRecordHasAllParts(c, e);
    AssembledFrame(d.parts, e.parts, d.record.meta.partCount);
  }

  lemma LeftoversNeverMatterToRecovery(c: Config, d: Disk, e: Disk, now: int)
    requires ValidConfig(c) && ValidManifest(c, d.record) && SameButLeftovers(d, e)
    ensures RecoveryAccepts(c, d) <==> RecoveryAccepts(c, e)
    ensures RecoveryAccepts(c, d) ==> SameButLeftovers(RecoveredDisk(c, d, now), RecoveredDisk(c, e, now))
  {
    hide ValidManifest, PartIntact, Matches, UploadStageName, ValidConfig, PartsIntact, Assembled;
    SameVerification(c, d, e);
    if d.record.state in {Active, Finalizing} && |d.record.parts| == d.record.meta.partCount && PartsIntact(c, d) {
      SameAssembly(c, d, e);
    }
  }

  lemma LeftoversNeverMatterToPublish(c: Config, d: Disk, e: Disk, now: int)
    requires ValidManifest(c, d.record) && d.record.state in {Active, Finalizing} && SameButLeftovers(d, e)
    ensures Publishable(c, d) <==> Publishable(c, e)
    ensures Publishable(c, d) ==> SameButLeftovers(PublishedDisk(c, d, now), PublishedDisk(c, e, now))
  {
    hide ValidManifest, PartIntact, UploadStageName, PartsIntact, Assembled;
    SameVerification(c, d, e);
    if |d.record.parts| == d.record.meta.partCount && PartsIntact(c, d) {
      SameAssembly(c, d, e);
    }
  }

  // Part files that no record mentions, and temporary files, never affect what recovery and
  // completion decide, nor the record and the tree they end with.
  lemma LeftoversNeverMatter(c: Config, d: Disk, e: Disk, now: int)
    requires ValidConfig(c) && ValidManifest(c, d.record) && now > 0 && SameButLeftovers(d, e)
    ensures RecoveryAccepts(c, d) <==> RecoveryAccepts(c, e)
    ensures RecoveryAccepts(c, d) ==> SameButLeftovers(RecoveredDisk(c, d, now), RecoveredDisk(c, e, now))
    ensures CompleteAccepts(c, d, now) <==> CompleteAccepts(c, e, now)
    ensures CompleteAccepts(c, d, now) ==> SameButLeftovers(CompleteResult(c, d, now), CompleteResult(c, e, now))
  {
    hide ValidManifest, UploadStageName, ValidConfig, RecoveryAccepts, Publishable, PublishedDisk;
    LeftoversNeverMatterToRecovery(c, d, e, now);
    if d.record.state == Active {
      LeftoversNeverMatterToPublish(c, d, e, now);
    } else if d.record.state == Finalizing && RecoveryAccepts(c, d) && Dest(d.record.meta) !in d.shared.names {
      NextRecordsAreValid(c, d.record, now);
      LeftoversNeverMatterToPublish(c, RecoveredDisk(c, d, now), RecoveredDisk(c, e, now), now);
    }
  }
}
