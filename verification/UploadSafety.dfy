// What holds over whole runs of the upload protocol, wherever they stop.
module UploadSafety {
  import opened Paths
  import opened UploadParts
  import opened UploadRecord
  import opened UploadProtocol

  function At(d: Disk, run: seq<Action>, i: nat): Disk
    requires i <= |run|
  {
    After(d, run[..i])
  }

  lemma AtNext(c: Config, d: Disk, run: seq<Action>, i: nat)
    requires RunOk(c, d, run) && i < |run|
    ensures Guard(c, At(d, run, i), run[i])
    ensures At(d, run, i + 1) == Effect(At(d, run, i), run[i])
    ensures At(d, run, |run|) == After(d, run)
  {
    PrefixOfRun(c, d, run, i + 1);
    assert run[..i + 1][..i] == run[..i];
    assert run[..|run|] == run;
  }

  lemma {:induction false} AtStoreOk(c: Config, d: Disk, run: seq<Action>, i: nat)
    requires RunOk(c, d, run) && i <= |run| && StoreOk(c, d)
    ensures StoreOk(c, At(d, run, i)) && At(d, run, i).record.meta == d.record.meta
  {
    if i > 0 {
      AtStoreOk(c, d, run, i - 1);
      AtNext(c, d, run, i - 1);
      StepKeepsStore(c, At(d, run, i - 1), run[i - 1]);
    }
  }

  // ----- Publication -----

  // One upload's action never replaces, removes or rewrites anything another name shows, and it
  // binds at most two names of its own: its stage, and its destination when that name was free.
  lemma OwnStepTouchesOnlyItsNames(c: Config, d: Disk, a: Action, n: Name)
    requires Guard(c, d, a) && !a.Environment? && WellFormed(d.shared)
    requires n != Stage(d.record.meta)
    ensures n in d.shared.names ==> SameFile(d.shared, Effect(d, a).shared, n)
    ensures n !in d.shared.names && n in Effect(d, a).shared.names ==>
              a == LinkDestination && n == Dest(d.record.meta)
  {
  }

  lemma StepKeepsDestination(c: Config, d: Disk, a: Action)
    requires Guard(c, d, a) && WellFormed(d.shared) && ValidManifest(c, d.record)
    requires Dest(d.record.meta) in d.shared.names
    ensures SameFile(d.shared, Effect(d, a).shared, Dest(d.record.meta))
  {
    StageNames(d.record.meta.id, d.record.meta.id, d.record.meta.name);
    if !a.Environment? {
      OwnStepTouchesOnlyItsNames(c, d, a, Dest(d.record.meta));
    }
  }

  predicate Keeps(s: Shared, t: Shared, n: Name) {
    n in s.names ==> SameFile(s, t, n)
  }

  lemma {:induction false} KeepsOverSteps(trees: seq<Shared>, n: Name, i: nat, j: nat)
    requires i <= j < |trees| && forall k | i <= k < j :: Keeps(trees[k], trees[k + 1], n)
    ensures Keeps(trees[i], trees[j], n)
    decreases j - i
  {
    if i < j {
      KeepsOverSteps(trees, n, i, j - 1);
      assert Keeps(trees[j - 1], trees[j - 1 + 1], n);
    }
  }

  lemma RunStepKeepsDestination(c: Config, d: Disk, run: seq<Action>, i: nat)
    requires StoreOk(c, d) && RunOk(c, d, run) && i < |run|
    ensures Keeps(At(d, run, i).shared, At(d, run, i + 1).shared, Dest(d.record.meta))
  {
    AtStoreOk(c, d, run, i);
    AtNext(c, d, run, i);
    if Dest(d.record.meta) in At(d, run, i).shared.names {
      StepKeepsDestination(c, At(d, run, i), run[i]);
    }
  }

  // A file that holds the destination name keeps the name, the inode and every byte from then on,
  // although the stage name may lead to the same inode for a while.
  lemma DestinationIsPermanent(c: Config, d: Disk, run: seq<Action>, i: nat, j: nat)
    requires StoreOk(c, d) && RunOk(c, d, run) && i <= j <= |run|
    requires Dest(d.record.meta) in At(d, run, i).shared.names
    ensures SameFile(At(d, run, i).shared, At(d, run, j).shared, Dest(d.record.meta))
  {
    hide Effect, StoreOk, Guard, RunOk, At, Dest, Keeps;
    var trees := seq(|run| + 1, k requires 0 <= k <= |run| => At(d, run, k).shared);
    forall k | i <= k < j
      ensures Keeps(trees[k], trees[k + 1], Dest(d.record.meta))
    {
      RunStepKeepsDestination(c, d, run, k);
    }
    KeepsOverSteps(trees, Dest(d.record.meta), i, j);
    KeptWhileNamed(trees[i], trees[j], Dest(d.record.meta));
  }

  lemma KeptWhileNamed(s: Shared, t: Shared, n: Name)
    requires Keeps(s, t, n) && n in s.names
    ensures SameFile(s, t, n)
  {
  }

  lemma LinksAtMostOnce(c: Config, d: Disk, run: seq<Action>, i: nat, j: nat)
    requires StoreOk(c, d) && RunOk(c, d, run) && i < j < |run|
    ensures !(run[i] == LinkDestination && run[j] == LinkDestination)
  {
    if run[i] == LinkDestination {
      AtNext(c, d, run, i);
      AtStoreOk(c, d, run, i);
      AtStoreOk(c, d, run, j);
      DestinationIsPermanent(c, d, run, i + 1, j);
      AtNext(c, d, run, j);
    }
  }

  lemma SameFileSameBytes(s: Shared, t: Shared, n: Name)
    requires IsFile(s, n) && SameFile(s, t, n)
    ensures IsFile(t, n) && Contents(t, n) == Contents(s, n)
  {
  }

  lemma JustLinked(c: Config, d: Disk, run: seq<Action>, i: nat)
    requires StoreOk(c, d) && RunOk(c, d, run) && i < |run| && run[i] == LinkDestination
    ensures AllPartsHere(At(d, run, i))
    ensures var s := At(d, run, i + 1).shared;
            IsFile(s, Dest(d.record.meta)) && Contents(s, Dest(d.record.meta)) == WholeFile(At(d, run, i))
  {
    hide StoreOk, RunOk, At, Guard, Effect, Dest, IsFile, Contents, AllPartsHere, WholeFile;
    AtStoreOk(c, d, run, i);
    AtNext(c, d, run, i);
    LinkShowsParts(c, At(d, run, i));
  }

  lemma FileIsNamed(s: Shared, n: Name)
    requires IsFile(s, n)
    ensures n in s.names
  {
  }

  // What an upload has linked is from then on, byte for byte, what its parts were at that moment, whoever
  // else is at work.
  lemma LinkedFileIsTheParts(c: Config, d: Disk, run: seq<Action>, i: nat, j: nat)
    requires StoreOk(c, d) && RunOk(c, d, run) && i < j <= |run| && run[i] == LinkDestination
    ensures AllPartsHere(At(d, run, i))
    ensures IsFile(At(d, run, j).shared, Dest(d.record.meta))
    ensures Contents(At(d, run, j).shared, Dest(d.record.meta)) == WholeFile(At(d, run, i))
  {
    hide StoreOk, RunOk, At, Dest, IsFile, Contents, AllPartsHere, WholeFile, SameFile;
    JustLinked(c, d, run, i);
    FileIsNamed(At(d, run, i + 1).shared, Dest(d.record.meta));
    DestinationIsPermanent(c, d, run, i + 1, j);
    SameFileSameBytes(At(d, run, i + 1).shared, At(d, run, j).shared, Dest(d.record.meta));
  }

  lemma LinkShowsParts(c: Config, d: Disk)
    requires Guard(c, d, LinkDestination)
    ensures AllPartsHere(d)
    ensures var s := Effect(d, LinkDestination).shared;
            IsFile(s, Dest(d.record.meta)) && Contents(s, Dest(d.record.meta)) == WholeFile(d)
  {
    hide PartsIntact, Assembled, UploadStageName;
  }

  // ----- Lifecycle -----

  // Finished states stay as they are, and an unfinished upload never loses or changes a part.
  predicate NoGoingBack(m: Manifest, n: Manifest) {
    && n.meta == m.meta
    && (m.state in {Completed, Cancelled} ==> n == m)
    && (n.state in {Active, Finalizing} ==>
          m.state in {Active, Finalizing} && forall k | k in m.parts :: k in n.parts && n.parts[k] == m.parts[k])
  }

  lemma StepNeverGoesBack(c: Config, d: Disk, a: Action)
    requires Guard(c, d, a)
    ensures NoGoingBack(d.record, Effect(d, a).record)
  {
  }

  lemma {:induction false} LifecycleIsMonotone(c: Config, d: Disk, run: seq<Action>, i: nat, j: nat)
    requires RunOk(c, d, run) && i <= j <= |run|
    ensures NoGoingBack(At(d, run, i).record, At(d, run, j).record)
    decreases j - i
  {
    hide Effect, Guard;
    if i < j {
      LifecycleIsMonotone(c, d, run, i, j - 1);
      AtNext(c, d, run, j - 1);
      StepNeverGoesBack(c, At(d, run, j - 1), run[j - 1]);
    }
  }

  // A completed record speaks the truth for as long as it exists: its destination is there, with
  // the recorded size and digest.
  lemma CompletedMeansPublished(c: Config, d: Disk, run: seq<Action>)
    requires StoreOk(c, d) && RunOk(c, d, run) && After(d, run).record.state == Completed
    ensures var e := After(d, run); Matches(c, e.shared, Dest(e.record.meta), e.record.meta.size, e.record.finalSha)
  {
    RunKeepsStore(c, d, run);
  }

  // ----- Crash recovery -----

  // Nobody else takes a free destination name during the run.
  predicate NoForeignFile(d: Disk, run: seq<Action>) {
    forall i | 0 <= i < |run| ::
      run[i].Environment? && Dest(d.record.meta) in run[i].after.names ==>
        Dest(d.record.meta) in At(d, run, i).shared.names
  }

  // If the destination is taken while the upload is unfinished, it holds the parts, all of them.
  predicate DestinationIsOurs(d: Disk) {
    var m := d.record;
    && (Stage(m.meta) in d.shared.names ==> d.shared.names[Stage(m.meta)].File?)
    && (m.state in {Active, Finalizing} && Dest(m.meta) in d.shared.names ==>
          && |m.parts| == m.meta.partCount && AllPartsHere(d)
          && IsFile(d.shared, Dest(m.meta)) && Contents(d.shared, Dest(m.meta)) == WholeFile(d))
  }

  // While no part is recorded or replaced, the assembled file cannot change.
  lemma StepKeepsWholeFile(c: Config, d: Disk, a: Action)
    requires StoreOk(c, d) && Guard(c, d, a)
    requires d.record.state in {Active, Finalizing} && Effect(d, a).record.state in {Active, Finalizing}
    requires |d.record.parts| == d.record.meta.partCount
    ensures AllPartsHere(d) && AllPartsHere(Effect(d, a)) && Effect(d, a).record.meta == d.record.meta
    ensures WholeFile(Effect(d, a)) == WholeFile(d)
    ensures Effect(d, a).record.parts == d.record.parts
  {
    FullRecordHasAllParts(c, d);
    var e := Effect(d, a);
    forall k | 0 <= k < d.record.meta.partCount
      ensures k in e.parts && e.parts[k] == d.parts[k]
    {
      assert k in d.record.parts;
    }
    AssembledFrame(d.parts, e.parts, d.record.meta.partCount);
  }

  lemma StepKeepsDestinationOurs(c: Config, d: Disk, a: Action)
    requires StoreOk(c, d) && Guard(c, d, a) && DestinationIsOurs(d)
    requires a.Environment? && Dest(d.record.meta) in a.after.names ==> Dest(d.record.meta) in d.shared.names
    ensures DestinationIsOurs(Effect(d, a))
  {
    var e := Effect(d, a);
    var m := d.record;
    StageNames(m.meta.id, m.meta.id, m.meta.name);
    if e.record.state in {Active, Finalizing} && Dest(m.meta) in e.shared.names {
      if Dest(m.meta) in d.shared.names {
        StepKeepsDestination(c, d, a);
        StepKeepsWholeFile(c, d, a);
      } else {
        assert a == LinkDestination by {
          if !a.Environment? { OwnStepTouchesOnlyItsNames(c, d, a, Dest(m.meta)); }
        }
        StepKeepsWholeFile(c, d, a);
      }
    }
  }

  lemma {:induction false} RunKeepsDestinationOurs(c: Config, d: Disk, run: seq<Action>, i: nat)
    requires StoreOk(c, d) && RunOk(c, d, run) && NoForeignFile(d, run) && DestinationIsOurs(d) && i <= |run|
    ensures DestinationIsOurs(At(d, run, i)) && StoreOk(c, At(d, run, i))
  {
    AtStoreOk(c, d, run, i);
    if i > 0 {
      RunKeepsDestinationOurs(c, d, run, i - 1);
      AtNext(c, d, run, i - 1);
      StepKeepsDestinationOurs(c, At(d, run, i - 1), run[i - 1]);
    }
  }

  // Stop any run anywhere, recoveries of earlier stops included. If the destination name was free at
  // the start or already held the upload's own file, and nobody else took it, recovery accepts the
  // disk exactly when the directory still resolves and the declared digest is absent or right.
  lemma CrashPointIsRecoverable(c: Config, d: Disk, run: seq<Action>, i: nat)
    requires ValidConfig(c) && StoreOk(c, d) && RunOk(c, d, run) && NoForeignFile(d, run) && i <= |run|
    requires DestinationIsOurs(d)
    ensures var e := At(d, run, i);
            RecoveryAccepts(c, e) <==>
            (e.record.state == Finalizing ==>
               && e.record.meta.path in e.shared.dirs
               && AllPartsHere(e) && e.record.meta.expectedSha in {"", c.sha256(WholeFile(e))})
  {
    hide Effect, Guard, ValidMeta, EnvironmentOk;
    RunKeepsDestinationOurs(c, d, run, i);
    var e := At(d, run, i);
    if e.record.state == Finalizing {
      WholeFileLength(c, e);
    }
  }

  // Against a full record `d`: while unfinished nothing that will be published has changed, and
  // once completed the destination shows exactly that.
  predicate PublishesExactly(d: Disk, e: Disk)
    requires AllPartsHere(d)
  {
    && e.record.meta == d.record.meta
    && (e.record.state in {Active, Finalizing} ==>
          AllPartsHere(e) && WholeFile(e) == WholeFile(d) && e.record.parts == d.record.parts)
    && (e.record.state == Completed ==>
          IsFile(e.shared, Dest(d.record.meta)) && Contents(e.shared, Dest(d.record.meta)) == WholeFile(d))
  }

  lemma StepPublishesExactly(c: Config, d: Disk, e: Disk, a: Action)
    requires AllPartsHere(d) && |d.record.parts| == d.record.meta.partCount && PublishesExactly(d, e)
    requires StoreOk(c, e) && Guard(c, e, a) && DestinationIsOurs(e)
    ensures PublishesExactly(d, Effect(e, a))
  {
    var f := Effect(e, a);
    if f.record.state in {Active, Finalizing} {
      StepKeepsWholeFile(c, e, a);
    } else if f.record.state == Completed {
      StepKeepsDestination(c, e, a);
    }
  }

  // The published file is, byte for byte, the parts that were recorded when the record was full.
  lemma {:induction false} PublishedFileIsTheParts(c: Config, d: Disk, run: seq<Action>, i: nat)
    requires StoreOk(c, d) && RunOk(c, d, run) && NoForeignFile(d, run) && i <= |run|
    requires d.record.state in {Active, Finalizing} && |d.record.parts| == d.record.meta.partCount
    requires DestinationIsOurs(d)
    ensures AllPartsHere(d) && PublishesExactly(d, At(d, run, i))
  {
    FullRecordHasAllParts(c, d);
    if i > 0 {
      PublishedFileIsTheParts(c, d, run, i - 1);
      AtNext(c, d, run, i - 1);
      RunKeepsDestinationOurs(c, d, run, i - 1);
      StepPublishesExactly(c, d, At(d, run, i - 1), run[i - 1]);
    }
  }

  // ----- Many uploads -----

  // What one upload does is, for every other upload, something its environment may do.
  lemma UploadsAreEachOthersEnvironment(c: Config, mine: Disk, a: Action, other: Disk)
    requires ValidManifest(c, mine.record) && ValidManifest(c, other.record)
    requires mine.record.meta.id != other.record.meta.id && mine.shared == other.shared && WellFormed(mine.shared)
    requires Guard(c, mine, a) && !a.Environment?
    ensures Guard(c, other, Environment(Effect(mine, a).shared))
  {
    var m, o := mine.record.meta, other.record.meta;
    StageNames(m.id, o.id, o.name);
    StageNames(o.id, m.id, m.name);
    OwnStepTouchesOnlyItsNames(c, mine, a, Stage(o));
    OwnStepTouchesOnlyItsNames(c, mine, a, Dest(o));
  }

  // ----- The declared digest -----

  lemma StepKeepsDeclared(c: Config, d: Disk, a: Action)
    requires StoreOk(c, d) && Guard(c, d, a)
    requires d.record.state == Completed ==> d.record.meta.expectedSha in {"", d.record.finalSha}
    ensures Effect(d, a).record.meta == d.record.meta
    ensures Effect(d, a).record.state == Completed ==> d.record.meta.expectedSha in {"", Effect(d, a).record.finalSha}
  {
    hide ValidManifest, PartsIntact, AllPartsHere, Matches, ExclusiveStage, UploadStageName, EnvironmentOk;
  }

  lemma {:induction false} CompletedAsDeclared(c: Config, d: Disk, run: seq<Action>, i: nat)
    requires StoreOk(c, d) && RunOk(c, d, run) && i <= |run| && d.record.state != Completed
    ensures At(d, run, i).record.meta == d.record.meta
    ensures At(d, run, i).record.state == Completed ==> d.record.meta.expectedSha in {"", At(d, run, i).record.finalSha}
  {
    hide StoreOk, RunOk, Guard, Effect;
    if i == 0 {
      assert run[..0] == [];
    } else {
      CompletedAsDeclared(c, d, run, i - 1);
      AtStoreOk(c, d, run, i - 1);
      AtNext(c, d, run, i - 1);
      StepKeepsDeclared(c, At(d, run, i - 1), run[i - 1]);
    }
  }

  // An upload created with a digest and completed at some point of any run has a file of that digest at its
  // destination from then on.
  lemma DeclaredDigestIsPublished(c: Config, d: Disk, run: seq<Action>, i: nat, j: nat)
    requires StoreOk(c, d) && RunOk(c, d, run) && i <= j <= |run| && d.record.state != Completed
    requires At(d, run, i).record.state == Completed && d.record.meta.expectedSha != ""
    ensures IsFile(At(d, run, j).shared, Dest(d.record.meta))
    ensures c.sha256(Contents(At(d, run, j).shared, Dest(d.record.meta))) == d.record.meta.expectedSha
  {
    hide StoreOk, RunOk, At, Dest, IsFile, Contents, SameFile;
    CompletedAsDeclared(c, d, run, i);
    CompletedShowsDigest(c, d, run, i);
    FileIsNamed(At(d, run, i).shared, Dest(d.record.meta));
    DestinationIsPermanent(c, d, run, i, j);
    SameFileSameBytes(At(d, run, i).shared, At(d, run, j).shared, Dest(d.record.meta));
  }

  lemma CompletedShowsDigest(c: Config, d: Disk, run: seq<Action>, i: nat)
    requires StoreOk(c, d) && RunOk(c, d, run) && i <= |run| && At(d, run, i).record.state == Completed
    ensures IsFile(At(d, run, i).shared, Dest(d.record.meta))
    ensures c.sha256(Contents(At(d, run, i).shared, Dest(d.record.meta))) == At(d, run, i).record.finalSha
  {
    hide ValidManifest, RunOk, At, Dest, PartsIntact, AllPartsHere;
    AtStoreOk(c, d, run, i);
  }
}
