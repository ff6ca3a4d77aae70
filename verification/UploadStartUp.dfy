// Start-up: every upload found in the state directory is loaded and recovered, then the expired ones
// are reaped (upload_store.go, NewUploadStore and recoverLocked).
module UploadStartUp {
  import opened Paths
  import opened UploadParts
  import opened UploadRecord
  import opened UploadRecordSize
  import opened UploadProtocol
  import UploadSafety
  import opened UploadStore
  import UploadOutcomes
  import Uploads = UploadDirectory

  type Upload = Uploads.Entry

  function DiskOf(u: Upload, shared: Shared): Disk
    requires u.record.Some?
  {
    Disk(u.record.value, u.parts, u.temps, shared)
  }

  function WithDisk(u: Upload, d: Disk): Upload { Uploads.Entry(u.id, Some(d.record), d.parts, d.temps) }

  // Every record that is there is one this store saved.
  predicate Kept(c: Config, uploads: seq<Upload>) {
    && (forall i | 0 <= i < |uploads| && uploads[i].record.Some? ::
          Uploads.Written(c, uploads[i]) && OwnStageName(uploads[i].record.value))
    && (forall i, j | 0 <= i < j < |uploads| :: uploads[i].id != uploads[j].id)
  }

  // The upload loads and its recovery accepts its disk.
  predicate Recoverable(c: Config, u: Upload, shared: Shared) {
    Uploads.Loadable(c, u) && RecoveryAccepts(c, DiskOf(u, shared))
  }

  // All of them, each judged by what was there before anything was recovered.
  predicate Startable(c: Config, uploads: seq<Upload>, shared: Shared) {
    forall i | 0 <= i < |uploads| :: Recoverable(c, uploads[i], shared)
  }

  function Recovered(c: Config, u: Upload, shared: Shared, now: int): Upload
    requires Recoverable(c, u, shared)
  {
    WithDisk(u, RecoveredDisk(c, DiskOf(u, shared), now))
  }

  function AllRecovered(c: Config, uploads: seq<Upload>, shared: Shared, now: int): (after: seq<Upload>)
    requires Startable(c, uploads, shared)
    ensures |after| == |uploads|
  {
    seq(|uploads|, i requires 0 <= i < |uploads| => Recovered(c, uploads[i], shared, now))
  }

  // The stages that recovering the first n uploads removes.
  function DroppedStages(uploads: seq<Upload>, n: nat): set<Name>
    requires n <= |uploads|
  {
    set i | 0 <= i < n && uploads[i].record.Some? && uploads[i].record.value.state == Finalizing ::
      Stage(uploads[i].record.value.meta)
  }

  function Without(s: Shared, gone: set<Name>): Shared { s.(names := s.names - gone) }

  // ----- One upload's recovery is nothing to the others -----

  lemma SameVerdictWithout(c: Config, d: Disk, gone: set<Name>)
    requires Dest(d.record.meta) !in gone && Stage(d.record.meta) !in gone
    ensures RecoveryAccepts(c, d.(shared := Without(d.shared, gone))) <==> RecoveryAccepts(c, d)
  {
    hide ValidManifest, UploadStageName, PartIntact, Assembled, PartsIntact;
    SamePartsSameFile(c, d, d.(shared := Without(d.shared, gone)));
  }

  lemma SamePartsSameFile(c: Config, d: Disk, e: Disk)
    requires e.record == d.record && e.parts == d.parts
    ensures PartsIntact(c, e) <==> PartsIntact(c, d)
    ensures AllPartsHere(e) <==> AllPartsHere(d)
    ensures AllPartsHere(d) ==> WholeFile(e) == WholeFile(d)
  {
    hide PartIntact, Assembled;
  }

  lemma WithoutCommutes(s: Shared, a: set<Name>, b: set<Name>)
    ensures Without(Without(s, a), b) == Without(Without(s, b), a)
    ensures Without(Without(s, a), b) == Without(s, a + b)
    ensures Without(s, {}) == s
  {
    assert s.names - a - b == s.names - b - a == s.names - (a + b);
    assert s.names - {} == s.names;
  }

  // The stage that recovering this upload drops.
  function OwnDrop(m: Manifest): set<Name> { if m.state == Finalizing then {Stage(m.meta)} else {} }

  // A recovery's result apart from the tree, which only loses the stage.
  lemma RecoveredIs(c: Config, d: Disk, now: int)
    requires RecoveryAccepts(c, d)
    ensures RecoveredDisk(c, d, now).shared == Without(d.shared, OwnDrop(d.record))
    ensures d.record.state != Finalizing ==> RecoveredDisk(c, d, now).record == d.record
  {
    hide RecoveryAccepts, UploadStageName, WholeFile, CompletedRecord, ActiveAgain;
    WithoutCommutes(d.shared, {}, {});
  }

  lemma SameResultWithout(c: Config, d: Disk, gone: set<Name>, now: int)
    requires Dest(d.record.meta) !in gone && RecoveryAccepts(c, d)
    requires RecoveryAccepts(c, d.(shared := Without(d.shared, gone)))
    ensures var e, f := RecoveredDisk(c, d, now), RecoveredDisk(c, d.(shared := Without(d.shared, gone)), now);
            f.record == e.record && f.parts == e.parts && f.temps == e.temps
  {
    hide RecoveryAccepts, UploadStageName, AllPartsHere, WholeFile, CompletedRecord, ActiveAgain;
    if d.record.state == Finalizing { AcceptedHasParts(c, d); }
    SamePartsSameFile(c, d, d.(shared := Without(d.shared, gone)));
  }

  lemma AcceptedHasParts(c: Config, d: Disk)
    requires RecoveryAccepts(c, d) && d.record.state == Finalizing
    ensures AllPartsHere(d)
  {
    hide ValidManifest, PartsIntact, Matches;
  }

  lemma NotSeenByRecovery(c: Config, d: Disk, gone: set<Name>, now: int)
    requires Dest(d.record.meta) !in gone && Stage(d.record.meta) !in gone
    ensures var e := d.(shared := Without(d.shared, gone));
            && (RecoveryAccepts(c, e) <==> RecoveryAccepts(c, d))
            && (RecoveryAccepts(c, d) ==>
                  RecoveredDisk(c, e, now) ==
                  RecoveredDisk(c, d, now).(shared := Without(RecoveredDisk(c, d, now).shared, gone)))
  {
    hide RecoveryAccepts, RecoveredDisk, Without, OwnDrop;
    SameVerdictWithout(c, d, gone);
    if RecoveryAccepts(c, d) {
      SameResultWithout(c, d, gone, now);
      RecoveredIs(c, d, now);
      RecoveredIs(c, d.(shared := Without(d.shared, gone)), now);
      WithoutCommutes(d.shared, gone, OwnDrop(d.record));
    }
  }

  lemma OthersStages(c: Config, uploads: seq<Upload>, n: nat, k: nat)
    requires Kept(c, uploads) && n <= k < |uploads| && uploads[k].record.Some?
    ensures Dest(uploads[k].record.value.meta) !in DroppedStages(uploads, n)
    ensures Stage(uploads[k].record.value.meta) !in DroppedStages(uploads, n)
  {
    hide ValidParts, UploadStageName, PartCount;
    var m := uploads[k].record.value.meta;
    forall i | 0 <= i < n && uploads[i].record.Some?
      ensures Stage(uploads[i].record.value.meta) != Dest(m) && Stage(uploads[i].record.value.meta) != Stage(m)
    {
      assert Uploads.Written(c, uploads[i]) && Uploads.Written(c, uploads[k]);
      StageNames(uploads[i].record.value.meta.id, m.id, m.name);
    }
  }

  // ----- The loop's progress -----

  // The first n uploads are recovered from the starting state, the others untouched.
  predicate RecoveredUpTo(c: Config, first: seq<Upload>, tree: Shared, n: nat, now: int, uploads: seq<Upload>, shared: Shared) {
    && n <= |first| == |uploads|
    && (forall i | 0 <= i < n :: Recoverable(c, first[i], tree) && uploads[i] == Recovered(c, first[i], tree, now))
    && (forall i | n <= i < |first| :: uploads[i] == first[i])
    && shared == Without(tree, DroppedStages(first, n))
  }

  lemma SameVerdictLater(c: Config, first: seq<Upload>, tree: Shared, n: nat, now: int, uploads: seq<Upload>, shared: Shared)
    requires Kept(c, first) && RecoveredUpTo(c, first, tree, n, now, uploads, shared) && n < |first|
    ensures uploads[n] == first[n]
    ensures Recoverable(c, uploads[n], shared) <==> Recoverable(c, first[n], tree)
  {
    hide ValidManifest, RecoveryAccepts, UploadStageName, DroppedStages, RecoveredDisk, Fits;
    if Uploads.Loadable(c, first[n]) {
      OthersStages(c, first, n, n);
      NotSeenByRecovery(c, DiskOf(first[n], tree), DroppedStages(first, n), now);
    }
  }

  lemma RecoverNext(c: Config, first: seq<Upload>, tree: Shared, n: nat, now: int, uploads: seq<Upload>, shared: Shared)
    requires Kept(c, first) && RecoveredUpTo(c, first, tree, n, now, uploads, shared) && n < |first|
    requires Recoverable(c, uploads[n], shared)
    ensures var d := RecoveredDisk(c, DiskOf(uploads[n], shared), now);
            RecoveredUpTo(c, first, tree, n + 1, now, uploads[n := WithDisk(uploads[n], d)], d.shared)
  {
    hide ValidManifest, RecoveryAccepts, UploadStageName, DroppedStages, RecoveredDisk, Fits, Without;
    SameVerdictLater(c, first, tree, n, now, uploads, shared);
    var d := DiskOf(first[n], tree);
    OthersStages(c, first, n, n);
    NotSeenByRecovery(c, d, DroppedStages(first, n), now);
    RecoveredIs(c, d, now);
    OneMoreStage(first, tree, n);
  }

  lemma OneMoreStage(first: seq<Upload>, tree: Shared, n: nat)
    requires n < |first| && first[n].record.Some?
    ensures Without(tree, DroppedStages(first, n + 1)) ==
            Without(Without(tree, OwnDrop(first[n].record.value)), DroppedStages(first, n))
  {
    hide UploadStageName;
    var own := OwnDrop(first[n].record.value);
    assert DroppedStages(first, n + 1) == DroppedStages(first, n) + own;
    WithoutCommutes(tree, own, DroppedStages(first, n));
    assert own + DroppedStages(first, n) == DroppedStages(first, n) + own;
  }

  lemma NothingRecoveredYet(c: Config, first: seq<Upload>, tree: Shared, now: int)
    ensures RecoveredUpTo(c, first, tree, 0, now, first, tree)
  {
    assert DroppedStages(first, 0) == {};
    assert tree.names - {} == tree.names;
  }

  // ----- What recovery does to a record -----

  lemma StepKeepsValid(c: Config, d: Disk, a: Action)
    requires ValidManifest(c, d.record) && Guard(c, d, a)
    ensures ValidManifest(c, Effect(d, a).record)
  {
    hide ValidManifest, PartsIntact, AllPartsHere, Matches, ExclusiveStage, UploadStageName, EnvironmentOk;
  }

  lemma {:induction false} RunKeepsValid(c: Config, d: Disk, run: seq<Action>)
    requires ValidManifest(c, d.record) && RunOk(c, d, run)
    ensures ValidManifest(c, After(d, run).record) && UploadSafety.NoGoingBack(d.record, After(d, run).record)
  {
    hide ValidManifest, Guard, Effect;
    if run != [] {
      var before := run[..|run| - 1];
      RunKeepsValid(c, d, before);
      StepKeepsValid(c, After(d, before), run[|run| - 1]);
      UploadSafety.StepNeverGoesBack(c, After(d, before), run[|run| - 1]);
    }
  }

  // An upload whose publication start-up has just settled is never reaped in the same start-up: its
  // time starts anew, however long ago it ran out.
  lemma SettledIsLive(c: Config, u: Upload, shared: Shared, now: int)
    requires ValidConfig(c) && Recoverable(c, u, shared) && u.record.value.state == Finalizing
    ensures Uploads.Live(Recovered(c, u, shared, now), now)
  {
  }

  // ----- Lower limits -----

  // A lower limit on pending bytes keeps no directory from starting up, even one that exceeds it.
  lemma StillStartable(c: Config, uploads: seq<Upload>, shared: Shared, limit: int)
    requires ValidConfig(c) && Kept(c, uploads) && c.maxFileBytes <= limit
    ensures var lower := c.(maxPendingBytes := limit);
            ValidConfig(lower) && (Startable(lower, uploads, shared) <==> Startable(c, uploads, shared))
  {
    hide ValidManifest, Fits, OwnStageName;
    var lower := c.(maxPendingBytes := limit);
    KeptEntries(c, uploads);
    Uploads.LoweringTheLimit(c, uploads, limit);
    forall i | 0 <= i < |uploads| ensures Recoverable(lower, uploads[i], shared) <==> Recoverable(c, uploads[i], shared) {
      if uploads[i].record.Some? {
        SameVerdictBelow(c, DiskOf(uploads[i], shared), limit);
      }
    }
  }

  lemma SameVerdictBelow(c: Config, d: Disk, limit: int)
    ensures var lower := c.(maxPendingBytes := limit);
            ValidManifest(lower, d.record) && RecoveryAccepts(lower, d) <==> ValidManifest(c, d.record) && RecoveryAccepts(c, d)
  {
    hide ValidLeafName, ValidUploadId, ValidSha256, CleanRelative, ExpectedPartSize, PartCount, IsUploadStageName, Assembled;
    var lower := c.(maxPendingBytes := limit);
    assert ValidManifest(lower, d.record) <==> ValidManifest(c, d.record);
    assert PartsIntact(lower, d) <==> PartsIntact(c, d) by {
      forall k | k in d.record.parts
        ensures PartIntact(lower, d.record.parts, d.parts, k) <==> PartIntact(c, d.record.parts, d.parts, k)
      {
      }
    }
  }

  // ----- Half-created uploads -----

  // What Create adds to an otherwise startable directory keeps it startable exactly when the first
  // record has been saved. A crash between Mkdir and that save therefore stops every later start-up.
  lemma HalfCreatedUploadBlocksStartUp(c: Config, uploads: seq<Upload>, shared: Shared, added: Upload)
    requires Startable(c, uploads, shared)
    requires added.record.Some? ==>
               Uploads.Loadable(c, added) && added.record.value.state == Active && added.record.value.parts == map[]
    ensures Startable(c, uploads + [added], shared) <==> added.record.Some?
  {
    hide ValidManifest, Fits;
    var all := uploads + [added];
    assert all[|uploads|] == added;
    forall i | 0 <= i < |uploads| ensures all[i] == uploads[i] && Recoverable(c, all[i], shared) {
    }
  }

  // ----- Half-removed uploads -----

  // The record is there and, unless it is finished, so is every part it mentions.
  predicate Usable(u: Upload) {
    && u.record.Some?
    && (u.record.value.state in {Active, Finalizing} ==> forall p | p in u.record.value.parts :: p in u.parts)
  }

  // What a removal by the reaper that did not get to its end leaves of an upload keeps the directory startable
  // exactly when the record is left and, for an unfinished upload, so is every part it mentions.
  lemma HalfReapedUploadBlocksStartUp(c: Config, uploads: seq<Upload>, shared: Shared, k: nat, left: Upload)
    requires ValidConfig(c) && Startable(c, uploads, shared) && k < |uploads| && Uploads.PartlyRemoved(uploads[k], left)
    ensures Startable(c, uploads[k := left], shared) <==> Usable(left)
  {
    hide ValidManifest, Fits, ValidConfig, RecoveryAccepts;
    var all := uploads[k := left];
    assert forall i | 0 <= i < |all| && i != k :: all[i] == uploads[i] && Recoverable(c, all[i], shared);
    assert Recoverable(c, uploads[k], shared) && all[k] == left;
    if left.record.Some? {
      HalfReapedIsRecoverable(c, uploads[k], left, shared);
    }
  }

  lemma HalfReapedIsRecoverable(c: Config, u: Upload, left: Upload, shared: Shared)
    requires ValidConfig(c) && Recoverable(c, u, shared) && Uploads.PartlyRemoved(u, left) && left.record.Some?
    ensures Recoverable(c, left, shared) <==> Usable(left)
  {
    hide ValidManifest, Fits, ValidConfig, Matches, PartIntact;
    var d, e := DiskOf(u, shared), DiskOf(left, shared);
    if forall p | p in left.record.value.parts :: p in left.parts {
      if d.record.state in {Active, Finalizing} {
        assert forall p | p in d.record.parts :: p in d.parts && p in e.parts && e.parts[p] == d.parts[p];
        UploadOutcomes.LeftoversNeverMatterToRecovery(c, d, e, 1);
      }
    } else if p :| p in left.record.value.parts && p !in left.parts {
      MissingFileIsNotIntact(c, e, p);
    }
  }

  lemma MissingFileIsNotIntact(c: Config, d: Disk, p: int)
    requires p in d.record.parts && p !in d.parts
    ensures !PartsIntact(c, d)
  {
    assert !PartIntact(c, d.record.parts, d.parts, p);
  }

  class Server {
    const config: Config
    const reliable: bool
    var uploads: seq<Upload>
    var shared: Shared

    ghost predicate Valid()
      reads this
    {
      ValidConfig(config) && WellFormed(shared) && Kept(config, uploads)
    }

    constructor (config: Config, reliable: bool, uploads: seq<Upload>, shared: Shared)
      requires ValidConfig(config) && WellFormed(shared) && Kept(config, uploads)
      ensures Valid() && this.uploads == uploads && this.shared == shared
      ensures this.config == config && this.reliable == reliable
    {
      this.config, this.reliable, this.uploads, this.shared := config, reliable, uploads, shared;
    }

    // loadManifest and recoverManifestLocked on one upload.
    method RecoverOne(i: nat, now: int) returns (ok: bool)
      requires Valid() && i < |uploads| && now > 0
      modifies this`uploads, this`shared
      ensures Valid() && |uploads| == |old(uploads)|
      ensures forall j | 0 <= j < |uploads| && j != i :: uploads[j] == old(uploads)[j]
      ensures ok ==> Uploads.Loadable(config, old(uploads)[i])
      ensures Uploads.OthersMoveOn(config, old(uploads), uploads)
      ensures reliable ==> (ok <==> Recoverable(config, old(uploads)[i], old(shared)))
      ensures reliable && ok ==>
                var d := RecoveredDisk(config, DiskOf(old(uploads)[i], old(shared)), now);
                uploads == old(uploads)[i := WithDisk(old(uploads)[i], d)] && shared == d.shared
      ensures reliable && !ok ==> uploads == old(uploads) && shared == old(shared)
    {
      hide ValidManifest, ValidConfig, RecoveryAccepts, RecoveredDisk, WellFormed, RunOk, After, Fits, UploadSafety.NoGoingBack;
      var u := uploads[i];
      ghost var first := uploads;
      if !Uploads.Loadable(config, u) {
        NobodyMoved(config, first);
        return false;
      }
      var store := new Store(config, reliable, DiskOf(u, shared));
      ok := store.RecoverManifest(now);
      RunKeepsValid(config, store.origin, store.run);
      uploads := uploads[i := WithDisk(u, store.disk)];
      shared := store.disk.shared;
      OneMoved(config, first, uploads, i);
    }

    // The loop of recoverLocked.
    method RecoverAll(now: int) returns (ok: bool, ghost n: nat)
      requires Valid() && now > 0
      modifies this`uploads, this`shared
      ensures Valid() && |uploads| == |old(uploads)|
      ensures Uploads.OthersMoveOn(config, old(uploads), uploads)
      ensures ok ==> forall i | 0 <= i < |old(uploads)| :: Uploads.Loadable(config, old(uploads)[i])
      ensures reliable ==> (ok <==> Startable(config, old(uploads), old(shared)))
      ensures reliable ==> RecoveredUpTo(config, old(uploads), old(shared), n, now, uploads, shared)
      ensures ok ==> n == |uploads|
    {
      hide ValidManifest, ValidConfig, RecoveredUpTo, Recoverable, Uploads.OthersMoveOn, Kept, Uploads.Loadable, WellFormed,
           RecoveredDisk, WithDisk;
      ghost var first, tree := uploads, shared;
      NobodyMoved(config, first);
      NothingRecoveredYet(config, first, tree, now);
      var i := 0;
      n := 0;
      while i < |uploads|
        invariant Valid() && |uploads| == |first| && 0 <= i <= |first| && n == i
        invariant Uploads.OthersMoveOn(config, first, uploads)
        invariant forall j | i <= j < |first| :: uploads[j] == first[j]
        invariant forall j | 0 <= j < i :: Uploads.Loadable(config, first[j])
        invariant reliable ==> RecoveredUpTo(config, first, tree, i, now, uploads, shared)
        invariant reliable ==> forall j | 0 <= j < i :: Recoverable(config, first[j], tree)
      {
        ghost var before, between := uploads, shared;
        if reliable { SameVerdictLater(config, first, tree, i, now, before, between); }
        ok := RecoverOne(i, now);
        Uploads.MovingOnComposes(config, first, before, uploads);
        if !ok {
          return;
        }
        if reliable { RecoverNext(config, first, tree, i, now, before, between); }
        i := i + 1;
        n := n + 1;
      }
      ok := true;
    }

    // recoverLocked: recover everything, then reap. The directory that results is what the server
    // starts with.
    method StartUp(now: int) returns (ok: bool, directory: Uploads.Directory)
      requires Valid() && now > 0
      modifies this`uploads, this`shared
      ensures Valid() && fresh(directory) && directory.Kept() && directory.config == config
      ensures Uploads.OthersMoveOn(config, old(uploads), uploads)
      ensures ok && Uploads.QuotaOk(config, old(uploads)) ==> directory.Valid()
      // A directory without a record, as a crash inside Create or the reaper leaves it, is never accepted.
      ensures (exists i :: 0 <= i < |old(uploads)| && old(uploads)[i].record.None?) ==> !ok
      ensures reliable ==>
                (ok <==> Startable(config, old(uploads), old(shared)) &&
                         forall i | 0 <= i < |old(uploads)| ::
                           Fits(config, Recovered(config, old(uploads)[i], old(shared), now).record.value))
      ensures reliable && ok ==>
                && uploads == AllRecovered(config, old(uploads), old(shared), now)
                && shared == Without(old(shared), DroppedStages(old(uploads), |uploads|))
                && directory.entries == Uploads.Unexpired(uploads, now)
                // Recovery alone drops stages; what is reaped leaves its stage where it was.
                && directory.shared == shared
    {
      hide ValidManifest, ValidConfig, RecoveredUpTo, Uploads.OthersMoveOn, Kept, WellFormed, Uploads.QuotaOk, Uploads.WellKept,
           RecoveredDisk, Fits, RecoveryAccepts, Uploads.NoMoreReserved, Uploads.Unexpired, DroppedStages, Without;
      ghost var first, tree := uploads, shared;
      KeptEntries(config, first);
      ghost var n;
      ok, n := RecoverAll(now);
      KeptEntries(config, uploads);
      directory := new Uploads.Directory.Opened(config, reliable, uploads, shared);
      if !ok {
        return;
      }
      ghost var entries := directory.entries;
      if reliable { RecoveredLoad(config, first, tree, now, uploads, shared); }
      ok := directory.ReapExpired(now);
      QuotaFromStart(config, first, entries, directory.entries);
    }
  }

  lemma NobodyMoved(c: Config, uploads: seq<Upload>)
    requires Kept(c, uploads)
    ensures Uploads.OthersMoveOn(c, uploads, uploads)
  {
    hide ValidManifest;
  }

  lemma OneMoved(c: Config, s: seq<Upload>, t: seq<Upload>, i: nat)
    requires Kept(c, s) && i < |s| == |t| && s[i].record.Some? && t == s[i := t[i]] && t[i].id == s[i].id
    requires t[i].record.Some? && UploadSafety.NoGoingBack(s[i].record.value, t[i].record.value)
    requires ValidManifest(c, t[i].record.value) && OwnStageName(t[i].record.value)
    ensures Kept(c, t) && Uploads.OthersMoveOn(c, s, t)
  {
    hide ValidManifest;
    assert Uploads.Written(c, s[i]);
  }

  lemma KeptEntries(c: Config, uploads: seq<Upload>)
    requires Kept(c, uploads)
    ensures Uploads.WellKept(c, uploads)
  {
    hide ValidManifest;
  }

  lemma RecoveredLoad(c: Config, first: seq<Upload>, tree: Shared, now: int, uploads: seq<Upload>, shared: Shared)
    requires RecoveredUpTo(c, first, tree, |first|, now, uploads, shared) && Kept(c, uploads)
    ensures Startable(c, first, tree) && uploads == AllRecovered(c, first, tree, now)
    ensures shared == Without(tree, DroppedStages(first, |uploads|))
    ensures (forall i | 0 <= i < |uploads| :: Uploads.Loadable(c, uploads[i])) <==>
              forall i | 0 <= i < |first| :: Fits(c, Recovered(c, first[i], tree, now).record.value)
  {
    hide ValidManifest, Fits, RecoveredDisk, DroppedStages, Without, RecoveryAccepts;
    forall i | 0 <= i < |uploads|
      ensures Uploads.Loadable(c, uploads[i]) <==> Fits(c, Recovered(c, first[i], tree, now).record.value)
    {
      assert Uploads.Written(c, uploads[i]);
    }
  }

  lemma QuotaFromStart(c: Config, first: seq<Uploads.Entry>, recovered: seq<Uploads.Entry>, left: seq<Uploads.Entry>)
    requires Uploads.WellKept(c, first) && Uploads.OthersMoveOn(c, first, recovered) && Uploads.NoMoreReserved(recovered, left)
    ensures Uploads.QuotaOk(c, first) ==> Uploads.QuotaOk(c, left)
  {
    hide ValidManifest;
    Uploads.MovingOnFreesQuota(c, first, recovered);
  }
}
