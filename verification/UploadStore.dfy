// The operations on one upload, step by step, against the protocol of UploadProtocol
// (upload_store.go and upload_publish.go).
//
// Every durable change goes through Perform, which may refuse it, apply it, or apply it and still
// report an error, and lets everyone else act on the managed tree in between. The ghost field
// `run` lists every action since `origin`, so the prefixes of `run` are exactly the places where
// the process may have stopped. With `reliable` set nothing fails and nobody interferes.
module UploadStore {
  import Collections
  import opened Paths
  import opened UploadParts
  import opened UploadRecord
  import opened UploadRecordSize
  import opened UploadProtocol

  datatype Code =
    | Done | NotFound | Corrupt | Expired | IsCancelled | Conflict | InvalidPart | InvalidDigest
    | PartConflict | Busy | SizeMismatch | Incomplete | DestinationExists | InsufficientStorage | Failed

  // authorizedManifest and the expiry test that follows it everywhere.
  function Admit(c: Config, m: Manifest, caller: Caller, now: int): Code {
    if caller.owner == "" || !ValidSha256(caller.token) then NotFound
    else if !Fits(c, m) || !ValidManifest(c, m) then Corrupt
    else if !Authorized(c, m.meta, caller) then NotFound
    else if now >= m.expiresAt then Expired
    else Done
  }

  function ActiveAgain(c: Config, m: Manifest, now: int): Manifest {
    m.(state := Active, stageName := "", finalSha := "", updatedAt := now, expiresAt := now + c.inactivityTtl)
  }

  function WithPart(c: Config, m: Manifest, k: int, part: Part, now: int): Manifest {
    m.(parts := m.parts[k := part], updatedAt := now, expiresAt := now + c.inactivityTtl)
  }

  function FinalizingRecord(c: Config, m: Manifest, now: int): Manifest {
    m.(state := Finalizing, stageName := UploadStageName(m.meta.id), updatedAt := now, expiresAt := now + c.inactivityTtl)
  }

  function CompletedRecord(c: Config, m: Manifest, sha: string, now: int): Manifest {
    m.(state := Completed, finalSha := sha, finalPath := FinalPath(m.meta), stageName := "", parts := map[],
       completedAt := now, updatedAt := now, expiresAt := now + c.completionTtl)
  }

  function CancelledRecord(c: Config, m: Manifest, now: int): Manifest {
    m.(state := Cancelled, stageName := "", finalSha := "", updatedAt := now, expiresAt := now + c.completionTtl)
  }

  function WithoutStage(d: Disk): Shared {
    d.shared.(names := d.shared.names - {Stage(d.record.meta)})
  }

  // The disk after recovery has accepted it.
  function RecoveredDisk(c: Config, d: Disk, now: int): Disk
    requires RecoveryAccepts(c, d)
  {
    match d.record.state
    case Completed => d.(parts := map[], temps := map[])
    case Cancelled => d.(parts := map[], temps := map[])
    case Active => d
    case Finalizing =>
      if Dest(d.record.meta) in d.shared.names then
        Disk(CompletedRecord(c, d.record, c.sha256(WholeFile(d)), now), map[], map[], WithoutStage(d))
      else
        d.(record := ActiveAgain(c, d.record, now), shared := WithoutStage(d))
  }

  // An active upload that can be published as things stand.
  predicate Publishable(c: Config, d: Disk) {
    var m := d.record.meta;
    && |d.record.parts| == m.partCount && PartsIntact(c, d) && AllPartsHere(d)
    && m.path in d.shared.dirs && Dest(m) !in d.shared.names
    && (Stage(m) in d.shared.names ==> d.shared.names[Stage(m)].File?)
    && m.expectedSha in {"", c.sha256(WholeFile(d))}
  }

  // The tree gains one new file under the destination name and loses the stage; no other name moves.
  function PublishedTree(d: Disk, file: Bytes): Shared {
    var s := d.shared;
    s.(names := (s.names - {Stage(d.record.meta)})[Dest(d.record.meta) := File(|s.inodes|)],
       inodes := s.inodes + [file])
  }

  // The disk after publication: the destination shows all parts in order and the record says so.
  function PublishedDisk(c: Config, d: Disk, now: int): Disk
    requires Publishable(c, d)
  {
    Disk(CompletedRecord(c, d.record, c.sha256(WholeFile(d)), now), map[], map[], PublishedTree(d, WholeFile(d)))
  }

  function CancelledDisk(c: Config, d: Disk, now: int): Disk {
    d.(record := CancelledRecord(c, d.record, now), parts := map[], temps := map[])
  }

  function WrittenRecord(c: Config, m: Manifest, index: int, body: Bytes, now: int): Manifest {
    WithPart(c, m, index, Part(|body|, c.sha256(body)), now)
  }

  // The part is already recorded with this digest, or it is missing and the body is right for it.
  predicate WriteAccepts(c: Config, m: Manifest, index: int, digest: string, body: Bytes, slot: bool) {
    && m.state == Active && 0 <= index < m.meta.partCount && ValidSha256(digest)
    && (if index in m.parts then m.parts[index].sha == digest
        else slot && |body| == ExpectedPartSize(m.meta.size, m.meta.chunkBytes, index) && c.sha256(body) == digest)
  }

  predicate CompleteAccepts(c: Config, d: Disk, now: int) {
    match d.record.state
    case Completed => true
    case Cancelled => false
    case Active => Publishable(c, d)
    case Finalizing =>
      RecoveryAccepts(c, d) &&
      (Dest(d.record.meta) in d.shared.names || Publishable(c, RecoveredDisk(c, d, now)))
  }

  function CompleteResult(c: Config, d: Disk, now: int): Disk
    requires CompleteAccepts(c, d, now)
  {
    match d.record.state
    case Completed => d
    case Active => PublishedDisk(c, d, now)
    case Finalizing =>
      if Dest(d.record.meta) in d.shared.names then RecoveredDisk(c, d, now)
      else PublishedDisk(c, RecoveredDisk(c, d, now), now)
  }

  lemma ValidFromActive(c: Config, m: Manifest, now: int)
    requires ValidConfig(c) && ValidManifest(c, m) && now > 0 && m.state == Active
    ensures ValidManifest(c, FinalizingRecord(c, m, now))
    ensures forall k, part: Part |
              0 <= k < m.meta.partCount && part.size == ExpectedPartSize(m.meta.size, m.meta.chunkBytes, k) && ValidSha256(part.sha) ::
              ValidManifest(c, WithPart(c, m, k, part, now))
  {
    hide UploadStageName, IsUploadStageName, ExpectedPartSize, PartCount, ValidSha256;
    assert ValidUploadId(m.meta.id);
    StageNames(m.meta.id, m.meta.id, m.meta.name);
    hide ValidMeta;
  }

  lemma ValidFromFinalizing(c: Config, m: Manifest, now: int)
    requires ValidConfig(c) && ValidManifest(c, m) && now > 0 && m.state == Finalizing
    ensures forall sha: Digest :: ValidManifest(c, m.(finalSha := sha, updatedAt := now))
    ensures forall sha: Digest :: ValidManifest(c, CompletedRecord(c, m, sha, now))
  {
    hide UploadStageName, IsUploadStageName, ExpectedPartSize, PartCount, ValidParts;
    forall sha: Digest ensures ValidManifest(c, CompletedRecord(c, m, sha, now)) {
      assert FinalPath(m.meta) != "";
    }
  }

  lemma ValidAgain(c: Config, m: Manifest, now: int)
    requires ValidConfig(c) && ValidManifest(c, m) && now > 0 && m.state in {Active, Finalizing}
    ensures ValidManifest(c, ActiveAgain(c, m, now)) && ValidManifest(c, CancelledRecord(c, m, now))
  {
    hide ValidMeta, ValidParts;
  }

  // Every record a transition goes on to save passes validateManifest again.
  lemma NextRecordsAreValid(c: Config, m: Manifest, now: int)
    requires ValidConfig(c) && ValidManifest(c, m) && now > 0
    ensures m.state in {Active, Finalizing} ==> ValidManifest(c, ActiveAgain(c, m, now))
    ensures m.state in {Active, Finalizing} ==> ValidManifest(c, CancelledRecord(c, m, now))
    ensures m.state == Active ==> ValidManifest(c, FinalizingRecord(c, m, now))
    ensures m.state == Finalizing ==> forall sha: Digest :: ValidManifest(c, m.(finalSha := sha, updatedAt := now))
    ensures m.state == Finalizing ==> forall sha: Digest :: ValidManifest(c, CompletedRecord(c, m, sha, now))
    ensures m.state == Active ==> forall k, part: Part |
              0 <= k < m.meta.partCount && part.size == ExpectedPartSize(m.meta.size, m.meta.chunkBytes, k) && ValidSha256(part.sha) ::
              ValidManifest(c, WithPart(c, m, k, part, now))
  {
    hide ValidManifest, ValidConfig, ExpectedPartSize;
    if m.state in {Active, Finalizing} { ValidAgain(c, m, now); }
    if m.state == Active { ValidFromActive(c, m, now); }
    if m.state == Finalizing { ValidFromFinalizing(c, m, now); }
  }

  // ----- What a saved record says -----

  // The record was saved at `now` and expires when its state says.
  predicate Dated(c: Config, m: Manifest, now: int) {
    && m.updatedAt == now
    && m.expiresAt == now + if m.state in {Active, Finalizing} then c.inactivityTtl else c.completionTtl
  }

  // It names the published file by its directory's segments and its name, and when that was.
  predicate PublicationRecorded(c: Config, m: Manifest, now: int) {
    && m.state == Completed && m.completedAt == now && Dated(c, m, now)
    && Split(m.finalPath) == (if m.meta.path == "" then [] else Split(m.meta.path)) + [m.meta.name]
  }

  // The final digest is the declared one if one was declared.
  predicate AsDeclared(m: Manifest) { m.meta.expectedSha in {"", m.finalSha} }

  // Between the steps of one call: untouched, saved anew, or sealed with its time still running.
  predicate DatedSince(c: Config, m: Manifest, n: Manifest, now: int) {
    || n == m || Dated(c, n, now)
    || (m.state == n.state == Finalizing && n.updatedAt == now && n.expiresAt == m.expiresAt)
  }

  lemma DatedComposes(c: Config, m: Manifest, n: Manifest, o: Manifest, now: int)
    requires DatedSince(c, m, n, now) && DatedSince(c, n, o, now)
    ensures DatedSince(c, m, o, now)
  {
  }

  lemma OnceDated(c: Config, m: Manifest, n: Manifest, now: int)
    ensures DatedSince(c, m, n, now) && Dated(c, m, now) ==> Dated(c, n, now)
    ensures DatedSince(c, m, n, now) && n.state != Finalizing ==> n == m || Dated(c, n, now)
  {
  }

  lemma RecordsAreDated(c: Config, m: Manifest, sha: string, now: int)
    ensures DatedSince(c, m, m, now) && DatedSince(c, m, CompletedRecord(c, m, sha, now), now)
    ensures m.state == Finalizing ==> DatedSince(c, m, m.(finalSha := sha, updatedAt := now), now)
    ensures Dated(c, ActiveAgain(c, m, now), now) && Dated(c, CancelledRecord(c, m, now), now)
    ensures Dated(c, FinalizingRecord(c, m, now), now) && DatedSince(c, m, ActiveAgain(c, m, now), now)
  {
  }

  lemma WhoIsLetIn(c: Config, m: Manifest, caller: Caller, now: int)
    ensures Fits(c, m) && ValidManifest(c, m) ==>
              (Admit(c, m, caller, now) == NotFound <==>
                 || !ValidSha256(caller.token) || c.tokenHash(caller.token) != m.meta.tokenHash
                 || caller.owner != m.meta.owner || caller.authMethod != m.meta.authMethod)
    ensures Fits(c, m) && ValidManifest(c, m) && Admit(c, m, caller, now) != NotFound ==>
              (Admit(c, m, caller, now) == Expired <==> now >= m.expiresAt)
    ensures Admit(c, m, caller, now) in {Done, NotFound, Expired, Corrupt}
    ensures Admit(c, m, caller, now) == Done ==> ValidManifest(c, m) && Fits(c, m)
  {
    hide ValidSha256, Fits;
  }

  lemma InterruptedCompletes(c: Config, d: Disk, now: int)
    ensures d.record.state == Finalizing ==> (CompleteAccepts(c, d, now) <==> RecoveryAccepts(c, d))
  {
    hide ValidManifest, PartIntact, UploadStageName, Assembled;
  }

  lemma PublishedDiskShows(c: Config, d: Disk, now: int)
    ensures Publishable(c, d) && ValidManifest(c, d.record) ==>
              var e, dest := PublishedDisk(c, d, now), Dest(d.record.meta);
              && e.record.meta == d.record.meta && IsFile(e.shared, dest) && Contents(e.shared, dest) == WholeFile(d)
              && e.shared.names.Keys == d.shared.names.Keys + {dest} - {Stage(d.record.meta)}
              && (forall n | n in e.shared.names && n != dest :: e.shared.names[n] == d.shared.names[n])
              && d.shared.inodes <= e.shared.inodes && e.parts == map[] && e.temps == map[]
  {
    hide ValidManifest, PartIntact, UploadStageName, Assembled;
    if ValidManifest(c, d.record) { DestinationIsNotStage(c, d.record); }
  }

  lemma ActiveHasNoStage(c: Config, m: Manifest)
    requires ValidManifest(c, m) && m.state == Active
    ensures m.stageName == ""
  {
  }

  lemma RecordedSize(c: Config, m: Manifest, k: int)
    requires ValidManifest(c, m) && m.state == Active && k in m.parts
    ensures m.parts[k].size == ExpectedPartSize(m.meta.size, m.meta.chunkBytes, k)
  {
  }

  lemma CompletionIsDated(c: Config, m: Manifest, sha: string, now: int)
    ensures Dated(c, CompletedRecord(c, m, sha, now), now)
  {
  }

  lemma CompletedRecordSays(c: Config, m: Manifest, sha: string, now: int)
    requires ValidManifest(c, m)
    ensures PublicationRecorded(c, CompletedRecord(c, m, sha, now), now)
  {
    assert SlashFree(m.meta.name);
    if m.meta.path == "" {
      SplitSlashFree(m.meta.name);
    } else {
      SplitAppend(m.meta.path, m.meta.name);
    }
  }

  // The tree with a stage file of the given content added to it.
  function StagedTree(s: Shared, m: Meta, content: Bytes): Shared {
    s.(names := s.names[Stage(m) := File(|s.inodes|)], inodes := s.inodes + [content])
  }

  // The disk is `d` up to what others may have done to the managed tree.
  predicate Near(d: Disk, e: Disk) {
    && e.record == d.record && e.parts == d.parts && e.temps == d.temps
    && EnvironmentOk(d.record.meta, d.shared, e.shared)
  }

  // No part is lost, and no name but the stage has changed.
  ghost predicate KeptPrivately(d: Disk, e: Disk) {
    && e.record.meta == d.record.meta && e.record.parts == d.record.parts && e.parts == d.parts
    && e.record.state in {Active, Finalizing}
    && forall n | n != Stage(d.record.meta) ::
         (n in e.shared.names <==> n in d.shared.names) &&
         (n in d.shared.names ==> e.shared.names[n] == d.shared.names[n])
  }

  // A publication undone: the record is active again, every part is there, the stage is gone and no
  // other name has come or gone.
  predicate RolledBack(c: Config, d: Disk, e: Disk, now: int) {
    && e.record == ActiveAgain(c, d.record, now) && e.parts == d.parts && e.temps == d.temps
    && e.shared.names == d.shared.names - {Stage(d.record.meta)}
  }

  // Whatever holds the stage name can be removed: a regular file or nothing.
  predicate StageIsFile(d: Disk) {
    Stage(d.record.meta) in d.shared.names ==> d.shared.names[Stage(d.record.meta)].File?
  }

  // How building the stage ends when nothing fails.
  function StageVerdict(c: Config, d: Disk): Code {
    if !PartsIntact(c, d) || !AllPartsHere(d) then Failed
    else if d.record.meta.expectedSha in {"", c.sha256(WholeFile(d))} then Done
    else InvalidDigest
  }

  predicate SamePrivate(d: Disk, e: Disk) {
    e.record == d.record && e.parts == d.parts && e.temps == d.temps
  }

  predicate OwnStageName(m: Manifest) {
    m.stageName in {"", UploadStageName(m.meta.id)}
  }

  class Store {
    const config: Config
    const reliable: bool
    var disk: Disk
    ghost const origin: Disk
    ghost var run: seq<Action>

    ghost predicate Valid()
      reads this
    {
      && ValidConfig(config) && WellFormed(disk.shared) && OwnStageName(disk.record)
      && RunOk(config, origin, run) && After(origin, run) == disk
    }

    constructor (config: Config, reliable: bool, disk: Disk)
      requires ValidConfig(config) && WellFormed(disk.shared) && OwnStageName(disk.record)
      ensures Valid() && this.disk == disk && this.origin == disk && run == []
      ensures this.config == config && this.reliable == reliable
    {
      this.config, this.reliable, this.disk := config, reliable, disk;
      this.origin, this.run := disk, [];
    }

    // ----- Single steps -----

    method Fault() returns (fault: bool)
      ensures reliable ==> !fault
    {
      fault := *;
      fault := fault && !reliable;
    }

    method Interfere()
      requires Valid()
      modifies this`disk, this`run
      ensures Valid() && old(run) <= run && Near(old(disk), disk)
      ensures reliable ==> disk == old(disk)
    {
      if !reliable {
        var after: Shared := *;
        if EnvironmentOk(disk.record.meta, disk.shared, after) {
          ExtendRun(config, origin, run, Environment(after));
          run := run + [Environment(after)];
          disk := disk.(shared := after);
        }
      }
    }

    method Perform(a: Action) returns (ok: bool)
      requires Valid() && !a.Environment? && Guard(config, disk, a)
      requires a.Save? || a.SavePart? ==> OwnStageName(a.saved)
      modifies this`disk, this`run
      ensures Valid() && old(run) <= run
      ensures ok ==> Near(Effect(old(disk), a), disk)
      ensures !ok ==> Near(old(disk), disk) || Near(Effect(old(disk), a), disk)
      ensures reliable ==> ok && disk == Effect(old(disk), a)
    {
      hide Effect, Guard, EnvironmentOk;
      var refused := Fault();
      if !refused {
        ExtendRun(config, origin, run, a);
        run := run + [a];
        disk := Effect(disk, a);
      }
      var failed := Fault();
      ok := !refused && !failed;
      Interfere();
    }

    // utils.ResolveDirectory on the upload's path.
    method ResolveDirectory() returns (ok: bool)
      ensures ok ==> disk.record.meta.path in disk.shared.dirs
      ensures reliable ==> (ok <==> disk.record.meta.path in disk.shared.dirs)
    {
      var fault := Fault();
      ok := !fault && disk.record.meta.path in disk.shared.dirs;
    }

    // safeUploadPart followed by reading the part to its end.
    method ReadPart(k: int) returns (ok: bool, bytes: Bytes)
      requires k in disk.record.parts
      ensures ok ==> PartIntact(config, disk.record.parts, disk.parts, k) && bytes == disk.parts[k]
      ensures reliable ==> (ok <==> PartIntact(config, disk.record.parts, disk.parts, k))
    {
      var fault := Fault();
      if fault || k !in disk.parts || |disk.parts[k]| != disk.record.parts[k].size
         || config.sha256(disk.parts[k]) != disk.record.parts[k].sha {
        return false, [];
      }
      return true, disk.parts[k];
    }

    // verifyUploadParts: every recorded part, in no particular order.
    method VerifyUploadParts() returns (ok: bool)
      ensures ok ==> PartsIntact(config, disk)
      ensures reliable ==> (ok <==> PartsIntact(config, disk))
    {
      var rest := disk.record.parts.Keys;
      while |rest| != 0
        invariant rest <= disk.record.parts.Keys
        invariant forall k | k in disk.record.parts && k !in rest :: PartIntact(config, disk.record.parts, disk.parts, k)
        decreases |rest|
      {
        ghost var some := Collections.Pick(rest);
        var k :| k in rest;
        var good, _ := ReadPart(k);
        if !good {
          return false;
        }
        rest := rest - {k};
      }
      return true;
    }

    // partsSHA256: the digest of the file the parts would assemble to.
    method PartsSha256() returns (ok: bool, digest: string)
      requires ValidConfig(config) && ValidManifest(config, disk.record) && disk.record.state == Finalizing
      ensures ok ==> PartsIntact(config, disk) && AllPartsHere(disk) && |disk.record.parts| == disk.record.meta.partCount
      ensures ok ==> digest == config.sha256(WholeFile(disk))
      ensures reliable ==> (ok <==> PartsIntact(config, disk) && |disk.record.parts| == disk.record.meta.partCount)
    {
      hide PartCount, ExpectedPartSize, ValidConfig, EnvironmentOk, CleanRelative, ValidLeafName, ValidUploadId;
      var hashed: Bytes := [];
      var index := 0;
      while index < disk.record.meta.partCount
        invariant 0 <= index <= disk.record.meta.partCount
        invariant forall k | 0 <= k < index :: k in disk.record.parts && PartIntact(config, disk.record.parts, disk.parts, k)
        invariant forall k | 0 <= k < index :: k in disk.parts
        invariant hashed == Assembled(disk.parts, index)
      {
        if index !in disk.record.parts {
          MissingPart(config, disk, index);
          return false, "";
        }
        var good, bytes := ReadPart(index);
        if !good {
          return false, "";
        }
        hashed := hashed + bytes;
        index := index + 1;
      }
      AllVerified(config, disk);
      if |hashed| != disk.record.meta.size {
        return false, "";
      }
      return true, config.sha256(hashed);
    }

    // removeRegularFile on the stage.
    method RemoveStageFile() returns (ok: bool)
      requires Valid() && disk.record.state == Finalizing
      modifies this`disk, this`run
      ensures Valid() && old(run) <= run
      ensures SamePrivate(old(disk), disk)
      ensures Dest(disk.record.meta) in old(disk.shared.names) && Dest(disk.record.meta) != Stage(disk.record.meta) ==>
                Dest(disk.record.meta) in disk.shared.names
      ensures ok ==> Stage(disk.record.meta) !in disk.shared.names
      ensures reliable && (Stage(disk.record.meta) in old(disk.shared.names) ==> old(disk.shared.names)[Stage(disk.record.meta)].File?) ==>
                ok && disk == old(disk).(shared := WithoutStage(old(disk)))
      ensures Stage(disk.record.meta) in old(disk.shared.names) && !old(disk.shared.names)[Stage(disk.record.meta)].File? ==>
                !ok && disk == old(disk)
    {
      var stage := Stage(disk.record.meta);
      if stage !in disk.shared.names {
        assert WithoutStage(disk).names == disk.shared.names;
        return true;
      }
      var fault := Fault();
      if fault || !disk.shared.names[stage].File? {
        return false;
      }
      ok := Perform(RemoveStage);
    }

    // saveManifest: validates, then replaces the record in one rename.
    method SaveManifest(n: Manifest) returns (ok: bool)
      requires Valid() && SaveOk(config, disk, n) && OwnStageName(n)
      modifies this`disk, this`run
      ensures Valid() && old(run) <= run
      ensures disk.parts == old(disk.parts) && disk.temps == old(disk.temps)
      ensures disk.record == n || (!ok && disk.record == old(disk.record))
      ensures EnvironmentOk(n.meta, old(disk.shared), disk.shared)
      ensures reliable ==> ok && disk == old(disk).(record := n)
    {
      if !ValidManifest(config, n) {
        return false;
      }
      ok := Perform(Save(n));
    }

    // os.RemoveAll on the parts directory: some files may go before the rest do.
    method PurgeAllParts() returns (ok: bool)
      requires Valid() && disk.record.state in {Completed, Cancelled}
      modifies this`disk, this`run
      ensures Valid() && old(run) <= run && disk.record == old(disk.record)
      ensures EnvironmentOk(disk.record.meta, old(disk.shared), disk.shared)
      ensures reliable ==> ok && disk == old(disk).(parts := map[], temps := map[])
    {
      hide EnvironmentOk, RunOk, After, WellFormed, ValidConfig, UploadStageName;
      var kept: set<int> := *;
      ghost var before := disk.shared;
      ok := Perform(PurgeParts(kept));
      if ok {
        ghost var between := disk.shared;
        ok := Perform(PurgeParts({}));
        EnvironmentTransitive(disk.record.meta, before, between, disk.shared);
      }
    }

    // ----- Recovery -----

    // os.Remove on the stage of a completed upload; a missing stage is no error.
    method DropStage() returns (ok: bool)
      requires Valid() && disk.record.state == Completed
      requires Dest(disk.record.meta) in disk.shared.names && Dest(disk.record.meta) != Stage(disk.record.meta)
      modifies this`disk, this`run
      ensures Valid() && old(run) <= run && disk.record == old(disk.record)
      ensures SameFile(old(disk.shared), disk.shared, Dest(disk.record.meta))
      ensures reliable ==> ok && disk == old(disk).(shared := WithoutStage(old(disk)))
    {
      if Stage(disk.record.meta) in disk.shared.names {
        ok := Perform(RemoveStage);
      } else {
        assert WithoutStage(disk).names == disk.shared.names;
        ok := true;
      }
    }

    // markCompleted
    method MarkCompleted(sha: string, now: int) returns (ok: bool)
      requires Valid() && disk.record.state == Finalizing
      requires SaveOk(config, disk, CompletedRecord(config, disk.record, sha, now))
      modifies this`disk, this`run
      ensures Valid() && old(run) <= run
      ensures ok ==> disk.record == CompletedRecord(config, old(disk.record), sha, now)
      ensures disk.record in {old(disk.record), CompletedRecord(config, old(disk.record), sha, now)}
      ensures SameFile(old(disk.shared), disk.shared, Dest(disk.record.meta))
      // Nothing is cleaned up before the record says completed.
      ensures disk.record == old(disk.record) ==>
                && disk.parts == old(disk.parts) && disk.temps == old(disk.temps)
                && (Stage(disk.record.meta) in disk.shared.names <==> Stage(disk.record.meta) in old(disk.shared.names))
      ensures reliable && disk.record.meta.path in old(disk.shared.dirs) ==>
                && ok
                && disk == Disk(CompletedRecord(config, old(disk.record), sha, now), map[], map[], WithoutStage(old(disk)))
    {
      hide RunOk, After, WellFormed, ValidConfig, ValidManifest, PartsIntact, UploadStageName, Assembled;
      var n := CompletedRecord(config, disk.record, sha, now);
      assert ValidManifest(config, n);
      DestinationIsNotStage(config, n);
      assert SameFile(disk.shared, disk.shared, Dest(n.meta));
      var resolves := ResolveDirectory();
      if !resolves {
        return false;
      }
      ghost var before := disk.shared;
      ok := SaveManifest(n);
      DestinationStays(n.meta, before, disk.shared);
      if !ok {
        return false;
      }
      ghost var saved := disk.shared;
      ok := PurgeAllParts();
      DestinationStays(n.meta, saved, disk.shared);
      if !ok {
        return false;
      }
      ok := DropStage();
      if !ok {
        return false;
      }
      var fault := Fault();
      ok := !fault;
    }

    // A file with the right length and digest already stands at the destination.
    method Adopt(sha: string, now: int) returns (ok: bool)
      requires Valid() && ValidManifest(config, disk.record) && disk.record.state == Finalizing && now > 0
      requires PartsIntact(config, disk) && AllPartsHere(disk) && sha == config.sha256(WholeFile(disk))
      requires disk.record.meta.expectedSha in {"", sha} && disk.record.meta.path in disk.shared.dirs
      requires Matches(config, disk.shared, Dest(disk.record.meta), disk.record.meta.size, sha)
      modifies this`disk, this`run
      ensures Valid() && old(run) <= run
      ensures disk.record in {old(disk.record), CompletedRecord(config, old(disk.record), sha, now)}
      ensures disk.record == old(disk.record) || Dated(config, disk.record, now)
      ensures ok ==>
                && PublicationRecorded(config, disk.record, now) && AsDeclared(disk.record)
                && ValidManifest(config, disk.record) && disk.record.state == Completed
                && Matches(config, disk.shared, Dest(disk.record.meta), disk.record.meta.size, disk.record.finalSha)
      ensures reliable ==>
                ok && disk == Disk(CompletedRecord(config, old(disk.record), sha, now), map[], map[], WithoutStage(old(disk)))
    {
      hide ValidMeta, ValidParts, ValidManifest, ValidConfig, RunOk, After, WellFormed, PartsIntact, Assembled, PublicationRecorded, Dated,
           UploadStageName;
      CompletedRecordSays(config, disk.record, sha, now);
      CompletionIsDated(config, disk.record, sha, now);
      NextRecordsAreValid(config, disk.record, now);
      ok := MarkCompleted(sha, now);
    }

    // recoverFinalizing
    method RecoverFinalizing(now: int) returns (ok: bool)
      requires Valid() && ValidManifest(config, disk.record) && disk.record.state == Finalizing && now > 0
      modifies this`disk, this`run
      ensures Valid() && old(run) <= run && disk.record.meta == old(disk.record.meta)
      ensures ok ==> ValidManifest(config, disk.record) && disk.record.state in {Active, Completed}
      ensures ok && disk.record.state == Active ==> disk.parts == old(disk.parts) && disk.record.parts == old(disk.record.parts)
      ensures ok && disk.record.state == Completed ==>
                Matches(config, disk.shared, Dest(disk.record.meta), disk.record.meta.size, disk.record.finalSha)
      ensures ok && disk.record.state == Completed ==> PublicationRecorded(config, disk.record, now) && AsDeclared(disk.record)
      ensures disk.record == old(disk.record) || Dated(config, disk.record, now)
      ensures ok ==> Dated(config, disk.record, now)
      // Refusal comes before any change, whatever else fails.
      ensures !RecoveryAccepts(config, old(disk)) ==> !ok && disk == old(disk)
      ensures reliable ==> (ok <==> RecoveryAccepts(config, old(disk)))
      ensures reliable ==> disk == if ok then RecoveredDisk(config, old(disk), now) else old(disk)
    {
      hide ValidMeta, ValidParts, ValidManifest, ValidConfig, EnvironmentOk, RunOk, After, WellFormed, PartIntact, Dated, DatedSince, PublicationRecorded;
      var m := disk.record;
      NextRecordsAreValid(config, m, now);
      RecordsAreDated(config, m, "", now);
      var hashed, finalDigest := PartsSha256();
      if !hashed || (m.meta.expectedSha != "" && m.meta.expectedSha != finalDigest) {
        return false;
      }
      var resolves := ResolveDirectory();
      if !resolves {
        return false;
      }
      var dest := Dest(m.meta);
      if dest in disk.shared.names {
        var unreadable := Fault();
        if unreadable || !Matches(config, disk.shared, dest, m.meta.size, finalDigest) {
          return false;
        }
        ok := Adopt(finalDigest, now);
        return ok;
      }
      ok := RemoveStageFile();
      if ok {
        ok := SaveManifest(ActiveAgain(config, disk.record, now));
      }
    }

    // recoverManifestLocked after loadManifest: what start-up does with each upload.
    method RecoverManifest(now: int) returns (ok: bool)
      requires Valid() && now > 0
      modifies this`disk, this`run
      ensures Valid() && old(run) <= run && disk.record.meta == old(disk.record.meta)
      ensures !RecoveryAccepts(config, old(disk)) ==> !ok && disk == old(disk)
      ensures disk.record == old(disk.record) || Dated(config, disk.record, now)
      ensures ok && old(disk).record.state == Finalizing ==>
                && Dated(config, disk.record, now)
                && (disk.record.state == Completed ==> PublicationRecorded(config, disk.record, now) && AsDeclared(disk.record))
      // Of a finished upload only its private files go.
      ensures old(disk).record.state in {Completed, Cancelled} ==> disk.record == old(disk).record
      ensures reliable && ok && old(disk).record.state in {Completed, Cancelled} ==>
                disk.parts == map[] && disk.temps == map[] && disk.shared == old(disk).shared
      ensures reliable ==> (ok <==> RecoveryAccepts(config, old(disk)))
      ensures reliable ==> disk == if ok then RecoveredDisk(config, old(disk), now) else old(disk)
    {
      RecordsAreDated(config, disk.record, "", now);
      if !ValidManifest(config, disk.record) {
        return false;
      }
      if disk.record.state in {Completed, Cancelled} {
        ok := PurgeAllParts();
        return ok;
      }
      ok := VerifyUploadParts();
      if ok && disk.record.state == Finalizing {
        ok := RecoverFinalizing(now);
      }
    }

    // ----- Publication -----

    // The stage file as this upload alone holds it.
    ghost predicate Staged(content: Bytes)
      reads this
    {
      && disk.record.state == Finalizing && ExclusiveStage(disk.record.meta, disk.shared)
      && IsFile(disk.shared, Stage(disk.record.meta)) && Contents(disk.shared, Stage(disk.record.meta)) == content
    }

    // The stage while `bytes` are being written after `content`: it shows some prefix of them.
    ghost predicate StagedPart(content: Bytes, bytes: Bytes)
      reads this
    {
      && disk.record.state == Finalizing && ExclusiveStage(disk.record.meta, disk.shared)
      && IsFile(disk.shared, Stage(disk.record.meta))
      && content <= Contents(disk.shared, Stage(disk.record.meta)) <= content + bytes
    }

    // resetFinalizing, then the error that caused it.
    method Reset(cause: Code, now: int) returns (code: Code)
      requires Valid() && ValidManifest(config, disk.record) && disk.record.state == Finalizing && now > 0
      requires cause != Done
      modifies this`disk, this`run
      ensures Valid() && old(run) <= run && code in {cause, Failed}
      ensures disk.record.meta == old(disk.record.meta)
      ensures DatedSince(config, old(disk.record), disk.record, now)
      ensures reliable ==> KeptPrivately(old(disk), disk)
      ensures reliable && StageIsFile(old(disk)) ==> code == cause && RolledBack(config, old(disk), disk, now)
    {
      hide ValidMeta, ValidParts, ValidManifest, ValidConfig, EnvironmentOk, RunOk, After, WellFormed, PartIntact, Dated, DatedSince;
      RecordsAreDated(config, disk.record, "", now);
      NextRecordsAreValid(config, disk.record, now);
      var removed := RemoveStageFile();
      if !removed {
        return Failed;
      }
      var saved := SaveManifest(ActiveAgain(config, disk.record, now));
      var fault := Fault();
      return if saved && !fault then cause else Failed;
    }

    // os.OpenFile with O_EXCL on the stage.
    method CreateStageFile() returns (ok: bool)
      requires Valid() && disk.record.state == Finalizing && Stage(disk.record.meta) !in disk.shared.names
      modifies this`disk, this`run
      ensures Valid() && old(run) <= run
      ensures SamePrivate(old(disk), disk)
      ensures ok ==> Staged([])
      ensures reliable ==> ok && disk.shared == StagedTree(old(disk.shared), disk.record.meta, [])
    {
      ok := Perform(CreateStage);
    }

    // One write to the stage.
    method AppendToStage(bytes: Bytes, ghost content: Bytes, ghost base: Shared) returns (ok: bool)
      requires Valid() && Staged(content)
      modifies this`disk, this`run
      ensures Valid() && old(run) <= run
      ensures SamePrivate(old(disk), disk)
      ensures Staged(content + bytes) || (!ok && Staged(content))
      ensures reliable ==> ok
      ensures reliable ==> disk.shared.names == old(disk.shared.names)
      ensures reliable && old(disk.shared) == StagedTree(base, disk.record.meta, content) ==>
                disk.shared == StagedTree(base, disk.record.meta, content + bytes)
    {
      hide ValidConfig, RunOk, After, WellFormed;
      ok := Perform(AppendStage(bytes));
    }

    // Writing to the stage: a crash may leave any prefix of what was being written.
    method WriteStage(bytes: Bytes, ghost content: Bytes, ghost base: Shared) returns (ok: bool)
      requires Valid() && Staged(content)
      modifies this`disk, this`run
      ensures Valid() && old(run) <= run
      ensures SamePrivate(old(disk), disk)
      ensures StagedPart(content, bytes)
      ensures ok ==> Staged(content + bytes)
      ensures reliable ==> ok
      ensures reliable ==> disk.shared.names == old(disk.shared.names)
      ensures reliable && old(disk.shared) == StagedTree(base, disk.record.meta, content) ==>
                disk.shared == StagedTree(base, disk.record.meta, content + bytes)
    {
      hide ValidConfig, RunOk, After, WellFormed, ExclusiveStage, StagedTree, UploadStageName;
      var torn: int := *;
      torn := if 0 <= torn <= |bytes| then torn else 0;
      assert content + bytes[..torn] + bytes[torn..] == content + bytes;
      ok := AppendToStage(bytes[..torn], content, base);
      if !ok {
        return false;
      }
      ok := AppendToStage(bytes[torn..], content + bytes[..torn], base);
    }

    // One round of the assembly loop.
    method AppendPart(index: int, ghost content: Bytes, ghost base: Shared) returns (ok: bool, bytes: Bytes)
      requires Valid() && Staged(content) && index in disk.record.parts
      modifies this`disk, this`run
      ensures Valid() && old(run) <= run
      ensures SamePrivate(old(disk), disk)
      ensures ok ==> Staged(content + bytes)
      ensures ok ==> PartIntact(config, disk.record.parts, disk.parts, index) && bytes == disk.parts[index]
      ensures reliable ==> (ok <==> PartIntact(config, disk.record.parts, disk.parts, index))
      ensures reliable ==> disk.shared.names == old(disk.shared.names)
      ensures reliable && ok && old(disk.shared) == StagedTree(base, disk.record.meta, content) ==>
                disk.shared == StagedTree(base, disk.record.meta, content + bytes)
    {
      ok, bytes := ReadPart(index);
      if ok {
        hide StagedTree, Guard, Effect, RunOk, After, PartIntact;
        ok := WriteStage(bytes, content, base);
      }
    }

    // The assembly loop: every part is verified and appended in index order.
    method Assemble(ghost base: Shared) returns (cause: Code, written: Bytes)
      requires Valid() && ValidManifest(config, disk.record) && Staged([])
      requires |disk.record.parts| == disk.record.meta.partCount
      modifies this`disk, this`run
      ensures Valid() && old(run) <= run
      ensures SamePrivate(old(disk), disk)
      ensures cause in {Done, Failed, SizeMismatch}
      ensures cause == Done ==> Staged(written) && PartsIntact(config, disk) && AllPartsHere(disk) && written == WholeFile(disk)
      ensures cause == Done ==> |written| == disk.record.meta.size
      ensures reliable ==> cause == if PartsIntact(config, disk) then Done else Failed
      ensures reliable ==> disk.shared.names == old(disk.shared.names)
      ensures reliable && cause == Done && old(disk.shared) == StagedTree(base, disk.record.meta, []) ==>
                disk.shared == StagedTree(base, disk.record.meta, written)
    {
      hide ValidConfig, PartCount, ExpectedPartSize, ValidMeta, ValidParts, ValidManifest, StagedTree, EnvironmentOk, ExclusiveStage, Guard, Effect, RunOk, After;
      FullRecordHasAllParts(config, disk);
      ghost var d := disk;
      cause, written := Done, [];
      var index := 0;
      while index < disk.record.meta.partCount
        invariant Valid() && old(run) <= run
        invariant SamePrivate(d, disk)
        invariant 0 <= index <= d.record.meta.partCount && cause == Done
        invariant Staged(written)
        invariant forall k | 0 <= k < index :: k in d.parts && PartIntact(config, d.record.parts, d.parts, k)
        invariant written == Assembled(d.parts, index)
        invariant reliable ==> disk.shared.names == d.shared.names
        invariant reliable && d.shared == StagedTree(base, d.record.meta, []) ==>
                    disk.shared == StagedTree(base, d.record.meta, written)
      {
        var good, bytes := AppendPart(index, written, base);
        if !good {
          cause := Failed;
          break;
        }
        written := written + bytes;
        index := index + 1;
      }
      if cause == Done {
        AllVerified(config, disk);
        var unsynced := Fault();
        if unsynced || |written| != disk.record.meta.size {
          cause := SizeMismatch;
        }
      }
    }

    // Assembly, the digest test and the save that records the final digest.
    method AssembleAndSeal(now: int, ghost base: Shared) returns (code: Code)
      requires Valid() && ValidManifest(config, disk.record) && Staged([]) && now > 0
      requires |disk.record.parts| == disk.record.meta.partCount
      modifies this`disk, this`run
      ensures Valid() && old(run) <= run && disk.record.meta == old(disk.record.meta)
      ensures code == Done ==>
                && disk.parts == old(disk.parts) && disk.temps == old(disk.temps)
                && PartsIntact(config, disk) && AllPartsHere(disk) && Staged(WholeFile(disk))
                && |WholeFile(disk)| == disk.record.meta.size
                && disk.record == old(disk.record).(finalSha := config.sha256(WholeFile(disk)), updatedAt := now)
                && ValidManifest(config, disk.record) && disk.record.meta.expectedSha in {"", disk.record.finalSha}
      ensures code in {Done, Failed, SizeMismatch, InvalidDigest}
      ensures DatedSince(config, old(disk.record), disk.record, now)
      ensures reliable ==> code == StageVerdict(config, old(disk))
      ensures reliable && code == Done && old(disk.shared) == StagedTree(base, disk.record.meta, []) ==>
                disk.shared == StagedTree(base, disk.record.meta, WholeFile(disk))
      ensures reliable && code != Done ==> KeptPrivately(old(disk), disk) && RolledBack(config, old(disk), disk, now)
    {
      hide ValidMeta, ValidParts, ValidManifest, ValidConfig, EnvironmentOk, RunOk, After, WellFormed, PartIntact, ExclusiveStage,
           StagedTree, WithoutStage, ActiveAgain, IsUploadStageName, UploadStageName, PartCount, ExpectedPartSize, RolledBack,
           KeptPrivately, Dated, DatedSince;
      FullRecordHasAllParts(config, disk);
      ghost var d := disk;
      var cause, written := Assemble(base);
      ghost var e := disk;
      if cause != Done {
        code := Reset(cause, now);
        if reliable { SameNamesSameUndo(config, d, e, disk, now); }
        return code;
      }
      code := Seal(written, now);
      if reliable && code != Done { SameNamesSameUndo(config, d, e, disk, now); }
    }

    // The digest of the assembled bytes against the declared one, then the record that carries it.
    method Seal(written: Bytes, now: int) returns (code: Code)
      requires Valid() && ValidManifest(config, disk.record) && Staged(written) && now > 0
      requires PartsIntact(config, disk) && AllPartsHere(disk) && written == WholeFile(disk)
      modifies this`disk, this`run
      ensures Valid() && old(run) <= run && disk.record.meta == old(disk.record.meta)
      ensures code == Done ==>
                && disk.parts == old(disk.parts) && disk.temps == old(disk.temps) && Staged(written)
                && disk.record == old(disk.record).(finalSha := config.sha256(written), updatedAt := now)
                && ValidManifest(config, disk.record) && disk.record.meta.expectedSha in {"", disk.record.finalSha}
      ensures code in {Done, Failed, InvalidDigest}
      ensures DatedSince(config, old(disk.record), disk.record, now)
      ensures reliable ==> code == if disk.record.meta.expectedSha in {"", config.sha256(written)} then Done else InvalidDigest
      ensures reliable && code == Done ==> disk.shared == old(disk.shared)
      ensures reliable && code != Done ==> KeptPrivately(old(disk), disk) && RolledBack(config, old(disk), disk, now)
    {
      hide ValidMeta, ValidParts, ValidManifest, ValidConfig, EnvironmentOk, RunOk, After, WellFormed, ExclusiveStage,
           KeptPrivately, WithoutStage, ActiveAgain, IsUploadStageName, UploadStageName, PartsIntact, WholeFile, PartCount,
           Dated, DatedSince;
      NextRecordsAreValid(config, disk.record, now);
      var finalDigest := config.sha256(written);
      if disk.record.meta.expectedSha != "" && disk.record.meta.expectedSha != finalDigest {
        code := Reset(InvalidDigest, now);
        return code;
      }
      ghost var first := disk.record;
      RecordsAreDated(config, first, finalDigest, now);
      ghost var staged := disk.shared;
      var sealed := disk.record.(finalSha := finalDigest, updatedAt := now);
      var saved := SaveManifest(sealed);
      if !saved {
        ghost var second := disk.record;
        code := Reset(Failed, now);
        DatedComposes(config, first, second, disk.record, now);
        return code;
      }
      StageStays(sealed.meta, staged, disk.shared);
      code := Done;
    }

    // From the reserved stage name to the record that carries the final digest.
    method BuildStage(now: int) returns (code: Code)
      requires Valid() && ValidManifest(config, disk.record) && disk.record.state == Finalizing && now > 0
      requires |disk.record.parts| == disk.record.meta.partCount
      modifies this`disk, this`run
      ensures Valid() && old(run) <= run && disk.record.meta == old(disk.record.meta)
      ensures code == Done ==>
                && disk.parts == old(disk.parts) && disk.temps == old(disk.temps)
                && PartsIntact(config, disk) && AllPartsHere(disk) && Staged(WholeFile(disk))
                && |WholeFile(disk)| == disk.record.meta.size
                && disk.record == old(disk.record).(finalSha := config.sha256(WholeFile(disk)), updatedAt := now)
                && ValidManifest(config, disk.record) && disk.record.meta.expectedSha in {"", disk.record.finalSha}
      ensures code in {Done, Failed, SizeMismatch, InvalidDigest}
      ensures DatedSince(config, old(disk.record), disk.record, now)
      ensures reliable && StageIsFile(old(disk)) ==> code == StageVerdict(config, old(disk))
      ensures reliable && !StageIsFile(old(disk)) ==> code == Failed
      ensures reliable && code == Done ==>
                disk.shared == StagedTree(WithoutStage(old(disk)), disk.record.meta, WholeFile(disk))
      ensures reliable && code != Done ==> KeptPrivately(old(disk), disk)
      ensures reliable && code != Done && StageIsFile(old(disk)) ==> RolledBack(config, old(disk), disk, now)
    {
      hide ValidMeta, ValidParts, ValidManifest, ValidConfig, EnvironmentOk, RunOk, After, WellFormed, PartIntact, ExclusiveStage,
           WithoutStage, StagedTree, KeptPrivately, Dated, DatedSince;
      ghost var d := disk;
      var removed := RemoveStageFile();
      if !removed {
        code := Reset(Failed, now);
        return code;
      }
      ghost var base := disk.shared;
      var created := CreateStageFile();
      if !created {
        code := Reset(Failed, now);
        return code;
      }
      ghost var e := disk;
      code := AssembleAndSeal(now, base);
      if reliable {
        StagingKeepsTheRest(d, e, []);
        SameVerdict(config, d, e);
        if code != Done {
          KeptPrivatelyTwice(d, e, disk);
          RolledBackFromStage(config, d, e, disk, [], now);
        }
      }
    }

    // The link, the directory sync and the completed record.
    method LinkAndComplete(now: int) returns (code: Code)
      requires Valid() && ValidManifest(config, disk.record) && disk.record.state == Finalizing && now > 0
      requires PartsIntact(config, disk) && AllPartsHere(disk) && Staged(WholeFile(disk))
      requires |WholeFile(disk)| == disk.record.meta.size
      requires disk.record.finalSha == config.sha256(WholeFile(disk))
      requires disk.record.meta.expectedSha in {"", disk.record.finalSha}
      requires Dest(disk.record.meta) !in disk.shared.names
      modifies this`disk, this`run
      ensures Valid() && old(run) <= run && disk.record.meta == old(disk.record.meta)
      ensures code == Done ==>
                && disk.record == CompletedRecord(config, old(disk.record), old(disk.record).finalSha, now)
                && Matches(config, disk.shared, Dest(disk.record.meta), disk.record.meta.size, disk.record.finalSha)
      ensures code == Done ==> PublicationRecorded(config, disk.record, now) && AsDeclared(disk.record)
      ensures code in {Done, Failed}
      ensures DatedSince(config, old(disk.record), disk.record, now)
      ensures reliable && disk.record.meta.path in old(disk.shared.dirs) ==>
                code == Done && disk == Disk(CompletedRecord(config, old(disk.record), old(disk.record).finalSha, now), map[], map[],
                                             WithoutStage(Effect(old(disk), LinkDestination)))
    {
      hide ValidMeta, ValidParts, ValidManifest, ValidConfig, EnvironmentOk, RunOk, After, WellFormed, PartIntact, Dated, DatedSince,
           PublicationRecorded, Assembled, UploadStageName;
      var m := disk.record;
      DestinationIsNotStage(config, m);
      NextRecordsAreValid(config, m, now);
      RecordsAreDated(config, m, m.finalSha, now);
      CompletedRecordSays(config, m, m.finalSha, now);
      ghost var linkedTree := Effect(disk, LinkDestination).shared;
      var linked := Perform(LinkDestination);
      if !linked {
        code := Reset(Failed, now);
        return code;
      }
      DestinationStays(m.meta, linkedTree, disk.shared);
      var unsynced := Fault();
      if unsynced {
        return Failed;
      }
      ghost var before := disk.shared;
      var completed := MarkCompleted(m.finalSha, now);
      code := if completed then Done else Failed;
    }

    // Everything publish does once the finalizing record is saved.
    method PublishReserved(now: int) returns (code: Code)
      requires Valid() && ValidManifest(config, disk.record) && disk.record.state == Finalizing && now > 0
      requires |disk.record.parts| == disk.record.meta.partCount
      modifies this`disk, this`run
      ensures Valid() && old(run) <= run && disk.record.meta == old(disk.record.meta)
      ensures code == Done ==>
                && disk.record.state == Completed
                && Matches(config, disk.shared, Dest(disk.record.meta), disk.record.meta.size, disk.record.finalSha)
      ensures code == Done ==> PublicationRecorded(config, disk.record, now) && AsDeclared(disk.record)
      ensures code in {Done, Failed, SizeMismatch, InvalidDigest, DestinationExists}
      ensures DatedSince(config, old(disk.record), disk.record, now)
      ensures reliable && disk.record.meta.path in old(disk.shared.dirs) ==>
                code == if !StageIsFile(old(disk)) then Failed
                        else if StageVerdict(config, old(disk)) != Done then StageVerdict(config, old(disk))
                        else if Dest(disk.record.meta) in old(disk.shared.names) then DestinationExists
                        else Done
      ensures reliable && code != Done && disk.record.meta.path in old(disk.shared.dirs) && StageIsFile(old(disk)) ==>
                RolledBack(config, old(disk), disk, now)
      ensures reliable && code == Done ==>
                && AllPartsHere(old(disk))
                && disk.shared == PublishedTree(old(disk), WholeFile(old(disk))) && disk.parts == map[] && disk.temps == map[]
                && disk.record == CompletedRecord(config, old(disk.record), config.sha256(WholeFile(old(disk))), now)
      ensures reliable && code != Done ==> KeptPrivately(old(disk), disk)
    {
      hide ValidMeta, ValidParts, ValidManifest, ValidConfig, EnvironmentOk, RunOk, After, WellFormed, PartIntact, ExclusiveStage,
           WithoutStage, StagedTree, KeptPrivately, Effect, PublishedTree, RolledBack, StageVerdict, Dated,
           DatedSince, PublicationRecorded, AsDeclared;
      ghost var d := disk;
      RecordsAreDated(config, d.record, "", now);
      DestinationIsNotStage(config, disk.record);
      var resolves := ResolveDirectory();
      if !resolves {
        KeptPrivatelyIfActive(d);
        return Failed;
      }
      code := BuildStage(now);
      if code != Done {
        return code;
      }
      ghost var sealed := disk;
      if reliable {
        LinkedTree(d, sealed, WholeFile(d));
        StagingKeepsTheRest(d, sealed, WholeFile(d));
      }
      if Dest(disk.record.meta) in disk.shared.names {
        code := Reset(DestinationExists, now);
        DatedComposes(config, d.record, sealed.record, disk.record, now);
        if reliable {
          KeptPrivatelyTwice(d, sealed, disk);
          RolledBackFromStage(config, d, sealed, disk, WholeFile(d), now);
        }
        return code;
      }
      code := LinkAndComplete(now);
      DatedComposes(config, d.record, sealed.record, disk.record, now);
    }

    // publish
    method Publish(now: int) returns (code: Code)
      requires Valid() && ValidManifest(config, disk.record) && disk.record.state == Active && now > 0
      requires |disk.record.parts| == disk.record.meta.partCount
      modifies this`disk, this`run
      ensures Valid() && old(run) <= run && disk.record.meta == old(disk.record.meta)
      ensures code == Done ==>
                && disk.record.state == Completed
                && Matches(config, disk.shared, Dest(disk.record.meta), disk.record.meta.size, disk.record.finalSha)
      ensures code == Done ==> PublicationRecorded(config, disk.record, now) && AsDeclared(disk.record)
      ensures code in {Done, Failed, SizeMismatch, InvalidDigest, DestinationExists, InsufficientStorage, Conflict}
      ensures disk.record == old(disk.record) || Dated(config, disk.record, now)
      ensures reliable ==> (code == Done <==> Publishable(config, old(disk)))
      ensures reliable && code == Done ==> disk == PublishedDisk(config, old(disk), now)
      ensures reliable && code != Done ==> KeptPrivately(old(disk), disk)
      ensures reliable && disk.record.meta.path in old(disk.shared.dirs) && Dest(disk.record.meta) in old(disk.shared.names) ==>
                code == DestinationExists && disk == old(disk)
      ensures reliable && disk.record.meta.path !in old(disk.shared.dirs) ==> code == Conflict && disk == old(disk)
      ensures reliable && disk.record.meta.path in old(disk.shared.dirs) && Dest(disk.record.meta) !in old(disk.shared.names)
              && StageIsFile(old(disk)) ==>
                && code == StageVerdict(config, old(disk))
                && (code != Done ==> RolledBack(config, old(disk), disk, now))
    {
      hide ValidMeta, ValidParts, EnvironmentOk, RunOk, After, WellFormed, PartIntact, ExclusiveStage, ValidConfig, Publishable,
           KeptPrivately, RolledBack, StageVerdict, PublishedTree, UploadStageName, StageIsFile,
           PublicationRecorded, Dated, DatedSince;
      var m := disk.record;
      ghost var d := disk;
      NextRecordsAreValid(config, m, now);
      WhenPublishable(config, d);
      var resolves := ResolveDirectory();
      if !resolves {
        KeptPrivatelyIfActive(d);
        return Conflict;
      }
      if Dest(m.meta) in disk.shared.names {
        // An active record has no final digest, so there is nothing to compare the file with.
        assert m.finalSha == "";
        KeptPrivatelyIfActive(d);
        return DestinationExists;
      }
      var full := Fault();
      if full {
        return InsufficientStorage;
      }
      RecordsAreDated(config, m, "", now);
      var saved := SaveManifest(FinalizingRecord(config, m, now));
      if !saved {
        return Failed;
      }
      ghost var e := disk;
      code := PublishReserved(now);
      OnceDated(config, e.record, disk.record, now);
      if reliable { ReservingChangesNothing(config, d, e, disk, now); }
    }

    // ----- Private part files -----

    // Clears an unrecorded leftover and its temporary file, then creates the temporary file anew.
    method OpenTempFile(index: int) returns (ok: bool)
      requires Valid() && disk.record.state == Active && index !in disk.record.parts
      modifies this`disk, this`run
      ensures Valid() && old(run) <= run && disk.record == old(disk.record)
      ensures disk.parts == old(disk).parts || disk.parts == old(disk).parts - {index}
      ensures reliable ==> ok
    {
      hide EnvironmentOk, RunOk, After, WellFormed, ValidConfig;
      ok := Perform(DropPart(index));
      if ok {
        ok := Perform(DropTemp(index));
      }
      if ok {
        ok := Perform(WriteTemp(index, []));
      }
    }

    // io.Copy into the temporary file: a crash may leave any prefix.
    method WriteTempFile(index: int, bytes: Bytes) returns (ok: bool)
      requires Valid()
      modifies this`disk, this`run
      ensures Valid() && old(run) <= run && disk.record == old(disk.record) && disk.parts == old(disk.parts)
      ensures ok ==> index in disk.temps && disk.temps[index] == bytes
      ensures reliable ==> ok
    {
      hide EnvironmentOk, RunOk, After, WellFormed, ValidConfig;
      var torn: int := *;
      torn := if 0 <= torn <= |bytes| then torn else 0;
      ok := Perform(WriteTemp(index, bytes[..torn]));
      if ok {
        ok := Perform(WriteTemp(index, bytes));
      }
    }

    // os.Remove on the temporary file.
    method DiscardTemp(index: int)
      requires Valid()
      modifies this`disk, this`run
      ensures Valid() && old(run) <= run && disk.record == old(disk.record) && disk.parts == old(disk.parts)
    {
      hide EnvironmentOk, RunOk, After, WellFormed, ValidConfig;
      var _ := Perform(DropTemp(index));
    }

    // os.Rename of the temporary file to the part file.
    method PromoteTemp(index: int) returns (ok: bool)
      requires Valid() && disk.record.state == Active && index !in disk.record.parts && index in disk.temps
      modifies this`disk, this`run
      ensures Valid() && old(run) <= run && disk.record == old(disk.record)
      ensures disk.parts == old(disk.parts)[index := old(disk.temps)[index]] || (!ok && disk.parts == old(disk.parts))
      ensures reliable ==> ok
    {
      hide EnvironmentOk, RunOk, After, WellFormed, ValidConfig;
      ok := Perform(PlacePart(index));
    }

    // removeRegularFile, then a temporary file that takes the body and is renamed into place once
    // its length and digest are right.
    method PlaceBody(index: int, expected: int, digest: string, body: Bytes) returns (code: Code)
      requires Valid() && disk.record.state == Active && index !in disk.record.parts && expected >= 0
      modifies this`disk, this`run
      ensures Valid() && old(run) <= run && disk.record == old(disk.record)
      ensures code == Done ==> disk.parts == old(disk.parts)[index := body] && |body| == expected && config.sha256(body) == digest
      ensures forall k | k in old(disk).parts && k != index :: k in disk.parts && disk.parts[k] == old(disk).parts[k]
      ensures reliable ==>
                code == if |body| != expected then SizeMismatch else if config.sha256(body) != digest then InvalidDigest else Done
      ensures code in {Done, Failed, SizeMismatch, InvalidDigest}
    {
      hide RunOk, After, WellFormed, ValidConfig;
      var ready := OpenTempFile(index);
      if !ready {
        return Failed;
      }
      Overwritten(disk.parts, old(disk).parts, index, body);
      // io.LimitReader: at most one byte more than expected is taken.
      var taken := if |body| <= expected then body else body[..expected + 1];
      var wrote := WriteTempFile(index, taken);
      if !wrote || |taken| != expected {
        DiscardTemp(index);
        return if |taken| > expected || wrote then SizeMismatch else Failed;
      }
      if config.sha256(taken) != digest {
        DiscardTemp(index);
        return InvalidDigest;
      }
      var placed := PromoteTemp(index);
      if !placed {
        DiscardTemp(index);
        return Failed;
      }
      var unsynced := Fault();
      return if unsynced then Failed else Done;
    }

    // ----- Client operations -----

    // Cancel
    method Cancel(caller: Caller, now: int) returns (code: Code)
      requires Valid() && now > 0
      modifies this`disk, this`run
      ensures Valid() && old(run) <= run && disk.record.meta == old(disk.record.meta)
      ensures Admit(config, old(disk).record, caller, now) != Done ==>
                code == Admit(config, old(disk).record, caller, now) && disk == old(disk)
      // Only the creator with its own token is let in, before the expiry; strangers learn nothing.
      ensures Fits(config, old(disk).record) && ValidManifest(config, old(disk).record) ==>
                (code == NotFound <==>
                   || !ValidSha256(caller.token) || config.tokenHash(caller.token) != old(disk).record.meta.tokenHash
                   || caller.owner != old(disk).record.meta.owner || caller.authMethod != old(disk).record.meta.authMethod)
      ensures Fits(config, old(disk).record) && ValidManifest(config, old(disk).record) && code != NotFound ==>
                (code == Expired <==> now >= old(disk).record.expiresAt)
      ensures code in {NotFound, Expired, Corrupt} ==> disk == old(disk)
      ensures disk.record == old(disk.record) || Dated(config, disk.record, now)
      ensures code == Done && old(disk).record.state != Cancelled ==>
                Dated(config, disk.record, now) && disk.record.parts == old(disk).record.parts
      ensures reliable && code == Done && old(disk).record.state in {Active, Finalizing} ==>
                && disk.parts == map[] && disk.temps == map[]
                && disk.shared == (if old(disk).record.state == Active then old(disk).shared
                                   else old(disk).shared.(names := old(disk).shared.names - {Stage(disk.record.meta)}))
      ensures code == Conflict && old(disk).record.state != Completed ==>
                PublicationRecorded(config, disk.record, now) && AsDeclared(disk.record)
      ensures code == Done ==> disk.record.state == Cancelled && old(disk).record.state != Completed
      ensures old(disk).record.state in {Completed, Cancelled} ==> disk == old(disk)
      ensures reliable && Admit(config, old(disk).record, caller, now) == Done ==>
                match old(disk).record.state
                case Completed => code == Conflict
                case Cancelled => code == Done
                case Active => code == Done && disk == CancelledDisk(config, old(disk), now)
                case Finalizing =>
                  if !RecoveryAccepts(config, old(disk)) then code == Failed && disk == old(disk)
                  else if Dest(disk.record.meta) in old(disk.shared.names) then
                    code == Conflict && disk == RecoveredDisk(config, old(disk), now)
                  else
                    code == Done && disk == CancelledDisk(config, RecoveredDisk(config, old(disk), now), now)
    {
      hide ValidMeta, ValidParts, ValidConfig, EnvironmentOk, RunOk, After, WellFormed, PartIntact, PublicationRecorded, Dated, AsDeclared;
      RecordsAreDated(config, disk.record, "", now);
      hide Admit, Fits, ValidSha256, ValidManifest;
      WhoIsLetIn(config, disk.record, caller, now);
      code := Admit(config, disk.record, caller, now);
      if code != Done {
        return;
      }
      if disk.record.state == Completed {
        return Conflict;
      }
      if disk.record.state == Finalizing {
        var recovered := RecoverFinalizing(now);
        if !recovered {
          return Failed;
        }
        if disk.record.state == Completed {
          return Conflict;
        }
      }
      if disk.record.state == Cancelled {
        return Done;
      }
      // An active record reserves no stage, so there is none to remove.
      ActiveHasNoStage(config, disk.record);
      NextRecordsAreValid(config, disk.record, now);
      RecordsAreDated(config, disk.record, "", now);
      var saved := SaveManifest(CancelledRecord(config, disk.record, now));
      if !saved {
        return Failed;
      }
      var purged := PurgeAllParts();
      var unsynced := Fault();
      return if purged && !unsynced then Done else Failed;
    }

    // WritePart. `body` is what the client sends and `slot` whether a part slot is free.
    method WritePart(caller: Caller, now: int, index: int, digest: string, body: Bytes, slot: bool)
      returns (code: Code, repeated: bool)
      requires Valid() && now > 0
      modifies this`disk, this`run
      ensures Valid() && old(run) <= run
      // Only the creator with its own token is let in, before the expiry; strangers learn nothing.
      ensures ValidSha256(digest) && Fits(config, old(disk).record) && ValidManifest(config, old(disk).record) ==>
                (code == NotFound <==>
                   || !ValidSha256(caller.token) || config.tokenHash(caller.token) != old(disk).record.meta.tokenHash
                   || caller.owner != old(disk).record.meta.owner || caller.authMethod != old(disk).record.meta.authMethod)
      ensures ValidSha256(digest) && Fits(config, old(disk).record) && ValidManifest(config, old(disk).record) && code != NotFound ==>
                (code == Expired <==> now >= old(disk).record.expiresAt)
      ensures code in {NotFound, Expired, Corrupt} ==> disk == old(disk)
      ensures disk.record == old(disk.record) || Dated(config, disk.record, now)
      ensures code == Done && !repeated ==>
                && Dated(config, disk.record, now) && disk.record.state == Active && disk.record.meta == old(disk).record.meta
                && disk.record.parts == old(disk).record.parts[index := Part(|body|, digest)]
      ensures !ValidSha256(digest) ==> code == InvalidDigest && disk == old(disk)
      // The answer for each state of the record and of the part.
      ensures ValidSha256(digest) && Admit(config, old(disk).record, caller, now) == Done ==>
                var m := old(disk).record;
                match m.state
                case Cancelled => code == IsCancelled && disk == old(disk)
                case Completed => code == Conflict && disk == old(disk)
                case Finalizing => code == InvalidPart && disk == old(disk)
                case Active =>
                  if index < 0 || index >= m.meta.partCount then code == InvalidPart && disk == old(disk)
                  else if index in m.parts then
                    && disk == old(disk)
                    && if m.parts[index].sha == digest then code == Done && repeated else code == PartConflict
                  else if !slot then code == Busy && disk == old(disk)
                  else
                    reliable ==> code == if |body| != ExpectedPartSize(m.meta.size, m.meta.chunkBytes, index) then SizeMismatch
                                         else if config.sha256(body) != digest then InvalidDigest else Done
      ensures disk.record == old(disk.record) ||
              (code in {Done, Failed} && !repeated && disk.record == WrittenRecord(config, old(disk).record, index, body, now))
      ensures code == Done && repeated ==> disk == old(disk) && index in disk.record.parts && disk.record.parts[index].sha == digest
      ensures code == Done && !repeated ==>
                && index !in old(disk).record.parts
                && disk.record == WrittenRecord(config, old(disk).record, index, body, now)
                && disk.parts == old(disk).parts[index := body]
                && config.sha256(body) == digest
      ensures code == PartConflict ==>
                disk == old(disk) && index in disk.record.parts && disk.record.parts[index].sha != digest
      ensures forall k | k in old(disk).parts && (k != index || k in old(disk).record.parts) ::
                k in disk.parts && disk.parts[k] == old(disk).parts[k]
      ensures reliable ==>
                (code == Done <==>
                   Admit(config, old(disk).record, caller, now) == Done && WriteAccepts(config, old(disk).record, index, digest, body, slot))
    {
      hide ValidMeta, ValidConfig, EnvironmentOk, RunOk, After, WellFormed, ExpectedPartSize;
      hide Admit, Fits, ValidSha256, ValidManifest;
      WhoIsLetIn(config, disk.record, caller, now);
      repeated := false;
      if !ValidSha256(digest) {
        return InvalidDigest, false;
      }
      code := Admit(config, disk.record, caller, now);
      if code != Done {
        return;
      }
      var m := disk.record;
      if m.state == Cancelled {
        return IsCancelled, false;
      }
      if m.state == Completed {
        return Conflict, false;
      }
      if m.state != Active || index < 0 || index >= m.meta.partCount {
        return InvalidPart, false;
      }
      var expected := ExpectedPartSize(m.meta.size, m.meta.chunkBytes, index);
      if index in m.parts {
        RecordedSize(config, m, index);
        if m.parts[index].size == expected && m.parts[index].sha == digest {
          return Done, true;
        }
        return PartConflict, false;
      }
      if !slot {
        return Busy, false;
      }
      NextRecordsAreValid(config, m, now);
      ExpectedSizeIsNatural(config, m, index);
      code := PlaceBody(index, expected, digest, body);
      if code != Done {
        return code, false;
      }
      var written := WrittenRecord(config, m, index, body, now);
      var saved := Perform(SavePart(index, written));
      code := if saved then Done else Failed;
    }

    // Complete. `repeated` tells a client that its upload had been published before.
    method Complete(caller: Caller, now: int) returns (code: Code, repeated: bool)
      requires Valid() && now > 0
      modifies this`disk, this`run
      ensures Valid() && old(run) <= run && disk.record.meta == old(disk.record.meta)
      ensures Admit(config, old(disk).record, caller, now) != Done ==>
                code == Admit(config, old(disk).record, caller, now) && disk == old(disk)
      // Only the creator with its own token is let in, before the expiry; strangers learn nothing.
      ensures Fits(config, old(disk).record) && ValidManifest(config, old(disk).record) ==>
                (code == NotFound <==>
                   || !ValidSha256(caller.token) || config.tokenHash(caller.token) != old(disk).record.meta.tokenHash
                   || caller.owner != old(disk).record.meta.owner || caller.authMethod != old(disk).record.meta.authMethod)
      ensures Fits(config, old(disk).record) && ValidManifest(config, old(disk).record) && code != NotFound ==>
                (code == Expired <==> now >= old(disk).record.expiresAt)
      ensures code in {NotFound, Expired, Corrupt} ==> disk == old(disk)
      ensures disk.record == old(disk.record) || Dated(config, disk.record, now)
      ensures code == Done ==> disk.record.state == Completed
      ensures code == Done && old(disk).record.state != Completed ==>
                Matches(config, disk.shared, Dest(disk.record.meta), disk.record.meta.size, disk.record.finalSha)
      // Without faults the tree has gained one file, the parts joined in order, and lost at most the stage.
      ensures reliable && code == Done && old(disk).record.state == Active ==>
                && AllPartsHere(old(disk)) && IsFile(disk.shared, Dest(disk.record.meta))
                && Contents(disk.shared, Dest(disk.record.meta)) == WholeFile(old(disk))
                && disk.shared.names.Keys == old(disk).shared.names.Keys + {Dest(disk.record.meta)} - {Stage(disk.record.meta)}
                && (forall n | n in disk.shared.names && n != Dest(disk.record.meta) ::
                      disk.shared.names[n] == old(disk).shared.names[n])
                && old(disk).shared.inodes <= disk.shared.inodes && disk.parts == map[] && disk.temps == map[]
      // An interrupted publication is completed exactly when recovery accepts it.
      ensures reliable && code !in {NotFound, Expired, Corrupt} && old(disk).record.state == Finalizing ==>
                (code == Done <==> RecoveryAccepts(config, old(disk)))
      // What was declared and what was asked for is what is there, and the record says so.
      ensures code == Done && old(disk).record.state != Completed ==>
                && PublicationRecorded(config, disk.record, now)
                && (disk.record.meta.expectedSha != "" ==>
                      config.sha256(Contents(disk.shared, Dest(disk.record.meta))) == disk.record.meta.expectedSha)
      ensures old(disk).record.state in {Completed, Cancelled} ==> disk == old(disk)
      ensures reliable ==>
                (code == Done <==> Admit(config, old(disk).record, caller, now) == Done && CompleteAccepts(config, old(disk), now))
      ensures reliable && code == Done ==> disk == CompleteResult(config, old(disk), now)
      ensures reliable && code != Done && old(disk).record.state == Active ==> KeptPrivately(old(disk), disk)
      ensures reliable && Admit(config, old(disk).record, caller, now) == Done && old(disk).record.state == Active
              && |old(disk).record.parts| == disk.record.meta.partCount && disk.record.meta.path in old(disk.shared.dirs)
              && Dest(disk.record.meta) in old(disk.shared.names) ==>
                code == DestinationExists && disk == old(disk)
      ensures reliable && Admit(config, old(disk).record, caller, now) == Done && old(disk).record.state == Active
              && |old(disk).record.parts| == disk.record.meta.partCount && disk.record.meta.path !in old(disk.shared.dirs) ==>
                code == Conflict && disk == old(disk)
      ensures reliable && Admit(config, old(disk).record, caller, now) == Done ==>
                match old(disk).record.state
                case Completed => code == Done && repeated
                case Cancelled => code == IsCancelled
                case Finalizing => !RecoveryAccepts(config, old(disk)) ==> code == Failed && disk == old(disk)
                case Active =>
                  if |old(disk).record.parts| != disk.record.meta.partCount then code == Incomplete && disk == old(disk)
                  else
                    disk.record.meta.path in old(disk.shared.dirs) && Dest(disk.record.meta) !in old(disk.shared.names)
                    && StageIsFile(old(disk)) ==>
                      && code == (if !PartsIntact(config, old(disk)) || !AllPartsHere(old(disk)) then Failed
                                  else if disk.record.meta.expectedSha in {"", config.sha256(WholeFile(old(disk)))} then Done
                                  else InvalidDigest)
                      && (code != Done ==> RolledBack(config, old(disk), disk, now))
    {
      hide ValidMeta, ValidParts, ValidConfig, EnvironmentOk, RunOk, After, WellFormed, PartIntact, PublishedDisk,
           RolledBack, PublicationRecorded, Dated;
      hide Admit, Fits, ValidSha256, ValidManifest;
      WhoIsLetIn(config, disk.record, caller, now);
      InterruptedCompletes(config, disk, now);
      PublishedDiskShows(config, disk, now);
      code, repeated := Admit(config, disk.record, caller, now), false;
      if code != Done {
        KeptPrivatelyIfActive(disk);
        return;
      }
      if disk.record.state == Cancelled {
        return IsCancelled, false;
      }
      if disk.record.state == Completed {
        return Done, true;
      }
      if disk.record.state == Finalizing {
        var recovered := RecoverFinalizing(now);
        if !recovered {
          return Failed, false;
        }
        if disk.record.state == Completed {
          return Done, true;
        }
      }
      if disk.record.state != Active || |disk.record.parts| != disk.record.meta.partCount {
        return Incomplete, false;
      }
      code := Publish(now);
    }
  }

  lemma ExpectedSizeIsNatural(c: Config, m: Manifest, index: int)
    requires ValidConfig(c) && ValidManifest(c, m) && 0 <= index < m.meta.partCount
    ensures ExpectedPartSize(m.meta.size, m.meta.chunkBytes, index) >= 0
  {
    ExpectedPartsTile(m.meta.size, m.meta.chunkBytes);
  }

  lemma DestinationIsNotStage(c: Config, m: Manifest)
    requires ValidManifest(c, m)
    ensures Dest(m.meta) != Stage(m.meta)
  {
    StageNames(m.meta.id, m.meta.id, m.meta.name);
  }

  lemma StagingKeepsTheRest(d: Disk, e: Disk, content: Bytes)
    requires e.record.state in {Active, Finalizing} && e.record.parts == d.record.parts && e.parts == d.parts
    requires e.record.meta == d.record.meta && e.shared == StagedTree(WithoutStage(d), d.record.meta, content)
    ensures KeptPrivately(d, e)
  {
  }

  lemma Overwritten<K, V>(p: map<K, V>, q: map<K, V>, k: K, v: V)
    requires forall j | j != k :: j in p <==> j in q
    requires forall j | j in q && j != k :: p[j] == q[j]
    ensures p[k := v] == q[k := v]
  {
  }

  lemma StageComesAndGoes<K, V>(m: map<K, V>, stage: K, dest: K, file: V)
    requires stage != dest
    ensures (m - {stage})[stage := file][dest := file] - {stage} == (m - {stage})[dest := file]
  {
  }

  // Staging a file, linking it and dropping the stage adds up to PublishedTree.
  lemma LinkedTree(d: Disk, sealed: Disk, content: Bytes)
    requires Dest(d.record.meta) != Stage(d.record.meta) && sealed.record.meta == d.record.meta
    requires sealed.shared == StagedTree(WithoutStage(d), d.record.meta, content)
    ensures WithoutStage(Effect(sealed, LinkDestination)) == PublishedTree(d, content)
    ensures sealed.shared.dirs == d.shared.dirs
    ensures Dest(d.record.meta) in sealed.shared.names <==> Dest(d.record.meta) in d.shared.names
  {
    hide UploadStageName;
    StageComesAndGoes(d.shared.names, Stage(d.record.meta), Dest(d.record.meta), File(|d.shared.inodes|));
  }

  // Reserving the stage name changes nothing that decides how the publication goes.
  lemma ReservingChangesNothing(c: Config, d: Disk, e: Disk, f: Disk, now: int)
    requires e == d.(record := FinalizingRecord(c, d.record, now))
    ensures StageVerdict(c, e) == StageVerdict(c, d) && StageIsFile(e) == StageIsFile(d)
    ensures KeptPrivately(e, f) ==> KeptPrivately(d, f)
    ensures RolledBack(c, e, f, now) ==> RolledBack(c, d, f, now)
    ensures AllPartsHere(d) <==> AllPartsHere(e)
    ensures AllPartsHere(d) ==> WholeFile(e) == WholeFile(d) && PublishedTree(e, WholeFile(d)) == PublishedTree(d, WholeFile(d))
  {
    hide UploadStageName, PartIntact;
  }

  lemma WhenPublishable(c: Config, d: Disk)
    requires |d.record.parts| == d.record.meta.partCount
    ensures Publishable(c, d) <==>
              && d.record.meta.path in d.shared.dirs && Dest(d.record.meta) !in d.shared.names
              && StageIsFile(d) && StageVerdict(c, d) == Done
    ensures Publishable(c, d) ==> AllPartsHere(d)
  {
    hide PartIntact, UploadStageName;
  }

  lemma SameNamesSameUndo(c: Config, d: Disk, e: Disk, f: Disk, now: int)
    requires SamePrivate(d, e) && e.shared.names == d.shared.names
    requires KeptPrivately(e, f) && RolledBack(c, e, f, now)
    ensures KeptPrivately(d, f) && RolledBack(c, d, f, now)
  {
  }

  // Undoing a publication whose stage had been put up again undoes it from before that.
  lemma RolledBackFromStage(c: Config, d: Disk, e: Disk, f: Disk, content: Bytes, now: int)
    requires ActiveAgain(c, e.record, now) == ActiveAgain(c, d.record, now) && e.parts == d.parts && e.temps == d.temps
    requires e.record.meta == d.record.meta && e.shared == StagedTree(WithoutStage(d), d.record.meta, content)
    requires RolledBack(c, e, f, now)
    ensures RolledBack(c, d, f, now)
  {
    hide UploadStageName, ActiveAgain;
    PutAndTaken(d.shared.names, Stage(d.record.meta), File(|d.shared.inodes|));
  }

  lemma PutAndTaken<K, V>(m: map<K, V>, stage: K, file: V)
    ensures (m - {stage})[stage := file] - {stage} == m - {stage}
  {
  }

  lemma SameVerdict(c: Config, d: Disk, e: Disk)
    requires e.record == d.record && e.parts == d.parts
    ensures StageVerdict(c, e) == StageVerdict(c, d)
  {
  }

  lemma KeptPrivatelyIfActive(d: Disk)
    ensures d.record.state in {Active, Finalizing} ==> KeptPrivately(d, d)
  {
  }

  lemma KeptPrivatelyTwice(d: Disk, e: Disk, f: Disk)
    requires KeptPrivately(d, e) && KeptPrivately(e, f)
    ensures KeptPrivately(d, f)
  {
  }

  lemma StageStays(m: Meta, s: Shared, t: Shared)
    requires EnvironmentOk(m, s, t) && IsFile(s, Stage(m))
    ensures SameFile(s, t, Stage(m))
    ensures ExclusiveStage(m, s) ==> ExclusiveStage(m, t)
  {
  }

  lemma ExtendRun(c: Config, d: Disk, run: seq<Action>, a: Action)
    requires RunOk(c, d, run) && Guard(c, After(d, run), a)
    requires WellFormed(After(d, run).shared) && OwnStageName(After(d, run).record)
    requires a.Save? || a.SavePart? ==> OwnStageName(a.saved)
    ensures RunOk(c, d, run + [a]) && After(d, run + [a]) == Effect(After(d, run), a)
    ensures WellFormed(Effect(After(d, run), a).shared) && OwnStageName(Effect(After(d, run), a).record)
  {
    assert (run + [a])[..|run|] == run;
  }

  lemma EnvironmentTransitive(m: Meta, s: Shared, t: Shared, u: Shared)
    requires EnvironmentOk(m, s, t) && EnvironmentOk(m, t, u)
    ensures EnvironmentOk(m, s, u)
  {
  }

  lemma DestinationStays(m: Meta, s: Shared, t: Shared)
    requires EnvironmentOk(m, s, t)
    ensures Dest(m) in s.names ==> SameFile(s, t, Dest(m))
  {
  }

  lemma MissingPart(c: Config, d: Disk, index: int)
    requires ValidManifest(c, d.record) && d.record.state in {Active, Finalizing}
    requires 0 <= index < d.record.meta.partCount && index !in d.record.parts
    ensures |d.record.parts| != d.record.meta.partCount
  {
    if |d.record.parts| == d.record.meta.partCount {
      AllIndexesPresent(d.record.parts, d.record.meta.partCount);
    }
  }

  lemma AllVerified(c: Config, d: Disk)
    requires ValidConfig(c) && ValidManifest(c, d.record) && d.record.state == Finalizing
    requires forall k | 0 <= k < d.record.meta.partCount :: k in d.record.parts && PartIntact(c, d.record.parts, d.parts, k)
    ensures |d.record.parts| == d.record.meta.partCount && PartsIntact(c, d)
    ensures AllPartsHere(d) && |WholeFile(d)| == d.record.meta.size
  {
    CountOfAll(d.record.parts, d.record.meta.partCount);
    WholeFileLength(c, d);
  }

  lemma CountOfAll(parts: map<int, Part>, count: nat)
    requires forall k | k in parts :: 0 <= k < count
    requires forall k | 0 <= k < count :: k in parts
    ensures |parts| == count
  {
    var all := IndexesBelow(count);
    assert forall k :: k in all <==> k in parts.Keys;
    assert parts.Keys == all;
  }

  lemma AdoptionEstablishesStore(c: Config, d: Disk, now: int)
    requires ValidConfig(c) && now > 0 && WellFormed(d.shared) && RecoveryAccepts(c, d)
    requires d.record.state == Finalizing && Dest(d.record.meta) in d.shared.names
    ensures var e := RecoveredDisk(c, d, now);
            StoreOk(c, e) && e.record.state == Completed &&
            Matches(c, e.shared, Dest(d.record.meta), |WholeFile(d)|, c.sha256(WholeFile(d)))
  {
    hide ValidMeta, ValidParts, ValidConfig, PartIntact, Assembled, UploadStageName, PartCount, ExpectedPartSize;
    NextRecordsAreValid(c, d.record, now);
    DestinationIsNotStage(c, d.record);
    WholeFileLength(c, d);
  }

  lemma RollbackEstablishesStore(c: Config, d: Disk, now: int)
    requires ValidConfig(c) && now > 0 && WellFormed(d.shared) && RecoveryAccepts(c, d)
    requires d.record.state == Finalizing && Dest(d.record.meta) !in d.shared.names
    ensures var e := RecoveredDisk(c, d, now);
            StoreOk(c, e) && e.record.state == Active && e.record.parts == d.record.parts && e.parts == d.parts
  {
    hide ValidMeta, ValidConfig, UploadStageName, PartIntact;
    NextRecordsAreValid(c, d.record, now);
  }

  // Recovery trusts nothing: whatever an unfinished upload's disk held before, once accepted it
  // satisfies the store invariant. An interrupted publication has become a completed upload whose
  // destination has the parts' length and digest, or an active one with every part intact.
  lemma RecoveryEstablishesStore(c: Config, d: Disk, now: int)
    requires ValidConfig(c) && now > 0 && WellFormed(d.shared) && RecoveryAccepts(c, d)
    requires d.record.state in {Active, Finalizing}
    ensures StoreOk(c, RecoveredDisk(c, d, now))
    ensures d.record.state == Finalizing ==>
              var e := RecoveredDisk(c, d, now);
              if Dest(d.record.meta) in d.shared.names
              then e.record.state == Completed && Matches(c, e.shared, Dest(d.record.meta), |WholeFile(d)|, c.sha256(WholeFile(d)))
              else e.record.state == Active && e.record.parts == d.record.parts && e.parts == d.parts
  {
    hide ValidMeta, ValidConfig, PartIntact;
    if d.record.state == Finalizing {
      if Dest(d.record.meta) in d.shared.names {
        AdoptionEstablishesStore(c, d, now);
      } else {
        RollbackEstablishesStore(c, d, now);
      }
    }
  }

  // Recovering a recovered disk accepts it again and changes nothing.
  lemma RecoveryIsStable(c: Config, d: Disk, now: int, later: int)
    requires ValidConfig(c) && now > 0 && RecoveryAccepts(c, d)
    ensures var e := RecoveredDisk(c, d, now); RecoveryAccepts(c, e) && RecoveredDisk(c, e, later) == e
  {
    hide ValidMeta;
    NextRecordsAreValid(c, d.record, now);
  }
}
