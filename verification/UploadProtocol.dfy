// The durable actions of one upload as a state machine (upload_store.go, upload_publish.go).
//
// A disk is what survives a crash: the record, the private part files and the managed tree as
// names, inodes and bytes. Every durable change any operation makes is one Action with a guard;
// a run is a starting disk and a list of actions, and a crash is a run that stops early. The
// lemmas speak of all runs, so they hold at every crash point of every sequence of operations.
module UploadProtocol {
  import opened Paths
  import opened UploadParts
  import opened UploadRecord

  datatype Name = Name(dir: string, leaf: string)

  // A managed name leads to a regular file or to something an upload must not touch.
  datatype Node = File(inode: nat) | Other

  // The part of the file system that other uploads and other users share. Inodes are never
  // reused, so a file that loses its last name keeps its place in `inodes`.
  datatype Shared = Shared(names: map<Name, Node>, inodes: seq<Bytes>, dirs: set<string>)

  datatype Disk = Disk(record: Manifest, parts: map<int, Bytes>, temps: map<int, Bytes>, shared: Shared)

  datatype Action =
    | Environment(after: Shared)
    | SavePart(index: int, saved: Manifest)
    | Save(saved: Manifest)
    | DropPart(index: int)
    | DropTemp(index: int)
    | WriteTemp(index: int, bytes: Bytes)
    | PlacePart(index: int)
    | CreateStage
    | AppendStage(more: Bytes)
    | LinkDestination
    | RemoveStage
    | PurgeParts(kept: set<int>)

  function Dest(m: Meta): Name { Name(m.path, m.name) }

  function Stage(m: Meta): Name { Name(m.path, UploadStageName(m.id)) }

  predicate WellFormed(s: Shared) {
    forall n | n in s.names && s.names[n].File? :: s.names[n].inode < |s.inodes|
  }

  // No name but the stage leads to the stage's inode.
  predicate ExclusiveStage(m: Meta, s: Shared) {
    && Stage(m) in s.names && s.names[Stage(m)].File?
    && forall n | n in s.names && s.names[n] == s.names[Stage(m)] :: n == Stage(m)
  }

  // ----- Parts -----

  predicate PartIntact(c: Config, recorded: map<int, Part>, files: map<int, Bytes>, k: int)
    requires k in recorded
  {
    k in files && |files[k]| == recorded[k].size && c.sha256(files[k]) == recorded[k].sha
  }

  predicate PartsIntact(c: Config, d: Disk) {
    forall k | k in d.record.parts :: PartIntact(c, d.record.parts, d.parts, k)
  }

  predicate AllPartsHere(d: Disk) {
    d.record.meta.partCount >= 0 && forall k | 0 <= k < d.record.meta.partCount :: k in d.parts
  }

  // The first n parts joined in index order.
  function Assembled(parts: map<int, Bytes>, n: nat): Bytes
    requires forall k | 0 <= k < n :: k in parts
  {
    if n == 0 then [] else Assembled(parts, n - 1) + parts[n - 1]
  }

  function WholeFile(d: Disk): Bytes
    requires AllPartsHere(d)
  {
    Assembled(d.parts, d.record.meta.partCount)
  }

  // ----- What a name shows -----

  predicate IsFile(s: Shared, n: Name) { n in s.names && s.names[n].File? && s.names[n].inode < |s.inodes| }

  function Contents(s: Shared, n: Name): Bytes
    requires IsFile(s, n)
  {
    s.inodes[s.names[n].inode]
  }

  predicate Matches(c: Config, s: Shared, n: Name, size: int, sha: string) {
    IsFile(s, n) && |Contents(s, n)| == size && c.sha256(Contents(s, n)) == sha
  }

  // Two views of the tree agree on everything the name shows.
  predicate SameFile(s: Shared, t: Shared, n: Name) {
    && n in s.names && n in t.names && s.names[n] == t.names[n]
    && (IsFile(s, n) ==> IsFile(t, n) && Contents(s, n) == Contents(t, n))
  }

  // ----- What others may do -----

  // Anyone else may do anything to the managed tree except touch this upload's stage name or
  // its inode, and except remove or rewrite a file that holds the destination name.
  predicate EnvironmentOk(m: Meta, s: Shared, t: Shared) {
    && WellFormed(t) && |s.inodes| <= |t.inodes|
    && (Stage(m) in t.names <==> Stage(m) in s.names)
    && (Stage(m) in s.names ==>
          && t.names[Stage(m)] == s.names[Stage(m)]
          && (IsFile(s, Stage(m)) ==>
                && Contents(s, Stage(m)) == t.inodes[s.names[Stage(m)].inode]
                && forall n | n in t.names && t.names[n] == s.names[Stage(m)] && n != Stage(m) ::
                     n in s.names && s.names[n] == t.names[n]))
    && (Dest(m) in s.names ==>
          && Dest(m) in t.names && t.names[Dest(m)] == s.names[Dest(m)]
          && (IsFile(s, Dest(m)) ==> Contents(s, Dest(m)) == t.inodes[s.names[Dest(m)].inode]))
  }

  // ----- The upload's own actions -----

  // The saves that move a record on without adding a part.
  predicate SaveOk(c: Config, d: Disk, n: Manifest) {
    var m := d.record;
    && ValidManifest(c, n) && n.meta == m.meta
    && (match (m.state, n.state)
        case (Active, Finalizing) =>
          && |m.parts| == m.meta.partCount && n.parts == m.parts
          && n.stageName == UploadStageName(m.meta.id) && n.finalSha == ""
        case (Finalizing, Finalizing) =>
          && PartsIntact(c, d) && AllPartsHere(d)
          && n.parts == m.parts && n.stageName == m.stageName
          && n.finalSha == c.sha256(WholeFile(d)) && m.meta.expectedSha in {"", n.finalSha}
        case (Finalizing, Active) =>
          n.parts == m.parts && Stage(m.meta) !in d.shared.names
        case (Finalizing, Completed) =>
          && PartsIntact(c, d) && AllPartsHere(d)
          && n.finalSha == c.sha256(WholeFile(d)) && m.meta.expectedSha in {"", n.finalSha}
          && Matches(c, d.shared, Dest(m.meta), m.meta.size, n.finalSha)
        case (Active, Cancelled) =>
          n.parts == m.parts
        case _ => false)
  }

  predicate SavePartOk(c: Config, d: Disk, k: int, n: Manifest) {
    var m := d.record;
    && ValidManifest(c, n) && n.meta == m.meta && m.state == Active && n.state == Active
    && 0 <= k < m.meta.partCount && k !in m.parts && k in d.parts
    && n.parts == m.parts[k := Part(|d.parts[k]|, c.sha256(d.parts[k]))]
  }

  predicate Guard(c: Config, d: Disk, a: Action) {
    var m := d.record.meta;
    var stage, dest := Stage(m), Dest(m);
    match a
    case Environment(after) => EnvironmentOk(m, d.shared, after)
    case SavePart(k, n) => SavePartOk(c, d, k, n)
    case Save(n) => SaveOk(c, d, n)
    case DropPart(k) => d.record.state == Active && k !in d.record.parts
    case DropTemp(_) => true
    case WriteTemp(_, _) => true
    case PlacePart(k) => d.record.state == Active && k !in d.record.parts && k in d.temps
    case CreateStage => d.record.state == Finalizing && stage !in d.shared.names
    case AppendStage(_) => d.record.state == Finalizing && ExclusiveStage(m, d.shared)
    case LinkDestination =>
      && d.record.state == Finalizing && PartsIntact(c, d) && AllPartsHere(d)
      && d.record.finalSha == c.sha256(WholeFile(d)) && m.expectedSha in {"", d.record.finalSha}
      && ExclusiveStage(m, d.shared) && IsFile(d.shared, stage)
      && Contents(d.shared, stage) == WholeFile(d)
      && dest !in d.shared.names
    case RemoveStage =>
      && stage in d.shared.names
      && (d.record.state == Completed || (d.record.state == Finalizing && d.shared.names[stage].File?))
    case PurgeParts(_) => d.record.state in {Completed, Cancelled}
  }

  function Effect(d: Disk, a: Action): Disk {
    var s := d.shared;
    var stage, dest := Stage(d.record.meta), Dest(d.record.meta);
    match a
    case Environment(after) => d.(shared := after)
    case SavePart(_, n) => d.(record := n)
    case Save(n) => d.(record := n)
    case DropPart(k) => d.(parts := d.parts - {k})
    case DropTemp(k) => d.(temps := d.temps - {k})
    case WriteTemp(k, b) => d.(temps := d.temps[k := b])
    case PlacePart(k) =>
      if k in d.temps then d.(parts := d.parts[k := d.temps[k]], temps := d.temps - {k}) else d
    case CreateStage =>
      d.(shared := s.(names := s.names[stage := File(|s.inodes|)], inodes := s.inodes + [[]]))
    case AppendStage(more) =>
      if IsFile(s, stage)
      then d.(shared := s.(inodes := s.inodes[s.names[stage].inode := Contents(s, stage) + more]))
      else d
    case LinkDestination =>
      if stage in s.names then d.(shared := s.(names := s.names[dest := s.names[stage]])) else d
    case RemoveStage => d.(shared := s.(names := s.names - {stage}))
    case PurgeParts(kept) =>
      d.(parts := map k | k in d.parts && k in kept :: d.parts[k],
         temps := map k | k in d.temps && k in kept :: d.temps[k])
  }

  function After(d: Disk, run: seq<Action>): Disk {
    if run == [] then d else Effect(After(d, run[..|run| - 1]), run[|run| - 1])
  }

  predicate RunOk(c: Config, d: Disk, run: seq<Action>) {
    run == [] ||
    (RunOk(c, d, run[..|run| - 1]) && Guard(c, After(d, run[..|run| - 1]), run[|run| - 1]))
  }

  lemma {:induction false} PrefixOfRun(c: Config, d: Disk, run: seq<Action>, n: nat)
    requires RunOk(c, d, run) && n <= |run|
    ensures RunOk(c, d, run[..n])
  {
    if n < |run| {
      PrefixOfRun(c, d, run[..|run| - 1], n);
      assert run[..|run| - 1][..n] == run[..n];
    } else {
      assert run[..n] == run;
    }
  }

  // ----- The store invariant -----

  predicate StoreOk(c: Config, d: Disk) {
    var m := d.record;
    && ValidManifest(c, m) && WellFormed(d.shared)
    && (m.state in {Active, Finalizing} ==> PartsIntact(c, d))
    && (m.state == Finalizing ==>
          && |m.parts| == m.meta.partCount && m.stageName == UploadStageName(m.meta.id)
          && AllPartsHere(d)
          && (m.finalSha != "" ==> m.finalSha == c.sha256(WholeFile(d)) && m.meta.expectedSha in {"", m.finalSha}))
    && (m.state == Completed ==> Matches(c, d.shared, Dest(m.meta), m.meta.size, m.finalSha))
  }

  // What recovery asks of a finalizing upload before it changes anything.
  predicate FinalizingRecoverable(c: Config, d: Disk) {
    var m := d.record.meta;
    && AllPartsHere(d) && |d.record.parts| == m.partCount
    && m.expectedSha in {"", c.sha256(WholeFile(d))}
    && m.path in d.shared.dirs
    && (if Dest(m) in d.shared.names
        then Matches(c, d.shared, Dest(m), m.size, c.sha256(WholeFile(d)))
        else Stage(m) in d.shared.names ==> d.shared.names[Stage(m)].File?)
  }

  predicate RecoveryAccepts(c: Config, d: Disk) {
    && ValidManifest(c, d.record)
    && (d.record.state in {Active, Finalizing} ==> PartsIntact(c, d))
    && (d.record.state == Finalizing ==> FinalizingRecoverable(c, d))
  }

  // A count that matches leaves no part out, recorded or on disk.
  lemma FullRecordHasAllParts(c: Config, d: Disk)
    requires ValidManifest(c, d.record) && d.record.state in {Active, Finalizing}
    requires |d.record.parts| == d.record.meta.partCount
    ensures forall k | 0 <= k < d.record.meta.partCount :: k in d.record.parts
    ensures PartsIntact(c, d) ==> AllPartsHere(d)
  {
    AllIndexesPresent(d.record.parts, d.record.meta.partCount);
    if PartsIntact(c, d) {
      forall k | 0 <= k < d.record.meta.partCount ensures k in d.parts { assert PartIntact(c, d.record.parts, d.parts, k); }
    }
  }

  lemma {:induction false} AssembledLength(m: Meta, parts: map<int, Bytes>, n: nat)
    requires forall k | 0 <= k < n :: k in parts && |parts[k]| == ExpectedPartSize(m.size, m.chunkBytes, k)
    ensures |Assembled(parts, n)| == BytesBefore(m.size, m.chunkBytes, n)
  {
    if n > 0 {
      AssembledLength(m, parts, n - 1);
    }
  }

  lemma {:induction false} AssembledFrame(p: map<int, Bytes>, q: map<int, Bytes>, n: nat)
    requires forall k | 0 <= k < n :: k in p && k in q && p[k] == q[k]
    ensures Assembled(p, n) == Assembled(q, n)
  {
    if n > 0 {
      AssembledFrame(p, q, n - 1);
    }
  }

  // A full and intact record assembles to exactly `size` bytes.
  lemma WholeFileLength(c: Config, d: Disk)
    requires ValidConfig(c) && ValidManifest(c, d.record) && d.record.state in {Active, Finalizing}
    requires |d.record.parts| == d.record.meta.partCount && PartsIntact(c, d)
    ensures AllPartsHere(d) && |WholeFile(d)| == d.record.meta.size
  {
    var m := d.record.meta;
    FullRecordHasAllParts(c, d);
    forall k | 0 <= k < m.partCount
      ensures k in d.parts && |d.parts[k]| == ExpectedPartSize(m.size, m.chunkBytes, k)
    {
      assert PartIntact(c, d.record.parts, d.parts, k);
    }
    AssembledLength(m, d.parts, m.partCount);
    ExpectedPartsTile(m.size, m.chunkBytes);
  }

  lemma SavesKeepStore(c: Config, d: Disk, a: Action)
    requires StoreOk(c, d) && Guard(c, d, a) && (a.Save? || a.SavePart?)
    ensures StoreOk(c, Effect(d, a))
  {
    var e := Effect(d, a);
    var n := a.saved;
    if n.state in {Active, Finalizing} {
      forall j | j in n.parts ensures PartIntact(c, e.record.parts, e.parts, j) {
        if j in d.record.parts { assert PartIntact(c, d.record.parts, d.parts, j); }
      }
      if d.record.state == Active && n.state == Finalizing { FullRecordHasAllParts(c, e); }
    }
  }

  lemma PartFilesKeepStore(c: Config, d: Disk, a: Action)
    requires StoreOk(c, d) && Guard(c, d, a)
    requires a.DropPart? || a.DropTemp? || a.WriteTemp? || a.PlacePart? || a.PurgeParts?
    ensures StoreOk(c, Effect(d, a))
  {
    if d.record.state in {Active, Finalizing} {
      KeptPartsIntact(c, d, Effect(d, a));
    }
  }

  lemma TreeActionsKeepStore(c: Config, d: Disk, a: Action)
    requires StoreOk(c, d) && Guard(c, d, a)
    requires a.Environment? || a.CreateStage? || a.AppendStage? || a.LinkDestination? || a.RemoveStage?
    ensures StoreOk(c, Effect(d, a))
  {
    var e := Effect(d, a);
    StageNames(d.record.meta.id, d.record.meta.id, d.record.meta.name);
    assert WellFormed(e.shared);
    if d.record.state in {Active, Finalizing} {
      KeptPartsIntact(c, d, e);
    }
  }

  lemma StepKeepsStore(c: Config, d: Disk, a: Action)
    requires StoreOk(c, d) && Guard(c, d, a)
    ensures StoreOk(c, Effect(d, a))
  {
    if a.Save? || a.SavePart? {
      SavesKeepStore(c, d, a);
    } else if a.Environment? || a.CreateStage? || a.AppendStage? || a.LinkDestination? || a.RemoveStage? {
      TreeActionsKeepStore(c, d, a);
    } else {
      PartFilesKeepStore(c, d, a);
    }
  }

  // Every recorded part of an unfinished upload has its private file, at every point of every run.
  lemma {:induction false} RunKeepsStore(c: Config, d: Disk, run: seq<Action>)
    requires StoreOk(c, d) && RunOk(c, d, run)
    ensures StoreOk(c, After(d, run))
  {
    if run != [] {
      RunKeepsStore(c, d, run[..|run| - 1]);
      StepKeepsStore(c, After(d, run[..|run| - 1]), run[|run| - 1]);
    }
  }

  lemma KeptPartsIntact(c: Config, d: Disk, e: Disk)
    requires PartsIntact(c, d) && e.record == d.record
    requires forall k | k in d.record.parts && k in d.parts :: k in e.parts && e.parts[k] == d.parts[k]
    ensures PartsIntact(c, e)
  {
    forall j | j in e.record.parts ensures PartIntact(c, e.record.parts, e.parts, j) { assert PartIntact(c, d.record.parts, d.parts, j); }
  }
}
