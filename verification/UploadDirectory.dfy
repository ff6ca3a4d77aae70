// The directory of all uploads: creation, quota reservations and reaping
// (upload_store.go, Create, reapExpiredLocked, reservationsLocked).
//
// The methods run while reapMu is held, so nobody else adds or removes an upload. Other uploads
// keep working under their own locks: between any two steps their records may move on, but only as
// RunsOnlyMoveOn says, and reading them here takes no lock.
module UploadDirectory {
  import opened Paths
  import opened UploadParts
  import opened UploadRecord
  import opened UploadRecordSize
  import opened UploadProtocol
  import UploadSafety
  import World = UploadWorld

  const INT64_MAX := 0x7fff_ffff_ffff_ffff

  newtype int64 = i: int | -INT64_MAX - 1 <= i <= INT64_MAX

  datatype Code =
    | Created | Existing | NotFound | Conflict | Busy | TooLarge | Invalid | InvalidDigest
    | InsufficientStorage | Failed

  datatype Request = Request(path: string, name: string, size: int, expectedSha: string)

  // An upload's directory: its record, or None if there is none that can be read, and its private files.
  datatype Entry = Entry(id: string, record: Option<Manifest>, parts: map<int, Bytes>, temps: map<int, Bytes>)

  function NewEntry(id: string, record: Option<Manifest>): Entry { Entry(id, record, map[], map[]) }

  predicate SubMap<K, V(==)>(m: map<K, V>, n: map<K, V>) { forall k | k in m :: k in n && m[k] == n[k] }

  // What a removal that did not get to its end may leave of an upload's directory.
  predicate PartlyRemoved(e: Entry, f: Entry) {
    f.id == e.id && f.record in {None, e.record} && SubMap(f.parts, e.parts) && SubMap(f.temps, e.temps)
  }

  predicate Reserved(e: Entry) {
    e.record.Some? && e.record.value.state in {Active, Finalizing}
  }

  function ReservedCount(entries: seq<Entry>): nat {
    if entries == [] then 0
    else ReservedCount(entries[..|entries| - 1]) + if Reserved(entries[|entries| - 1]) then 1 else 0
  }

  // What an upload takes of the pending bytes.
  function SizeOf(e: Entry): int { if Reserved(e) then e.record.value.meta.size else 0 }

  function ReservedBytes(entries: seq<Entry>): int {
    if entries == [] then 0
    else ReservedBytes(entries[..|entries| - 1]) + SizeOf(entries[|entries| - 1])
  }

  predicate QuotaOk(c: Config, entries: seq<Entry>) {
    ReservedCount(entries) <= c.maxActive && ReservedBytes(entries) <= c.maxPendingBytes
  }

  // Create's test: is there no room for one more upload of `size` bytes?
  predicate Full(c: Config, active: int, pending: int, size: int) {
    active >= c.maxActive || pending > c.maxPendingBytes - size
  }

  // The byte limit is an int64. So is what was ever admitted; at the largest limit that matters.
  predicate FitsInt64(c: Config, entries: seq<Entry>) {
    c.maxPendingBytes <= INT64_MAX && (c.maxPendingBytes == INT64_MAX ==> ReservedBytes(entries) <= INT64_MAX)
  }

  // A record this store saved.
  predicate Written(c: Config, e: Entry) {
    e.record.Some? && ValidManifest(c, e.record.value) && e.record.value.meta.id == e.id
  }

  // loadManifest
  predicate Loadable(c: Config, e: Entry) {
    Written(c, e) && Fits(c, e.record.value)
  }

  // Every record that is there is one this store wrote.
  predicate WellKept(c: Config, entries: seq<Entry>) {
    && (forall i | 0 <= i < |entries| && entries[i].record.Some? :: Written(c, entries[i]))
    && (forall i, j | 0 <= i < j < |entries| :: entries[i].id != entries[j].id)
  }

  // What operations on single uploads may do meanwhile.
  predicate OthersMoveOn(c: Config, s: seq<Entry>, t: seq<Entry>) {
    && |s| == |t|
    && forall i | 0 <= i < |s| ::
         && t[i].id == s[i].id && t[i].record.Some? == s[i].record.Some?
         && (s[i].record.None? ==> t[i] == s[i])
         && (s[i].record.Some? ==>
               UploadSafety.NoGoingBack(s[i].record.value, t[i].record.value) && Written(c, t[i]))
  }

  predicate NoMoreReserved(s: seq<Entry>, t: seq<Entry>) {
    ReservedCount(t) <= ReservedCount(s) && ReservedBytes(t) <= ReservedBytes(s)
  }

  lemma QuotaStays(c: Config, s: seq<Entry>, t: seq<Entry>)
    requires QuotaOk(c, s) && NoMoreReserved(s, t)
    ensures QuotaOk(c, t)
  {
  }

  lemma FewerComposes(s: seq<Entry>, t: seq<Entry>, u: seq<Entry>)
    requires NoMoreReserved(s, t) && NoMoreReserved(t, u)
    ensures NoMoreReserved(s, u)
  {
  }

  lemma RestBounds(s: seq<Entry>, t: seq<Entry>)
    requires NoMoreReserved(s, t)
    ensures ReservedCount(t) <= ReservedCount(s) && ReservedBytes(t) <= ReservedBytes(s)
  {
  }

  lemma NothingMore(s: seq<Entry>)
    ensures NoMoreReserved(s, s)
  {
  }

  lemma TheRestMovedOn(c: Config, s: seq<Entry>, x: Entry, t: seq<Entry>)
    requires OthersMoveOn(c, s + [x], t)
    ensures |t| == |s| + 1 && t[|s|].id == x.id && (x.record.None? ==> t[|s|] == x)
    ensures OthersMoveOn(c, s, t[..|s|])
  {
    hide ValidManifest;
    assert forall i | 0 <= i < |s| :: (s + [x])[i] == s[i];
  }

  // Entry i shows the record of upload at[i] in the world before, and then after, a run of all uploads.
  predicate Shows(s: seq<Entry>, t: seq<Entry>, before: World.World, after: World.World, at: seq<nat>) {
    && |s| == |t| == |at| && |before.uploads| == |after.uploads|
    && forall i | 0 <= i < |s| ::
         && t[i].id == s[i].id && t[i].record.Some? == s[i].record.Some?
         && (s[i].record.None? ==> t[i] == s[i])
         && (s[i].record.Some? ==>
               && at[i] < |before.uploads|
               && s[i].record == Some(before.uploads[at[i]].record) && t[i].record == Some(after.uploads[at[i]].record))
  }

  // Whatever any number of uploads and everyone else do, seen from here they only move on.
  lemma RunsOnlyMoveOn(c: Config, s: seq<Entry>, t: seq<Entry>, w: World.World, run: seq<World.Event>, at: seq<nat>)
    requires WellKept(c, s) && World.WorldOk(c, w) && World.WorldRun(c, w, run) && Shows(s, t, w, World.Later(w, run), at)
    ensures OthersMoveOn(c, s, t) && NoMoreReserved(s, t)
  {
    hide ValidManifest, World.WorldOk, World.WorldRun, World.Later, ReservedCount, ReservedBytes;
    forall i | 0 <= i < |s| && s[i].record.Some?
      ensures UploadSafety.NoGoingBack(s[i].record.value, t[i].record.value) && Written(c, t[i])
    {
      World.EachMovesOn(c, w, run, at[i]);
      assert Written(c, s[i]);
    }
    MovingOnFreesQuota(c, s, t);
  }

  lemma {:induction false} MovingOnFreesQuota(c: Config, s: seq<Entry>, t: seq<Entry>)
    requires WellKept(c, s) && OthersMoveOn(c, s, t)
    ensures ReservedCount(t) <= ReservedCount(s) && ReservedBytes(t) <= ReservedBytes(s)
    ensures WellKept(c, t)
  {
    hide ValidManifest;
    if s != [] {
      var n := |s| - 1;
      assert Written(c, s[n]) || s[n].record.None?;
      SizesAreNatural(c, s[n]);
      MovingOnFreesQuota(c, s[..n], t[..n]);
    }
  }

  lemma MovingOnComposes(c: Config, s: seq<Entry>, t: seq<Entry>, u: seq<Entry>)
    requires OthersMoveOn(c, s, t) && OthersMoveOn(c, t, u)
    ensures OthersMoveOn(c, s, u) && |u| == |s|
  {
    hide ValidManifest;
  }

  lemma PrefixMovesOn(c: Config, s: seq<Entry>, t: seq<Entry>, n: nat)
    requires WellKept(c, s) && OthersMoveOn(c, s, t) && n <= |s|
    ensures |t| == |s| && ReservedCount(t[..n]) <= ReservedCount(s[..n]) && ReservedBytes(t[..n]) <= ReservedBytes(s[..n])
  {
    MovingOnFreesQuota(c, s[..n], t[..n]);
  }

  // One more entry of the scan.
  lemma ScanOne(c: Config, s: seq<Entry>, n: nat)
    requires n < |s| && WellKept(c, s) && Written(c, s[n])
    ensures ReservedCount(s[..n + 1]) == ReservedCount(s[..n]) + if Reserved(s[n]) then 1 else 0
    ensures ReservedBytes(s[..n + 1]) == ReservedBytes(s[..n]) + if Reserved(s[n]) then s[n].record.value.meta.size else 0
    ensures 0 <= s[n].record.value.meta.size <= c.maxFileBytes
    ensures ReservedBytes(s[..n + 1]) <= ReservedBytes(s)
  {
    hide ValidManifest, WellKept;
    assert s[..n + 1][..n] == s[..n];
    SizesAreNatural(c, s[n]);
    PrefixBytes(c, s, n + 1);
  }

  // What the scan has not reached yet.
  lemma ScanRest(c: Config, s: seq<Entry>, n: nat)
    requires n < |s| && WellKept(c, s)
    ensures ReservedCount(s[n..]) == ReservedCount(s[n + 1..]) + if Reserved(s[n]) then 1 else 0
    ensures ReservedBytes(s[n..]) == ReservedBytes(s[n + 1..]) + SizeOf(s[n])
    ensures ReservedBytes(s[n + 1..]) >= 0
  {
    hide ValidManifest, ReservedCount, ReservedBytes, Reserved, SizeOf;
    var rest := s[n + 1..];
    assert s[n..] == [s[n]] + rest;
    ReservedOfBoth([s[n]], rest);
    ReservedOfOne(s[n]);
    assert forall i | 0 <= i < |rest| :: rest[i] == s[n + 1 + i];
    PrefixBytes(c, rest, |rest|);
    assert rest[..|rest|] == rest;
  }

  lemma RestMovesOn(c: Config, s: seq<Entry>, t: seq<Entry>, n: nat)
    requires WellKept(c, s) && OthersMoveOn(c, s, t) && n <= |s|
    ensures |t| == |s| && NoMoreReserved(s[n..], t[n..])
  {
    hide ValidManifest;
    MovingOnFreesQuota(c, s[n..], t[n..]);
  }

  lemma LosingFreesQuota(c: Config, s: seq<Entry>, k: nat, left: Entry)
    requires WellKept(c, s) && k < |s| && PartlyRemoved(s[k], left)
    ensures var t := s[k := left]; WellKept(c, t) && NoMoreReserved(s, t)
  {
    hide ValidManifest, SubMap;
    var t := s[k := left];
    RemovalFreesQuota(s, k);
    RemovalFreesQuota(t, k);
    assert t[..k] + t[k + 1..] == s[..k] + s[k + 1..];
    assert s[k].record.Some? ==> Written(c, s[k]);
    SizesAreNatural(c, s[k]);
  }

  lemma SameIds(c: Config, s: seq<Entry>, t: seq<Entry>)
    requires OthersMoveOn(c, s, t)
    ensures |t| == |s| && forall i | 0 <= i < |s| :: t[i].id == s[i].id
  {
  }

  // The reaper's list is what it kept so far followed by what it has not looked at.
  predicate ReapedUpTo(all: seq<Entry>, n: nat, now: int, entries: seq<Entry>, i: nat)
    requires n <= |all|
  {
    i == |Unexpired(all[..n], now)| && entries == Unexpired(all[..n], now) + all[n..]
  }

  lemma ReapRound(all: seq<Entry>, n: nat, now: int, before: seq<Entry>, i: nat)
    requires n < |all| && ReapedUpTo(all, n, now, before, i)
    ensures i < |before| && before[i] == all[n]
    ensures if Live(all[n], now) then ReapedUpTo(all, n + 1, now, before, i + 1)
            else ReapedUpTo(all, n + 1, now, before[..i] + before[i + 1..], i)
  {
    assert all[..n + 1][..n] == all[..n];
    var kept := Unexpired(all[..n], now);
    if Live(all[n], now) {
      assert before == kept + [all[n]] + all[n + 1..];
    } else {
      assert before[..i] + before[i + 1..] == kept + all[n + 1..];
    }
  }

  lemma ReapStart(all: seq<Entry>, now: int)
    ensures ReapedUpTo(all, 0, now, all, 0)
  {
    assert all[..0] == [] && [] + all[0..] == all;
  }

  lemma ReapEnd(all: seq<Entry>, now: int, entries: seq<Entry>, i: nat)
    requires ReapedUpTo(all, |all|, now, entries, i)
    ensures entries == Unexpired(all, now)
  {
    assert all[..|all|] == all;
  }

  predicate HasId(entries: seq<Entry>, id: string) {
    exists k :: 0 <= k < |entries| && entries[k].id == id
  }

  // Create on an upload that is already there.
  function ExistingCode(c: Config, record: Option<Manifest>, caller: Caller, r: Request): Code {
    if record.None? then Failed
    else if !Authorized(c, record.value.meta, caller) then NotFound
    else if !SameRequest(record.value.meta, r) then Conflict
    else Existing
  }

  lemma NewDirectory(c: Config, s: seq<Entry>, id: string)
    requires WellKept(c, s) && !HasId(s, id)
    ensures var t := s + [NewEntry(id, None)];
            WellKept(c, t) && ReservedCount(t) == ReservedCount(s) && ReservedBytes(t) == ReservedBytes(s)
  {
    hide ValidManifest;
    var t := s + [NewEntry(id, None)];
    assert t[..|s|] == s;
    forall i | 0 <= i < |t| && t[i].record.Some? ensures Written(c, t[i]) { assert t[i] == s[i]; }
  }

  lemma RoomRemains(c: Config, s: seq<Entry>, t: seq<Entry>, size: int)
    requires WellKept(c, s) && OthersMoveOn(c, s, t) && !Full(c, ReservedCount(s), ReservedBytes(s), size)
    ensures !Full(c, ReservedCount(t), ReservedBytes(t), size)
    ensures forall i | 0 <= i < |s| :: t[i].id == s[i].id && t[i].record.Some? == s[i].record.Some?
  {
    MovingOnFreesQuota(c, s, t);
  }

  lemma RoomMeansQuota(c: Config, s: seq<Entry>, size: int)
    requires size >= 0 && !Full(c, ReservedCount(s), ReservedBytes(s), size)
    ensures QuotaOk(c, s)
  {
  }

  lemma FullBeforeToo(c: Config, s: seq<Entry>, t: seq<Entry>, size: int)
    requires NoMoreReserved(s, t) && Full(c, ReservedCount(t), ReservedBytes(t), size)
    ensures ReservedCount(s) >= c.maxActive || ReservedBytes(s) + size > c.maxPendingBytes
  {
  }

  lemma StayingWithin(c: Config, s: seq<Entry>, t: seq<Entry>)
    requires NoMoreReserved(s, t)
    ensures FitsInt64(c, s) ==> FitsInt64(c, t)
    ensures QuotaOk(c, s) ==> QuotaOk(c, t)
  {
  }

  lemma QuotaInFull(c: Config, s: seq<Entry>)
    ensures QuotaOk(c, s) <==> ReservedCount(s) <= c.maxActive && ReservedBytes(s) <= c.maxPendingBytes
  {
  }

  lemma OneOfBoth(c: Config, s: seq<Entry>, t: seq<Entry>, u: seq<Entry>)
    requires FitsInt64(c, s) && NoMoreReserved(s, t) && (NoMoreReserved(t, u) || QuotaOk(c, u))
    ensures FitsInt64(c, u) && (NoMoreReserved(s, u) || QuotaOk(c, u)) && (QuotaOk(c, s) ==> QuotaOk(c, u))
  {
  }

  lemma SizeIsNatural(c: Config, record: Manifest)
    requires ValidManifest(c, record)
    ensures record.meta.size >= 0
  {
  }

  // Recoverable uploads stay so when the limit on pending bytes is lowered, but may then exceed it.
  lemma LoweringTheLimit(c: Config, s: seq<Entry>, limit: int)
    requires ValidConfig(c) && WellKept(c, s) && c.maxFileBytes <= limit
    ensures var lower := c.(maxPendingBytes := limit);
            && ValidConfig(lower) && WellKept(lower, s)
            && forall i | 0 <= i < |s| :: Loadable(lower, s[i]) <==> Loadable(c, s[i])
  {
    hide ValidLeafName, ValidUploadId, ValidSha256, CleanRelative, ExpectedPartSize, PartCount, IsUploadStageName;
    var lower := c.(maxPendingBytes := limit);
    forall i | 0 <= i < |s|
      ensures Written(lower, s[i]) <==> Written(c, s[i])
      ensures Loadable(lower, s[i]) <==> Loadable(c, s[i])
    {
    }
  }

  // It does happen: two uploads of the largest size, admitted under twice that limit.
  lemma TwoLargestUploads(c: Config, a: Entry, b: Entry)
    requires ValidConfig(c) && c.maxActive >= 2 && c.maxFileBytes > 0 && c.maxPendingBytes == 2 * c.maxFileBytes
    requires Written(c, a) && Written(c, b) && a.id != b.id && Reserved(a) && Reserved(b)
    requires SizeOf(a) == SizeOf(b) == c.maxFileBytes
    ensures WellKept(c, [a, b]) && QuotaOk(c, [a, b])
    ensures var lower := c.(maxPendingBytes := c.maxFileBytes);
            ValidConfig(lower) && WellKept(lower, [a, b]) && ReservedBytes([a, b]) > lower.maxPendingBytes
  {
    hide ValidManifest;
    ReservedOfOne(a);
    ReservedOfOne(b);
    ReservedOfBoth([a], [b]);
    assert [a] + [b] == [a, b];
    LoweringTheLimit(c, [a, b], c.maxFileBytes);
  }

  lemma FirstRecord(c: Config, s: seq<Entry>, n: nat, record: Manifest)
    requires WellKept(c, s) && n < |s| && s[n].record.None? && s[n].id == record.meta.id
    requires ValidManifest(c, record) && !Full(c, ReservedCount(s), ReservedBytes(s), record.meta.size)
    ensures var t := s[n := s[n].(record := Some(record))]; WellKept(c, t) && QuotaOk(c, t)
  {
    hide ValidManifest;
    var t := s[n := s[n].(record := Some(record))];
    RemovalFreesQuota(s, n);
    RemovalFreesQuota(t, n);
    assert t[..n] + t[n + 1..] == s[..n] + s[n + 1..];
    forall i | 0 <= i < |t| && t[i].record.Some? ensures Written(c, t[i]) {
      if i != n { assert Written(c, s[i]); }
    }
    SizesAreNatural(c, t[n]);
  }

  lemma {:induction false} AllUnexpiredLoadable(c: Config, s: seq<Entry>, now: int)
    ensures (forall i | 0 <= i < |s| :: Loadable(c, s[i])) ==>
              forall i | 0 <= i < |Unexpired(s, now)| :: Loadable(c, Unexpired(s, now)[i])
  {
    hide Loadable;
    if s != [] && forall i | 0 <= i < |s| :: Loadable(c, s[i]) {
      var init, last := s[..|s| - 1], s[|s| - 1];
      assert forall i | 0 <= i < |init| :: init[i] == s[i];
      AllUnexpiredLoadable(c, init, now);
      assert Unexpired(s, now) == Unexpired(init, now) || Unexpired(s, now) == Unexpired(init, now) + [last];
    }
  }

  lemma NothingReserved()
    ensures ReservedCount([]) == 0 && ReservedBytes([]) == 0
  {
  }

  lemma StandingStill(c: Config, s: seq<Entry>)
    requires WellKept(c, s)
    ensures OthersMoveOn(c, s, s)
  {
    hide ValidManifest;
  }

  lemma LimitsAreOrdered(c: Config)
    requires ValidConfig(c)
    ensures 0 <= c.maxFileBytes <= c.maxPendingBytes
  {
  }

  lemma SizesAreNatural(c: Config, e: Entry)
    ensures Written(c, e) ==> 0 <= e.record.value.meta.size <= c.maxFileBytes
  {
  }

  lemma {:induction false} PrefixBytes(c: Config, s: seq<Entry>, n: nat)
    requires WellKept(c, s) && n <= |s|
    ensures 0 <= ReservedBytes(s[..n]) <= ReservedBytes(s) && ReservedCount(s[..n]) <= ReservedCount(s)
    decreases |s|
  {
    hide ValidManifest;
    if n < |s| {
      var init := s[..|s| - 1];
      assert init[..n] == s[..n];
      assert s[|s| - 1].record.Some? ==> Written(c, s[|s| - 1]);
      SizesAreNatural(c, s[|s| - 1]);
      PrefixBytes(c, init, n);
    } else {
      assert s[..n] == s;
      if s != [] {
        var init := s[..|s| - 1];
        assert s[|s| - 1].record.Some? ==> Written(c, s[|s| - 1]);
        SizesAreNatural(c, s[|s| - 1]);
        PrefixBytes(c, init, |init|);
        assert init[..|init|] == init;
      }
    }
  }

  lemma {:induction false} ReservedOfBoth(a: seq<Entry>, b: seq<Entry>)
    ensures ReservedCount(a + b) == ReservedCount(a) + ReservedCount(b)
    ensures ReservedBytes(a + b) == ReservedBytes(a) + ReservedBytes(b)
    decreases |b|
  {
    hide Reserved, SizeOf;
    if b == [] {
      assert a + b == a;
    } else {
      var n := |b| - 1;
      ReservedOfBoth(a, b[..n]);
      assert (a + b)[..|a| + n] == a + b[..n] && (a + b)[|a| + n] == b[n];
    }
  }

  lemma RemovalFreesQuota(s: seq<Entry>, k: nat)
    requires k < |s|
    ensures ReservedCount(s) == ReservedCount(s[..k] + s[k + 1..]) + if Reserved(s[k]) then 1 else 0
    ensures ReservedBytes(s) == ReservedBytes(s[..k] + s[k + 1..]) + SizeOf(s[k])
  {
    hide ReservedCount, ReservedBytes, Reserved, SizeOf;
    var a, x, b := s[..k], [s[k]], s[k + 1..];
    assert s == (a + x) + b;
    ReservedOfBoth(a + x, b);
    ReservedOfBoth(a, x);
    ReservedOfBoth(a, b);
    ReservedOfOne(s[k]);
  }

  lemma ReservedOfOne(e: Entry)
    ensures ReservedCount([e]) == if Reserved(e) then 1 else 0
    ensures ReservedBytes([e]) == SizeOf(e)
  {
    hide Reserved, SizeOf;
    assert [e][..0] == [];
  }

  // What counts against the quota: uploads that are active or being published, each with its size.
  lemma WhatIsReserved(e: Entry)
    ensures ReservedCount([e]) == if e.record.Some? && e.record.value.state in {Active, Finalizing} then 1 else 0
    ensures ReservedBytes([e]) ==
              if e.record.Some? && e.record.value.state in {Active, Finalizing} then e.record.value.meta.size else 0
  {
    ReservedOfOne(e);
  }

  function Lower(s: string): string {
    seq(|s|, i requires 0 <= i < |s| => if 'A' <= s[i] <= 'Z' then s[i] - 'A' + 'a' else s[i])
  }

  // validateCreate
  function ValidateCreate(c: Config, r: Request): (Code, Request) {
    if r.size < 0 || r.size > c.maxFileBytes then (TooLarge, r)
    else if !ValidLeafName(r.name) then (Invalid, r)
    else
      var path := CleanRelative(r.path, true);
      if path.None? then (Invalid, r)
      else
        var cleaned := r.(path := path.value, expectedSha := Lower(r.expectedSha));
        if cleaned.expectedSha != "" && !ValidSha256(cleaned.expectedSha) then (InvalidDigest, cleaned)
        else if PartCount(r.size, c.chunkBytes) > c.maxParts then (TooLarge, cleaned)
        else (Created, cleaned)
  }

  function NewRecord(c: Config, id: string, caller: Caller, r: Request, now: int): Manifest {
    Manifest(Meta(1, id, caller.owner, caller.authMethod, c.tokenHash(caller.token), r.path, r.name, r.size,
                  c.chunkBytes, PartCount(r.size, c.chunkBytes), r.expectedSha, now),
             map[], Active, now, now + c.inactivityTtl, 0, "", "", "")
  }

  predicate SameRequest(m: Meta, r: Request) {
    m.path == r.path && m.name == r.name && m.size == r.size && m.expectedSha == r.expectedSha
  }

  // The record is the one that was asked for: by whom, what, where to, and how long it may rest.
  predicate Carries(c: Config, m: Manifest, id: string, caller: Caller, request: Request, now: int) {
    && m.meta.id == id && m.meta.name == request.name && m.meta.size == request.size
    && CleanRelative(request.path, true) == Some(m.meta.path) && m.meta.expectedSha == Lower(request.expectedSha)
    && MadeBy(c, m.meta, caller)
    && m.meta.createdAt == m.updatedAt == now && m.expiresAt == now + c.inactivityTtl
    && m.state == Active && m.parts == map[]
  }

  predicate MadeBy(c: Config, m: Meta, caller: Caller) {
    m.owner == caller.owner && m.authMethod == caller.authMethod && m.tokenHash == c.tokenHash(caller.token)
  }

  // A request for the same file at the same place.
  predicate AsksFor(m: Meta, request: Request) {
    && CleanRelative(request.path, true) == Some(m.path) && request.name == m.name && request.size == m.size
    && Lower(request.expectedSha) == m.expectedSha
  }

  lemma LowerCases(s: string)
    ensures |Lower(s)| == |s|
    ensures forall i | 0 <= i < |s| ::
              && !('A' <= Lower(s)[i] <= 'Z')
              && (if 'A' <= s[i] <= 'Z' then Lower(s)[i] as int == s[i] as int + 32 else Lower(s)[i] == s[i])
  {
  }

  // Which requests are accepted, and what the others are told; a declared digest may be in either case.
  lemma CreateVerdicts(c: Config, r: Request)
    requires ValidConfig(c)
    ensures ValidateCreate(c, r).0 ==
              if r.size < 0 || r.size > c.maxFileBytes then TooLarge
              else if !ValidLeafName(r.name) || CleanRelative(r.path, true).None? then Invalid
              else if r.expectedSha == "" || (|r.expectedSha| == 64 && forall x | x in r.expectedSha :: x in "0123456789abcdefABCDEF")
              then Created else InvalidDigest
  {
    hide CleanRelative, ValidLeafName, PartCount;
    if 0 <= r.size <= c.maxFileBytes { PartLimitNeverBites(c, r); }
    LowerCases(r.expectedSha);
    HexDigits(r.expectedSha);
  }

  lemma HexDigit(s: string, i: nat)
    requires i < |s|
    ensures i < |Lower(s)| && (Lower(s)[i] in "0123456789abcdef" <==> s[i] in "0123456789abcdefABCDEF")
  {
  }

  lemma HexDigits(s: string)
    ensures ValidSha256(Lower(s)) <==> |s| == 64 && forall x | x in s :: x in "0123456789abcdefABCDEF"
    ensures Lower(s) == "" <==> s == ""
  {
    hide Lower;
    LowerCases(s);
    forall i | 0 <= i < |s| ensures Lower(s)[i] in "0123456789abcdef" <==> s[i] in "0123456789abcdefABCDEF" {
      HexDigit(s, i);
    }
    if forall x | x in s :: x in "0123456789abcdefABCDEF" {
      assert forall i | 0 <= i < |s| :: s[i] in s;
    } else {
      var x :| x in s && x !in "0123456789abcdefABCDEF";
      var i :| 0 <= i < |s| && s[i] == x;
    }
  }

  lemma NewRecordIs(c: Config, id: string, caller: Caller, r: Request, now: int)
    ensures NewRecord(c, id, caller, r, now).meta.id == id && NewRecord(c, id, caller, r, now).meta.size == r.size
  {
  }

  lemma WhatIsThere(c: Config, m: Manifest, caller: Caller, request: Request, r: Request)
    requires caller.owner != "" && ValidSha256(caller.token) && (AsksFor(m.meta, request) <==> SameRequest(m.meta, r))
    ensures ExistingCode(c, Some(m), caller, r) ==
              if !MadeBy(c, m.meta, caller) then NotFound else if !AsksFor(m.meta, request) then Conflict else Existing
  {
    hide AsksFor, SameRequest;
  }

  lemma NewRecordCarries(c: Config, id: string, caller: Caller, request: Request, now: int)
    requires ValidateCreate(c, request).0 == Created
    ensures Carries(c, NewRecord(c, id, caller, ValidateCreate(c, request).1, now), id, caller, request, now)
    ensures forall m: Meta :: AsksFor(m, request) <==> SameRequest(m, ValidateCreate(c, request).1)
  {
    hide CleanRelative, ValidLeafName, Lower, ValidSha256, PartCount;
  }

  // From the request to the published file: whatever happens in between, an upload that was created with a digest
  // and gets completed has put a file of exactly that digest at the place asked for.
  lemma RequestedDigestIsPublished(c: Config, m: Manifest, id: string, caller: Caller, request: Request, now: int,
                                   shared: Shared, run: seq<Action>, i: nat, j: nat)
    requires ValidManifest(c, m) && Carries(c, m, id, caller, request, now) && request.expectedSha != "" && WellFormed(shared)
    requires var d := Disk(m, map[], map[], shared);
             RunOk(c, d, run) && i <= j <= |run| && UploadSafety.At(d, run, i).record.state == Completed
    ensures var s := UploadSafety.At(Disk(m, map[], map[], shared), run, j).shared;
            var dest := Name(CleanRelative(request.path, true).value, request.name);
            IsFile(s, dest) && c.sha256(Contents(s, dest)) == Lower(request.expectedSha)
  {
    hide ValidManifest, CleanRelative, RunOk, UploadSafety.At, IsFile, Contents;
    LowerCases(request.expectedSha);
    UploadSafety.DeclaredDigestIsPublished(c, Disk(m, map[], map[], shared), run, i, j);
  }

  // An accepted request makes a record that validateManifest accepts, and that loads again exactly
  // when its text without any parts is within the limit.
  lemma AcceptedRequestMakesValidRecord(c: Config, id: string, caller: Caller, r: Request, now: int)
    requires ValidConfig(c) && ValidUploadId(id) && caller.owner != "" && caller.authMethod in {"session", "bearer"} && now > 0
    requires ValidateCreate(c, r).0 == Created
    ensures var record := NewRecord(c, id, caller, ValidateCreate(c, r).1, now);
            ValidManifest(c, record) && (Fits(c, record) <==> c.headBytes(record) <= 0x10_0000)
  {
    NoPartsNoBytes(PartCount(r.size, c.chunkBytes));
    var record := NewRecord(c, id, caller, ValidateCreate(c, r).1, now);
    assert record.(parts := map[]) == record;
    CleanRelativeOnlyFlipsSlashes(r.path, true);
    PartCountBounds(r.size, c.chunkBytes);
  }

  lemma AcceptedSize(c: Config, r: Request)
    ensures ValidateCreate(c, r).0 == Created ==> ValidateCreate(c, r).1.size == r.size >= 0
  {
    hide CleanRelative, ValidLeafName, Lower, ValidSha256, PartCount;
  }

  // With valid limits the part limit of validateCreate never bites.
  lemma PartLimitNeverBites(c: Config, r: Request)
    requires ValidConfig(c) && 0 <= r.size <= c.maxFileBytes
    ensures PartCount(r.size, c.chunkBytes) <= c.maxParts
  {
    if r.size > 0 {
      DivMonotone(r.size + c.chunkBytes - 1, c.maxFileBytes + c.chunkBytes - 1, c.chunkBytes);
    }
  }

  lemma DivMonotone(a: int, b: int, d: int)
    requires a <= b && d > 0
    ensures a / d <= b / d
  {
    var p, q := a / d, b / d;
    assert p * d <= a && b < q * d + d;
    assert p >= q + 1 ==> p * d >= (q + 1) * d;
    assert (q + 1) * d == q * d + d;
  }

  predicate Live(e: Entry, now: int) {
    e.record.Some? ==> now < e.record.value.expiresAt
  }

  function Unexpired(entries: seq<Entry>, now: int): seq<Entry> {
    if entries == [] then []
    else Unexpired(entries[..|entries| - 1], now) +
         if Live(entries[|entries| - 1], now) then [entries[|entries| - 1]] else []
  }

  lemma UnexpiredOne(e: Entry, now: int)
    ensures Unexpired([e], now) == if e.record.Some? && now >= e.record.value.expiresAt then [] else [e]
  {
    assert [e][..0] == [];
  }

  lemma UnexpiredStep(s: seq<Entry>, e: Entry, now: int)
    ensures Unexpired(s + [e], now) == Unexpired(s, now) + Unexpired([e], now) && Unexpired([], now) == []
  {
    hide Live;
    assert (s + [e])[..|s|] == s && [e][..0] == [];
  }

  // What the reaper leaves is exactly what has not expired, in its old order.
  lemma {:induction false} UnexpiredIs(a: seq<Entry>, e: Entry, b: seq<Entry>, now: int)
    ensures Unexpired([e], now) == if e.record.Some? && now >= e.record.value.expiresAt then [] else [e]
    ensures Unexpired(a + b, now) == Unexpired(a, now) + Unexpired(b, now)
    decreases |b|
  {
    hide Live, Unexpired;
    UnexpiredOne(e, now);
    if b == [] {
      UnexpiredStep([], e, now);
      assert a + b == a;
    } else {
      var init, last := b[..|b| - 1], b[|b| - 1];
      assert b == init + [last];
      assert a + b == a + init + [last];
      UnexpiredIs(a, e, init, now);
      UnexpiredStep(init, last, now);
      UnexpiredStep(a + init, last, now);
      Reassociate(Unexpired(a, now), Unexpired(init, now), Unexpired([last], now));
    }
  }

  lemma Reassociate(a: seq<Entry>, b: seq<Entry>, c: seq<Entry>)
    ensures a + b + c == a + (b + c)
  {
  }

  class Directory {
    const config: Config
    const reliable: bool
    var entries: seq<Entry>
    // The managed tree, in which the uploads have their stages and destinations.
    var shared: Shared

    ghost predicate Kept()
      reads this
    {
      ValidConfig(config) && WellKept(config, entries)
    }

    ghost predicate Valid()
      reads this
    {
      Kept() && QuotaOk(config, entries)
    }

    constructor (config: Config, reliable: bool, shared: Shared)
      requires ValidConfig(config)
      ensures Valid() && entries == [] && this.config == config && this.reliable == reliable && this.shared == shared
    {
      this.config, this.reliable, this.entries, this.shared := config, reliable, [], shared;
    }

    // The uploads a start-up has found and recovered.
    constructor Opened(config: Config, reliable: bool, entries: seq<Entry>, shared: Shared)
      requires ValidConfig(config) && WellKept(config, entries)
      ensures Kept() && this.entries == entries && this.shared == shared && this.config == config && this.reliable == reliable
    {
      this.config, this.reliable, this.entries, this.shared := config, reliable, entries, shared;
    }

    method Fault() returns (fault: bool)
      ensures reliable ==> !fault
    {
      fault := *;
      fault := fault && !reliable;
    }

    method Interfere()
      requires Kept()
      modifies this`entries, this`shared
      ensures Kept() && OthersMoveOn(config, old(entries), entries) && NoMoreReserved(old(entries), entries)
      ensures reliable ==> entries == old(entries) && shared == old(shared)
    {
      hide ValidManifest, ValidConfig;
      if !reliable {
        shared := *;
        var after: seq<Entry> := *;
        if OthersMoveOn(config, entries, after) {
          MovingOnFreesQuota(config, entries, after);
          entries := after;
          return;
        }
      }
      assert forall i | 0 <= i < |entries| && entries[i].record.Some? :: Written(config, entries[i]);
    }

    // reservationsLocked. The reads are not synchronised with the uploads they look at, so the verdict
    // lies between the one at the start of the loop and the one at its end, whether or not the limit is
    // exceeded already. Left alone the sums are exact below the limit, and the early return is taken
    // exactly above it.
    method ReservationsLocked() returns (ok: bool, active: int, pending: int64)
      requires Kept() && FitsInt64(config, entries)
      modifies this`entries, this`shared
      ensures Kept() && OthersMoveOn(config, old(entries), entries) && NoMoreReserved(old(entries), entries)
      ensures ok ==> forall size | size >= 0 && Full(config, ReservedCount(entries), ReservedBytes(entries), size) ::
                Full(config, active, pending as int, size)
      ensures ok ==> forall size | size >= 0 && Full(config, active, pending as int, size) ::
                Full(config, ReservedCount(old(entries)), ReservedBytes(old(entries)), size)
      ensures reliable ==> entries == old(entries) && shared == old(shared)
      ensures reliable && ok ==>
                if ReservedBytes(entries) <= config.maxPendingBytes
                then active == ReservedCount(entries) && pending as int == ReservedBytes(entries)
                else pending as int == config.maxPendingBytes + 1
      ensures reliable && (forall i | 0 <= i < |entries| :: Loadable(config, entries[i])) ==> ok
    {
      hide ValidManifest, ValidConfig, WellKept, OthersMoveOn, NoMoreReserved, ReservedCount, ReservedBytes;
      active, pending := 0, 0;
      LimitsAreOrdered(config);
      StandingStill(config, entries);
      NothingMore(entries);
      NothingReserved();
      ghost var first := entries;
      assert first[..0] == [] && first[0..] == first;
      var i := 0;
      while i < |entries|
        invariant Kept() && OthersMoveOn(config, first, entries) && NoMoreReserved(first, entries)
        invariant reliable ==> entries == first && shared == old(shared)
        invariant 0 <= i <= |entries|
        invariant 0 <= pending as int <= config.maxPendingBytes
        invariant ReservedCount(entries[..i]) <= active && active + ReservedCount(entries[i..]) <= ReservedCount(first)
        invariant ReservedBytes(entries[..i]) <= pending as int && pending as int + ReservedBytes(entries[i..]) <= ReservedBytes(first)
        decreases |first| - i
      {
        if !Loadable(config, entries[i]) {
          return false, 0, 0;
        }
        ScanOne(config, entries, i);
        ScanRest(config, entries, i);
        if Reserved(entries[i]) {
          var size := entries[i].record.value.meta.size;
          active := active + 1;
          if pending as int > config.maxPendingBytes - size {
            return true, active, (config.maxPendingBytes + 1) as int64;
          }
          pending := pending + size as int64;
        }
        i := i + 1;
        ghost var seen := entries;
        Interfere();
        FewerComposes(first, seen, entries);
        PrefixMovesOn(config, seen, entries, i);
        RestMovesOn(config, seen, entries, i);
        RestBounds(seen[i..], entries[i..]);
        MovingOnComposes(config, first, seen, entries);
      }
      assert entries[..i] == entries && entries[i..] == [];
      ok := true;
    }

    // os.RemoveAll on one upload's directory. It never reaches into the managed tree, and when it fails any
    // part of the directory may be gone.
    method RemoveUpload(k: nat) returns (ok: bool)
      requires Kept() && k < |entries|
      modifies this`entries
      ensures Kept() && NoMoreReserved(old(entries), entries)
      ensures ok ==> entries == old(entries)[..k] + old(entries)[k + 1..]
      ensures !ok ==>
                |entries| == |old(entries)| && PartlyRemoved(old(entries)[k], entries[k]) && entries == old(entries)[k := entries[k]]
      ensures shared == old(shared) && (reliable ==> ok)
    {
      hide ValidManifest, ValidConfig, ReservedCount, ReservedBytes, Written;
      assert entries[k].record.Some? ==> Written(config, entries[k]);
      SizesAreNatural(config, entries[k]);
      var fault := Fault();
      if fault {
        var left: Entry := *;
        left := if PartlyRemoved(entries[k], left) then left else entries[k];
        LosingFreesQuota(config, entries, k, left);
        entries := entries[k := left];
        return false;
      }
      RemovalFreesQuota(entries, k);
      entries := entries[..k] + entries[k + 1..];
      ok := true;
    }

    // One round of the reaper, under the entry's own lock. Without faults it removes exactly the expired.
    method ReapOne(i: nat, now: int) returns (ok: bool, removed: bool)
      requires Kept() && i < |entries|
      modifies this`entries, this`shared
      ensures Kept() && NoMoreReserved(old(entries), entries)
      ensures ok ==> |entries| == |old(entries)| - if removed then 1 else 0
      ensures !Loadable(config, old(entries)[i]) ==> !ok
      ensures ok ==> old(entries)[i].record.Some? && (removed <==> now >= old(entries)[i].record.value.expiresAt)
      ensures reliable && Loadable(config, old(entries)[i]) ==>
                && ok && removed == !Live(old(entries)[i], now)
                && entries == (if removed then old(entries)[..i] + old(entries)[i + 1..] else old(entries))
      ensures reliable ==> shared == old(shared)
    {
      hide ValidManifest, ValidConfig, WellKept, QuotaOk, OthersMoveOn, NoMoreReserved, Fits;
      NothingMore(entries);
      ghost var all := entries;
      if !Loadable(config, entries[i]) {
        return false, false;
      }
      removed := now >= entries[i].record.value.expiresAt;
      if removed {
        ok := RemoveUpload(i);
        if !ok {
          return false, false;
        }
      }
      ok := true;
      ghost var seen := entries;
      Interfere();
      FewerComposes(all, seen, entries);
      SameIds(config, seen, entries);
    }

    // The loop body of reapExpiredLocked; what it has not looked at moves up when an entry goes.
    method ReapNext(i: nat, now: int, ghost all: seq<Entry>, ghost done: nat) returns (ok: bool, next: nat)
      requires Kept() && i < |entries| && |entries| - i == |all| - done
      requires reliable ==> ReapedUpTo(all, done, now, entries, i)
      modifies this`entries, this`shared
      ensures Kept() && NoMoreReserved(old(entries), entries)
      ensures ok ==> next <= |entries| && |entries| - next == |all| - done - 1
      ensures reliable ==> (ok <==> Loadable(config, all[done]))
      ensures reliable && ok ==> ReapedUpTo(all, done + 1, now, entries, next)
      ensures reliable ==> shared == old(shared)
    {
      hide ValidManifest, ValidConfig, WellKept, Loadable, Live, ReapedUpTo, Unexpired, NoMoreReserved;
      if reliable { ReapRound(all, done, now, entries, i); }
      var removed: bool;
      ok, removed := ReapOne(i, now);
      next := if removed then i else i + 1;
    }

    // reapExpiredLocked
    method ReapExpired(now: int) returns (ok: bool)
      requires Kept()
      modifies this`entries, this`shared
      ensures Kept() && NoMoreReserved(old(entries), entries)
      ensures reliable ==> (ok <==> forall i | 0 <= i < |old(entries)| :: Loadable(config, old(entries)[i]))
      ensures reliable && ok ==> entries == Unexpired(old(entries), now)
      // The stages of what is reaped stay where they are.
      ensures reliable ==> shared == old(shared)
    {
      hide ValidManifest, ValidConfig, WellKept, QuotaOk, OthersMoveOn, Loadable, Live, ReapedUpTo, Unexpired, NoMoreReserved;
      ghost var all := entries;
      NothingMore(all);
      ghost var done := 0;
      ReapStart(all, now);
      var i := 0;
      ok := true;
      while i < |entries|
        invariant Kept() && NoMoreReserved(all, entries) && ok
        invariant 0 <= i <= |entries| && 0 <= done && |entries| - i == |all| - done
        invariant reliable ==> ReapedUpTo(all, done, now, entries, i) && shared == old(shared)
        invariant reliable ==> forall k | 0 <= k < done :: Loadable(config, all[k])
        decreases |entries| - i
      {
        ghost var seen := entries;
        ok, i := ReapNext(i, now, all, done);
        FewerComposes(all, seen, entries);
        if !ok {
          break;
        }
        done := done + 1;
      }
      if ok && reliable { ReapEnd(all, now, entries, i); }
    }

    // os.Lstat on the upload's directory.
    method Find(id: string) returns (found: bool, k: nat)
      ensures found ==> k < |entries| && entries[k].id == id
      ensures !found ==> !HasId(entries, id)
    {
      k := 0;
      while k < |entries|
        invariant 0 <= k <= |entries|
        invariant forall j | 0 <= j < k :: entries[j].id != id
      {
        if entries[k].id == id {
          return true, k;
        }
        k := k + 1;
      }
      found := false;
    }

    // Create's clean-up: the new directory goes, unless even that fails.
    method UndoAdd(n: nat, ghost others: seq<Entry>, id: string)
      requires Valid() && n + 1 == |entries| && entries[..n] == others && entries[n].id == id
      modifies this`entries
      ensures Valid() && n <= |entries| <= n + 1 && entries[..n] == others && (|entries| > n ==> entries[n].id == id)
    {
      hide ValidManifest, ValidConfig, ReservedCount, ReservedBytes, WellKept, QuotaOk, NoMoreReserved;
      ghost var all := entries;
      var _ := RemoveUpload(n);
      QuotaStays(config, all, entries);
    }

    // Mkdir, the parts directory and the first record, undone if any of them fails.
    method AddUpload(id: string, record: Manifest) returns (code: Code)
      requires Valid() && ValidManifest(config, record) && record.meta.id == id && !HasId(entries, id)
      requires !Full(config, ReservedCount(entries), ReservedBytes(entries), record.meta.size)
      modifies this`entries, this`shared
      ensures Valid() && code in {Created, Failed}
      ensures code == Failed ==>
                && |old(entries)| <= |entries| <= |old(entries)| + 1
                && OthersMoveOn(config, old(entries), entries[..|old(entries)|])
                && (|entries| > |old(entries)| ==> entries[|old(entries)|].id == id)
      ensures code == Created ==> |entries| == |old(entries)| + 1 && entries[|old(entries)|] == NewEntry(id, Some(record))
      ensures reliable ==> code == Created && entries == old(entries) + [NewEntry(id, Some(record))] && shared == old(shared)
    {
      hide ValidManifest, ValidConfig, ReservedCount, ReservedBytes, OthersMoveOn, QuotaOk, NoMoreReserved;
      StandingStill(config, entries);
      assert entries[..|entries|] == entries;
      var mkdirFails := Fault();
      if mkdirFails {
        return Failed;
      }
      var n := |entries|;
      ghost var first := entries;
      NewDirectory(config, entries, id);
      entries := entries + [NewEntry(id, None)];
      ghost var made := entries;
      QuotaStays(config, first, made);
      Interfere();
      QuotaStays(config, made, entries);
      TheRestMovedOn(config, first, NewEntry(id, None), entries);
      ghost var others := entries[..n];
      SameIds(config, made, entries);
      RoomRemains(config, made, entries, record.meta.size);
      var noParts := Fault();
      var notSaved := Fault();
      if noParts || notSaved {
        UndoAdd(n, others, id);
        return Failed;
      }
      FirstRecord(config, entries, n, record);
      entries := entries[n := entries[n].(record := Some(record))];
      assert entries[..n] == others;
      var savedWithError := Fault();
      if savedWithError {
        UndoAdd(n, others, id);
        return Failed;
      }
      code := Created;
      assert reliable ==> entries == first + [NewEntry(id, Some(record))];
    }

    // The rest of Create, once the upload is known to be new.
    method Admit(id: string, record: Manifest) returns (code: Code)
      requires Kept() && FitsInt64(config, entries)
      requires ValidManifest(config, record) && record.meta.id == id && !HasId(entries, id)
      modifies this`entries, this`shared
      ensures Kept() && code in {Created, Busy, InsufficientStorage, Failed}
      ensures NoMoreReserved(old(entries), entries) || QuotaOk(config, entries)
      ensures code == Created ==>
                QuotaOk(config, entries) && |entries| > 0 && entries[|entries| - 1] == NewEntry(id, Some(record))
      ensures code == Busy ==> Full(config, ReservedCount(old(entries)), ReservedBytes(old(entries)), record.meta.size)
      ensures reliable ==> shared == old(shared)
      ensures reliable && (forall i | 0 <= i < |old(entries)| :: Loadable(config, old(entries)[i])) ==>
                if Full(config, ReservedCount(old(entries)), ReservedBytes(old(entries)), record.meta.size)
                then code == Busy && entries == old(entries)
                else code == Created && entries == old(entries) + [NewEntry(id, Some(record))]
    {
      hide ValidManifest, ValidConfig, ReservedCount, ReservedBytes, OthersMoveOn, QuotaOk, Full, Loadable, WellKept, NoMoreReserved,
           FitsInt64;
      SizeIsNatural(config, record);
      ghost var live := entries;
      var ok, active, pending := ReservationsLocked();
      if !ok {
        return Failed;
      }
      SameIds(config, live, entries);
      if Full(config, active, pending as int, record.meta.size) {
        return Busy;
      }
      RoomMeansQuota(config, entries, record.meta.size);
      var diskFull := Fault();
      if diskFull {
        return InsufficientStorage;
      }
      code := AddUpload(id, record);
    }

    // Create
    method Create(caller: Caller, id: string, request: Request, now: int) returns (code: Code)
      requires Kept() && now > 0 && FitsInt64(config, entries)
      requires caller.owner != "" ==> caller.authMethod in {"session", "bearer"}
      modifies this`entries, this`shared
      ensures Kept() && FitsInt64(config, entries) && (old(Valid()) ==> Valid())
      // A directory over its quota, as lower limits leave it, only ever gets closer to it.
      ensures NoMoreReserved(old(entries), entries) || QuotaOk(config, entries)
      ensures code == Created ==>
                ReservedCount(entries) <= config.maxActive && ReservedBytes(entries) <= config.maxPendingBytes
      // Busy is answered only if there was no room when the call began.
      ensures code == Busy ==>
                ReservedCount(old(entries)) >= config.maxActive || ReservedBytes(old(entries)) + request.size > config.maxPendingBytes
      ensures code == Created ==>
                && caller.owner != "" && ValidateCreate(config, request).0 == Created && |entries| > 0
                && entries[|entries| - 1] == NewEntry(id, Some(NewRecord(config, id, caller, ValidateCreate(config, request).1, now)))
                && Carries(config, entries[|entries| - 1].record.value, id, caller, request, now)
      ensures code == Existing ==>
                exists k :: 0 <= k < |entries| && entries[k].id == id && entries[k].record.Some? &&
                  MadeBy(config, entries[k].record.value.meta, caller) && AsksFor(entries[k].record.value.meta, request)
      ensures reliable ==> shared == old(shared)
      ensures caller.owner == "" || !ValidUploadId(id) || !ValidSha256(caller.token) ==> code == NotFound && entries == old(entries)
      ensures reliable && caller.owner != "" && ValidUploadId(id) && ValidSha256(caller.token)
              && (forall i | 0 <= i < |old(entries)| :: Loadable(config, old(entries)[i])) ==>
                var (verdict, r) := ValidateCreate(config, request);
                var live := Unexpired(old(entries), now);
                if verdict != Created then code == verdict && entries == old(entries)
                else if HasId(live, id) then
                  && entries == live
                  && exists k :: 0 <= k < |live| && live[k].id == id && live[k].record.Some? &&
                       code == if !MadeBy(config, live[k].record.value.meta, caller) then NotFound
                               else if !AsksFor(live[k].record.value.meta, request) then Conflict else Existing
                else if Full(config, ReservedCount(live), ReservedBytes(live), r.size) then code == Busy && entries == live
                else code == Created && entries == live + [NewEntry(id, Some(NewRecord(config, id, caller, r, now)))]
    {
      hide ValidManifest, ValidConfig, ReservedCount, ReservedBytes, OthersMoveOn, Unexpired, QuotaOk, ValidUploadId, Full,
           Fits, WellKept, NoMoreReserved, CleanRelative, ValidLeafName, Lower, PartCount, FitsInt64, NewRecord, Carries,
           MadeBy, AsksFor, SameRequest, ExistingCode;
      NothingMore(entries);
      if caller.owner == "" || !ValidUploadId(id) || !ValidSha256(caller.token) {
        return NotFound;
      }
      var (verdict, r) := ValidateCreate(config, request);
      if verdict != Created {
        return verdict;
      }
      AcceptedRequestMakesValidRecord(config, id, caller, request, now);
      AcceptedSize(config, request);
      NewRecordIs(config, id, caller, r, now);
      NewRecordCarries(config, id, caller, request, now);
      AllUnexpiredLoadable(config, entries, now);
      ghost var all := entries;
      var reaped := ReapExpired(now);
      StayingWithin(config, all, entries);
      if !reaped {
        return Failed;
      }
      var found, k := Find(id);
      if found {
        if !Loadable(config, entries[k]) {
          return Failed;
        }
        WhatIsThere(config, entries[k].record.value, caller, request, r);
        return ExistingCode(config, entries[k].record, caller, r);
      }
      ghost var live := entries;
      code := Admit(id, NewRecord(config, id, caller, r, now));
      if code == Busy { FullBeforeToo(config, all, live, r.size); }
      OneOfBoth(config, all, live, entries);
      QuotaInFull(config, entries);
    }
  }

  lemma {:induction false} AllLive(s: seq<Entry>, now: int)
    requires forall i | 0 <= i < |s| :: Live(s[i], now)
    ensures Unexpired(s, now) == s
  {
    if s != [] {
      AllLive(s[..|s| - 1], now);
    }
  }

  // A restart under a lower limit on pending bytes that what is reserved exceeds: every new upload is turned
  // away as long as nothing has expired or moved on, and nothing that is there is touched.
  method CreateAfterLowering(c: Config, s: seq<Entry>, shared: Shared, limit: int, caller: Caller, id: string, request: Request, now: int)
    returns (directory: Directory, code: Code)
    requires ValidConfig(c) && c.maxFileBytes <= limit < INT64_MAX && limit < ReservedBytes(s)
    requires WellKept(c, s) && forall i | 0 <= i < |s| :: Loadable(c, s[i]) && Live(s[i], now)
    requires caller.owner != "" && caller.authMethod in {"session", "bearer"} && ValidSha256(caller.token)
    requires ValidUploadId(id) && !HasId(s, id) && ValidateCreate(c, request).0 == Created && now > 0
    ensures code == Busy && directory.entries == s && directory.config == c.(maxPendingBytes := limit)
  {
    hide ValidManifest, ValidConfig, WellKept, Loadable, Live, Unexpired, HasId, ReservedCount, ReservedBytes, ValidUploadId,
         ValidSha256, CleanRelative, ValidLeafName, Lower, PartCount, NoMoreReserved;
    LoweringTheLimit(c, s, limit);
    AllLive(s, now);
    AcceptedSize(c, request);
    directory := new Directory.Opened(c.(maxPendingBytes := limit), true, s, shared);
    code := directory.Create(caller, id, request, now);
  }

  lemma StillLive(s: seq<Entry>, now: int, later: int)
    requires now <= later && forall i | 0 <= i < |s| :: Live(s[i], later)
    ensures forall i | 0 <= i < |s| :: Live(s[i], now)
  {
  }

  lemma CreatedIsLoadable(c: Config, s: seq<Entry>, n: nat, id: string, caller: Caller, request: Request, now: int, later: int)
    requires WellKept(c, s) && n < |s| && s[n].id == id && s[n].record.Some?
    requires Carries(c, s[n].record.value, id, caller, request, now) && later < now + c.inactivityTtl
    requires forall m: Manifest | Carries(c, m, id, caller, request, now) :: Fits(c, m)
    ensures Loadable(c, s[n]) && Live(s[n], later) && HasId(s, id)
  {
    hide ValidManifest, Fits, CleanRelative, Lower;
    assert Written(c, s[n]);
  }

  lemma OnlyOneWithId(c: Config, s: seq<Entry>, n: nat)
    requires WellKept(c, s) && n < |s|
    ensures forall k | 0 <= k < |s| && s[k].id == s[n].id :: k == n
  {
    hide ValidManifest;
  }

  lemma SecondAnswer(c: Config, m: Manifest, id: string, caller: Caller, request: Request, now: int, other: Caller, again: Request)
    requires Carries(c, m, id, caller, request, now)
    ensures MadeBy(c, m.meta, other) <==>
              other.owner == caller.owner && other.authMethod == caller.authMethod && c.tokenHash(other.token) == c.tokenHash(caller.token)
    ensures AsksFor(m.meta, again) <==>
              && CleanRelative(again.path, true) == CleanRelative(request.path, true) && again.name == request.name
              && again.size == request.size && Lower(again.expectedSha) == Lower(request.expectedSha)
  {
    hide CleanRelative, Lower;
  }

  // The same request again finds the upload it has made; another one is a conflict, and to anybody else the upload
  // does not exist. Nothing changes in any of these cases.
  method CreateTwice(directory: Directory, caller: Caller, id: string, request: Request, now: int, other: Caller, again: Request, later: int)
    returns (first: Code, second: Code)
    requires directory.Kept() && directory.reliable && FitsInt64(directory.config, directory.entries) && 0 < now <= later
    requires later < now + directory.config.inactivityTtl
    requires forall i | 0 <= i < |directory.entries| :: Loadable(directory.config, directory.entries[i]) && Live(directory.entries[i], later)
    requires forall m: Manifest | Carries(directory.config, m, id, caller, request, now) :: Fits(directory.config, m)
    requires caller.authMethod in {"session", "bearer"} && other.authMethod in {"session", "bearer"}
    requires other.owner != "" && ValidSha256(other.token) && ValidateCreate(directory.config, again).0 == Created
    modifies directory`entries, directory`shared
    ensures first == Created ==>
              && |directory.entries| == |old(directory.entries)| + 1
              && directory.entries[..|old(directory.entries)|] == old(directory.entries)
              && directory.entries[|old(directory.entries)|].record.Some?
              && Carries(directory.config, directory.entries[|old(directory.entries)|].record.value, id, caller, request, now)
              && second ==
                   if other.owner != caller.owner || other.authMethod != caller.authMethod
                      || directory.config.tokenHash(other.token) != directory.config.tokenHash(caller.token) then NotFound
                   else if CleanRelative(again.path, true) != CleanRelative(request.path, true) || again.name != request.name
                           || again.size != request.size || Lower(again.expectedSha) != Lower(request.expectedSha) then Conflict
                   else Existing
  {
    hide ValidManifest, ValidConfig, WellKept, Loadable, Live, Unexpired, HasId, ReservedCount, ReservedBytes, ValidUploadId, ValidSha256,
         CleanRelative, ValidLeafName, Lower, PartCount, NoMoreReserved, FitsInt64, Full, ValidateCreate, NewRecord, QuotaOk, Carries, MadeBy,
         AsksFor;
    ghost var all := directory.entries;
    ghost var c := directory.config;
    StillLive(all, now, later);
    AllLive(all, now);
    first := directory.Create(caller, id, request, now);
    second := Failed;
    if first != Created {
      return;
    }
    ghost var made := directory.entries;
    assert made == all + [made[|made| - 1]];
    CreatedIsLoadable(c, made, |made| - 1, id, caller, request, now, later);
    AllLive(made, later);
    second := directory.Create(other, id, again, later);
    OnlyOneWithId(c, made, |made| - 1);
    SecondAnswer(c, made[|made| - 1].record.value, id, caller, request, now, other, again);
  }
}
