// Part arithmetic of a resumable upload and the compact view of what has arrived
// (upload_store.go, partCount through manifestStatus).
module UploadParts {
  import opened Collections

  // A part that was verified and recorded: its length and its digest.
  datatype Part = Part(size: int, sha: string)

  // An inclusive run of received part indexes.
  datatype Range = Range(start: int, end: int)

  function PartCount(size: int, chunkBytes: int): int {
    if chunkBytes <= 0 || size < 0 then 0
    else if size == 0 then 1
    else (size + chunkBytes - 1) / chunkBytes
  }

  function ExpectedPartSize(size: int, chunkBytes: int, index: int): int {
    if size == 0 then 0
    else if index < PartCount(size, chunkBytes) - 1 then chunkBytes
    else
      var remaining := size - index * chunkBytes;
      if remaining == 0 then chunkBytes else remaining
  }

  // The bytes that come before part `index` when every earlier part has its expected size.
  function BytesBefore(size: int, chunkBytes: int, index: nat): int {
    if index == 0 then 0
    else BytesBefore(size, chunkBytes, index - 1) + ExpectedPartSize(size, chunkBytes, index - 1)
  }

  lemma PartCountBounds(size: int, chunkBytes: int)
    requires size >= 0 && chunkBytes > 0
    ensures PartCount(size, chunkBytes) >= 1
    ensures size > 0 ==> (PartCount(size, chunkBytes) - 1) * chunkBytes < size <= PartCount(size, chunkBytes) * chunkBytes
  {
    if size > 0 {
      var n := PartCount(size, chunkBytes);
      var r := (size + chunkBytes - 1) % chunkBytes;
      assert size + chunkBytes - 1 == n * chunkBytes + r;
      assert (n - 1) * chunkBytes == n * chunkBytes - chunkBytes;
    }
  }

  lemma {:induction false} BytesBeforeIsOffset(size: int, chunkBytes: int, index: nat)
    requires size > 0 && chunkBytes > 0 && index < PartCount(size, chunkBytes)
    ensures BytesBefore(size, chunkBytes, index) == index * chunkBytes
  {
    if index > 0 {
      BytesBeforeIsOffset(size, chunkBytes, index - 1);
    }
  }

  // The expected parts tile the file: each lies within one chunk and together they are exactly `size`.
  lemma ExpectedPartsTile(size: int, chunkBytes: int)
    requires size >= 0 && chunkBytes > 0
    ensures forall k: nat | k < PartCount(size, chunkBytes) ::
              (if size == 0 then 0 else 1) <= ExpectedPartSize(size, chunkBytes, k) <= chunkBytes
    ensures BytesBefore(size, chunkBytes, PartCount(size, chunkBytes)) == size
  {
    PartCountBounds(size, chunkBytes);
    var n := PartCount(size, chunkBytes);
    if size > 0 {
      assert n * chunkBytes == (n - 1) * chunkBytes + chunkBytes;
      BytesBeforeIsOffset(size, chunkBytes, n - 1);
    }
  }

  lemma {:induction false} IndexesBelow(n: nat) returns (all: set<int>)
    ensures |all| == n && forall k :: k in all <==> 0 <= k < n
  {
    if n == 0 {
      all := {};
    } else {
      var smaller := IndexesBelow(n - 1);
      all := smaller + {n - 1};
    }
  }

  // Pigeonhole: `count` parts with indexes in range leave no index out.
  lemma AllIndexesPresent(parts: map<int, Part>, count: nat)
    requires forall k | k in parts :: 0 <= k < count
    requires |parts| == count
    ensures forall k | 0 <= k < count :: k in parts
  {
    var all := IndexesBelow(count);
    assert |parts.Keys| == |parts|;
    assert forall k | k in parts.Keys :: k in all;
    SubsetOfSameSize(parts.Keys, all);
  }

  // ----- Received ranges -----

  ghost predicate Ascending(s: seq<int>) {
    forall i, j | 0 <= i < j < |s| :: s[i] < s[j]
  }

  ghost predicate Covers(ranges: seq<Range>, k: int) {
    exists i | 0 <= i < |ranges| :: ranges[i].start <= k <= ranges[i].end
  }

  ghost predicate SameIndexes(ranges: seq<Range>, keys: set<int>) {
    forall k :: Covers(ranges, k) <==> k in keys
  }

  // Ranges in ascending order with a gap of at least one index between neighbours.
  ghost predicate Compact(ranges: seq<Range>) {
    && (forall i | 0 <= i < |ranges| :: ranges[i].start <= ranges[i].end)
    && (forall i, j | 0 <= i < j < |ranges| :: ranges[i].end + 1 < ranges[j].start)
  }

  // The library sort: the keys in ascending order.
  method SortedIndexes(keys: set<int>) returns (sorted: seq<int>)
    ensures Ascending(sorted)
    ensures forall k :: k in sorted <==> k in keys
  {
    sorted := [];
    var rest := keys;
    while rest != {}
      invariant rest <= keys
      invariant Ascending(sorted)
      invariant forall k :: k in sorted <==> k in keys && k !in rest
      invariant forall i, k | 0 <= i < |sorted| && k in rest :: sorted[i] < k
      decreases |rest|
    {
      ghost var some := Pick(rest);
      var least :| least in rest;
      var others := rest - {least};
      while others != {}
        invariant others <= rest && least in rest && least !in others
        invariant forall j | j in rest :: j in others || least <= j
        decreases |others|
      {
        ghost var other := Pick(others);
        var k :| k in others;
        others := others - {k};
        if k < least {
          least := k;
        }
      }
      sorted := sorted + [least];
      rest := rest - {least};
    }
  }

  lemma NoRanges()
    ensures Compact([]) && forall k :: !Covers([], k)
  {
  }

  // An index beyond the last range and not next to it starts a range of its own.
  lemma NewRange(ranges: seq<Range>, index: int)
    requires Compact(ranges) && (ranges != [] ==> ranges[|ranges| - 1].end + 1 < index)
    ensures Compact(ranges + [Range(index, index)])
    ensures forall k :: Covers(ranges + [Range(index, index)], k) <==> Covers(ranges, k) || k == index
  {
    CoveredAppend(ranges, Range(index, index));
  }

  // An index just after the last range extends it.
  lemma LongerRange(ranges: seq<Range>, index: int)
    requires Compact(ranges) && ranges != [] && index == ranges[|ranges| - 1].end + 1
    ensures var longer := ranges[|ranges| - 1 := Range(ranges[|ranges| - 1].start, index)];
            Compact(longer) && forall k :: Covers(longer, k) <==> Covers(ranges, k) || k == index
  {
    var init, last := ranges[..|ranges| - 1], ranges[|ranges| - 1];
    assert ranges == init + [last];
    assert ranges[|ranges| - 1 := Range(last.start, index)] == init + [Range(last.start, index)];
    CoveredAppend(init, last);
    CoveredAppend(init, Range(last.start, index));
  }

  method ReceivedRanges(parts: map<int, Part>) returns (ranges: seq<Range>)
    ensures Compact(ranges)
    ensures SameIndexes(ranges, parts.Keys)
  {
    if |parts| == 0 {
      NoRanges();
      return [];
    }
    hide Compact, Covers;
    NoRanges();
    var indexes := SortedIndexes(parts.Keys);
    ranges := [];
    var i := 0;
    while i < |indexes|
      invariant 0 <= i <= |indexes|
      invariant Compact(ranges)
      invariant ranges == [] <==> i == 0
      invariant i > 0 ==> ranges[|ranges| - 1].end == indexes[i - 1]
      invariant forall k :: Covers(ranges, k) <==> k in indexes[..i]
    {
      var index := indexes[i];
      assert i > 0 ==> indexes[i - 1] < index;
      if |ranges| == 0 || index != ranges[|ranges| - 1].end + 1 {
        NewRange(ranges, index);
        ranges := ranges + [Range(index, index)];
      } else {
        LongerRange(ranges, index);
        ranges := ranges[|ranges| - 1 := Range(ranges[|ranges| - 1].start, index)];
      }
      assert indexes[..i + 1] == indexes[..i] + [index];
      i := i + 1;
    }
    assert indexes[..i] == indexes;
  }

  lemma CoveredAppend(ranges: seq<Range>, r: Range)
    ensures forall k :: Covers(ranges + [r], k) <==> Covers(ranges, k) || r.start <= k <= r.end
  {
    var all := ranges + [r];
    assert all[|ranges|] == r;
    forall k | Covers(ranges, k)
      ensures Covers(all, k)
    {
      var i :| 0 <= i < |ranges| && ranges[i].start <= k <= ranges[i].end;
      assert all[i] == ranges[i];
    }
  }

  // There is only one compact description of a set, so the order in which a map is walked cannot show.
  lemma {:induction false} CompactIsUnique(a: seq<Range>, b: seq<Range>)
    requires Compact(a) && Compact(b) && forall k :: Covers(a, k) <==> Covers(b, k)
    ensures a == b
  {
    FirstRange(a);
    FirstRange(b);
    if a == [] || b == [] {
    } else {
      assert a[0].start == b[0].start;
      assert a[0].end == b[0].end;
      CoveredTail(a);
      CoveredTail(b);
      CompactIsUnique(a[1..], b[1..]);
      assert a == [a[0]] + a[1..] && b == [b[0]] + b[1..];
    }
  }

  lemma FirstRange(a: seq<Range>)
    requires Compact(a)
    ensures a != [] ==> forall k | a[0].start <= k <= a[0].end :: Covers(a, k)
    ensures a != [] ==> !Covers(a, a[0].end + 1)
    ensures a != [] ==> Covers(a, a[0].start)
    ensures forall k :: Covers(a, k) ==> a != [] && a[0].start <= k
  {
  }

  lemma CoveredTail(a: seq<Range>)
    requires Compact(a) && a != []
    ensures Compact(a[1..])
    ensures forall k :: Covers(a[1..], k) <==> Covers(a, k) && k > a[0].end
  {
    forall k | Covers(a, k) && k > a[0].end
      ensures Covers(a[1..], k)
    {
      var i :| 0 <= i < |a| && a[i].start <= k <= a[i].end;
      assert a[1..][i - 1] == a[i];
    }
    forall k | Covers(a[1..], k)
      ensures Covers(a, k) && k > a[0].end
    {
      var i :| 0 <= i < |a[1..]| && a[1..][i].start <= k <= a[1..][i].end;
      assert a[i + 1] == a[1..][i];
    }
  }

  // ----- Received bytes -----

  // The received bytes counted index by index.
  function BytesReceived(parts: map<int, Part>, n: nat): int {
    if n == 0 then 0
    else BytesReceived(parts, n - 1) + if n - 1 in parts then parts[n - 1].size else 0
  }

  lemma {:induction false} BytesReceivedSplit(parts: map<int, Part>, k: int, n: nat)
    requires k in parts && 0 <= k
    ensures BytesReceived(parts, n) == BytesReceived(parts - {k}, n) + if k < n then parts[k].size else 0
  {
    if n > 0 {
      BytesReceivedSplit(parts, k, n - 1);
    }
  }

  lemma {:induction false} BytesReceivedOfNone(n: nat)
    ensures BytesReceived(map[], n) == 0
  {
    if n > 0 {
      BytesReceivedOfNone(n - 1);
    }
  }

  // The loop of manifestStatus: it meets the parts in no particular order.
  method ReceivedBytes(parts: map<int, Part>, count: nat) returns (bytes: int)
    requires forall k | k in parts :: 0 <= k < count
    ensures bytes == BytesReceived(parts, count)
  {
    bytes := 0;
    var rest := parts;
    while rest.Keys != {}
      invariant rest.Keys <= parts.Keys && forall k | k in rest :: rest[k] == parts[k]
      invariant bytes + BytesReceived(rest, count) == BytesReceived(parts, count)
      decreases |rest.Keys|
    {
      ghost var some := Pick(rest.Keys);
      var k :| k in rest.Keys;
      BytesReceivedSplit(rest, k, count);
      bytes := bytes + rest[k].size;
      rest := rest - {k};
    }
    assert rest == map[];
    BytesReceivedOfNone(count);
  }

  lemma {:induction false} BytesReceivedOfAll(parts: map<int, Part>, size: int, chunkBytes: int, n: nat)
    requires forall k | 0 <= k < n :: k in parts && parts[k].size == ExpectedPartSize(size, chunkBytes, k)
    ensures BytesReceived(parts, n) == BytesBefore(size, chunkBytes, n)
  {
    if n > 0 {
      BytesReceivedOfAll(parts, size, chunkBytes, n - 1);
    }
  }

  // A status with every part present shows one full range and exactly `size` received bytes.
  lemma FullStatus(parts: map<int, Part>, size: int, chunkBytes: int, ranges: seq<Range>)
    requires size >= 0 && chunkBytes > 0
    requires forall k | k in parts ::
               0 <= k < PartCount(size, chunkBytes) && parts[k].size == ExpectedPartSize(size, chunkBytes, k)
    requires |parts| == PartCount(size, chunkBytes)
    requires Compact(ranges) && SameIndexes(ranges, parts.Keys)
    ensures ranges == [Range(0, PartCount(size, chunkBytes) - 1)]
    ensures BytesReceived(parts, PartCount(size, chunkBytes)) == size
  {
    var n := PartCount(size, chunkBytes);
    PartCountBounds(size, chunkBytes);
    AllIndexesPresent(parts, n);
    var full := [Range(0, n - 1)];
    assert full[0] == Range(0, n - 1);
    forall k
      ensures Covers(full, k) <==> k in parts.Keys
    {
    }
    CompactIsUnique(ranges, full);
    BytesReceivedOfAll(parts, size, chunkBytes, n);
    ExpectedPartsTile(size, chunkBytes);
  }
}
