// How long a record is on disk. loadManifest refuses one of more than 1 MiB, saveManifest does not
// look (upload_store.go, loadManifest and UploadManifest).
module UploadRecordSize {
  import opened UploadParts
  import opened UploadRecord

  const MAX_RECORD_BYTES := 0x10_0000

  // The decimal digits of a number.
  function Digits(n: nat): (d: nat)
    ensures d >= 1
  {
    if n < 10 then 1 else 1 + Digits(n / 10)
  }

  // One entry of "parts" with the comma after it: the index in quotes, a colon, and
  // {"size":N,"sha256":"S"}.
  function PartBytes(index: nat, size: nat, sha: nat): nat {
    Digits(index) + 3 + 8 + Digits(size) + 10 + sha + 2 + 1 + 1
  }

  function Decimal(n: nat): (text: string)
    ensures |text| == Digits(n)
  {
    if n < 10 then [(n + '0' as int) as char] else Decimal(n / 10) + [(n % 10 + '0' as int) as char]
  }

  function PartText(index: nat, size: nat, sha: string): string {
    "\"" + Decimal(index) + "\":{\"size\":" + Decimal(size) + ",\"sha256\":\"" + sha + "\"},"
  }

  // The length is that of the text.
  lemma PartTextLength(index: nat, size: nat, sha: string)
    ensures |PartText(index, size, sha)| == PartBytes(index, size, |sha|)
  {
  }

  // The entries with index below n. A map has no order, and their lengths need none.
  function PartsBytes(parts: map<int, Part>, n: nat): nat {
    if n == 0 then 0
    else
      PartsBytes(parts, n - 1) +
      if n - 1 in parts && parts[n - 1].size >= 0 then PartBytes(n - 1, parts[n - 1].size, |parts[n - 1].sha|) else 0
  }

  // The whole record: everything but the entries is `headBytes`, and the last entry has no comma.
  function RecordBytes(c: Config, m: Manifest): int {
    c.headBytes(m.(parts := map[])) + PartsBytes(m.parts, if m.meta.partCount > 0 then m.meta.partCount else 0)
    - if m.parts == map[] then 0 else 1
  }

  predicate Fits(c: Config, m: Manifest) { RecordBytes(c, m) <= MAX_RECORD_BYTES }

  // The entries of a record with every part.
  function FullPartsBytes(size: int, chunkBytes: int, n: nat): nat
    requires size >= 0 && chunkBytes > 0 && n <= PartCount(size, chunkBytes)
  {
    if n == 0 then 0
    else
      ExpectedPartsTile(size, chunkBytes);
      FullPartsBytes(size, chunkBytes, n - 1) + PartBytes(n - 1, ExpectedPartSize(size, chunkBytes, n - 1), 64)
  }

  lemma {:induction false} PartsBytesAtMostFull(m: Meta, parts: map<int, Part>, n: nat)
    requires m.size >= 0 && m.chunkBytes > 0 && m.partCount == PartCount(m.size, m.chunkBytes) && n <= m.partCount
    requires ValidParts(m, parts)
    ensures PartsBytes(parts, n) <= FullPartsBytes(m.size, m.chunkBytes, n)
    ensures (forall k | 0 <= k < n :: k in parts) ==> PartsBytes(parts, n) == FullPartsBytes(m.size, m.chunkBytes, n)
  {
    hide Digits, ExpectedPartSize, PartCount;
    if n > 0 {
      PartsBytesAtMostFull(m, parts, n - 1);
      ExpectedPartsTile(m.size, m.chunkBytes);
    }
  }

  lemma {:induction false} SomePartSomeBytes(parts: map<int, Part>, k: nat, n: nat)
    requires k in parts && k < n && parts[k].size >= 0
    ensures PartsBytes(parts, n) >= 1
  {
    if k < n - 1 {
      SomePartSomeBytes(parts, k, n - 1);
    }
  }

  // Every part present, with some digest.
  function AllParts(m: Meta): map<int, Part> {
    map k | 0 <= k < m.partCount :: Part(ExpectedPartSize(m.size, m.chunkBytes, k), seq(64, _ => '0'))
  }

  // Everything an upload may ever record below a given head loads again exactly when the record with
  // all its parts does, and that is known when the upload is created.
  lemma PartRecordsFitExactly(c: Config, m: Manifest)
    requires ValidConfig(c) && ValidMeta(c, m.meta)
    ensures (forall parts | ValidParts(m.meta, parts) :: Fits(c, m.(parts := parts))) <==>
              c.headBytes(m.(parts := map[])) + FullPartsBytes(m.meta.size, m.meta.chunkBytes, m.meta.partCount) - 1
                <= 0x10_0000
  {
    hide PartBytes, ValidMeta, FullPartsBytes;
    MetaIsSane(c, m.meta);
    var n: nat := m.meta.partCount;
    var full := AllParts(m.meta);
    FullIsValid(c, m.meta);
    PartsBytesAtMostFull(m.meta, full, n);
    SomePartSomeBytes(full, 0, n);
    assert RecordBytes(c, m.(parts := full)) ==
           c.headBytes(m.(parts := map[])) + FullPartsBytes(m.meta.size, m.meta.chunkBytes, n) - 1;
    forall parts | ValidParts(m.meta, parts)
      ensures RecordBytes(c, m.(parts := parts)) <= RecordBytes(c, m.(parts := full))
    {
      PartsBytesAtMostFull(m.meta, parts, n);
      if parts == map[] { NoPartsNoBytes(n); }
    }
  }

  lemma {:induction false} NoPartsNoBytes(n: nat)
    ensures PartsBytes(map[], n) == 0
  {
    if n > 0 {
      NoPartsNoBytes(n - 1);
    }
  }

  lemma MetaIsSane(c: Config, m: Meta)
    requires ValidConfig(c) && ValidMeta(c, m)
    ensures m.size >= 0 && 0 < m.chunkBytes <= 0x400_0000 && m.partCount == PartCount(m.size, m.chunkBytes)
    ensures 1 <= m.partCount <= c.maxParts
  {
  }

  lemma FullIsValid(c: Config, m: Meta)
    requires ValidConfig(c) && ValidMeta(c, m)
    ensures ValidParts(m, AllParts(m)) && 0 in AllParts(m) && AllParts(m)[0].size >= 0
    ensures AllParts(m) != map[] && forall k | 0 <= k < m.partCount :: k in AllParts(m)
  {
    hide ExpectedPartSize, PartCount;
    MetaIsSane(c, m);
    ExpectedPartsTile(m.size, m.chunkBytes);
    assert 0 in AllParts(m);
  }

  // ----- Limits -----

  lemma DigitsBelow(n: nat)
    ensures n < 10000 ==> Digits(n) <= 4
    ensures n <= 0x400_0000 ==> Digits(n) <= 8
  {
    assert Digits(n) == if n < 10 then 1 else 1 + Digits(n / 10);
    if 10 <= n <= 0x400_0000 {
      DigitsStep(n);
    }
  }

  lemma DigitsStep(n: nat)
    requires 10 <= n <= 0x400_0000
    ensures Digits(n) <= 8 && (n < 10000 ==> Digits(n) <= 4)
  {
    var a := n / 10;
    var b := a / 10;
    var e := b / 10;
    var f := e / 10;
    var g := f / 10;
    var h := g / 10;
    var i := h / 10;
    assert n == 10 * a + n % 10 && a == 10 * b + a % 10 && b == 10 * e + b % 10 && e == 10 * f + e % 10;
    assert f == 10 * g + f % 10 && g == 10 * h + g % 10 && h == 10 * i + h % 10;
    assert i < 10;
    assert Digits(i) == 1;
    assert Digits(h) <= 2 && Digits(g) <= 3 && Digits(f) <= 4 && Digits(e) <= 5 && Digits(b) <= 6 && Digits(a) <= 7;
    if n < 10000 {
      assert e < 10 && Digits(e) == 1 && Digits(b) <= 2 && Digits(a) <= 3;
    }
  }

  lemma {:induction false} FullPartsBounds(size: int, chunkBytes: int, n: nat)
    requires size >= 0 && 0 < chunkBytes <= 0x400_0000 && n <= PartCount(size, chunkBytes)
    ensures FullPartsBytes(size, chunkBytes, n) >= 91 * n
    ensures n <= 10000 ==> FullPartsBytes(size, chunkBytes, n) <= 101 * n
  {
    hide Digits, ExpectedPartSize, PartCount;
    if n > 0 {
      FullPartsBounds(size, chunkBytes, n - 1);
      ExpectedPartsTile(size, chunkBytes);
      DigitsBelow(n - 1);
      DigitsBelow(ExpectedPartSize(size, chunkBytes, n - 1));
    }
  }

  // Limits under which every unfinished record that is saved also loads: 101 bytes for each part and
  // what the rest of the record takes. The default of 4096 parts leaves more than 600000 bytes for it.
  lemma LimitsThatFit(c: Config, m: Manifest)
    requires ValidConfig(c) && ValidManifest(c, m) && m.state in {Active, Finalizing} && c.maxParts <= 10000
    requires c.headBytes(m.(parts := map[])) + 101 * c.maxParts <= 0x10_0000
    ensures Fits(c, m)
  {
    hide ValidMeta, PartBytes, FullPartsBytes;
    MetaIsSane(c, m.meta);
    PartsBytesAtMostFull(m.meta, m.parts, m.meta.partCount);
    FullPartsBounds(m.meta.size, m.meta.chunkBytes, m.meta.partCount);
  }

  // From 11523 parts on no record with all its parts loads again, whatever else is in it, although
  // it passes validateManifest and is saved.
  lemma TooManyParts(c: Config, m: Manifest)
    requires ValidConfig(c) && ValidManifest(c, m) && m.state in {Active, Finalizing}
    requires |m.parts| == m.meta.partCount >= 11523
    ensures !Fits(c, m)
  {
    hide ValidMeta, PartBytes, FullPartsBytes;
    MetaIsSane(c, m.meta);
    AllIndexesPresent(m.parts, m.meta.partCount);
    PartsBytesAtMostFull(m.meta, m.parts, m.meta.partCount);
    FullPartsBounds(m.meta.size, m.meta.chunkBytes, m.meta.partCount);
  }

  // Such limits are valid: 1 MiB chunks and files of up to 16 GiB in 16384 parts.
  lemma LimitsThatDoNotFit(c: Config)
    requires c.maxFileBytes == 0x4_0000_0000 && c.chunkBytes == 0x10_0000 && c.maxParts == 16384
    requires c.maxActive == 64 && c.maxPendingBytes == 0x8_0000_0000 && c.inactivityTtl > 0 && c.completionTtl > 0
    ensures ValidConfig(c) && PartCount(c.maxFileBytes, c.chunkBytes) == 16384 >= 11523
  {
  }
}
