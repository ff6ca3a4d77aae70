// The durable record of one upload and the check every record passes when it is loaded or saved
// (upload_store.go, UploadManifest and validateManifest).
module UploadRecord {
  import opened Paths
  import opened UploadParts

  newtype byte = i: int | 0 <= i < 256
  type Bytes = seq<byte>

  predicate ValidSha256(value: string) {
    |value| == 64 && forall i | 0 <= i < |value| :: value[i] in "0123456789abcdef"
  }

  type Digest = s: string | ValidSha256(s) witness seq(64, _ => '0')

  // The upload limits together with the two digests, which are arbitrary functions here: nothing
  // below depends on either being injective. `headBytes` is the length of the JSON text of a record
  // without parts.
  datatype Config = Config(
    maxFileBytes: int, chunkBytes: int, maxParts: int, maxActive: int, maxPendingBytes: int,
    inactivityTtl: int, completionTtl: int, sha256: Bytes -> Digest, tokenHash: string -> Digest,
    headBytes: Manifest -> nat)

  predicate ValidConfig(c: Config) {
    && c.maxFileBytes >= 0 && 0x10_0000 <= c.chunkBytes <= 0x400_0000
    && c.maxParts >= 1 && c.maxActive >= 1 && c.maxPendingBytes >= c.maxFileBytes
    && c.inactivityTtl > 0 && c.completionTtl > 0
    && (c.maxFileBytes > 0 ==> (c.maxFileBytes + c.chunkBytes - 1) / c.chunkBytes <= c.maxParts)
  }

  datatype UploadState = Active | Finalizing | Completed | Cancelled

  // What is fixed when an upload is created.
  datatype Meta = Meta(
    schema: int, id: string, owner: string, authMethod: string, tokenHash: string,
    path: string, name: string, size: int, chunkBytes: int, partCount: int,
    expectedSha: string, createdAt: int)

  // Times count from a zero that stands for "not set".
  datatype Manifest = Manifest(
    meta: Meta, parts: map<int, Part>, state: UploadState, updatedAt: int, expiresAt: int,
    completedAt: int, finalSha: string, finalPath: string, stageName: string)

  predicate IdChar(c: char) {
    'a' <= c <= 'z' || 'A' <= c <= 'Z' || '0' <= c <= '9' || c == '-' || c == '_'
  }

  predicate ValidUploadId(id: string) {
    16 <= |id| <= 128 && forall i | 0 <= i < |id| :: IdChar(id[i])
  }

  predicate IsUploadStageName(name: string) {
    && UPLOAD_STAGE_PREFIX <= name && HasSuffix(name, UPLOAD_STAGE_SUFFIX)
    && ValidUploadId(TrimSuffix(TrimPrefix(name, UPLOAD_STAGE_PREFIX), UPLOAD_STAGE_SUFFIX))
  }

  function UploadStageName(id: string): string {
    UPLOAD_STAGE_PREFIX + id + UPLOAD_STAGE_SUFFIX
  }

  // Stage names are recognised, tell uploads apart and can never be a requested file name.
  lemma StageNames(id: string, other: string, leaf: string)
    requires ValidUploadId(id)
    ensures IsUploadStageName(UploadStageName(id))
    ensures UploadStageName(id) == UploadStageName(other) ==> id == other
    ensures ValidLeafName(leaf) ==> leaf != UploadStageName(id)
  {
    var name := UploadStageName(id);
    assert name[..|UPLOAD_STAGE_PREFIX|] == UPLOAD_STAGE_PREFIX;
    assert TrimPrefix(name, UPLOAD_STAGE_PREFIX) == id + UPLOAD_STAGE_SUFFIX;
    assert name[|name| - |UPLOAD_STAGE_SUFFIX|..] == UPLOAD_STAGE_SUFFIX;
    assert TrimSuffix(id + UPLOAD_STAGE_SUFFIX, UPLOAD_STAGE_SUFFIX) == id;
    var k, n := |UPLOAD_STAGE_PREFIX|, |UploadStageName(other)| - |UPLOAD_STAGE_SUFFIX|;
    assert UploadStageName(other)[k..n] == other && name[k..|name| - |UPLOAD_STAGE_SUFFIX|] == id;
  }

  predicate ValidMeta(c: Config, m: Meta) {
    && m.schema == 1 && ValidUploadId(m.id) && m.owner != "" && m.authMethod in {"session", "bearer"}
    && ValidSha256(m.tokenHash) && ValidLeafName(m.name)
    && 0 <= m.size <= c.maxFileBytes && m.chunkBytes == c.chunkBytes
    && m.partCount == PartCount(m.size, m.chunkBytes) && 1 <= m.partCount <= c.maxParts
    && m.createdAt != 0 && CleanRelative(m.path, true) == Some(m.path)
    && (m.expectedSha != "" ==> ValidSha256(m.expectedSha))
  }

  predicate ValidParts(m: Meta, parts: map<int, Part>) {
    forall k | k in parts ::
      && 0 <= k < m.partCount
      && parts[k].size == ExpectedPartSize(m.size, m.chunkBytes, k)
      && ValidSha256(parts[k].sha)
  }

  // validateManifest
  predicate ValidManifest(c: Config, m: Manifest) {
    && ValidMeta(c, m.meta) && m.updatedAt != 0 && m.expiresAt != 0
    && (m.finalSha != "" ==> ValidSha256(m.finalSha))
    && (match m.state
        case Active =>
          m.stageName == "" && m.finalSha == "" && m.finalPath == "" && m.completedAt == 0
        case Finalizing =>
          IsUploadStageName(m.stageName) && m.finalPath == "" && m.completedAt == 0
        case Cancelled =>
          m.stageName == "" && m.finalSha == "" && m.finalPath == "" && m.completedAt == 0
        case Completed =>
          m.stageName == "" && m.finalPath != "" && m.finalSha != "" && m.completedAt != 0 && |m.parts| == 0)
    && (m.state in {Active, Finalizing} ==> ValidParts(m.meta, m.parts))
  }

  // filepath.Join of the destination directory and the requested name.
  function FinalPath(m: Meta): string {
    if m.path == "" then m.name else m.path + "/" + m.name
  }

  // Who is asking: the authenticated owner and the resume capability it presents.
  datatype Caller = Caller(owner: string, authMethod: string, token: string)

  predicate Authorized(c: Config, m: Meta, caller: Caller) {
    && caller.owner != "" && ValidSha256(caller.token)
    && m.owner == caller.owner && m.authMethod == caller.authMethod
    && m.tokenHash == c.tokenHash(caller.token)
  }
}
