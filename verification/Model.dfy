/** The shared vocabulary: identities, content addresses, manifests and error codes. */
module Model {

  const U64_MAX: int := 0xFFFF_FFFF_FFFF_FFFF
  const U32_MAX: int := 0xFFFF_FFFF

  type U64 = n: int | 0 <= n <= 0xFFFF_FFFF_FFFF_FFFF
  type U32 = n: int | 0 <= n <= 0xFFFF_FFFF

  type Bytes = seq<bv8>

  /** A buffer: its length is a machine word. */
  type Blob = b: Bytes | |b| <= 0xFFFF_FFFF_FFFF_FFFF

  datatype Option<+T> = None | Some(value: T)

  /** The error codes that the modelled operations can return. */
  datatype ErrorCode =
    | FileNotFound
    | VersionNotFound
    | ManifestNotFound
    | ChunkNotFound
    | InvalidParameter
    | IntegrityHashMismatch
    | IntegrityLengthMismatch
    | IntegrityManifestInvalid
    | IntegrityChunkIdConflict

  datatype Result<+T> = Ok(value: T) | Err(code: ErrorCode)

  function CheckedAdd(a: U64, b: U64): Option<U64> {
    if a + b <= U64_MAX then Some(a + b) else None
  }

  /** Identities. The number stands for the UUID; each kind is a type of its own. */
  datatype FileId = FileId(uuid: nat)
  datatype DirectoryId = DirectoryId(uuid: nat)
  datatype VersionId = VersionId(uuid: nat)
  datatype ManifestId = ManifestId(uuid: nat)

  /** A chunk id is any string until it has been parsed: its wire form is transparent. */
  type ChunkId = string

  predicate IsLowerHex(c: char) {
    '0' <= c <= '9' || 'a' <= c <= 'f'
  }

  type Digest = s: string | |s| == 64 && forall i | 0 <= i < |s| :: IsLowerHex(s[i])
    witness seq(64, _ => '0')

  /** The hash is a parameter of everything that uses it: any function from bytes to digests. */
  type Hasher = Bytes -> Digest

  const PREFIX: string := "b3:"

  function FromBytes(h: Hasher, bytes: Bytes): ChunkId {
    PREFIX + h(bytes)
  }

  predicate ParsesAsChunkId(s: string) {
    |s| == 67 && s[..3] == PREFIX && forall i | 3 <= i < |s| :: IsLowerHex(s[i])
  }

  predicate Verify(h: Hasher, id: ChunkId, bytes: Bytes) {
    id == FromBytes(h, bytes)
  }

  /** Every content address parses. */
  lemma FromBytesParses(h: Hasher, bytes: Bytes)
    ensures ParsesAsChunkId(FromBytes(h, bytes))
  {
    var id := FromBytes(h, bytes);
    forall i | 3 <= i < |id| ensures IsLowerHex(id[i]) {
      assert id[i] == h(bytes)[i - 3];
    }
  }

  /** The parser accepts exactly the strings made of the prefix and a digest, and a digest is made of
      the ASCII digits and the letters a to f. */
  lemma ChunkIdSyntax(s: string)
    ensures ParsesAsChunkId(s) <==> exists d: Digest :: s == "b3:" + d
    ensures forall c {:trigger IsLowerHex(c)} :: IsLowerHex(c) <==> 48 <= c as int <= 57 || 97 <= c as int <= 102
  {
    if ParsesAsChunkId(s) {
      var d: Digest := s[3..];
      assert s == "b3:" + d;
    }
    if d: Digest :| s == "b3:" + d {
      forall i | 3 <= i < |s| ensures IsLowerHex(s[i]) { assert s[i] == d[i - 3]; }
    }
  }

  /** No two different byte strings of `bodies` share a content address. */
  ghost predicate CollisionFree(h: Hasher, bodies: set<Bytes>) {
    forall a, b | a in bodies && b in bodies && FromBytes(h, a) == FromBytes(h, b) :: a == b
  }

  datatype VersionState = Candidate | Committed {
    predicate CanTransitionTo(next: VersionState) {
      this == Candidate && next == Committed
    }
  }

  /** Nothing leaves the committed state, and no state goes to itself. */
  lemma CommittedIsTerminal(from: VersionState, to: VersionState)
    ensures from.CanTransitionTo(to) ==> from != to && from != Committed
    ensures from != to && from != Committed ==> from.CanTransitionTo(to)
  {
  }

  /** A point in time; nothing depends on its value. */
  datatype Instant = Instant(ticks: int)

  datatype File = File(
    fileId: FileId,
    parentId: DirectoryId,
    name: string,
    current: Option<VersionId>,
    createdAt: Instant,
    modifiedAt: Instant)

  datatype Version = Version(
    versionId: VersionId,
    fileId: FileId,
    parent: Option<VersionId>,
    manifestId: ManifestId,
    state: VersionState,
    createdAt: Instant)

  datatype Chunk = Chunk(chunkId: ChunkId, size: U64)

  datatype Entry = Entry(logicalOffset: U64, length: U64, chunkId: ChunkId, chunkOffset: U64)

  datatype Manifest = Manifest(
    manifestId: ManifestId,
    totalSize: U64,
    chunkCount: U64,
    entries: seq<Entry>,
    chunks: seq<Chunk>)

  /** The size declared by the first chunk with this id. */
  function ChunkSize(chunks: seq<Chunk>, id: ChunkId): Option<U64> {
    if chunks == [] then None
    else if chunks[0].chunkId == id then Some(chunks[0].size)
    else ChunkSize(chunks[1..], id)
  }

  ghost predicate Declares(chunks: seq<Chunk>, id: ChunkId) {
    exists c :: c in chunks && c.chunkId == id
  }

  /** The lookup answers exactly for declared ids, with the size of the first declaration. */
  lemma {:induction false} ChunkSizeFindsFirst(chunks: seq<Chunk>, id: ChunkId)
    ensures ChunkSize(chunks, id).Some? <==> Declares(chunks, id)
    ensures ChunkSize(chunks, id).Some? ==>
              exists k :: 0 <= k < |chunks| && chunks[k] == Chunk(id, ChunkSize(chunks, id).value)
                          && forall j | 0 <= j < k :: chunks[j].chunkId != id
  {
    if chunks == [] {
    } else if chunks[0].chunkId == id {
      assert chunks[0] in chunks;
      assert chunks[0] == Chunk(id, ChunkSize(chunks, id).value);
    } else {
      var rest := chunks[1..];
      ChunkSizeFindsFirst(rest, id);
      assert forall c :: c in chunks <==> c == chunks[0] || c in rest;
      if ChunkSize(rest, id).Some? {
        var k :| 0 <= k < |rest| && rest[k] == Chunk(id, ChunkSize(rest, id).value)
                 && forall j | 0 <= j < k :: rest[j].chunkId != id;
        assert chunks[k + 1] == rest[k];
        forall j | 0 <= j < k + 1 ensures chunks[j].chunkId != id {
          if j > 0 { assert chunks[j] == rest[j - 1]; }
        }
      }
    }
  }

  /** How many bytes the first `k` entries name. */
  function Extent(es: seq<Entry>, k: nat): nat
    requires k <= |es|
  {
    if k == 0 then 0 else Extent(es, k - 1) + es[k - 1].length
  }

  lemma {:induction false} ExtentGrows(es: seq<Entry>, j: nat, k: nat)
    requires j <= k <= |es|
    ensures Extent(es, j) <= Extent(es, k)
    decreases k
  {
    if j < k {
      ExtentGrows(es, j, k - 1);
    }
  }
}
