/** The whole chain over the store objects: generate, upload, publish, commit and read back. */
module EndToEnd {
  import opened Model
  import opened Validation
  import opened ObjectStore
  import opened Reassembly
  import opened Metadata
  import opened History
  import opened Service
  import opened Generators
  import opened Chunker
  import opened Corruptor

  /** The service state: both stores. */
  class AppState {
    const meta: InMemoryMetadataStore
    const blobs: FakeObjectStore

    constructor (hash: Hasher)
      ensures fresh(meta) && fresh(blobs) && blobs.hash == hash && Valid() && View() == START
    {
      meta := new InMemoryMetadataStore();
      blobs := new FakeObjectStore(hash);
    }

    /** The state as the interleaved service sees it between requests. */
    ghost function View(): System
      reads meta, blobs
    {
      System(meta.State(), blobs.blobs, map[], map[])
    }

    ghost predicate Valid()
      reads meta, blobs
    {
      Sound(blobs.hash, View())
    }

    /** `put_chunk`, without interruption. It keeps the stores in agreement and succeeds exactly for
        bytes under their own address with no other bytes there, which are then stored and
        registered; a refusal changes nothing. */
    method PutChunk(id: ChunkId, body: Blob) returns (r: Result<Chunk>)
      requires Valid()
      modifies meta`chunks, blobs
      ensures Valid()
      ensures r.Ok? <==> id == FromBytes(blobs.hash, body) && (id in old(blobs.blobs) ==> old(blobs.blobs)[id] == body)
      ensures r.Ok? ==>
                && r == Ok(Chunk(id, |body|))
                && blobs.blobs == old(blobs.blobs)[id := body]
                && meta.chunks == old(meta.chunks)[id := Chunk(id, |body|)]
      ensures r.Err? ==>
                && r.code == (if ParsesAsChunkId(id) then IntegrityChunkIdConflict else InvalidParameter)
                && View() == old(View())
    {
      ghost var was := View();
      PutChunkKeeps(blobs.hash, was, id, body);
      if !ParsesAsChunkId(id) {
        return Err(InvalidParameter);
      }
      var put := blobs.Put(id, body);
      if put.Err? {
        return Err(put.code);
      }
      r := meta.RegisterChunk(id, |body|);
    }
  }

  /** The two upload steps one after the other. */
  lemma PutChunkKeeps(h: Hasher, s: System, id: ChunkId, body: Blob)
    requires Sound(h, s) && s.uploads == map[]
    ensures var (blobs, put) := PutBlob(h, s.blobs, id, body);
            var (meta, r) := ChunkRegistered(s.meta, id, |body|);
            && (ParsesAsChunkId(id) && put.Ok? ==>
                  && Sound(h, s.(meta := meta, blobs := blobs))
                  && r == Ok(Chunk(id, |body|))
                  && blobs == s.blobs[id := body]
                  && meta == s.meta.(chunks := s.meta.chunks[id := Chunk(id, |body|)]))
            && (put.Err? ==> blobs == s.blobs && put.code == IntegrityChunkIdConflict)
            && (put.Ok? <==> id == FromBytes(h, body) && (id in s.blobs ==> s.blobs[id] == body))
            && (put.Ok? ==> ParsesAsChunkId(id))
  {
    hide Validation.Valid, Consistent, ParsesAsChunkId, Shaped;
    PutIsExact(h, s.blobs, id, body);
    if PutBlob(h, s.blobs, id, body).1.Ok? {
      FromBytesParses(h, body);
      assert Shaped(s);
      var stored := Step(h, s, StoreBlob(0, id, body));
      StepIsSound(h, s, StoreBlob(0, id, body));
      RegistrationCannotFail(h, stored, 0);
      StepIsSound(h, stored, RegisterBlob(0));
      var registered := Step(h, stored, RegisterBlob(0));
      WithoutUploads(h, registered);
      assert registered.(uploads := map[]) ==
             s.(meta := ChunkRegistered(s.meta, id, |body|).0, blobs := PutBlob(h, s.blobs, id, body).0);
    }
  }

  lemma WithoutUploads(h: Hasher, s: System)
    requires Sound(h, s)
    ensures Sound(h, s.(uploads := map[]))
  {
    hide Consistent, Validation.Valid, KeysLive, ReadShaped;
    var t := s.(uploads := map[]);
    forall id | id in t.meta.chunks ensures Backed(h, t, id) { assert Backed(h, s, id); }
  }

  /** The bodies that a file of this size is cut into. */
  ghost function Pieces(noise: Noise, seed: U64, size: U64, chunkSize: U64): set<Bytes>
    requires chunkSize > 0
  {
    set k | 0 <= k < ChunkCount(size, chunkSize) && Start(k, chunkSize) < size ::
      Stream(noise, seed, Start(k, chunkSize),
             if size - Start(k, chunkSize) < chunkSize then size - Start(k, chunkSize) else chunkSize)
  }

  lemma BodyIsPiece(
    h: Hasher, noise: Noise, seed: U64, size: U64, chunkSize: U64, m: Manifest, bodies: seq<Body>, i: nat)
    requires chunkSize > 0 && Generated(h, noise, seed, size, chunkSize, m, bodies) && i < |bodies|
    ensures bodies[i].1 in Pieces(noise, seed, size, chunkSize)
    ensures bodies[i].0 == Chunk(FromBytes(h, bodies[i].1), |bodies[i].1|)
    ensures m.entries[i].chunkId == bodies[i].0.chunkId && m.entries[i].length == |bodies[i].1|
    ensures m.entries[i].chunkOffset == 0 && m.entries[i].length <= chunkSize
  {
    hide Validation.Valid, FromBytes, Start, Join, ChunkCount;
    assert EntryMade(h, noise, seed, size, chunkSize, m.entries, bodies, i);
  }

  /** Uploaded so far: the first `k` bodies are stored and registered. */
  ghost predicate Uploaded(s: System, bodies: seq<Body>, k: nat)
    requires k <= |bodies|
  {
    forall i | 0 <= i < k ::
      && bodies[i].0.chunkId in s.blobs && s.blobs[bodies[i].0.chunkId] == bodies[i].1
      && bodies[i].0.chunkId in s.meta.chunks && s.meta.chunks[bodies[i].0.chunkId] == bodies[i].0
  }

  /** With all bodies uploaded the manifest's chunks are registered as it declares them. */
  lemma UploadedIsRegistered(
    h: Hasher, noise: Noise, seed: U64, size: U64, chunkSize: U64, m: Manifest, bodies: seq<Body>, s: System)
    requires chunkSize > 0 && Generated(h, noise, seed, size, chunkSize, m, bodies)
    requires Uploaded(s, bodies, |bodies|)
    ensures RegistrationFault(s.meta.chunks, m.chunks).None?
  {
    hide Validation.Valid, FromBytes, RegistrationFault, Stream, Join, EntryMade, ChunkCount;
    NoRegistrationFaultMeans(s.meta.chunks, m.chunks);
    forall c | c in m.chunks ensures c.chunkId in s.meta.chunks && s.meta.chunks[c.chunkId].size == c.size {
      assert ChunkNamed(m.entries, c);
      var i :| 0 <= i < |m.entries| && m.entries[i].chunkId == c.chunkId && m.entries[i].length == c.size;
      BodyIsPiece(h, noise, seed, size, chunkSize, m, bodies, i);
    }
  }

  lemma {:induction false} UploadedContent(
    h: Hasher, noise: Noise, seed: U64, size: U64, chunkSize: U64, m: Manifest, bodies: seq<Body>, s: System, k: nat)
    requires chunkSize > 0 && Generated(h, noise, seed, size, chunkSize, m, bodies)
    requires Uploaded(s, bodies, |bodies|) && k <= |bodies|
    ensures Readable(s.blobs, m, k) && Content(s.blobs, m, k) == Join(Bodies(bodies[..k]))
  {
    hide Validation.Valid, FromBytes, Stream, EntryMade, ChunkCount, ChunkNamed;
    forall i | 0 <= i < k ensures EntryReadable(s.blobs, m.entries[i]) {
      BodyIsPiece(h, noise, seed, size, chunkSize, m, bodies, i);
    }
    if k > 0 {
      UploadedContent(h, noise, seed, size, chunkSize, m, bodies, s, k - 1);
      BodyIsPiece(h, noise, seed, size, chunkSize, m, bodies, k - 1);
      var joined := Bodies(bodies[..k]);
      assert joined[..|joined| - 1] == Bodies(bodies[..k - 1]);
      assert Slice(s.blobs, m.entries[k - 1]) == bodies[k - 1].1;
    }
  }

  /** Reading an uploaded and stored manifest returns the generated file. */
  lemma UploadedReadsBack(
    h: Hasher, noise: Noise, seed: U64, size: U64, chunkSize: U64, m: Manifest, bodies: seq<Body>, s: System)
    requires 0 < chunkSize <= U32_MAX && Generated(h, noise, seed, size, chunkSize, m, bodies)
    requires Uploaded(s, bodies, |bodies|) && Sound(h, s)
    requires m.manifestId in s.meta.manifests && s.meta.manifests[m.manifestId] == m
    ensures Reassembled(h, s.blobs, m) == Ok(Stream(noise, seed, 0, size))
  {
    hide Validation.Valid, Sound, Intact, Stream, EntryMade, ChunkCount, ChunkNamed, Uploaded, Reassembled;
    StoredManifestIsIntact(h, s, m.manifestId);
    ReassembleIntact(h, s.blobs, m);
    UploadedContent(h, noise, seed, size, chunkSize, m, bodies, s, |bodies|);
    assert bodies[..|bodies|] == bodies;
    forall i | 0 <= i < |m.entries| ensures m.entries[i].length <= U32_MAX {
      BodyIsPiece(h, noise, seed, size, chunkSize, m, bodies, i);
    }
  }

  /** Upload every body. */
  method UploadAll(app: AppState, bodies: seq<Body>, ghost known: set<Bytes>)
    requires app.Valid() && CollisionFree(app.blobs.hash, known)
    requires forall i | 0 <= i < |bodies| :: bodies[i].1 in known
    requires forall i | 0 <= i < |bodies| ::
               bodies[i].0 == Chunk(FromBytes(app.blobs.hash, bodies[i].1), |bodies[i].1|)
    requires forall id | id in app.blobs.blobs :: app.blobs.blobs[id] in known
    modifies app.meta`chunks, app.blobs
    ensures app.Valid() && Uploaded(app.View(), bodies, |bodies|)
  {
    hide Sound, CollisionFree, FromBytes;
    for i := 0 to |bodies|
      invariant app.Valid() && Uploaded(app.View(), bodies, i)
      invariant forall id | id in app.blobs.blobs :: app.blobs.blobs[id] in known
    {
      ghost var was := app.View();
      UploadIsNew(app.blobs.hash, was, bodies[i], known);
      var r := app.PutChunk(bodies[i].0.chunkId, bodies[i].1);
      assert r == Ok(bodies[i].0);
      UploadAdvances(app.blobs.hash, was, app.View(), bodies, i, known);
    }
  }

  /** Without collisions no other bytes are stored under the address of a body. */
  lemma UploadIsNew(h: Hasher, s: System, body: Body, known: set<Bytes>)
    requires Sound(h, s) && CollisionFree(h, known) && body.1 in known
    requires body.0 == Chunk(FromBytes(h, body.1), |body.1|)
    requires forall id | id in s.blobs :: s.blobs[id] in known
    ensures body.0.chunkId in s.blobs ==> s.blobs[body.0.chunkId] == body.1
  {
    hide Consistent, Shaped, FromBytes, Backed, UploadOk;
  }

  lemma UploadAdvances(h: Hasher, s: System, t: System, bodies: seq<Body>, i: nat, known: set<Bytes>)
    requires i < |bodies| && Uploaded(s, bodies, i) && CollisionFree(h, known)
    requires forall j | 0 <= j < |bodies| ::
               bodies[j].1 in known && bodies[j].0 == Chunk(FromBytes(h, bodies[j].1), |bodies[j].1|)
    requires t.blobs == s.blobs[bodies[i].0.chunkId := bodies[i].1]
    requires t.meta.chunks == s.meta.chunks[bodies[i].0.chunkId := bodies[i].0]
    ensures Uploaded(t, bodies, i + 1)
  {
    hide FromBytes;
  }

  lemma GeneratedIsValid(
    h: Hasher, noise: Noise, seed: U64, size: U64, chunkSize: U64, m: Manifest, bodies: seq<Body>)
    requires chunkSize > 0 && Generated(h, noise, seed, size, chunkSize, m, bodies)
    ensures Validation.Valid(m) && m.totalSize == size
  {
    hide Validation.Valid;
  }

  lemma UploadedDependsOn(s: System, t: System, bodies: seq<Body>)
    requires Uploaded(s, bodies, |bodies|) && t.blobs == s.blobs && t.meta.chunks == s.meta.chunks
    ensures Uploaded(t, bodies, |bodies|)
  {
  }

  /** A damaged manifest gets nowhere: the store refuses to publish it, no version can name it, and a
      client that holds it refuses to read it. */
  lemma CorruptionIsRefused(
    h: Hasher, s: Meta, blobs: Blobs, m: Manifest, d: Damage,
    file: FileId, id: VersionId, parent: Option<VersionId>, now: Instant)
    requires Validation.Valid(m) && Applies(m, d) && !Harmless(m, d)
    requires file in s.files && m.manifestId !in s.manifests
    ensures var bad := Corrupted(m, d);
            && ManifestPut(s, bad) == (s, Err(IntegrityManifestInvalid))
            && VersionCreated(s, file, id, parent, bad.manifestId, now) == (s, Err(ManifestNotFound))
            && Reassembled(h, blobs, bad) == Err(IntegrityManifestInvalid)
  {
    hide Validation.Valid, WellFormed, RegistrationFault, Corrupted;
    DamageIsCaught(m, d);
    var bad := Corrupted(m, d);
    ValidationIsExact(bad);
    RefusedManifestHasNoVersion(s, bad, file, id, parent, now);
  }

  /** Store a manifest, create a version of it and commit it. */
  method Publish(app: AppState, m: Manifest, fileId: FileId, versionId: VersionId, now: Instant)
    requires app.Valid() && Validation.Valid(m) && RegistrationFault(app.meta.chunks, m.chunks).None?
    requires fileId in app.meta.files && m.manifestId !in app.meta.manifests && versionId !in app.meta.versions
    modifies app.meta`manifests, app.meta`versions, app.meta`files
    ensures app.Valid()
    ensures m.manifestId in app.meta.manifests && app.meta.manifests[m.manifestId] == m
    ensures app.meta.files ==
            old(app.meta.files)[fileId := old(app.meta.files[fileId]).(current := Some(versionId), modifiedAt := now)]
    ensures CommittedVersion(app.meta.State(), versionId)
         == Ok(Version(versionId, fileId, None, m.manifestId, Committed, now))
  {
    hide Sound, Validation.Valid, RegistrationFault, Consistent, VersionCommitted;
    ghost var h := app.blobs.hash;
    CallIsSound(h, app.View(), Event(PutManifest(m), fileId, now));
    var put := app.meta.PutManifest(m);

    CallIsSound(h, app.View(), Event(CreateVersion(fileId, versionId, None, m.manifestId), fileId, now));
    var created := app.meta.CreateVersion(fileId, versionId, None, m.manifestId, now);

    CallIsSound(h, app.View(), Event(CommitVersion(versionId), fileId, now));
    CommitFailsOnlyForUnknownVersions(app.meta.State(), versionId, now);
    var committed := app.meta.CommitVersion(versionId, now);
  }

  /** The chain from file creation to read-back returns the generated file, for every size, seed and
      chunk size of at most 32 bits, from every state of the service, as long as the new bodies and
      the stored ones do not collide; the file then points at the committed version. */
  method RunChain(
    app: AppState, noise: Noise, size: U64, chunkSize: U64, seed: U64,
    dir: DirectoryId, name: string, key: string,
    fileId: FileId, manifestId: ManifestId, versionId: VersionId, now: Instant)
    returns (out: Result<Bytes>)
    requires app.Valid() && 0 < chunkSize <= U32_MAX && LegalName(name)
    requires key !in app.meta.fileIdempotency && fileId !in app.meta.files
    requires manifestId !in app.meta.manifests && versionId !in app.meta.versions
    requires CollisionFree(app.blobs.hash, Pieces(noise, seed, size, chunkSize) + app.blobs.blobs.Values)
    modifies app.meta, app.blobs
    ensures app.Valid()
    ensures out == Ok(Stream(noise, seed, 0, size))
    ensures fileId in app.meta.files && app.meta.files[fileId].current == Some(versionId)
    ensures app.meta.files[fileId].name == name && app.meta.files[fileId].parentId == dir
    ensures CommittedVersion(app.meta.State(), versionId)
         == Ok(Version(versionId, fileId, None, manifestId, Committed, now))
    ensures manifestId in app.meta.manifests && app.meta.manifests[manifestId].totalSize == size
    ensures Reassembled(app.blobs.hash, app.blobs.blobs, app.meta.manifests[manifestId]) == out
  {
    hide Sound, Uploaded, Generated, Pieces, Stream, Reassembled, CollisionFree, Validation.Valid, FromBytes,
         RegistrationFault, Consistent;
    ghost var h := app.blobs.hash;
    ghost var s0 := app.View();
    ghost var known := Pieces(noise, seed, size, chunkSize) + app.blobs.blobs.Values;
    CallIsSound(h, s0, Event(CreateFile(dir, name, key), fileId, now));
    var file := app.meta.CreateFile(dir, name, key, fileId, now);

    var m, bodies := GenerateManifest(app.blobs.hash, noise, size, chunkSize, seed, manifestId);
    forall i | 0 <= i < |bodies|
      ensures bodies[i].1 in known && bodies[i].0 == Chunk(FromBytes(h, bodies[i].1), |bodies[i].1|)
    {
      BodyIsPiece(h, noise, seed, size, chunkSize, m, bodies, i);
    }
    UploadAll(app, bodies, known);

    ghost var s1 := app.View();
    UploadedIsRegistered(h, noise, seed, size, chunkSize, m, bodies, s1);
    assert Validation.Valid(m) && m.totalSize == size by { GeneratedIsValid(h, noise, seed, size, chunkSize, m, bodies); }
    Publish(app, m, fileId, versionId, now);
    assert Uploaded(app.View(), bodies, |bodies|) by { UploadedDependsOn(s1, app.View(), bodies); }
    UploadedReadsBack(h, noise, seed, size, chunkSize, m, bodies, app.View());
    out := Reassemble(app.blobs, m);
  }

  lemma CallIsSound(h: Hasher, s: System, e: Event)
    requires Sound(h, s) && !e.req.RegisterChunk? && Fresh(s.meta, e)
    ensures KeysLive(s.meta) && Consistent(s.meta)
    ensures Sound(h, s.(meta := Serve(s.meta, e).0))
  {
    hide Serve, Consistent, Backed, UploadOk, Grows;
    assert KeysLive(s.meta);
    StepIsSound(h, s, Call(e));
  }
}
