/** The metadata store: five maps, five mutating requests, and the store object that updates the
    maps in place under one lock. */
module Metadata {
  import opened Model
  import opened Validation

  datatype Meta = Meta(
    files: map<FileId, File>,
    keys: map<string, FileId>,
    versions: map<VersionId, Version>,
    manifests: map<ManifestId, Manifest>,
    chunks: map<ChunkId, Chunk>)

  const EMPTY := Meta(map[], map[], map[], map[], map[])

  /** Every idempotency key leads to a file, so looking it up cannot panic. */
  predicate KeysLive(s: Meta) {
    forall k | k in s.keys :: s.keys[k] in s.files
  }

  predicate LegalName(name: string) {
    name != [] && '/' !in name && '\\' !in name && '\0' !in name
  }

  // ---- the operations, as functions of the state ----

  function FileCreated(s: Meta, parentId: DirectoryId, name: string, key: string, newId: FileId, now: Instant)
    : (Meta, Result<File>)
    requires KeysLive(s)
  {
    if !LegalName(name) then (s, Err(InvalidParameter))
    else if key in s.keys then (s, Ok(s.files[s.keys[key]]))
    else
      var file := File(newId, parentId, name, None, now, now);
      (s.(keys := s.keys[key := newId], files := s.files[newId := file]), Ok(file))
  }

  function ChunkRegistered(s: Meta, id: ChunkId, size: U64): (Meta, Result<Chunk>) {
    if !ParsesAsChunkId(id) then (s, Err(InvalidParameter))
    else if id in s.chunks then
      if s.chunks[id].size != size then (s, Err(IntegrityChunkIdConflict)) else (s, Ok(s.chunks[id]))
    else (s.(chunks := s.chunks[id := Chunk(id, size)]), Ok(Chunk(id, size)))
  }

  /** The first disagreement between declared and registered chunks, if any. */
  function RegistrationFault(registered: map<ChunkId, Chunk>, declared: seq<Chunk>): Option<ErrorCode> {
    if declared == [] then None
    else if declared[0].chunkId !in registered then Some(ChunkNotFound)
    else if registered[declared[0].chunkId].size != declared[0].size then Some(IntegrityManifestInvalid)
    else RegistrationFault(registered, declared[1..])
  }

  function ManifestPut(s: Meta, m: Manifest): (Meta, Result<Manifest>) {
    if !Valid(m) then (s, Err(IntegrityManifestInvalid))
    else match RegistrationFault(s.chunks, m.chunks)
      case Some(code) => (s, Err(code))
      case None =>
        if m.manifestId in s.manifests && s.manifests[m.manifestId] != m then (s, Err(IntegrityManifestInvalid))
        else (s.(manifests := s.manifests[m.manifestId := m]), Ok(m))
  }

  function VersionCreated(
    s: Meta, file: FileId, id: VersionId, parent: Option<VersionId>, manifest: ManifestId, now: Instant)
    : (Meta, Result<Version>)
  {
    if file !in s.files then (s, Err(FileNotFound))
    else if manifest !in s.manifests then (s, Err(ManifestNotFound))
    else if parent.Some? && parent.value !in s.versions then (s, Err(VersionNotFound))
    else if parent.Some? && s.versions[parent.value].fileId != file then (s, Err(IntegrityManifestInvalid))
    else if id in s.versions then
      var v := s.versions[id];
      if v.fileId == file && v.parent == parent && v.manifestId == manifest then (s, Ok(v))
      else (s, Err(IntegrityChunkIdConflict))
    else
      var v := Version(id, file, parent, manifest, Candidate, now);
      (s.(versions := s.versions[id := v]), Ok(v))
  }

  function VersionCommitted(s: Meta, id: VersionId, now: Instant): (Meta, Result<Version>) {
    if id !in s.versions then (s, Err(VersionNotFound))
    else
      var v := s.versions[id];
      if v.state == Committed then (s, Ok(v))
      else if !v.state.CanTransitionTo(Committed) then (s, Err(IntegrityManifestInvalid))
      else if v.manifestId !in s.manifests then (s, Err(ManifestNotFound))
      else if !Valid(s.manifests[v.manifestId]) then (s, Err(IntegrityManifestInvalid))
      else
        var c := v.(state := Committed);
        var files :=
          if c.fileId in s.files
          then s.files[c.fileId := s.files[c.fileId].(current := Some(id), modifiedAt := now)]
          else s.files;
        (s.(versions := s.versions[id := c], files := files), Ok(c))
  }

  /** Readers see committed versions only. */
  function CommittedVersion(s: Meta, id: VersionId): Result<Version> {
    if id in s.versions && s.versions[id].state == Committed then Ok(s.versions[id]) else Err(VersionNotFound)
  }

  // ---- the invariant ----

  ghost predicate FileOk(s: Meta, f: FileId)
    requires f in s.files
  {
    && s.files[f].fileId == f
    && (s.files[f].current.Some? ==>
          var v := s.files[f].current.value;
          v in s.versions && s.versions[v].fileId == f && s.versions[v].state == Committed)
  }

  ghost predicate VersionOk(s: Meta, v: VersionId)
    requires v in s.versions
  {
    var version := s.versions[v];
    && version.versionId == v
    && version.fileId in s.files
    && version.manifestId in s.manifests
    && (version.parent.Some? ==>
          version.parent.value in s.versions && s.versions[version.parent.value].fileId == version.fileId)
    && (version.state == Committed ==> s.files[version.fileId].current.Some?)
  }

  ghost predicate ManifestOk(s: Meta, id: ManifestId)
    requires id in s.manifests
  {
    && s.manifests[id].manifestId == id
    && Valid(s.manifests[id])
    && ChunksRegistered(s, s.manifests[id].chunks)
  }

  ghost predicate ChunksRegistered(s: Meta, chunks: seq<Chunk>) {
    forall c | c in chunks :: c.chunkId in s.chunks && s.chunks[c.chunkId] == c
  }

  ghost predicate ChunkOk(s: Meta, id: ChunkId)
    requires id in s.chunks
  {
    s.chunks[id].chunkId == id && ParsesAsChunkId(id)
  }

  /** What holds of the store between any two requests. */
  ghost predicate Consistent(s: Meta) {
    && KeysLive(s)
    && (forall f | f in s.files :: FileOk(s, f))
    && (forall v | v in s.versions :: VersionOk(s, v))
    && (forall id | id in s.manifests :: ManifestOk(s, id))
    && (forall id | id in s.chunks :: ChunkOk(s, id))
  }

  /** The declared chunk is registered at the declared size. */
  predicate RegisteredAs(registered: map<ChunkId, Chunk>, c: Chunk) {
    c.chunkId in registered && registered[c.chunkId].size == c.size
  }

  lemma {:induction false} NoRegistrationFaultMeans(registered: map<ChunkId, Chunk>, declared: seq<Chunk>)
    ensures RegistrationFault(registered, declared).None? <==>
            forall c | c in declared :: RegisteredAs(registered, c)
  {
    if declared != [] {
      NoRegistrationFaultMeans(registered, declared[1..]);
      assert forall c :: c in declared <==> c == declared[0] || c in declared[1..];
      assert RegistrationFault(registered, declared).None? <==>
             RegisteredAs(registered, declared[0]) && RegistrationFault(registered, declared[1..]).None?;
    }
  }

  lemma FileCreatedKeeps(s: Meta, parentId: DirectoryId, name: string, key: string, newId: FileId, now: Instant)
    requires Consistent(s) && newId !in s.files
    ensures Consistent(FileCreated(s, parentId, name, key, newId, now).0)
  {
    hide Valid;
    var t := FileCreated(s, parentId, name, key, newId, now).0;
    if t != s {
      forall f | f in t.files ensures FileOk(t, f) { assert f != newId ==> FileOk(s, f); }
      forall v | v in t.versions ensures VersionOk(t, v) { assert VersionOk(s, v); }
      forall id | id in t.manifests ensures ManifestOk(t, id) { assert ManifestOk(s, id); }
      forall id | id in t.chunks ensures ChunkOk(t, id) { assert ChunkOk(s, id); }
    }
  }

  lemma ChunkRegisteredKeeps(s: Meta, id: ChunkId, size: U64)
    requires Consistent(s)
    ensures Consistent(ChunkRegistered(s, id, size).0)
  {
    hide Valid, ParsesAsChunkId;
    var t := ChunkRegistered(s, id, size).0;
    if t != s {
      forall f | f in t.files ensures FileOk(t, f) { assert FileOk(s, f); }
      forall v | v in t.versions ensures VersionOk(t, v) { assert VersionOk(s, v); }
      forall k | k in t.manifests ensures ManifestOk(t, k) { assert ManifestOk(s, k); }
      forall k | k in t.chunks ensures ChunkOk(t, k) { assert k != id ==> ChunkOk(s, k); }
    }
  }

  lemma ManifestPutKeeps(s: Meta, m: Manifest)
    requires Consistent(s)
    ensures Consistent(ManifestPut(s, m).0)
  {
    hide Valid, ParsesAsChunkId, RegistrationFault;
    var t := ManifestPut(s, m).0;
    if t != s {
      NoRegistrationFaultMeans(s.chunks, m.chunks);
      forall c | c in m.chunks ensures c.chunkId in s.chunks && s.chunks[c.chunkId] == c {
        assert ChunkOk(s, c.chunkId);
      }
      forall f | f in t.files ensures FileOk(t, f) { assert FileOk(s, f); }
      forall v | v in t.versions ensures VersionOk(t, v) { assert VersionOk(s, v); }
      forall k | k in t.manifests ensures ManifestOk(t, k) { assert k != m.manifestId ==> ManifestOk(s, k); }
      forall k | k in t.chunks ensures ChunkOk(t, k) { assert ChunkOk(s, k); }
    }
  }

  lemma VersionCreatedKeeps(
    s: Meta, file: FileId, id: VersionId, parent: Option<VersionId>, manifest: ManifestId, now: Instant)
    requires Consistent(s)
    ensures Consistent(VersionCreated(s, file, id, parent, manifest, now).0)
  {
    hide Valid, ParsesAsChunkId;
    var t := VersionCreated(s, file, id, parent, manifest, now).0;
    if t != s {
      forall f | f in t.files ensures FileOk(t, f) { assert FileOk(s, f); }
      forall v | v in t.versions ensures VersionOk(t, v) { assert v != id ==> VersionOk(s, v); }
      forall k | k in t.manifests ensures ManifestOk(t, k) { assert ManifestOk(s, k); }
      forall k | k in t.chunks ensures ChunkOk(t, k) { assert ChunkOk(s, k); }
    }
  }

  lemma VersionCommittedKeeps(s: Meta, id: VersionId, now: Instant)
    requires Consistent(s)
    ensures Consistent(VersionCommitted(s, id, now).0)
  {
    hide Valid, ParsesAsChunkId;
    var t := VersionCommitted(s, id, now).0;
    if t != s {
      assert VersionOk(s, id);
      forall f | f in t.files ensures FileOk(t, f) { assert FileOk(s, f); }
      forall v | v in t.versions ensures VersionOk(t, v) { assert VersionOk(s, v); }
      forall k | k in t.manifests ensures ManifestOk(t, k) { assert ManifestOk(s, k); }
      forall k | k in t.chunks ensures ChunkOk(t, k) { assert ChunkOk(s, k); }
    }
  }

  /** In a consistent store a commit fails only for an unknown version; otherwise the version is
      committed afterwards and, on its first commit, becomes its file's current version. */
  lemma CommitFailsOnlyForUnknownVersions(s: Meta, id: VersionId, now: Instant)
    requires Consistent(s)
    ensures var (t, r) := VersionCommitted(s, id, now);
            if id !in s.versions then t == s && r == Err(VersionNotFound)
            else
              && r == Ok(s.versions[id].(state := Committed))
              && CommittedVersion(t, id) == r
              && (s.versions[id].state == Committed ==> t == s)
              && (s.versions[id].state == Candidate ==>
                    && s.versions[id].fileId in s.files
                    && t.files == s.files[s.versions[id].fileId :=
                         s.files[s.versions[id].fileId].(current := Some(id), modifiedAt := now)]
                    && t.versions == s.versions[id := s.versions[id].(state := Committed)]
                    && t.manifests == s.manifests && t.chunks == s.chunks && t.keys == s.keys)
  {
    hide Valid;
    if id in s.versions {
      assert VersionOk(s, id);
      assert ManifestOk(s, s.versions[id].manifestId);
    }
  }

  // ---- what each request answers, told from the maps ----

  /** A name that is not one path component is refused, a known key returns its file, and a new key
      stores a new file as it was asked for. */
  lemma FileCreatedIsExact(s: Meta, parentId: DirectoryId, name: string, key: string, newId: FileId, now: Instant)
    requires KeysLive(s)
    ensures var (t, r) := FileCreated(s, parentId, name, key, newId, now);
            if |name| == 0 || exists c :: c in name && c in {'/', '\\', '\0'} then t == s && r == Err(InvalidParameter)
            else if key in s.keys then t == s && r == Ok(s.files[s.keys[key]])
            else
              && r.Ok?
              && r.value.fileId == newId && r.value.parentId == parentId && r.value.name == name
              && r.value.current == None && r.value.createdAt == now && r.value.modifiedAt == now
              && t == s.(keys := s.keys[key := newId], files := s.files[newId := r.value])
  {
  }

  /** A chunk is registered at its size once; another size is a conflict, and only an id that does
      not parse is a bad parameter. */
  lemma ChunkRegisteredIsExact(s: Meta, id: ChunkId, size: U64)
    requires Consistent(s)
    ensures var (t, r) := ChunkRegistered(s, id, size);
            && (r.Ok? <==> ParsesAsChunkId(id) && (id in s.chunks ==> s.chunks[id].size == size))
            && (r.Ok? ==> r.value == Chunk(id, size) && t == s.(chunks := s.chunks[id := Chunk(id, size)]))
            && (r.Err? ==> t == s)
            && (r == Err(InvalidParameter) <==> !ParsesAsChunkId(id))
            && (r == Err(IntegrityChunkIdConflict) <==> id in s.chunks && s.chunks[id].size != size)
  {
    hide ParsesAsChunkId, FileOk, VersionOk, ManifestOk;
    if id in s.chunks {
      assert ChunkOk(s, id);
      if s.chunks[id].size == size { assert s.chunks[id := Chunk(id, size)] == s.chunks; }
    }
  }

  /** The scan reports the first declared chunk that is not registered with its size: not found if
      it is not registered at all, and otherwise an invalid manifest. */
  lemma {:induction false} FaultIsTheFirst(registered: map<ChunkId, Chunk>, declared: seq<Chunk>, k: nat)
    requires k < |declared| && !RegisteredAs(registered, declared[k])
    requires forall i | 0 <= i < k :: RegisteredAs(registered, declared[i])
    ensures RegistrationFault(registered, declared) ==
            Some(if declared[k].chunkId !in registered then ChunkNotFound else IntegrityManifestInvalid)
  {
    if k > 0 {
      assert RegisteredAs(registered, declared[0]);
      FaultIsTheFirst(registered, declared[1..], k - 1);
    }
  }

  /** A manifest is stored exactly when it is well-formed, everything that it declares is registered
      at the declared size, and its id is not taken by another one. */
  lemma ManifestPutIsExact(s: Meta, m: Manifest)
    ensures var (t, r) := ManifestPut(s, m);
            && (r.Ok? <==>
                && WellFormed(m)
                && (forall c | c in m.chunks :: RegisteredAs(s.chunks, c))
                && (m.manifestId in s.manifests ==> s.manifests[m.manifestId] == m))
            && (r.Ok? ==> r.value == m && t == s.(manifests := s.manifests[m.manifestId := m]))
            && (r.Err? ==> t == s)
            && (!WellFormed(m) ==> r == Err(IntegrityManifestInvalid))
            && (r.Err? && (forall c | c in m.chunks :: RegisteredAs(s.chunks, c)) ==> r == Err(IntegrityManifestInvalid))
  {
    hide Valid, WellFormed, RegistrationFault;
    ValidationIsExact(m);
    NoRegistrationFaultMeans(s.chunks, m.chunks);
  }

  /** The first declared chunk that disagrees with the registration decides the refusal. */
  lemma UnregisteredChunkIsReported(s: Meta, m: Manifest, k: nat)
    requires WellFormed(m) && k < |m.chunks| && !RegisteredAs(s.chunks, m.chunks[k])
    requires forall i | 0 <= i < k :: RegisteredAs(s.chunks, m.chunks[i])
    ensures ManifestPut(s, m) ==
            (s, Err(if m.chunks[k].chunkId !in s.chunks then ChunkNotFound else IntegrityManifestInvalid))
  {
    hide Valid, WellFormed, RegistrationFault;
    ValidationIsExact(m);
    FaultIsTheFirst(s.chunks, m.chunks, k);
  }

  /** The file, the manifest and the parent that a new version must name. */
  predicate NamesExist(s: Meta, file: FileId, parent: Option<VersionId>, manifest: ManifestId) {
    && file in s.files && manifest in s.manifests
    && (parent.Some? ==> parent.value in s.versions && s.versions[parent.value].fileId == file)
  }

  /** A version names what it was asked to name: it is created as a candidate if its id is new, and
      repeated if its id has the same file, parent and manifest. */
  lemma VersionCreatedIsExact(
    s: Meta, file: FileId, id: VersionId, parent: Option<VersionId>, manifest: ManifestId, now: Instant)
    requires Consistent(s)
    ensures var (t, r) := VersionCreated(s, file, id, parent, manifest, now);
            && (r.Ok? <==>
                && NamesExist(s, file, parent, manifest)
                && (id in s.versions ==>
                      s.versions[id] == Version(id, file, parent, manifest, s.versions[id].state, s.versions[id].createdAt)))
            && (r.Ok? ==>
                && r.value == Version(id, file, parent, manifest, r.value.state, r.value.createdAt)
                && t == s.(versions := s.versions[id := r.value])
                && (id !in s.versions ==> r.value.state == Candidate && r.value.createdAt == now)
                && (id in s.versions ==> t == s))
            && (r.Err? ==> t == s)
  {
    hide Valid, FileOk, ManifestOk, ChunkOk;
    if id in s.versions {
      assert VersionOk(s, id);
      assert s.versions[id := s.versions[id]] == s.versions;
    }
  }

  /** Why a version is refused. */
  lemma VersionRefusals(
    s: Meta, file: FileId, id: VersionId, parent: Option<VersionId>, manifest: ManifestId, now: Instant)
    ensures var r := VersionCreated(s, file, id, parent, manifest, now).1;
            && (r == Err(FileNotFound) <==> file !in s.files)
            && (r == Err(ManifestNotFound) <==> file in s.files && manifest !in s.manifests)
            && (r == Err(VersionNotFound) <==>
                file in s.files && manifest in s.manifests && parent.Some? && parent.value !in s.versions)
            && (r == Err(IntegrityManifestInvalid) <==>
                && file in s.files && manifest in s.manifests
                && parent.Some? && parent.value in s.versions && s.versions[parent.value].fileId != file)
            && (r == Err(IntegrityChunkIdConflict) <==>
                && NamesExist(s, file, parent, manifest) && id in s.versions
                && (s.versions[id].fileId, s.versions[id].parent, s.versions[id].manifestId) != (file, parent, manifest))
  {
  }

  /** A corrupted manifest never reaches a reader: it is refused, and no version can name its id
      until a well-formed manifest has it. */
  lemma RefusedManifestHasNoVersion(
    s: Meta, m: Manifest, file: FileId, id: VersionId, parent: Option<VersionId>, now: Instant)
    requires !WellFormed(m) && m.manifestId !in s.manifests && file in s.files
    ensures var (t, r) := ManifestPut(s, m);
            && r == Err(IntegrityManifestInvalid)
            && VersionCreated(t, file, id, parent, m.manifestId, now) == (s, Err(ManifestNotFound))
  {
    hide Valid, WellFormed, RegistrationFault;
    ManifestPutIsExact(s, m);
  }

  /** A version is visible exactly when it is stored and committed. */
  lemma CommittedVersionIsExact(s: Meta, id: VersionId, v: Version)
    ensures CommittedVersion(s, id) == Ok(v) <==> id in s.versions && s.versions[id] == v && v.state == Committed
    ensures CommittedVersion(s, id) == Err(VersionNotFound) <==> id !in s.versions || s.versions[id].state == Candidate
  {
  }

  /** A new candidate is not visible, and its commit makes it so. */
  lemma CandidateIsInvisible(
    s: Meta, file: FileId, id: VersionId, parent: Option<VersionId>, manifest: ManifestId, now: Instant, later: Instant)
    requires Consistent(s) && id !in s.versions
    requires VersionCreated(s, file, id, parent, manifest, now).1.Ok?
    ensures var t := VersionCreated(s, file, id, parent, manifest, now).0;
            && CommittedVersion(s, id) == Err(VersionNotFound)
            && CommittedVersion(t, id) == Err(VersionNotFound)
            && CommittedVersion(VersionCommitted(t, id, later).0, id)
               == Ok(Version(id, file, parent, manifest, Committed, now))
  {
    hide Consistent, Valid, VersionCommitted;
    VersionCreatedIsExact(s, file, id, parent, manifest, now);
    var t := VersionCreated(s, file, id, parent, manifest, now).0;
    VersionCreatedKeeps(s, file, id, parent, manifest, now);
    CommitFailsOnlyForUnknownVersions(t, id, later);
  }

  /** Rule 11: `current` is the current version of `file`, of the same file, and committed. */
  function CurrentVersionCheck(file: File, current: Version): Result<()> {
    if file.current != Some(current.versionId) then Err(IntegrityManifestInvalid)
    else if current.fileId != file.fileId then Err(IntegrityManifestInvalid)
    else if current.state != Committed then Err(VersionNotFound)
    else Ok(())
  }

  /** Rule 12: `parent` is the parent of `child` and of the same file. */
  function VersionParentCheck(child: Version, parent: Version): Result<()> {
    if child.parent != Some(parent.versionId) then Err(IntegrityManifestInvalid)
    else if child.fileId != parent.fileId then Err(IntegrityManifestInvalid)
    else Ok(())
  }

  /** What the two cross-object rules accept, and how they refuse. */
  lemma CrossObjectRulesMean(file: File, current: Version, child: Version, parent: Version)
    ensures CurrentVersionCheck(file, current).Ok? <==>
            file.current == Some(current.versionId) && current.fileId == file.fileId && current.state == Committed
    ensures CurrentVersionCheck(file, current) == Err(VersionNotFound) <==>
            file.current == Some(current.versionId) && current.fileId == file.fileId && current.state == Candidate
    ensures CurrentVersionCheck(file, current) == Err(IntegrityManifestInvalid) <==>
            file.current != Some(current.versionId) || current.fileId != file.fileId
    ensures VersionParentCheck(child, parent) ==
            if child.parent == Some(parent.versionId) && child.fileId == parent.fileId then Ok(())
            else Err(IntegrityManifestInvalid)
  {
  }

  /** The cross-object rules 11 and 12, which no request checks as such, pass for every file with a
      current version and every version with a parent. */
  lemma CrossObjectRulesHold(s: Meta)
    requires Consistent(s)
    ensures forall f | f in s.files && s.files[f].current.Some? ::
              var v := s.files[f].current.value;
              v in s.versions && CurrentVersionCheck(s.files[f], s.versions[v]).Ok?
    ensures forall v | v in s.versions && s.versions[v].parent.Some? ::
              var p := s.versions[v].parent.value;
              p in s.versions && VersionParentCheck(s.versions[v], s.versions[p]).Ok?
  {
    hide Valid, ManifestOk, ChunkOk;
    forall f | f in s.files && s.files[f].current.Some?
      ensures var v := s.files[f].current.value;
              v in s.versions && CurrentVersionCheck(s.files[f], s.versions[v]).Ok?
    {
      assert FileOk(s, f) && VersionOk(s, s.files[f].current.value);
    }
    forall v | v in s.versions && s.versions[v].parent.Some?
      ensures var p := s.versions[v].parent.value;
              p in s.versions && VersionParentCheck(s.versions[v], s.versions[p]).Ok?
    {
      assert VersionOk(s, v) && VersionOk(s, s.versions[v].parent.value);
    }
  }

  /** After a put, every declaration of a chunk in a stored manifest has the registered size, so it
      does not matter which one a lookup finds. */
  lemma DeclarationsAgree(s: Meta, id: ManifestId, chunk: Chunk)
    requires Consistent(s) && id in s.manifests && chunk in s.manifests[id].chunks
    ensures ChunkSize(s.manifests[id].chunks, chunk.chunkId) == Some(chunk.size)
    ensures chunk.chunkId in s.chunks && s.chunks[chunk.chunkId].size == chunk.size
  {
    hide Valid;
    var chunks := s.manifests[id].chunks;
    assert ManifestOk(s, id);
    ChunkSizeFindsFirst(chunks, chunk.chunkId);
    assert Declares(chunks, chunk.chunkId);
    var found := Chunk(chunk.chunkId, ChunkSize(chunks, chunk.chunkId).value);
    assert found in chunks;
  }

  // ---- the store object ----

  class InMemoryMetadataStore {
    var files: map<FileId, File>
    var fileIdempotency: map<string, FileId>
    var versions: map<VersionId, Version>
    var manifests: map<ManifestId, Manifest>
    var chunks: map<ChunkId, Chunk>

    ghost function State(): Meta
      reads this
    {
      Meta(files, fileIdempotency, versions, manifests, chunks)
    }

    constructor ()
      ensures State() == EMPTY
    {
      files, fileIdempotency, versions, manifests, chunks := map[], map[], map[], map[], map[];
    }

    method CreateFile(parentId: DirectoryId, name: string, key: string, newId: FileId, now: Instant)
      returns (r: Result<File>)
      requires KeysLive(State())
      modifies this
      ensures (State(), r) == FileCreated(old(State()), parentId, name, key, newId, now)
      ensures r.Ok? && key !in old(fileIdempotency) ==>
                && r.value == File(newId, parentId, name, None, now, now)
                && files == old(files)[newId := r.value] && fileIdempotency == old(fileIdempotency)[key := newId]
    {
      if name == [] || '/' in name || '\\' in name || '\0' in name {
        return Err(InvalidParameter);
      }
      assert KeysLive(State());
      if key in fileIdempotency {
        return Ok(files[fileIdempotency[key]]);
      }
      var file := File(newId, parentId, name, None, now, now);
      fileIdempotency := fileIdempotency[key := file.fileId];
      files := files[file.fileId := file];
      return Ok(file);
    }

    method RegisterChunk(id: ChunkId, size: U64) returns (r: Result<Chunk>)
      modifies this`chunks
      ensures (State(), r) == ChunkRegistered(old(State()), id, size)
      ensures r.Ok? ==> id in chunks && chunks[id] == r.value && r.value.size == size
    {
      if !ParsesAsChunkId(id) {
        return Err(InvalidParameter);
      }
      if id in chunks {
        if chunks[id].size != size {
          return Err(IntegrityChunkIdConflict);
        }
        return Ok(chunks[id]);
      }
      var chunk := Chunk(id, size);
      chunks := chunks[id := chunk];
      return Ok(chunk);
    }

    method PutManifest(m: Manifest) returns (r: Result<Manifest>)
      modifies this`manifests
      ensures (State(), r) == ManifestPut(old(State()), m)
      ensures !WellFormed(m) ==> r == Err(IntegrityManifestInvalid) && State() == old(State())
      ensures r.Ok? ==>
                WellFormed(m) && r.value == m && manifests == old(manifests)[m.manifestId := m]
    {
      var verdict := ValidateManifest(m);
      if verdict.Reject? {
        return Err(verdict.Code());
      }
      hide Valid, Validate;
      for i := 0 to |m.chunks|
        invariant RegistrationFault(chunks, m.chunks) == RegistrationFault(chunks, m.chunks[i..])
        invariant State() == old(State())
      {
        var c := m.chunks[i];
        assert m.chunks[i..][0] == c && m.chunks[i..][1..] == m.chunks[i + 1..];
        if c.chunkId !in chunks {
          return Err(ChunkNotFound);
        }
        if chunks[c.chunkId].size != c.size {
          return Err(IntegrityManifestInvalid);
        }
      }
      if m.manifestId in manifests && manifests[m.manifestId] != m {
        return Err(IntegrityManifestInvalid);
      }
      manifests := manifests[m.manifestId := m];
      return Ok(m);
    }

    method CreateVersion(
      file: FileId, id: VersionId, parent: Option<VersionId>, manifest: ManifestId, now: Instant)
      returns (r: Result<Version>)
      modifies this`versions
      ensures (State(), r) == VersionCreated(old(State()), file, id, parent, manifest, now)
      ensures r.Ok? && id !in old(versions) ==>
                r.value == Version(id, file, parent, manifest, Candidate, now)
                && versions == old(versions)[id := r.value]
      ensures r.Ok? && id in old(versions) ==>
                && r.value == old(versions)[id] && versions == old(versions)
                && r.value.fileId == file && r.value.parent == parent && r.value.manifestId == manifest
    {
      if file !in files {
        return Err(FileNotFound);
      }
      if manifest !in manifests {
        return Err(ManifestNotFound);
      }
      if parent.Some? {
        if parent.value !in versions {
          return Err(VersionNotFound);
        }
        if versions[parent.value].fileId != file {
          return Err(IntegrityManifestInvalid);
        }
      }
      if id in versions {
        var existing := versions[id];
        if existing.fileId == file && existing.parent == parent && existing.manifestId == manifest {
          return Ok(existing);
        }
        return Err(IntegrityChunkIdConflict);
      }
      var version := Version(id, file, parent, manifest, Candidate, now);
      versions := versions[id := version];
      return Ok(version);
    }

    method CommitVersion(id: VersionId, now: Instant) returns (r: Result<Version>)
      modifies this`versions, this`files
      ensures (State(), r) == VersionCommitted(old(State()), id, now)
    {
      if id !in versions {
        return Err(VersionNotFound);
      }
      var version := versions[id];
      if version.state == Committed {
        return Ok(version);
      }
      if !version.state.CanTransitionTo(Committed) {
        return Err(IntegrityManifestInvalid);
      }
      if version.manifestId !in manifests {
        return Err(ManifestNotFound);
      }
      var verdict := ValidateManifest(manifests[version.manifestId]);
      if verdict.Reject? {
        return Err(verdict.Code());
      }
      var committed := version.(state := Committed);
      versions := versions[id := committed];
      if committed.fileId in files {
        files := files[committed.fileId := files[committed.fileId].(current := Some(id), modifiedAt := now)];
      }
      return Ok(committed);
    }

    method GetCurrentVersion(id: VersionId) returns (r: Result<Version>)
      ensures r == CommittedVersion(State(), id)
      ensures r.Ok? ==> id in versions && r.value == versions[id] && r.value.state == Committed
      ensures id in versions && versions[id].state == Candidate ==> r == Err(VersionNotFound)
    {
      if id in versions && versions[id].state == Committed {
        return Ok(versions[id]);
      }
      return Err(VersionNotFound);
    }
  }
}
