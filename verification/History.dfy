/** Whole runs of the metadata store: what every history of requests keeps, and what repeating a
    request does. */
module History {
  import opened Model
  import opened Validation
  import opened Metadata

  datatype Request =
    | CreateFile(parentId: DirectoryId, name: string, key: string)
    | RegisterChunk(id: ChunkId, size: U64)
    | PutManifest(m: Manifest)
    | CreateVersion(file: FileId, version: VersionId, parent: Option<VersionId>, manifest: ManifestId)
    | CommitVersion(commit: VersionId)

  /** A request as it was served: the id it would draw and the time it sees come from outside. */
  datatype Event = Event(req: Request, newId: FileId, now: Instant)

  datatype Answer = AFile(f: File) | AChunk(c: Chunk) | AManifest(m: Manifest) | AVersion(v: Version)

  /** Serve one request: the next state and the answer. */
  function Serve(s: Meta, e: Event): (served: (Meta, Result<Answer>))
    requires KeysLive(s)
    ensures KeysLive(served.0)
  {
    match e.req
    case CreateFile(parentId, name, key) =>
      var (t, r) := FileCreated(s, parentId, name, key, e.newId, e.now);
      (t, if r.Ok? then Ok(AFile(r.value)) else Err(r.code))
    case RegisterChunk(id, size) =>
      var (t, r) := ChunkRegistered(s, id, size);
      (t, if r.Ok? then Ok(AChunk(r.value)) else Err(r.code))
    case PutManifest(m) =>
      var (t, r) := ManifestPut(s, m);
      (t, if r.Ok? then Ok(AManifest(r.value)) else Err(r.code))
    case CreateVersion(file, version, parent, manifest) =>
      var (t, r) := VersionCreated(s, file, version, parent, manifest, e.now);
      (t, if r.Ok? then Ok(AVersion(r.value)) else Err(r.code))
    case CommitVersion(version) =>
      var (t, r) := VersionCommitted(s, version, e.now);
      (t, if r.Ok? then Ok(AVersion(r.value)) else Err(r.code))
  }

  /** Drawn file ids are new. */
  predicate Fresh(s: Meta, e: Event) {
    e.req.CreateFile? ==> e.newId !in s.files
  }

  function After(s: Meta, es: seq<Event>): (t: Meta)
    requires KeysLive(s)
    ensures KeysLive(t)
  {
    if es == [] then s else Serve(After(s, es[..|es| - 1]), es[|es| - 1]).0
  }

  ghost predicate Legal(s: Meta, es: seq<Event>)
    requires KeysLive(s)
  {
    es == [] || (Legal(s, es[..|es| - 1]) && Fresh(After(s, es[..|es| - 1]), es[|es| - 1]))
  }

  // ---- the invariant over every run ----

  lemma ServeKeeps(s: Meta, e: Event)
    requires Consistent(s) && Fresh(s, e)
    ensures Consistent(Serve(s, e).0)
  {
    hide Consistent, FileCreated, ChunkRegistered, ManifestPut, VersionCreated, VersionCommitted;
    match e.req
    case CreateFile(parentId, name, key) => FileCreatedKeeps(s, parentId, name, key, e.newId, e.now);
    case RegisterChunk(id, size) => ChunkRegisteredKeeps(s, id, size);
    case PutManifest(m) => ManifestPutKeeps(s, m);
    case CreateVersion(file, version, parent, manifest) =>
      VersionCreatedKeeps(s, file, version, parent, manifest, e.now);
    case CommitVersion(version) => VersionCommittedKeeps(s, version, e.now);
  }

  /** Every state of every run of a consistent store is consistent. */
  lemma {:induction false} RunsAreConsistent(s: Meta, es: seq<Event>)
    requires Consistent(s) && Legal(s, es)
    ensures Consistent(After(s, es))
  {
    hide Serve, FileOk, VersionOk, ManifestOk, ChunkOk, KeysLive;
    if es != [] {
      RunsAreConsistent(s, es[..|es| - 1]);
      ServeKeeps(After(s, es[..|es| - 1]), es[|es| - 1]);
    }
  }

  /** In every reachable state the invariant holds, a commit is refused only for an unknown version,
      and no version is its own parent. */
  lemma ReachableStatesAreSafe(es: seq<Event>, id: VersionId, now: Instant)
    requires Legal(EMPTY, es)
    ensures Consistent(After(EMPTY, es))
    ensures VersionCommitted(After(EMPTY, es), id, now).1.Err? ==>
              id !in After(EMPTY, es).versions
              && VersionCommitted(After(EMPTY, es), id, now) == (After(EMPTY, es), Err(VersionNotFound))
    ensures forall v | v in After(EMPTY, es).versions :: After(EMPTY, es).versions[v].parent != Some(v)
  {
    hide Serve, FileOk, VersionOk, ManifestOk, ChunkOk, VersionCommitted, Ranks;
    RunsAreConsistent(EMPTY, es);
    CommitFailsOnlyForUnknownVersions(After(EMPTY, es), id, now);
    forall v | v in After(EMPTY, es).versions ensures After(EMPTY, es).versions[v].parent != Some(v) {
      if After(EMPTY, es).versions[v].parent == Some(v) {
        var c := [v, v];
        assert c[0] == c[1];
        AncestryIsWellFounded(es, c);
      }
    }
  }

  // ---- nothing that was recorded is lost or altered ----

  ghost predicate SameVersion(a: Version, b: Version) {
    b == a || (a.state == Candidate && b == a.(state := Committed))
  }

  ghost predicate SameFile(a: File, b: File) {
    && b == a.(current := b.current, modifiedAt := b.modifiedAt)
    && (a.current.Some? ==> b.current.Some?)
  }

  ghost predicate Grows(a: Meta, b: Meta) {
    && (forall f | f in a.files :: f in b.files && SameFile(a.files[f], b.files[f]))
    && (forall k | k in a.keys :: k in b.keys && b.keys[k] == a.keys[k])
    && (forall v | v in a.versions :: v in b.versions && SameVersion(a.versions[v], b.versions[v]))
    && (forall id | id in a.manifests :: id in b.manifests && b.manifests[id] == a.manifests[id])
    && (forall id | id in a.chunks :: id in b.chunks && b.chunks[id] == a.chunks[id])
  }

  lemma GrowsToItself(a: Meta)
    ensures Grows(a, a)
  {
  }

  /** Adding a file under a new id and a new key. */
  lemma GrowsByFile(s: Meta, key: string, id: FileId, file: File)
    requires id !in s.files && key !in s.keys
    ensures Grows(s, s.(keys := s.keys[key := id], files := s.files[id := file]))
  {
  }

  lemma FileCreatedGrows(s: Meta, e: Event)
    requires KeysLive(s) && Fresh(s, e) && e.req.CreateFile?
    ensures Grows(s, FileCreated(s, e.req.parentId, e.req.name, e.req.key, e.newId, e.now).0)
  {
    hide Grows;
    if LegalName(e.req.name) && e.req.key !in s.keys {
      var file := File(e.newId, e.req.parentId, e.req.name, None, e.now, e.now);
      GrowsByFile(s, e.req.key, e.newId, file);
    } else {
      GrowsToItself(s);
    }
  }

  lemma ChunkOrManifestGrows(s: Meta, e: Event)
    ensures e.req.RegisterChunk? ==> Grows(s, ChunkRegistered(s, e.req.id, e.req.size).0)
    ensures e.req.PutManifest? ==> Grows(s, ManifestPut(s, e.req.m).0)
  {
    hide Valid, ParsesAsChunkId, RegistrationFault;
    if e.req.RegisterChunk? {
      var t := ChunkRegistered(s, e.req.id, e.req.size).0;
      assert t == s.(chunks := t.chunks);
    }
    if e.req.PutManifest? {
      var t := ManifestPut(s, e.req.m).0;
      assert t == s.(manifests := t.manifests);
    }
  }

  lemma VersionCreatedGrows(s: Meta, e: Event)
    requires e.req.CreateVersion?
    ensures Grows(s, VersionCreated(s, e.req.file, e.req.version, e.req.parent, e.req.manifest, e.now).0)
  {
    var t := VersionCreated(s, e.req.file, e.req.version, e.req.parent, e.req.manifest, e.now).0;
    assert t == s || (e.req.version !in s.versions
                      && t == s.(versions := s.versions[e.req.version := t.versions[e.req.version]]));
    hide VersionCreated;
  }

  lemma VersionCommittedGrows(s: Meta, e: Event)
    requires e.req.CommitVersion?
    ensures Grows(s, VersionCommitted(s, e.req.commit, e.now).0)
  {
    hide Valid;
    var id := e.req.commit;
    var t := VersionCommitted(s, id, e.now).0;
    if t != s {
      var f := s.versions[id].fileId;
      assert t.versions == s.versions[id := s.versions[id].(state := Committed)];
      assert f in s.files ==> t.files == s.files[f := t.files[f]] && SameFile(s.files[f], t.files[f]);
      assert f !in s.files ==> t.files == s.files;
      assert t == s.(versions := t.versions, files := t.files);
    }
  }

  /** One request only adds, except that a candidate may become committed and its file point to it;
      a refused request changes nothing. */
  lemma ServeGrows(s: Meta, e: Event)
    requires KeysLive(s) && Fresh(s, e)
    ensures Grows(s, Serve(s, e).0)
    ensures Serve(s, e).1.Err? ==> Serve(s, e).0 == s
  {
    hide Valid, ParsesAsChunkId, RegistrationFault, KeysLive, Grows;
    match e.req
    case CreateFile(_, _, _) => FileCreatedGrows(s, e);
    case RegisterChunk(_, _) => ChunkOrManifestGrows(s, e);
    case PutManifest(_) => ChunkOrManifestGrows(s, e);
    case CreateVersion(_, _, _, _) => VersionCreatedGrows(s, e);
    case CommitVersion(_) => VersionCommittedGrows(s, e);
  }

  lemma GrowsTransitively(a: Meta, b: Meta, c: Meta)
    requires Grows(a, b) && Grows(b, c)
    ensures Grows(a, c)
  {
    forall f | f in a.files ensures f in c.files && SameFile(a.files[f], c.files[f]) {
      assert f in b.files;
    }
    forall v | v in a.versions ensures v in c.versions && SameVersion(a.versions[v], c.versions[v]) {
      assert v in b.versions;
    }
  }

  lemma {:induction false} RunsGrow(s: Meta, es: seq<Event>, j: nat)
    requires KeysLive(s) && Legal(s, es) && j <= |es|
    ensures Grows(After(s, es[..j]), After(s, es))
    decreases |es|
  {
    hide Serve, KeysLive;
    if j == |es| {
      assert es[..j] == es;
    } else {
      var init := es[..|es| - 1];
      RunsGrow(s, init, j);
      assert init[..j] == es[..j];
      ServeGrows(After(s, init), es[|es| - 1]);
      GrowsTransitively(After(s, es[..j]), After(s, init), After(s, es));
    }
  }

  // ---- duplicated requests ----

  /** Both answers speak of the same object. */
  ghost predicate SameIdentity(a: Answer, b: Answer) {
    match a
    case AFile(f) => b.AFile? && SameFile(f, b.f)
    case AChunk(c) => b == a
    case AManifest(m) => b == a
    case AVersion(v) => b.AVersion? && SameVersion(v, b.v)
  }

  lemma RegisteredStays(a: map<ChunkId, Chunk>, b: map<ChunkId, Chunk>, declared: seq<Chunk>)
    requires forall id | id in a :: id in b && b[id] == a[id]
    requires RegistrationFault(a, declared).None?
    ensures RegistrationFault(b, declared).None?
  {
    hide RegistrationFault;
    NoRegistrationFaultMeans(a, declared);
    NoRegistrationFaultMeans(b, declared);
  }

  lemma RepeatedPutManifest(t: Meta, m: Manifest)
    requires Valid(m) && RegistrationFault(t.chunks, m.chunks).None?
    requires m.manifestId in t.manifests && t.manifests[m.manifestId] == m
    ensures ManifestPut(t, m) == (t, Ok(m))
  {
    hide Valid, RegistrationFault;
    assert t.manifests[m.manifestId := m] == t.manifests;
  }

  lemma RepeatedManifest(s: Meta, t: Meta, first: Event, again: Event)
    requires KeysLive(s) && Serve(s, first).1.Ok?
    requires KeysLive(t) && Grows(Serve(s, first).0, t)
    requires again.req == first.req && first.req.PutManifest?
    ensures Serve(t, again) == (t, Ok(AManifest(first.req.m)))
    ensures Serve(s, first).1 == Ok(AManifest(first.req.m))
  {
    hide Valid, RegistrationFault, KeysLive;
    var s' := Serve(s, first).0;
    var m := first.req.m;
    RegisteredStays(s'.chunks, t.chunks, m.chunks);
    assert m.manifestId in s'.manifests;
    RepeatedPutManifest(t, m);
  }

  lemma RepeatedFileOrChunk(s: Meta, t: Meta, first: Event, again: Event)
    requires KeysLive(s) && Serve(s, first).1.Ok?
    requires KeysLive(t) && Grows(Serve(s, first).0, t)
    requires again.req == first.req && (first.req.CreateFile? || first.req.RegisterChunk?)
    ensures Serve(t, again).0 == t && Serve(t, again).1.Ok?
    ensures SameIdentity(Serve(s, first).1.value, Serve(t, again).1.value)
  {
    hide ParsesAsChunkId, ManifestPut, VersionCreated, VersionCommitted;
    var s' := Serve(s, first).0;
    if first.req.CreateFile? {
      assert first.req.key in s'.keys && s'.keys[first.req.key] in s'.files;
    } else {
      assert first.req.id in s'.chunks;
    }
  }

  lemma RepeatedVersion(s: Meta, t: Meta, first: Event, again: Event)
    requires KeysLive(s) && Serve(s, first).1.Ok?
    requires KeysLive(t) && Grows(Serve(s, first).0, t)
    requires again.req == first.req && first.req.CreateVersion?
    ensures Serve(t, again).0 == t && Serve(t, again).1.Ok?
    ensures SameIdentity(Serve(s, first).1.value, Serve(t, again).1.value)
  {
    hide KeysLive, VersionCreated, Grows, SameVersion;
    var req := first.req;
    RepeatedCreateVersion(s, t, req.file, req.version, req.parent, req.manifest, first.now, again.now);
  }

  lemma RepeatedCreateVersion(
    s: Meta, t: Meta, file: FileId, id: VersionId, parent: Option<VersionId>, manifest: ManifestId,
    now: Instant, later: Instant)
    requires VersionCreated(s, file, id, parent, manifest, now).1.Ok?
    requires Grows(VersionCreated(s, file, id, parent, manifest, now).0, t)
    ensures VersionCreated(t, file, id, parent, manifest, later).0 == t
    ensures VersionCreated(t, file, id, parent, manifest, later).1.Ok?
    ensures SameVersion(VersionCreated(s, file, id, parent, manifest, now).1.value,
                        VersionCreated(t, file, id, parent, manifest, later).1.value)
  {
    var s' := VersionCreated(s, file, id, parent, manifest, now).0;
    assert id in s'.versions && file in s'.files && manifest in s'.manifests;
    assert parent.Some? ==> parent.value in s'.versions && s'.versions[parent.value].fileId == file;
  }

  lemma RepeatedCommit(s: Meta, t: Meta, first: Event, again: Event)
    requires KeysLive(s) && Serve(s, first).1.Ok?
    requires KeysLive(t) && Grows(Serve(s, first).0, t)
    requires again.req == first.req && first.req.CommitVersion?
    ensures Serve(t, again).0 == t && Serve(t, again).1.Ok?
    ensures SameIdentity(Serve(s, first).1.value, Serve(t, again).1.value)
  {
    hide Valid, KeysLive, FileCreated, ChunkRegistered, ManifestPut, VersionCreated;
    var s' := Serve(s, first).0;
    assert first.req.commit in s'.versions && s'.versions[first.req.commit].state == Committed;
  }

  /** A request that succeeded in `s`, served again in any later state, succeeds with the same
      identity and changes nothing. */
  lemma RepeatIsHarmless(s: Meta, t: Meta, first: Event, again: Event)
    requires KeysLive(s) && Serve(s, first).1.Ok?
    requires KeysLive(t) && Grows(Serve(s, first).0, t)
    requires again.req == first.req
    ensures Serve(t, again).0 == t && Serve(t, again).1.Ok?
    ensures SameIdentity(Serve(s, first).1.value, Serve(t, again).1.value)
  {
    hide KeysLive, Serve, Grows;
    match first.req
    case CreateFile(_, _, _) => RepeatedFileOrChunk(s, t, first, again);
    case RegisterChunk(_, _) => RepeatedFileOrChunk(s, t, first, again);
    case PutManifest(_) => RepeatedManifest(s, t, first, again);
    case CreateVersion(_, _, _, _) => RepeatedVersion(s, t, first, again);
    case CommitVersion(_) => RepeatedCommit(s, t, first, again);
  }

  ghost predicate SucceededAt(s: Meta, es: seq<Event>, k: nat)
    requires KeysLive(s) && k < |es|
  {
    Serve(After(s, es[..k]), es[k]).1.Ok?
  }

  /** The same request was already served with success in this history. */
  ghost predicate Done(s: Meta, es: seq<Event>, req: Request)
    requires KeysLive(s)
  {
    exists k | 0 <= k < |es| :: es[k].req == req && SucceededAt(s, es, k)
  }

  /** The history without the repetitions of requests that had succeeded before. */
  ghost function WithoutRepeats(s: Meta, es: seq<Event>): seq<Event>
    requires KeysLive(s)
  {
    if es == [] then []
    else
      var init := es[..|es| - 1];
      if Done(s, init, es[|es| - 1].req) then WithoutRepeats(s, init)
      else WithoutRepeats(s, init) + [es[|es| - 1]]
  }

  lemma RepeatInRunIsHarmless(s: Meta, es: seq<Event>, again: Event)
    requires KeysLive(s) && Legal(s, es) && Done(s, es, again.req)
    ensures Serve(After(s, es), again).0 == After(s, es)
    ensures Serve(After(s, es), again).1.Ok?
  {
    hide Serve, KeysLive, Grows;
    var k :| 0 <= k < |es| && es[k].req == again.req && SucceededAt(s, es, k);
    assert es[..k + 1][..k] == es[..k];
    assert After(s, es[..k + 1]) == Serve(After(s, es[..k]), es[k]).0;
    RunsGrow(s, es, k + 1);
    RepeatIsHarmless(After(s, es[..k]), After(s, es), es[k], again);
  }

  /** A history with repeated requests ends in the same state as the one without them, which is a
      legal history too. */
  lemma {:induction false} RepeatsDoNotMatter(s: Meta, es: seq<Event>)
    requires KeysLive(s) && Legal(s, es)
    ensures Legal(s, WithoutRepeats(s, es))
    ensures After(s, WithoutRepeats(s, es)) == After(s, es)
  {
    hide Serve, KeysLive, Fresh;
    if es != [] {
      var init := es[..|es| - 1];
      var last := es[|es| - 1];
      RepeatsDoNotMatter(s, init);
      if Done(s, init, last.req) {
        RepeatInRunIsHarmless(s, init, last);
      } else {
        var kept := WithoutRepeats(s, init) + [last];
        assert kept[..|kept| - 1] == WithoutRepeats(s, init);
      }
    }
  }

  // ---- version ancestry ----

  /** Each version of the sequence is the child of the next one. */
  ghost predicate Ancestry(s: Meta, c: seq<VersionId>) {
    && (forall i | 0 <= i < |c| :: c[i] in s.versions)
    && (forall i | 0 <= i < |c| - 1 :: s.versions[c[i]].parent == Some(c[i + 1]))
  }

  /** `rank` puts every version after its parent. */
  ghost predicate Ranks(s: Meta, rank: map<VersionId, nat>) {
    && (forall v | v in s.versions :: v in rank)
    && (forall v | v in s.versions && s.versions[v].parent.Some? ::
          s.versions[v].parent.value in rank && rank[s.versions[v].parent.value] < rank[v])
  }

  /** Only version creation adds a version or gives one a parent. */
  lemma ParentsAreFixed(s: Meta, e: Event)
    requires KeysLive(s)
    ensures var t := Serve(s, e).0;
            && (forall v | v in s.versions :: v in t.versions && t.versions[v].parent == s.versions[v].parent)
            && (forall v | v in t.versions && v !in s.versions ::
                  && e.req.CreateVersion? && v == e.req.version && t.versions[v].parent == e.req.parent
                  && (e.req.parent.Some? ==> e.req.parent.value in s.versions))
  {
    hide Valid, ParsesAsChunkId, RegistrationFault, KeysLive;
  }

  lemma ServeRanks(s: Meta, e: Event, rank: map<VersionId, nat>) returns (next: map<VersionId, nat>)
    requires Consistent(s) && Ranks(s, rank)
    ensures Ranks(Serve(s, e).0, next)
  {
    hide Serve, ManifestOk, FileOk, ChunkOk, KeysLive;
    assert KeysLive(s);
    ParentsAreFixed(s, e);
    next := rank;
    if e.req.CreateVersion? && e.req.version !in s.versions {
      var p := e.req.parent;
      next := rank[e.req.version := if p.Some? && p.value in rank then rank[p.value] + 1 else 0];
      forall v | v in s.versions && s.versions[v].parent.Some?
        ensures s.versions[v].parent.value != e.req.version
      {
        assert VersionOk(s, v);
      }
    }
  }

  lemma {:induction false} RunRanks(es: seq<Event>) returns (rank: map<VersionId, nat>)
    requires Legal(EMPTY, es)
    ensures Ranks(After(EMPTY, es), rank)
  {
    hide Serve, FileOk, VersionOk, ManifestOk, ChunkOk;
    if es == [] {
      rank := map[];
    } else {
      var init := es[..|es| - 1];
      var r := RunRanks(init);
      RunsAreConsistent(EMPTY, init);
      rank := ServeRanks(After(EMPTY, init), es[|es| - 1], r);
    }
  }

  lemma {:induction false} AncestryDescends(s: Meta, c: seq<VersionId>, rank: map<VersionId, nat>, i: nat, j: nat)
    requires Consistent(s) && Ranks(s, rank) && Ancestry(s, c) && i <= j < |c|
    ensures c[i] in rank && c[j] in rank && rank[c[i]] >= rank[c[j]] + (j - i)
    ensures c[i] in s.versions && c[j] in s.versions && s.versions[c[i]].fileId == s.versions[c[j]].fileId
    decreases j - i
  {
    hide ManifestOk, FileOk, ChunkOk;
    if i < j {
      AncestryDescends(s, c, rank, i, j - 1);
      assert VersionOk(s, c[j - 1]);
      assert s.versions[c[j - 1]].parent == Some(c[j - 1 + 1]);
    }
  }

  lemma {:induction false} DistinctFits<T>(c: seq<T>, all: set<T>)
    requires forall i | 0 <= i < |c| :: c[i] in all
    requires forall i, j | 0 <= i < j < |c| :: c[i] != c[j]
    ensures |c| <= |all|
  {
    if c != [] {
      var last := c[|c| - 1];
      DistinctFits(c[..|c| - 1], all - {last});
    }
  }

  /** In every reachable state a line of ancestors never repeats a version, stays in one file and is
      no longer than the number of versions, so following parents always ends. */
  lemma AncestryIsWellFounded(es: seq<Event>, c: seq<VersionId>)
    requires Legal(EMPTY, es) && Ancestry(After(EMPTY, es), c)
    ensures forall i, j | 0 <= i < j < |c| :: c[i] != c[j]
    ensures forall i, j | 0 <= i < j < |c| ::
              After(EMPTY, es).versions[c[i]].fileId == After(EMPTY, es).versions[c[j]].fileId
    ensures |c| <= |After(EMPTY, es).versions|
  {
    hide Serve, FileOk, VersionOk, ManifestOk, ChunkOk, Ranks;
    var s := After(EMPTY, es);
    RunsAreConsistent(EMPTY, es);
    var rank := RunRanks(es);
    forall i, j | 0 <= i < j < |c|
      ensures c[i] != c[j] && s.versions[c[i]].fileId == s.versions[c[j]].fileId
    {
      AncestryDescends(s, c, rank, i, j);
    }
    DistinctFits(c, s.versions.Keys);
  }

  // ---- the current version ----

  /** Event `k` committed version `v` of file `f` for the first time. */
  ghost predicate FirstCommit(es: seq<Event>, k: nat, f: FileId, v: VersionId)
    requires k < |es|
  {
    var s := After(EMPTY, es[..k]);
    && es[k].req == CommitVersion(v)
    && v in s.versions && s.versions[v].state == Candidate && s.versions[v].fileId == f
  }

  lemma FirstCommitInPrefix(es: seq<Event>, k: nat, f: FileId, v: VersionId)
    requires k < |es| - 1
    ensures FirstCommit(es, k, f, v) <==> FirstCommit(es[..|es| - 1], k, f, v)
  {
    hide Serve;
    assert es[..|es| - 1][..k] == es[..k];
  }

  /** Event `k` is the most recent first-time commit for `f`, and it was of `v`. */
  ghost predicate LatestFirstCommit(es: seq<Event>, k: nat, f: FileId, v: VersionId) {
    && k < |es|
    && FirstCommit(es, k, f, v)
    && forall j, w | k < j < |es| :: !FirstCommit(es, j, f, w)
  }

  ghost predicate NeverCommitted(es: seq<Event>, f: FileId) {
    forall k, v | 0 <= k < |es| :: !FirstCommit(es, k, f, v)
  }

  /** How one request moves a file's current version: to the version it commits for the first time,
      and otherwise not at all. */
  lemma CurrentMoves(s: Meta, e: Event, f: FileId)
    requires Consistent(s) && Fresh(s, e) && f in Serve(s, e).0.files
    ensures
      var first := e.req.CommitVersion? && e.req.commit in s.versions
                   && s.versions[e.req.commit].state == Candidate && s.versions[e.req.commit].fileId == f;
      Serve(s, e).0.files[f].current ==
        if first then Some(e.req.commit) else if f in s.files then s.files[f].current else None
  {
    hide Valid, ParsesAsChunkId, RegistrationFault, ManifestOk, FileOk, ChunkOk, VersionOk;
    if e.req.CommitVersion? {
      CommitFailsOnlyForUnknownVersions(s, e.req.commit, e.now);
    }
  }

  /** What a file's current version is, told from the history alone. */
  ghost predicate CurrentExplained(es: seq<Event>, f: FileId) {
    var s := After(EMPTY, es);
    if f in s.files && s.files[f].current.Some?
    then exists k: nat :: LatestFirstCommit(es, k, f, s.files[f].current.value)
    else NeverCommitted(es, f)
  }

  lemma LatestCarriesOver(es: seq<Event>, n: nat, f: FileId, v: VersionId)
    requires |es| == n + 1 && exists k: nat :: LatestFirstCommit(es[..n], k, f, v)
    requires forall w :: !FirstCommit(es, n, f, w)
    ensures exists k: nat :: LatestFirstCommit(es, k, f, v)
  {
    hide FirstCommit;
    var init := es[..|es| - 1];
    var k: nat :| LatestFirstCommit(init, k, f, v);
    FirstCommitInPrefix(es, k, f, v);
    forall j, w | k < j < |es| ensures !FirstCommit(es, j, f, w) {
      if j < |es| - 1 { FirstCommitInPrefix(es, j, f, w); }
    }
    assert LatestFirstCommit(es, k, f, v);
  }

  lemma NeverCarriesOver(es: seq<Event>, n: nat, f: FileId)
    requires |es| == n + 1 && NeverCommitted(es[..|es| - 1], f)
    requires forall w :: !FirstCommit(es, n, f, w)
    ensures NeverCommitted(es, f)
  {
    hide FirstCommit;
    forall k, v | 0 <= k < |es| ensures !FirstCommit(es, k, f, v) {
      if k < |es| - 1 { FirstCommitInPrefix(es, k, f, v); }
    }
  }

  /** In every run a file has a current version exactly when one of its versions was ever committed,
      and it is then the one whose first commit came last; committing an older one again does not
      move it. */
  lemma {:induction false} CurrentIsLatestFirstCommit(es: seq<Event>, f: FileId)
    requires Legal(EMPTY, es)
    ensures CurrentExplained(es, f)
  {
    hide Serve, FileOk, VersionOk, ManifestOk, ChunkOk, LatestFirstCommit, NeverCommitted;
    if es == [] {
      NothingCommitted(f);
    } else {
      var init := es[..|es| - 1];
      var n := |es| - 1;
      CurrentIsLatestFirstCommit(init, f);
      RunsAreConsistent(EMPTY, init);
      LastEventDecides(es, n, f);
      if w :| FirstCommit(es, n, f, w) {
        LatestAtEnd(es, f, w);
      } else if f in After(EMPTY, init).files && After(EMPTY, init).files[f].current.Some? {
        LatestCarriesOver(es, n, f, After(EMPTY, init).files[f].current.value);
      } else {
        NeverCarriesOver(es, n, f);
      }
    }
  }

  lemma NothingCommitted(f: FileId)
    ensures NeverCommitted([], f)
  {
  }

  lemma LatestAtEnd(es: seq<Event>, f: FileId, w: VersionId)
    requires es != [] && FirstCommit(es, |es| - 1, f, w)
    ensures LatestFirstCommit(es, |es| - 1, f, w)
  {
  }

  /** The last event moves the current version of `f` exactly when it is a first commit for `f`. */
  lemma LastEventDecides(es: seq<Event>, n: nat, f: FileId)
    requires |es| == n + 1 && Legal(EMPTY, es) && Consistent(After(EMPTY, es[..|es| - 1]))
    ensures var s := After(EMPTY, es[..|es| - 1]);
            var t := After(EMPTY, es);
            && (forall w :: FirstCommit(es, n, f, w) ==> f in t.files && t.files[f].current == Some(w))
            && ((forall w :: !FirstCommit(es, n, f, w)) && f in t.files ==>
                  t.files[f].current == if f in s.files then s.files[f].current else None)
            && (f in s.files ==> f in t.files)
  {
    hide Valid, ParsesAsChunkId, RegistrationFault, ManifestOk, FileOk, ChunkOk, Serve;
    var s := After(EMPTY, es[..|es| - 1]);
    var e := es[|es| - 1];
    ServeGrows(s, e);
    if f in Serve(s, e).0.files { CurrentMoves(s, e, f); }
    if e.req.CommitVersion? {
      assert FirstCommit(es, n, f, e.req.commit) <==>
             e.req.commit in s.versions && s.versions[e.req.commit].state == Candidate
             && s.versions[e.req.commit].fileId == f;
      assert e.req.commit in s.versions ==> VersionOk(s, e.req.commit);
    }
  }

  // ---- what readers see ----

  /** Event `k` committed version `v` for the first time. */
  ghost predicate FirstCommitOf(es: seq<Event>, k: nat, v: VersionId)
    requires k < |es|
  {
    exists f :: FirstCommit(es, k, f, v)
  }

  ghost predicate EverCommitted(es: seq<Event>, v: VersionId) {
    exists k | 0 <= k < |es| :: FirstCommitOf(es, k, v)
  }

  lemma FirstCommitOfInPrefix(es: seq<Event>, k: nat, v: VersionId)
    requires k < |es| - 1
    ensures FirstCommitOf(es, k, v) <==> FirstCommitOf(es[..|es| - 1], k, v)
  {
    hide FirstCommit;
    var init := es[..|es| - 1];
    if f :| FirstCommit(es, k, f, v) {
      FirstCommitInPrefix(es, k, f, v);
      assert FirstCommit(init, k, f, v);
    }
    if f :| FirstCommit(init, k, f, v) { FirstCommitInPrefix(es, k, f, v); }
  }

  /** Only a commit changes the state of a version, and new versions are candidates. */
  lemma OnlyCommitsCommit(s: Meta, e: Event, v: VersionId)
    requires KeysLive(s) && !e.req.CommitVersion?
    ensures var t := Serve(s, e).0;
            if v in s.versions then v in t.versions && t.versions[v] == s.versions[v]
            else v in t.versions ==> t.versions[v].state == Candidate
  {
    hide Valid, ParsesAsChunkId, RegistrationFault, KeysLive;
  }

  /** One request makes visible the version that it commits, and no other, and hides none. */
  lemma VisibilityMoves(s: Meta, e: Event, v: VersionId)
    requires Consistent(s) && Fresh(s, e)
    ensures CommittedVersion(Serve(s, e).0, v).Ok? <==>
            CommittedVersion(s, v).Ok?
            || (e.req == CommitVersion(v) && v in s.versions && s.versions[v].state == Candidate)
  {
    hide FileOk, VersionOk, ManifestOk, ChunkOk, KeysLive, FileCreated, ChunkRegistered, ManifestPut, VersionCreated,
         VersionCommitted;
    if e.req.CommitVersion? {
      CommitFailsOnlyForUnknownVersions(s, e.req.commit, e.now);
      assert e.req == CommitVersion(e.req.commit);
    } else {
      OnlyCommitsCommit(s, e, v);
    }
  }

  lemma LastCommitOf(es: seq<Event>, n: nat, v: VersionId)
    requires |es| == n + 1
    ensures FirstCommitOf(es, n, v) <==>
            var s := After(EMPTY, es[..n]);
            es[n].req == CommitVersion(v) && v in s.versions && s.versions[v].state == Candidate
  {
    hide Serve;
    var s := After(EMPTY, es[..n]);
    if es[n].req == CommitVersion(v) && v in s.versions && s.versions[v].state == Candidate {
      assert FirstCommit(es, n, s.versions[v].fileId, v);
    }
  }

  /** Readers see a version exactly when it was committed at some point of the run: a candidate is
      never visible, and a committed version never disappears. */
  lemma {:induction false} VisibleIffCommitted(es: seq<Event>, v: VersionId)
    requires Legal(EMPTY, es)
    ensures CommittedVersion(After(EMPTY, es), v).Ok? <==> EverCommitted(es, v)
  {
    hide Serve, FileOk, VersionOk, ManifestOk, ChunkOk, FirstCommitOf, CommittedVersion;
    if es == [] {
      CommittedVersionIsExact(EMPTY, v, Version(v, FileId(0), None, ManifestId(0), Committed, Instant(0)));
    } else {
      var n := |es| - 1;
      var init := es[..n];
      VisibleIffCommitted(init, v);
      RunsAreConsistent(EMPTY, init);
      VisibilityMoves(After(EMPTY, init), es[n], v);
      LastCommitOf(es, n, v);
      EverSplits(es, n, v);
    }
  }

  lemma EverSplits(es: seq<Event>, n: nat, v: VersionId)
    requires |es| == n + 1
    ensures EverCommitted(es, v) <==> EverCommitted(es[..n], v) || FirstCommitOf(es, n, v)
  {
    hide FirstCommitOf;
    forall k | 0 <= k < n ensures FirstCommitOf(es, k, v) <==> FirstCommitOf(es[..n], k, v) {
      FirstCommitOfInPrefix(es, k, v);
    }
  }

  /** The answer to a request is what the store then holds under the identity that was asked for. */
  ghost predicate AnswerIsStored(t: Meta, e: Event, a: Answer) {
    match e.req
    case CreateFile(_, _, key) => a.AFile? && key in t.keys && t.keys[key] in t.files && a.f == t.files[t.keys[key]]
    case RegisterChunk(id, size) => a == AChunk(Chunk(id, size)) && id in t.chunks && t.chunks[id] == a.c
    case PutManifest(m) => a == AManifest(m) && m.manifestId in t.manifests && t.manifests[m.manifestId] == m
    case CreateVersion(file, version, parent, manifest) =>
      && a.AVersion? && version in t.versions && t.versions[version] == a.v
      && a.v == Version(version, file, parent, manifest, a.v.state, a.v.createdAt)
    case CommitVersion(version) =>
      a.AVersion? && version in t.versions && t.versions[version] == a.v && a.v.state == Committed
  }

  lemma AnswersAreStored(s: Meta, e: Event)
    requires Consistent(s) && Fresh(s, e) && Serve(s, e).1.Ok?
    ensures AnswerIsStored(Serve(s, e).0, e, Serve(s, e).1.value)
  {
    hide Consistent, Valid, WellFormed, ParsesAsChunkId, RegistrationFault, VersionCommitted, VersionCreated, ManifestPut,
         ChunkRegistered, NamesExist;
    match e.req
    case CreateFile(_, _, _) =>
    case RegisterChunk(id, size) => ChunkRegisteredIsExact(s, id, size);
    case PutManifest(m) => ManifestPutIsExact(s, m);
    case CreateVersion(file, version, parent, manifest) =>
      VersionCreatedIsExact(s, file, version, parent, manifest, e.now);
    case CommitVersion(version) => CommitFailsOnlyForUnknownVersions(s, version, e.now);
  }

  /** Why a request can be refused with this code. */
  ghost predicate HasReason(s: Meta, req: Request, code: ErrorCode) {
    match req
    case CreateFile(_, name, _) => code == InvalidParameter && !LegalName(name)
    case RegisterChunk(id, size) =>
      if ParsesAsChunkId(id)
      then code == IntegrityChunkIdConflict && id in s.chunks && s.chunks[id].size != size
      else code == InvalidParameter
    case PutManifest(m) =>
      || (code == ChunkNotFound && exists c :: c in m.chunks && c.chunkId !in s.chunks)
      || (code == IntegrityManifestInvalid
          && (WellFormed(m) && (forall c | c in m.chunks :: RegisteredAs(s.chunks, c)) ==>
                m.manifestId in s.manifests && s.manifests[m.manifestId] != m))
    case CreateVersion(file, version, parent, manifest) =>
      if file !in s.files then code == FileNotFound
      else if manifest !in s.manifests then code == ManifestNotFound
      else if parent.Some? && parent.value !in s.versions then code == VersionNotFound
      else if !NamesExist(s, file, parent, manifest) then code == IntegrityManifestInvalid
      else code == IntegrityChunkIdConflict && version in s.versions
    case CommitVersion(version) => code == VersionNotFound && version !in s.versions
  }

  /** Every refusal has its reason in the state, and changes nothing. */
  lemma RefusalsHaveReasons(s: Meta, e: Event)
    requires Consistent(s) && Fresh(s, e) && Serve(s, e).1.Err?
    ensures HasReason(s, e.req, Serve(s, e).1.code) && Serve(s, e).0 == s
  {
    hide Consistent, Valid, WellFormed, ParsesAsChunkId, RegistrationFault, VersionCommitted, VersionCreated,
         ChunkRegistered, NamesExist;
    match e.req
    case CreateFile(_, _, _) =>
    case RegisterChunk(id, size) => ChunkRegisteredIsExact(s, id, size);
    case PutManifest(m) =>
      ManifestPutIsExact(s, m);
      FaultHasReason(s.chunks, m.chunks);
    case CreateVersion(file, version, parent, manifest) =>
      assert e.req == CreateVersion(file, version, parent, manifest);
      VersionRefusalHasReason(s, file, version, parent, manifest, e.now);
    case CommitVersion(version) => CommitFailsOnlyForUnknownVersions(s, version, e.now);
  }

  lemma VersionRefusalHasReason(
    s: Meta, file: FileId, id: VersionId, parent: Option<VersionId>, manifest: ManifestId, now: Instant)
    requires VersionCreated(s, file, id, parent, manifest, now).1.Err?
    ensures VersionCreated(s, file, id, parent, manifest, now).0 == s
    ensures HasReason(s, CreateVersion(file, id, parent, manifest),
                      VersionCreated(s, file, id, parent, manifest, now).1.code)
  {
  }

  lemma {:induction false} FaultHasReason(registered: map<ChunkId, Chunk>, declared: seq<Chunk>)
    ensures RegistrationFault(registered, declared) == Some(ChunkNotFound) ==>
              exists c :: c in declared && c.chunkId !in registered
    ensures RegistrationFault(registered, declared).Some? ==>
              RegistrationFault(registered, declared).value in {ChunkNotFound, IntegrityManifestInvalid}
  {
    if declared != [] {
      assert declared[0] in declared && forall c | c in declared[1..] :: c in declared;
      FaultHasReason(registered, declared[1..]);
    }
  }
}
