/** The running service: metadata requests, two-step chunk uploads and whole-file reads, interleaved
    at every lock acquisition. */
module Service {
  import opened Model
  import opened Validation
  import opened ObjectStore
  import opened Reassembly
  import opened Metadata
  import opened History

  /** An upload between its two locks, or answered. */
  datatype Upload = BlobStored(id: ChunkId, body: Blob) | Answered(reply: Result<Chunk>)

  /** A whole-file read: `size` is what the last size lookup returned, if the entry `next` has one. */
  datatype Read =
    | Reading(m: Manifest, next: nat, size: Option<U64>, out: Bytes)
    | Finished(m: Manifest, out: Bytes)
    | Failed(m: Manifest, code: ErrorCode)

  datatype System = System(meta: Meta, blobs: Blobs, uploads: map<nat, Upload>, readers: map<nat, Read>)

  const START := System(EMPTY, map[], map[], map[])

  /** One lock acquisition, or the start of a read. Requests are named by numbers. */
  datatype Action =
    | Call(e: Event)
    | StoreBlob(upload: nat, id: ChunkId, body: Blob)
    | RegisterBlob(upload: nat)
    | StartRead(read: nat, m: Manifest)
    | LookUpSize(read: nat)
    | ReadSlice(read: nat)

  /** Reads keep their buffer at full size, on a manifest that was accepted before allocation. */
  ghost predicate ReadShaped(r: Read) {
    r.Reading? ==> Valid(r.m) && r.next <= |r.m.entries| && |r.out| == r.m.totalSize
  }

  ghost predicate Shaped(s: System) {
    KeysLive(s.meta) && forall i | i in s.readers :: ReadShaped(s.readers[i])
  }

  /** Chunks are registered by uploads only; there is no request for it in the API. */
  ghost predicate Enabled(s: System, a: Action) {
    match a
    case Call(e) => !e.req.RegisterChunk? && Fresh(s.meta, e)
    case StoreBlob(i, _, _) => i !in s.uploads
    case RegisterBlob(i) => i in s.uploads && s.uploads[i].BlobStored?
    case StartRead(i, _) => i !in s.readers
    case LookUpSize(i) =>
      i in s.readers && s.readers[i].Reading? && s.readers[i].next < |s.readers[i].m.entries| && s.readers[i].size.None?
    case ReadSlice(i) =>
      i in s.readers && s.readers[i].Reading? && s.readers[i].next < |s.readers[i].m.entries| && s.readers[i].size.Some?
  }

  /** A read that has copied its last entry is done. */
  function Settle(m: Manifest, next: nat, out: Bytes): Read {
    if next == |m.entries| then Finished(m, out) else Reading(m, next, None, out)
  }

  function Started(m: Manifest): Read {
    if Valid(m) then Settle(m, 0, Zeros(m.totalSize)) else Failed(m, IntegrityManifestInvalid)
  }

  function SizeLookedUp(r: Read, blobs: Blobs): Read
    requires r.Reading? && r.next < |r.m.entries|
  {
    match HeadBlob(blobs, r.m.entries[r.next].chunkId)
    case Err(code) => Failed(r.m, code)
    case Ok(size) => r.(size := Some(size))
  }

  ghost function SliceRead(h: Hasher, r: Read, blobs: Blobs): Read
    requires r.Reading? && ReadShaped(r) && r.next < |r.m.entries| && r.size.Some?
  {
    match FetchEntry(h, Ok(r.size.value), blobs, r.m, r.next)
    case Err(code) => Failed(r.m, code)
    case Ok(bytes) =>
      FetchedEntryFits(h, Ok(r.size.value), blobs, r.m, r.next);
      Settle(r.m, r.next + 1, Splice(r.out, r.m.entries[r.next].logicalOffset, bytes))
  }

  /** The first lock of an upload: parse the id, then put the blob. */
  function BlobPut(h: Hasher, s: System, id: ChunkId, body: Blob): (Blobs, Upload) {
    if !ParsesAsChunkId(id) then (s.blobs, Answered(Err(InvalidParameter)))
    else
      var (blobs, r) := PutBlob(h, s.blobs, id, body);
      (blobs, if r.Ok? then BlobStored(id, body) else Answered(Err(r.code)))
  }

  ghost function Step(h: Hasher, s: System, a: Action): (t: System)
    requires Shaped(s) && Enabled(s, a)
    ensures Shaped(t)
  {
    match a
    case Call(e) => s.(meta := Serve(s.meta, e).0)
    case StoreBlob(i, id, body) =>
      var (blobs, upload) := BlobPut(h, s, id, body);
      s.(blobs := blobs, uploads := s.uploads[i := upload])
    case RegisterBlob(i) =>
      var (meta, r) := ChunkRegistered(s.meta, s.uploads[i].id, |s.uploads[i].body|);
      s.(meta := meta, uploads := s.uploads[i := Answered(r)])
    case StartRead(i, m) => s.(readers := s.readers[i := Started(m)])
    case LookUpSize(i) => s.(readers := s.readers[i := SizeLookedUp(s.readers[i], s.blobs)])
    case ReadSlice(i) =>
      assert ReadShaped(s.readers[i]);
      s.(readers := s.readers[i := SliceRead(h, s.readers[i], s.blobs)])
  }

  ghost predicate Runs(h: Hasher, s: System, acts: seq<Action>)
    requires Shaped(s)
    decreases |acts|, 0
  {
    acts == [] || (Runs(h, s, acts[..|acts| - 1])
                   && Enabled(End(h, s, acts[..|acts| - 1]), acts[|acts| - 1]))
  }

  /** The state at the end of an interleaving. */
  ghost function End(h: Hasher, s: System, acts: seq<Action>): (t: System)
    requires Shaped(s) && Runs(h, s, acts)
    ensures Shaped(t)
    decreases |acts|, 1
  {
    if acts == [] then s else Step(h, End(h, s, acts[..|acts| - 1]), acts[|acts| - 1])
  }

  // ---- two-store safety ----

  /** Each registered chunk has a stored blob with its address and exactly its size. */
  ghost predicate Backed(h: Hasher, s: System, id: ChunkId)
    requires id in s.meta.chunks
  {
    id in s.blobs && Verify(h, id, s.blobs[id]) && |s.blobs[id]| == s.meta.chunks[id].size
  }

  ghost predicate UploadOk(h: Hasher, s: System, u: Upload) {
    u.BlobStored? ==> u.id in s.blobs && s.blobs[u.id] == u.body && Verify(h, u.id, u.body)
  }

  ghost predicate Sound(h: Hasher, s: System) {
    && Shaped(s)
    && Consistent(s.meta)
    && (forall id | id in s.blobs :: Verify(h, id, s.blobs[id]))
    && (forall id | id in s.meta.chunks :: Backed(h, s, id))
    && (forall i | i in s.uploads :: UploadOk(h, s, s.uploads[i]))
  }

  /** In every sound state the second step of every pending upload succeeds: neither the size
      conflict nor the malformed id can happen there. */
  lemma RegistrationCannotFail(h: Hasher, s: System, i: nat)
    requires Sound(h, s) && i in s.uploads && s.uploads[i].BlobStored?
    ensures var u := s.uploads[i];
            ChunkRegistered(s.meta, u.id, |u.body|).1 == Ok(Chunk(u.id, |u.body|))
  {
    hide Valid, ManifestOk, VersionOk, FileOk, ParsesAsChunkId;
    var u := s.uploads[i];
    assert UploadOk(h, s, u);
    FromBytesParses(h, u.body);
    if u.id in s.meta.chunks {
      assert Backed(h, s, u.id) && ChunkOk(s.meta, u.id);
    }
  }

  /** What the service has stored is never lost or changed. */
  ghost predicate Extends(a: System, b: System) {
    && Grows(a.meta, b.meta)
    && Kept(a.blobs, b.blobs)
  }

  lemma RequestsDoNotRegister(s: Meta, e: Event)
    requires KeysLive(s) && !e.req.RegisterChunk?
    ensures Serve(s, e).0.chunks == s.chunks
  {
    hide Valid, RegistrationFault, KeysLive;
  }

  lemma RequestIsSound(h: Hasher, s: System, e: Event)
    requires Sound(h, s) && Enabled(s, Call(e))
    ensures Sound(h, Step(h, s, Call(e))) && Extends(s, Step(h, s, Call(e)))
  {
    hide Valid, Serve, Consistent, Grows, KeysLive, ReadShaped;
    ServeKeeps(s.meta, e) by { assert Consistent(s.meta); }
    ServeGrows(s.meta, e);
    RequestsDoNotRegister(s.meta, e);
    var t := Step(h, s, Call(e));
    forall id | id in t.meta.chunks ensures Backed(h, t, id) { assert Backed(h, s, id); }
    forall i | i in t.uploads ensures UploadOk(h, t, t.uploads[i]) { assert UploadOk(h, s, s.uploads[i]); }
  }

  lemma StoreBlobIsSound(h: Hasher, s: System, i: nat, id: ChunkId, body: Blob)
    requires Sound(h, s) && Enabled(s, StoreBlob(i, id, body))
    ensures Sound(h, Step(h, s, StoreBlob(i, id, body))) && Extends(s, Step(h, s, StoreBlob(i, id, body)))
  {
    hide Valid, Consistent, Grows, KeysLive, ReadShaped, ParsesAsChunkId, PutBlob;
    PutIsExact(h, s.blobs, id, body);
    GrowsToItself(s.meta);
    var t := Step(h, s, StoreBlob(i, id, body));
    assert Kept(s.blobs, t.blobs);
    forall k | k in t.meta.chunks ensures Backed(h, t, k) { assert Backed(h, s, k); }
    forall j | j in t.uploads ensures UploadOk(h, t, t.uploads[j]) {
      assert j != i ==> UploadOk(h, s, s.uploads[j]);
    }
  }

  lemma RegisterBlobIsSound(h: Hasher, s: System, i: nat)
    requires Sound(h, s) && Enabled(s, RegisterBlob(i))
    ensures Sound(h, Step(h, s, RegisterBlob(i))) && Extends(s, Step(h, s, RegisterBlob(i)))
  {
    hide Valid, Consistent, Grows, ReadShaped, ParsesAsChunkId;
    var u := s.uploads[i];
    var t := Step(h, s, RegisterBlob(i));
    ChunkRegisteredKeeps(s.meta, u.id, |u.body|);
    ServeGrows(s.meta, Event(RegisterChunk(u.id, |u.body|), FileId(0), Instant(0)));
    assert UploadOk(h, s, u);
    forall k | k in t.meta.chunks ensures Backed(h, t, k) {
      if k in s.meta.chunks { assert Backed(h, s, k); }
    }
    forall j | j in t.uploads ensures UploadOk(h, t, t.uploads[j]) {
      assert j != i ==> UploadOk(h, s, s.uploads[j]);
    }
  }

  /** Every step keeps the two stores in agreement and loses nothing. */
  lemma StepIsSound(h: Hasher, s: System, a: Action)
    requires Sound(h, s) && Enabled(s, a)
    ensures Sound(h, Step(h, s, a)) && Extends(s, Step(h, s, a))
  {
    hide Valid, Consistent, Grows, KeysLive, ReadShaped, Backed, UploadOk;
    match a
    case Call(e) => RequestIsSound(h, s, e);
    case StoreBlob(i, id, body) => StoreBlobIsSound(h, s, i, id, body);
    case RegisterBlob(i) => RegisterBlobIsSound(h, s, i);
    case _ => ReadStepIsSound(h, s, a);
  }

  lemma ReadStepIsSound(h: Hasher, s: System, a: Action)
    requires Sound(h, s) && Enabled(s, a) && (a.StartRead? || a.LookUpSize? || a.ReadSlice?)
    ensures Sound(h, Step(h, s, a)) && Extends(s, Step(h, s, a))
  {
    hide Valid, Consistent, Grows, KeysLive, ReadShaped, FetchEntry;
    GrowsToItself(s.meta);
    var t := Step(h, s, a);
    assert t.meta == s.meta && t.blobs == s.blobs && t.uploads == s.uploads;
    forall k | k in t.meta.chunks ensures Backed(h, t, k) { assert Backed(h, s, k); }
    forall j | j in t.uploads ensures UploadOk(h, t, t.uploads[j]) { assert UploadOk(h, s, s.uploads[j]); }
  }

  lemma {:induction false} EveryRunIsSound(h: Hasher, s: System, acts: seq<Action>)
    requires Sound(h, s) && Runs(h, s, acts)
    ensures Sound(h, End(h, s, acts)) && Extends(s, End(h, s, acts))
  {
    hide Sound, Shaped, Grows, Step, Enabled;
    if acts == [] {
      GrowsToItself(s.meta);
    } else {
      var init := acts[..|acts| - 1];
      ShapedIfSound(h, s);
      EveryRunIsSound(h, s, init);
      var mid := End(h, s, init);
      StepIsSound(h, mid, acts[|acts| - 1]);
      GrowsTransitively(s.meta, mid.meta, End(h, s, acts).meta);
    }
  }

  lemma ShapedIfSound(h: Hasher, s: System)
    requires Sound(h, s)
    ensures Shaped(s)
  {
  }

  /** Reachable: the end of some interleaving from the empty service. */
  ghost predicate Reachable(h: Hasher, s: System) {
    exists acts :: Runs(h, START, acts) && End(h, START, acts) == s
  }

  lemma ReachableIsSound(h: Hasher, s: System)
    requires Reachable(h, s)
    ensures Sound(h, s)
  {
    hide Step, Enabled;
    var acts :| Runs(h, START, acts) && End(h, START, acts) == s;
    EveryRunIsSound(h, START, acts);
  }

  /** Two-store safety: at every point of every interleaving, for any number of uploads in flight, a
      registered chunk is stored at its address with the registered size, and no upload that stored
      its blob can fail to register. No assumption about collisions is needed. */
  lemma TwoStoreSafety(h: Hasher, s: System)
    requires Reachable(h, s)
    ensures forall id | id in s.meta.chunks ::
              id in s.blobs && id == FromBytes(h, s.blobs[id]) && |s.blobs[id]| == s.meta.chunks[id].size
    ensures forall i | i in s.uploads && s.uploads[i].BlobStored? ::
              ChunkRegistered(s.meta, s.uploads[i].id, |s.uploads[i].body|).1
              == Ok(Chunk(s.uploads[i].id, |s.uploads[i].body|))
  {
    hide Reachable, ChunkRegistered;
    ReachableIsSound(h, s);
    forall id | id in s.meta.chunks
      ensures id in s.blobs && id == FromBytes(h, s.blobs[id]) && |s.blobs[id]| == s.meta.chunks[id].size
    {
      assert Backed(h, s, id);
    }
    forall i | i in s.uploads && s.uploads[i].BlobStored?
      ensures ChunkRegistered(s.meta, s.uploads[i].id, |s.uploads[i].body|).1
              == Ok(Chunk(s.uploads[i].id, |s.uploads[i].body|))
    {
      RegistrationCannotFail(h, s, i);
    }
  }

  // ---- uploads over runs ----

  /** Only its own registration touches an upload, which answers with the chunk as it is then
      registered. */
  lemma UploadSteps(h: Hasher, s: System, a: Action, i: nat)
    requires Sound(h, s) && Enabled(s, a) && i in s.uploads
    ensures var t := Step(h, s, a);
            && i in t.uploads
            && (a != RegisterBlob(i) ==> t.uploads[i] == s.uploads[i])
            && (a == RegisterBlob(i) ==>
                  && s.uploads[i].BlobStored?
                  && var c := Chunk(s.uploads[i].id, |s.uploads[i].body|);
                     t.uploads[i] == Answered(Ok(c)) && c.chunkId in t.meta.chunks && t.meta.chunks[c.chunkId] == c)
  {
    hide Valid, Serve, Consistent, Backed, UploadOk, ReadShaped, SliceRead, SizeLookedUp, ParsesAsChunkId;
    if a == RegisterBlob(i) {
      RegistrationCannotFail(h, s, i);
      ChunkRegisteredIsExact(s.meta, s.uploads[i].id, |s.uploads[i].body|);
    }
  }

  /** The chunk is registered. */
  ghost predicate Registered(s: Meta, c: Chunk) {
    c.chunkId in s.chunks && s.chunks[c.chunkId] == c
  }

  lemma {:induction false} StoredUploadRuns(h: Hasher, s: System, acts: seq<Action>, i: nat)
    requires Sound(h, s) && Runs(h, s, acts) && i in s.uploads && s.uploads[i].BlobStored?
    ensures i in End(h, s, acts).uploads
    ensures var (t, u) := (End(h, s, acts), s.uploads[i]);
            if RegisterBlob(i) in acts
            then t.uploads[i] == Answered(Ok(Chunk(u.id, |u.body|))) && Registered(t.meta, Chunk(u.id, |u.body|))
            else t.uploads[i] == u
  {
    hide Sound, Shaped, Step, Enabled, Grows;
    ShapedIfSound(h, s);
    if acts != [] {
      var init, last := acts[..|acts| - 1], acts[|acts| - 1];
      StoredUploadRuns(h, s, init, i);
      EveryRunIsSound(h, s, init);
      var mid := End(h, s, init);
      UploadSteps(h, mid, last, i);
      StepIsSound(h, mid, last);
      assert RegisterBlob(i) in acts <==> RegisterBlob(i) in init || last == RegisterBlob(i);
      if last == RegisterBlob(i) { assert RegisterBlob(i) !in init; }
      RegisteredIsKept(mid.meta, End(h, s, acts).meta, Chunk(s.uploads[i].id, |s.uploads[i].body|));
    }
  }

  lemma RegisteredIsKept(a: Meta, b: Meta, c: Chunk)
    requires Grows(a, b)
    ensures Registered(a, c) ==> Registered(b, c)
  {
  }

  lemma {:induction false} AnsweredUploadRuns(h: Hasher, s: System, acts: seq<Action>, i: nat)
    requires Sound(h, s) && Runs(h, s, acts) && i in s.uploads && s.uploads[i].Answered?
    ensures i in End(h, s, acts).uploads && End(h, s, acts).uploads[i] == s.uploads[i]
  {
    hide Sound, Shaped, Step, Enabled;
    ShapedIfSound(h, s);
    if acts != [] {
      var init := acts[..|acts| - 1];
      AnsweredUploadRuns(h, s, init, i);
      EveryRunIsSound(h, s, init);
      UploadSteps(h, End(h, s, init), acts[|acts| - 1], i);
    }
  }

  /** The fate of an upload, however its two steps are interleaved with anything else. Bytes under
      their own address, with no other bytes there when the blob is stored, stay stored; the upload
      is pending until its registration and is then answered with a chunk that stays registered. Any
      other upload stores nothing and is answered with its refusal at once. */
  lemma UploadIsAnswered(h: Hasher, s: System, i: nat, id: ChunkId, body: Blob, after: seq<Action>)
    requires Sound(h, s) && Shaped(s) && i !in s.uploads
    requires Runs(h, Step(h, s, StoreBlob(i, id, body)), after)
    ensures var stored := Step(h, s, StoreBlob(i, id, body));
            var t := End(h, stored, after);
            && i in t.uploads
            && if id == FromBytes(h, body) && (id in s.blobs ==> s.blobs[id] == body) then
                 && id in t.blobs && t.blobs[id] == body
                 && (RegisterBlob(i) !in after ==> t.uploads[i] == BlobStored(id, body))
                 && (RegisterBlob(i) in after ==>
                       t.uploads[i] == Answered(Ok(Chunk(id, |body|))) && Registered(t.meta, Chunk(id, |body|)))
               else
                 && stored.blobs == s.blobs
                 && t.uploads[i] ==
                    Answered(Err(if ParsesAsChunkId(id) then IntegrityChunkIdConflict else InvalidParameter))
  {
    hide Sound, Shaped, Runs, End, FromBytes, ParsesAsChunkId, PutBlob, Grows;
    FromBytesParses(h, body);
    PutIsExact(h, s.blobs, id, body);
    StepIsSound(h, s, StoreBlob(i, id, body));
    var stored := Step(h, s, StoreBlob(i, id, body));
    EveryRunIsSound(h, stored, after);
    if stored.uploads[i].BlobStored? {
      StoredUploadRuns(h, stored, after, i);
    } else {
      AnsweredUploadRuns(h, stored, after, i);
    }
  }

  // ---- committed content ----

  /** `m` is the manifest of a committed version. */
  ghost predicate CommittedManifest(s: Meta, v: VersionId, m: Manifest) {
    && CommittedVersion(s, v).Ok?
    && s.versions[v].manifestId in s.manifests
    && s.manifests[s.versions[v].manifestId] == m
  }

  /** A stored manifest is intact: everything it names is stored, addressed and sized as declared. */
  lemma StoredManifestIsIntact(h: Hasher, s: System, id: ManifestId)
    requires Sound(h, s) && id in s.meta.manifests
    ensures Valid(s.meta.manifests[id]) && Intact(h, s.blobs, s.meta.manifests[id])
  {
    hide Valid, Shaped, VersionOk, FileOk;
    var m := s.meta.manifests[id];
    assert ManifestOk(s.meta, id);
    ValidFacts(m);
    forall i | 0 <= i < |m.entries| ensures EntryIntact(h, s.blobs, m, m.entries[i]) {
      var e := m.entries[i];
      assert SliceFits(m, e);
      ChunkSizeFindsFirst(m.chunks, e.chunkId);
      var declared := Chunk(e.chunkId, ChunkSize(m.chunks, e.chunkId).value);
      assert declared in m.chunks;
      assert Backed(h, s, e.chunkId);
    }
  }

  lemma IntactIsKept(h: Hasher, a: Blobs, b: Blobs, m: Manifest)
    requires Kept(a, b) && Intact(h, a, m)
    ensures Intact(h, b, m)
  {
    forall i | 0 <= i < |m.entries| ensures EntryIntact(h, b, m, m.entries[i]) {
      assert EntryIntact(h, a, m, m.entries[i]);
    }
  }

  lemma {:induction false} ContentIsKept(a: Blobs, b: Blobs, m: Manifest, k: nat)
    requires Kept(a, b) && k <= |m.entries| && Readable(a, m, k)
    ensures Readable(b, m, k) && Content(b, m, k) == Content(a, m, k)
  {
    forall i | 0 <= i < k ensures EntryReadable(b, m.entries[i]) {
      assert EntryReadable(a, m.entries[i]);
    }
    if k > 0 { ContentIsKept(a, b, m, k - 1); }
  }

  /** A read of an intact manifest is on course: what it has copied is the content so far, and it
      can only have failed because some length does not fit 32 bits. */
  ghost predicate OnCourse(h: Hasher, blobs: Blobs, m: Manifest, r: Read)
    requires Valid(m) && Intact(h, blobs, m)
  {
    IntactIsReadable(h, blobs, m);
    var n := |m.entries|;
    && r.m == m
    && match r
       case Reading(_, next, size, out) =>
         && next < n && |out| == m.totalSize && Extent(m.entries, next) <= |out|
         && (forall i | 0 <= i < next :: m.entries[i].length <= U32_MAX)
         && out[..Extent(m.entries, next)] == Content(blobs, m, next)
       case Finished(_, out) => FitsU32(m) && out == Content(blobs, m, n)
       case Failed(_, code) => !FitsU32(m) && code == IntegrityLengthMismatch
  }

  lemma SettledOnCourse(h: Hasher, blobs: Blobs, m: Manifest, next: nat, out: Bytes)
    requires Valid(m) && Intact(h, blobs, m) && next <= |m.entries| && Readable(blobs, m, next)
    requires |out| == m.totalSize && Extent(m.entries, next) <= |out|
    requires forall i | 0 <= i < next :: m.entries[i].length <= U32_MAX
    requires out[..Extent(m.entries, next)] == Content(blobs, m, next)
    ensures OnCourse(h, blobs, m, Settle(m, next, out))
  {
    hide Valid, Intact;
    ValidFacts(m);
    if next == |m.entries| { assert out[..|out|] == out; }
  }

  lemma StartedOnCourse(h: Hasher, blobs: Blobs, m: Manifest)
    requires Valid(m) && Intact(h, blobs, m)
    ensures OnCourse(h, blobs, m, Started(m))
  {
    hide OnCourse;
    SettledOnCourse(h, blobs, m, 0, Zeros(m.totalSize));
  }

  lemma LookUpStaysOnCourse(h: Hasher, blobs: Blobs, m: Manifest, r: Read)
    requires Valid(m) && Intact(h, blobs, m) && r.Reading? && OnCourse(h, blobs, m, r)
    ensures OnCourse(h, blobs, m, SizeLookedUp(r, blobs))
  {
    hide Valid;
    assert EntryIntact(h, blobs, m, m.entries[r.next]);
  }

  lemma CourseSoFar(h: Hasher, blobs: Blobs, m: Manifest, r: Read)
    requires Valid(m) && Intact(h, blobs, m) && r.Reading? && OnCourse(h, blobs, m, r)
    ensures Readable(blobs, m, |m.entries|)
    ensures r.m == m && r.next < |m.entries| && |r.out| == m.totalSize && Extent(m.entries, r.next) <= |r.out|
    ensures forall i | 0 <= i < r.next :: m.entries[i].length <= U32_MAX
    ensures r.out[..Extent(m.entries, r.next)] == Content(blobs, m, r.next)
  {
    hide Valid, Intact;
    IntactIsReadable(h, blobs, m);
  }

  lemma FailedOnCourse(h: Hasher, blobs: Blobs, m: Manifest, i: nat)
    requires Valid(m) && Intact(h, blobs, m) && i < |m.entries| && m.entries[i].length > U32_MAX
    ensures OnCourse(h, blobs, m, Failed(m, IntegrityLengthMismatch))
  {
    hide Valid, Intact;
  }

  lemma SliceStaysOnCourse(h: Hasher, blobs: Blobs, m: Manifest, r: Read)
    requires Valid(m) && Intact(h, blobs, m) && r.Reading? && OnCourse(h, blobs, m, r)
    requires ReadShaped(r) && r.next < |r.m.entries| && r.size.Some?
    ensures OnCourse(h, blobs, m, SliceRead(h, r, blobs))
  {
    hide Valid, FetchEntry, OnCourse, Content, Slice, Splice, Settle, EntryReadable;
    CourseSoFar(h, blobs, m, r);
    var e := m.entries[r.next];
    assert EntryIntact(h, blobs, m, e);
    FetchIntactEntry(h, Ok(r.size.value), blobs, m, r.next);
    if e.length <= U32_MAX {
      FetchedEntryFits(h, Ok(r.size.value), blobs, m, r.next);
      ExtentGrows(m.entries, r.next + 1, |m.entries|);
      ValidFacts(m);
      SpliceExtendsPrefix(blobs, m, r.next, r.out);
      SettledOnCourse(h, blobs, m, r.next + 1, Splice(r.out, e.logicalOffset, Slice(blobs, e)));
    } else {
      FailedOnCourse(h, blobs, m, r.next);
    }
  }

  lemma OnCourseIsKept(h: Hasher, a: Blobs, b: Blobs, m: Manifest, r: Read)
    requires Kept(a, b) && Valid(m) && Intact(h, a, m) && Intact(h, b, m)
    ensures OnCourse(h, a, m, r) <==> OnCourse(h, b, m, r)
  {
    hide Valid, Intact, Kept;
    IntactIsReadable(h, a, m);
    IntactIsReadable(h, b, m);
    ContentIsKept(a, b, m, |m.entries|);
    if r.Reading? && r.next < |m.entries| { ContentIsKept(a, b, m, r.next); }
  }

  lemma StepKeepsCourse(h: Hasher, s: System, a: Action, m: Manifest, i: nat)
    requires Sound(h, s) && Enabled(s, a)
    requires Valid(m) && Intact(h, s.blobs, m) && i in s.readers && OnCourse(h, s.blobs, m, s.readers[i])
    ensures i in Step(h, s, a).readers && Intact(h, Step(h, s, a).blobs, m)
    ensures OnCourse(h, Step(h, s, a).blobs, m, Step(h, s, a).readers[i])
  {
    hide Valid, Intact, OnCourse, Consistent, SliceRead, SizeLookedUp, Serve, Backed, UploadOk, ReadShaped;
    StepIsSound(h, s, a);
    var t := Step(h, s, a);
    IntactIsKept(h, s.blobs, t.blobs, m);
    if a == LookUpSize(i) {
      LookUpStaysOnCourse(h, s.blobs, m, s.readers[i]);
    } else if a == ReadSlice(i) {
      SliceStaysOnCourse(h, s.blobs, m, s.readers[i]);
    } else {
      assert t.readers[i] == s.readers[i];
      OnCourseIsKept(h, s.blobs, t.blobs, m, s.readers[i]);
    }
  }

  lemma {:induction false} RunKeepsCourse(h: Hasher, s: System, acts: seq<Action>, m: Manifest, i: nat)
    requires Sound(h, s) && Runs(h, s, acts)
    requires Valid(m) && Intact(h, s.blobs, m) && i in s.readers && OnCourse(h, s.blobs, m, s.readers[i])
    ensures i in End(h, s, acts).readers && Intact(h, End(h, s, acts).blobs, m)
    ensures OnCourse(h, End(h, s, acts).blobs, m, End(h, s, acts).readers[i])
  {
    hide Valid, Intact, OnCourse, Sound, Shaped, Step, Enabled;
    ShapedIfSound(h, s);
    if acts != [] {
      var init := acts[..|acts| - 1];
      RunKeepsCourse(h, s, init, m, i);
      EveryRunIsSound(h, s, init);
      StepKeepsCourse(h, End(h, s, init), acts[|acts| - 1], m, i);
    }
  }

  /** How many lock acquisitions a read still needs. */
  ghost function Remaining(r: Read): nat
    requires ReadShaped(r)
  {
    if r.Reading? then 2 * (|r.m.entries| - r.next) + (if r.size.Some? then 0 else 1) else 0
  }

  /** A read in progress can always take its next step, which brings it closer to its end; the steps
      of others do not touch it. */
  lemma ReadsAdvance(h: Hasher, s: System, a: Action, i: nat)
    requires Shaped(s) && Enabled(s, a) && i in s.readers && s.readers[i].Reading?
    requires s.readers[i].next < |s.readers[i].m.entries|
    ensures Enabled(s, if s.readers[i].size.None? then LookUpSize(i) else ReadSlice(i))
    ensures i in Step(h, s, a).readers
    ensures a == LookUpSize(i) || a == ReadSlice(i) ==>
              Remaining(Step(h, s, a).readers[i]) < Remaining(s.readers[i])
    ensures a != LookUpSize(i) && a != ReadSlice(i) ==> Step(h, s, a).readers[i] == s.readers[i]
  {
    hide Valid, FetchEntry, Serve, KeysLive;
    assert ReadShaped(s.readers[i]);
  }

  /** How many of the actions are steps of read `i`. */
  function OwnSteps(acts: seq<Action>, i: nat): nat {
    if acts == [] then 0
    else
      OwnSteps(acts[..|acts| - 1], i)
      + (if acts[|acts| - 1] == LookUpSize(i) || acts[|acts| - 1] == ReadSlice(i) then 1 else 0)
  }

  lemma OneStepCounts(h: Hasher, s: System, a: Action, m: Manifest, i: nat)
    requires Sound(h, s) && Enabled(s, a)
    requires Valid(m) && Intact(h, s.blobs, m) && i in s.readers && OnCourse(h, s.blobs, m, s.readers[i])
    ensures ReadShaped(s.readers[i]) && i in Step(h, s, a).readers && ReadShaped(Step(h, s, a).readers[i])
    ensures Remaining(Step(h, s, a).readers[i]) + OwnSteps([a], i) <= Remaining(s.readers[i])
  {
    hide Valid, Intact, Consistent, SliceRead, SizeLookedUp, Serve, Backed, UploadOk, Remaining;
    assert Shaped(s) && Shaped(Step(h, s, a));
    if s.readers[i].Reading? {
      CourseSoFar(h, s.blobs, m, s.readers[i]);
      ReadsAdvance(h, s, a, i);
    } else {
      assert Step(h, s, a).readers[i] == s.readers[i];
    }
    assert OwnSteps([a], i) == if a == LookUpSize(i) || a == ReadSlice(i) then 1 else 0;
  }

  /** However the steps of others fall in between, each step of the read brings its end closer. */
  lemma {:induction false} OwnStepsCount(h: Hasher, s: System, acts: seq<Action>, m: Manifest, i: nat)
    requires Sound(h, s) && Runs(h, s, acts)
    requires Valid(m) && Intact(h, s.blobs, m) && i in s.readers && OnCourse(h, s.blobs, m, s.readers[i])
    ensures ReadShaped(s.readers[i])
    ensures i in End(h, s, acts).readers && ReadShaped(End(h, s, acts).readers[i])
    ensures Remaining(End(h, s, acts).readers[i]) + OwnSteps(acts, i) <= Remaining(s.readers[i])
  {
    hide Valid, Intact, OnCourse, Sound, Step, Enabled, Remaining, ReadShaped, KeysLive;
    ShapedIfSound(h, s);
    if acts != [] {
      var init := acts[..|acts| - 1];
      var last := acts[|acts| - 1];
      OwnStepsCount(h, s, init, m, i);
      RunKeepsCourse(h, s, init, m, i);
      EveryRunIsSound(h, s, init);
      OneStepCounts(h, End(h, s, init), last, m, i);
      assert OwnSteps(acts, i) == OwnSteps(init, i) + OwnSteps([last], i) by { OwnStepsOfLast(acts, i); }
    }
  }

  lemma OwnStepsOfLast(acts: seq<Action>, i: nat)
    requires acts != []
    ensures OwnSteps(acts, i) == OwnSteps(acts[..|acts| - 1], i) + OwnSteps([acts[|acts| - 1]], i)
  {
    assert [acts[|acts| - 1]][..0] == [];
  }

  /** A read that has just started is over after two steps of its own for each entry. */
  lemma EnoughStepsFinish(h: Hasher, s: System, acts: seq<Action>, m: Manifest, i: nat)
    requires Sound(h, s) && Runs(h, s, acts)
    requires Valid(m) && Intact(h, s.blobs, m) && i in s.readers && OnCourse(h, s.blobs, m, s.readers[i])
    requires s.readers[i] == Started(m) && OwnSteps(acts, i) >= 2 * |m.entries|
    ensures i in End(h, s, acts).readers && !End(h, s, acts).readers[i].Reading?
  {
    hide Intact, OnCourse, Sound, Runs, End, OwnSteps;
    ShapedIfSound(h, s);
    OwnStepsCount(h, s, acts, m, i);
    RunKeepsCourse(h, s, acts, m, i);
    var r := End(h, s, acts).readers[i];
    if r.Reading? { CourseSoFar(h, End(h, s, acts).blobs, m, r); }
  }

  lemma CommittedStaysCommitted(a: Meta, b: Meta, v: VersionId, m: Manifest)
    requires Grows(a, b) && CommittedManifest(a, v, m)
    ensures CommittedManifest(b, v, m)
  {
  }

  /** What a client of the committed manifest `m` can observe of its read. */
  ghost predicate ReadIsFaithful(m: Manifest, content: Bytes, r: Read) {
    && r.m == m
    && match r
       case Reading(_, next, _, _) => next < |m.entries|
       case Finished(_, out) => FitsU32(m) && out == content
       case Failed(_, code) => !FitsU32(m) && code == IntegrityLengthMismatch
  }

  /** Committed content is readable and frozen. Take any reachable state `s` in which `v` is committed
      with manifest `m`, let any steps happen, start a read of `m`, and let any steps happen again,
      the read's own among them. The version still has that manifest. If every entry length fits 32
      bits the read cannot fail, and after two steps of its own for each entry it has finished with
      the bytes that `m` named in `s`, whatever the others did in between; otherwise it cannot finish
      and can only report a length mismatch. */
  lemma CommittedContentIsFrozen(
    h: Hasher, s: System, v: VersionId, m: Manifest, before: seq<Action>, i: nat, after: seq<Action>)
    requires Shaped(s) && Reachable(h, s) && CommittedManifest(s.meta, v, m)
    requires Runs(h, s, before) && i !in End(h, s, before).readers
    requires Runs(h, Step(h, End(h, s, before), StartRead(i, m)), after)
    ensures Readable(s.blobs, m, |m.entries|)
    ensures var t := End(h, Step(h, End(h, s, before), StartRead(i, m)), after);
            && CommittedManifest(t.meta, v, m)
            && i in t.readers
            && ReadIsFaithful(m, Content(s.blobs, m, |m.entries|), t.readers[i])
            && (FitsU32(m) && OwnSteps(after, i) >= 2 * |m.entries| ==>
                  t.readers[i] == Finished(m, Content(s.blobs, m, |m.entries|)))
  {
    hide Valid, Intact, Sound, Shaped, Step, Reachable, Runs, End, OnCourse, Grows, Kept, CommittedManifest,
         Readable, Content, ReadIsFaithful, OwnSteps, FitsU32;
    ReachableIsSound(h, s);
    CommittedIsIntact(h, s, v, m);
    IntactIsReadable(h, s.blobs, m);
    EveryRunIsSound(h, s, before);
    var mid := End(h, s, before);
    IntactIsKept(h, s.blobs, mid.blobs, m);
    OnCourseFromStart(h, mid, m, i);
    var begun := Step(h, mid, StartRead(i, m));
    RunKeepsCourse(h, begun, after, m, i);
    EveryRunIsSound(h, begun, after);
    var t := End(h, begun, after);
    GrowsTransitively(s.meta, mid.meta, begun.meta);
    GrowsTransitively(s.meta, begun.meta, t.meta);
    KeptTransitively(s.blobs, mid.blobs, begun.blobs);
    KeptTransitively(s.blobs, begun.blobs, t.blobs);
    CommittedStaysCommitted(s.meta, t.meta, v, m);
    OnCourseIsKept(h, s.blobs, t.blobs, m, t.readers[i]);
    OnCourseIsFaithful(h, s.blobs, m, t.readers[i]);
    if FitsU32(m) && OwnSteps(after, i) >= 2 * |m.entries| {
      EnoughStepsFinish(h, begun, after, m, i);
      FaithfulAndOver(m, Content(s.blobs, m, |m.entries|), t.readers[i]);
    }
  }

  lemma FaithfulAndOver(m: Manifest, content: Bytes, r: Read)
    requires ReadIsFaithful(m, content, r) && FitsU32(m) && !r.Reading?
    ensures r == Finished(m, content)
  {
  }

  lemma OnCourseIsFaithful(h: Hasher, blobs: Blobs, m: Manifest, r: Read)
    requires Valid(m) && Intact(h, blobs, m) && OnCourse(h, blobs, m, r)
    ensures Readable(blobs, m, |m.entries|)
    ensures ReadIsFaithful(m, Content(blobs, m, |m.entries|), r)
  {
    hide Valid, Intact;
    IntactIsReadable(h, blobs, m);
  }

  lemma CommittedIsIntact(h: Hasher, s: System, v: VersionId, m: Manifest)
    requires Sound(h, s) && CommittedManifest(s.meta, v, m)
    ensures Valid(m) && Intact(h, s.blobs, m)
  {
    hide Valid, Intact, Sound;
    StoredManifestIsIntact(h, s, s.meta.versions[v].manifestId);
  }

  lemma OnCourseFromStart(h: Hasher, s: System, m: Manifest, i: nat)
    requires Sound(h, s) && i !in s.readers && Valid(m) && Intact(h, s.blobs, m)
    ensures Shaped(s)
    ensures var t := Step(h, s, StartRead(i, m));
            && Sound(h, t) && Extends(s, t) && Intact(h, t.blobs, m)
            && i in t.readers && OnCourse(h, t.blobs, m, t.readers[i])
            && t.readers[i] == Started(m)
  {
    hide Valid, Intact, OnCourse, Started, Consistent, Grows, ReadShaped;
    StepIsSound(h, s, StartRead(i, m));
    StartedOnCourse(h, s.blobs, m);
  }

  lemma KeptTransitively(a: Blobs, b: Blobs, c: Blobs)
    requires Kept(a, b) && Kept(b, c)
    ensures Kept(a, c)
  {
    forall id | id in a ensures id in c && c[id] == a[id] { assert id in b; }
  }

  // ---- reads are atomic ----

  ghost predicate NoFaultBefore(h: Hasher, blobs: Blobs, m: Manifest, k: nat)
    requires k <= |m.entries|
  {
    forall i | 0 <= i < k :: EntryFault(h, blobs, m, m.entries[i]).None?
  }

  /** The first `k` entries are without fault and `out` starts with their slices. */
  ghost predicate CopiedSoFar(h: Hasher, blobs: Blobs, m: Manifest, k: nat, out: Bytes) {
    && k <= |m.entries| && NoFaultBefore(h, blobs, m, k) && Readable(blobs, m, k)
    && |out| == m.totalSize && Extent(m.entries, k) <= |out|
    && out[..Extent(m.entries, k)] == Content(blobs, m, k)
  }

  /** A read that began on the blobs `was` stopped at entry `j`: the chunk was missing when it began,
      or it is there and at fault. */
  ghost predicate StoppedAt(h: Hasher, was: Blobs, blobs: Blobs, m: Manifest, j: nat, code: ErrorCode) {
    && j < |m.entries| && NoFaultBefore(h, blobs, m, j)
    && (if code == ChunkNotFound then m.entries[j].chunkId !in was
        else EntryFault(h, blobs, m, m.entries[j]) == Some(code))
  }

  /** How far a read of `m` has come, told from the blobs at its start and the blobs now. */
  ghost predicate Tracks(h: Hasher, was: Blobs, blobs: Blobs, m: Manifest, r: Read) {
    && r.m == m
    && match r
       case Reading(_, next, size, out) =>
         && Valid(m) && CopiedSoFar(h, blobs, m, next, out) && next < |m.entries|
         && (size.Some? ==> m.entries[next].chunkId in blobs)
       case Finished(_, out) => Valid(m) && CopiedSoFar(h, blobs, m, |m.entries|, out)
       case Failed(_, code) =>
         if Valid(m) then exists j: nat :: StoppedAt(h, was, blobs, m, j, code) else code == IntegrityManifestInvalid
  }

  lemma StartTracks(h: Hasher, blobs: Blobs, m: Manifest)
    ensures Tracks(h, blobs, blobs, m, Started(m))
  {
    hide Valid, EntryFault;
    if Valid(m) {
      ValidFacts(m);
      var out := Zeros(m.totalSize);
      assert CopiedSoFar(h, blobs, m, 0, out);
    }
  }

  lemma LookUpTracks(h: Hasher, was: Blobs, blobs: Blobs, m: Manifest, r: Read)
    requires Kept(was, blobs) && r.Reading? && Tracks(h, was, blobs, m, r)
    ensures r.m == m && r.next < |m.entries| && Tracks(h, was, blobs, m, SizeLookedUp(r, blobs))
  {
    hide Valid, EntryFault, CopiedSoFar;
    if HeadBlob(blobs, m.entries[r.next].chunkId).Err? {
      assert NoFaultBefore(h, blobs, m, r.next) by { CopiedIsWithoutFault(h, blobs, m, r.next, r.out); }
      assert StoppedAt(h, was, blobs, m, r.next, ChunkNotFound);
    }
  }

  lemma CopiedIsWithoutFault(h: Hasher, blobs: Blobs, m: Manifest, k: nat, out: Bytes)
    requires CopiedSoFar(h, blobs, m, k, out)
    ensures k <= |m.entries| && NoFaultBefore(h, blobs, m, k) && Readable(blobs, m, k)
  {
    hide EntryFault;
  }

  /** Copying the next slice of an entry without fault. */
  lemma CopyTracks(h: Hasher, blobs: Blobs, m: Manifest, k: nat, out: Bytes)
    requires Valid(m) && k < |m.entries| && CopiedSoFar(h, blobs, m, k, out)
    requires EntryFault(h, blobs, m, m.entries[k]).None? && EntryReadable(blobs, m.entries[k])
    requires m.entries[k].logicalOffset + m.entries[k].length <= |out|
    ensures CopiedSoFar(h, blobs, m, k + 1, Splice(out, m.entries[k].logicalOffset, Slice(blobs, m.entries[k])))
  {
    hide Valid, EntryFault;
    ValidFacts(m);
    assert InPlace(m.entries, k);
    ExtentGrows(m.entries, k + 1, |m.entries|);
    SpliceExtendsPrefix(blobs, m, k, out);
  }

  lemma SliceTracks(h: Hasher, was: Blobs, blobs: Blobs, m: Manifest, r: Read)
    requires r.Reading? && ReadShaped(r) && r.size.Some? && Tracks(h, was, blobs, m, r)
    ensures r.m == m && r.next < |m.entries| && Tracks(h, was, blobs, m, SliceRead(h, r, blobs))
  {
    hide Valid, EntryFault, CopiedSoFar, FetchEntry, Splice;
    var e := m.entries[r.next];
    CopiedIsWithoutFault(h, blobs, m, r.next, r.out);
    FetchEntryOutcome(h, Ok(r.size.value), blobs, m, r.next);
    PresentIsFound(h, blobs, m, e);
    if EntryFault(h, blobs, m, e).None? {
      FetchedEntryFits(h, Ok(r.size.value), blobs, m, r.next);
      CopyTracks(h, blobs, m, r.next, r.out);
    } else {
      assert StoppedAt(h, was, blobs, m, r.next, EntryFault(h, blobs, m, e).value);
    }
  }

  lemma PresentIsFound(h: Hasher, blobs: Blobs, m: Manifest, e: Entry)
    requires e.chunkId in blobs
    ensures EntryFault(h, blobs, m, e) != Some(ChunkNotFound)
    ensures EntryFault(h, blobs, m, e).None? ==> EntryReadable(blobs, e)
  {
  }

  /** A fault of a chunk that is there, or its absence of faults, stays. */
  lemma FaultIsKept(h: Hasher, a: Blobs, b: Blobs, m: Manifest, e: Entry)
    requires Kept(a, b)
    ensures e.chunkId in a ==> EntryFault(h, b, m, e) == EntryFault(h, a, m, e)
    ensures e.chunkId !in a ==> EntryFault(h, a, m, e) == Some(ChunkNotFound)
  {
    hide FromBytes, ChunkSize;
  }

  lemma NoFaultIsKept(h: Hasher, a: Blobs, b: Blobs, m: Manifest, k: nat)
    requires Kept(a, b) && k <= |m.entries| && NoFaultBefore(h, a, m, k)
    ensures NoFaultBefore(h, b, m, k)
  {
    hide EntryFault, Kept;
    forall i | 0 <= i < k ensures EntryFault(h, b, m, m.entries[i]).None? {
      FaultIsKept(h, a, b, m, m.entries[i]);
    }
  }

  lemma CopiedIsKept(h: Hasher, a: Blobs, b: Blobs, m: Manifest, k: nat, out: Bytes)
    requires Kept(a, b) && CopiedSoFar(h, a, m, k, out)
    ensures CopiedSoFar(h, b, m, k, out)
  {
    hide EntryFault, Kept;
    NoFaultIsKept(h, a, b, m, k);
    ContentIsKept(a, b, m, k);
  }

  lemma TracksIsKept(h: Hasher, was: Blobs, a: Blobs, b: Blobs, m: Manifest, r: Read)
    requires Kept(a, b) && Tracks(h, was, a, m, r)
    ensures Tracks(h, was, b, m, r)
  {
    hide Valid, EntryFault, CopiedSoFar;
    match r
    case Reading(_, next, _, out) => CopiedIsKept(h, a, b, m, next, out);
    case Finished(_, out) => CopiedIsKept(h, a, b, m, |m.entries|, out);
    case Failed(_, code) =>
      if Valid(m) {
        var j: nat :| StoppedAt(h, was, a, m, j, code);
        NoFaultIsKept(h, a, b, m, j);
        FaultIsKept(h, a, b, m, m.entries[j]);
        assert StoppedAt(h, was, b, m, j, code);
      }
  }

  lemma StepTracks(h: Hasher, s: System, a: Action, was: Blobs, m: Manifest, i: nat)
    requires Sound(h, s) && Enabled(s, a) && Kept(was, s.blobs)
    requires i in s.readers && Tracks(h, was, s.blobs, m, s.readers[i])
    ensures i in Step(h, s, a).readers && Tracks(h, was, Step(h, s, a).blobs, m, Step(h, s, a).readers[i])
  {
    hide Valid, Consistent, Tracks, SliceRead, SizeLookedUp, Serve, Backed, UploadOk, ReadShaped, Kept;
    StepIsSound(h, s, a);
    var t := Step(h, s, a);
    if a == LookUpSize(i) {
      LookUpTracks(h, was, s.blobs, m, s.readers[i]);
    } else if a == ReadSlice(i) {
      SliceTracks(h, was, s.blobs, m, s.readers[i]);
    } else {
      assert t.readers[i] == s.readers[i];
      TracksIsKept(h, was, s.blobs, t.blobs, m, s.readers[i]);
    }
  }

  lemma {:induction false} RunTracks(h: Hasher, s: System, acts: seq<Action>, was: Blobs, m: Manifest, i: nat)
    requires Sound(h, s) && Runs(h, s, acts) && Kept(was, s.blobs)
    requires i in s.readers && Tracks(h, was, s.blobs, m, s.readers[i])
    ensures i in End(h, s, acts).readers && Tracks(h, was, End(h, s, acts).blobs, m, End(h, s, acts).readers[i])
  {
    hide Sound, Shaped, Step, Enabled, Tracks, Grows, Kept;
    ShapedIfSound(h, s);
    if acts != [] {
      var init := acts[..|acts| - 1];
      RunTracks(h, s, init, was, m, i);
      EveryRunIsSound(h, s, init);
      KeptTransitively(was, s.blobs, End(h, s, init).blobs);
      StepTracks(h, End(h, s, init), acts[|acts| - 1], was, m, i);
    }
  }

  /** A missing chunk that stopped a read is a missing chunk of the read at its start. */
  lemma MissingAtStart(h: Hasher, was: Blobs, blobs: Blobs, m: Manifest, j: nat)
    requires Valid(m) && Kept(was, blobs) && StoppedAt(h, was, blobs, m, j, ChunkNotFound)
    ensures Reassembled(h, was, m) == Err(ChunkNotFound)
  {
    hide Valid, WellFormed, EntryFault, Reassembled, Kept;
    ValidationIsExact(m);
    var k := ReassemblyOutcome(h, was, m);
    FaultIsKept(h, was, blobs, m, m.entries[j]);
    assert k <= j;
    FaultIsKept(h, was, blobs, m, m.entries[k]);
  }

  lemma FaultAtEnd(h: Hasher, was: Blobs, blobs: Blobs, m: Manifest, j: nat, code: ErrorCode)
    requires Valid(m) && code != ChunkNotFound && StoppedAt(h, was, blobs, m, j, code)
    ensures Reassembled(h, blobs, m) == Err(code)
  {
    hide Valid, WellFormed, EntryFault, Reassembled;
    ValidationIsExact(m);
    var k := ReassemblyOutcome(h, blobs, m);
    assert k == j;
  }

  /** Reads are atomic although they take two locks for each entry: whatever is interleaved with a
      read of any manifest, its answer is the one that an uninterrupted read would have given at its
      end, or, for a missing chunk, at its start. */
  lemma ReadsAreAtomic(h: Hasher, s: System, m: Manifest, i: nat, after: seq<Action>)
    requires Sound(h, s) && Shaped(s) && i !in s.readers
    requires Runs(h, Step(h, s, StartRead(i, m)), after)
    ensures var t := End(h, Step(h, s, StartRead(i, m)), after);
            && i in t.readers && t.readers[i].m == m
            && (t.readers[i].Finished? ==> Reassembled(h, t.blobs, m) == Ok(t.readers[i].out))
            && (t.readers[i].Failed? && t.readers[i].code != ChunkNotFound ==>
                  Reassembled(h, t.blobs, m) == Err(t.readers[i].code))
            && (t.readers[i].Failed? && t.readers[i].code == ChunkNotFound ==>
                  Reassembled(h, s.blobs, m) == Err(ChunkNotFound))
  {
    hide Sound, Shaped, Runs, End, Grows, Started, Valid, Reassembled, Kept, StoppedAt, CopiedSoFar;
    StepIsSound(h, s, StartRead(i, m));
    var begun := Step(h, s, StartRead(i, m));
    assert begun.blobs == s.blobs && begun.readers[i] == Started(m);
    StartTracks(h, s.blobs, m);
    RunTracks(h, begun, after, s.blobs, m, i);
    EveryRunIsSound(h, begun, after);
    var t := End(h, begun, after);
    KeptTransitively(s.blobs, begun.blobs, t.blobs);
    TrackedAnswer(h, s.blobs, t.blobs, m, t.readers[i]);
  }

  lemma TrackedAnswer(h: Hasher, was: Blobs, blobs: Blobs, m: Manifest, r: Read)
    requires Kept(was, blobs) && Tracks(h, was, blobs, m, r)
    ensures r.m == m
    ensures r.Finished? ==> Reassembled(h, blobs, m) == Ok(r.out)
    ensures r.Failed? && r.code != ChunkNotFound ==> Reassembled(h, blobs, m) == Err(r.code)
    ensures r.Failed? && r.code == ChunkNotFound ==> Reassembled(h, was, m) == Err(ChunkNotFound)
  {
    hide Valid, WellFormed, Reassembled, EntryFault, StoppedAt, Kept;
    ValidationIsExact(m);
    if r.Finished? {
      ValidFacts(m);
      assert r.out[..|r.out|] == r.out;
      var k := ReassemblyOutcome(h, blobs, m);
    } else if r.Failed? && Valid(m) {
      var j: nat :| StoppedAt(h, was, blobs, m, j, r.code);
      if r.code == ChunkNotFound { MissingAtStart(h, was, blobs, m, j); } else { FaultAtEnd(h, was, blobs, m, j, r.code); }
    } else if r.Failed? {
      var k := ReassemblyOutcome(h, blobs, m);
    }
  }

  // ---- the 32-bit limit is reached by committed content ----

  lemma StepIsReachable(h: Hasher, s: System, a: Action)
    requires Reachable(h, s) && Shaped(s) && Enabled(s, a)
    ensures Reachable(h, Step(h, s, a))
  {
    hide Step, Enabled, Shaped;
    assert Shaped(START) by { StartIsShaped(); }
    var acts :| Runs(h, START, acts) && End(h, START, acts) == s;
    var more := acts + [a];
    assert more[..|more| - 1] == acts;
    assert Runs(h, START, more) && End(h, START, more) == Step(h, s, a);
  }

  lemma StartIsShaped()
    ensures Shaped(START)
  {
  }

  lemma StartIsReachable(h: Hasher)
    ensures Shaped(START) && Reachable(h, START)
  {
    hide Step, Enabled;
    assert Runs(h, START, []) && End(h, START, []) == START;
  }

  /** One body uploaded into the empty service. */
  lemma UploadedFirst(h: Hasher, body: Blob) returns (s: System)
    ensures Shaped(s) && Reachable(h, s) && s.meta == EMPTY.(chunks := s.meta.chunks)
    ensures s.meta.chunks == map[FromBytes(h, body) := Chunk(FromBytes(h, body), |body|)]
  {
    hide Reachable, ParsesAsChunkId, FromBytes;
    var id := FromBytes(h, body);
    FromBytesParses(h, body);
    StartIsReachable(h);
    StepIsReachable(h, START, StoreBlob(0, id, body));
    var stored := Step(h, START, StoreBlob(0, id, body));
    assert stored.uploads[0] == BlobStored(id, body);
    StepIsReachable(h, stored, RegisterBlob(0));
    s := Step(h, stored, RegisterBlob(0));
  }

  lemma CallIsReachable(h: Hasher, s: System, e: Event) returns (t: System)
    requires Shaped(s) && Reachable(h, s) && !e.req.RegisterChunk? && Fresh(s.meta, e)
    ensures Shaped(t) && Reachable(h, t) && t == s.(meta := Serve(s.meta, e).0)
  {
    hide Reachable, Serve;
    StepIsReachable(h, s, Call(e));
    t := Step(h, s, Call(e));
  }

  /** Every non-empty body can be committed as a file of one chunk. */
  lemma AnyBodyCanBeCommitted(h: Hasher, body: Blob, f: FileId, v: VersionId, id: ManifestId, now: Instant)
    returns (s: System)
    requires body != []
    ensures Shaped(s) && Reachable(h, s) && CommittedManifest(s.meta, v, WholeFile(h, id, body))
  {
    hide Reachable, Valid, Shaped, FromBytes, RegistrationFault;
    var m := WholeFile(h, id, body);
    WholeFileIsValid(h, id, body);
    s := UploadedFirst(h, body);
    NoRegistrationFaultMeans(s.meta.chunks, m.chunks);
    s := CallIsReachable(h, s, Event(CreateFile(DirectoryId(0), "file", "key"), f, now));
    assert f in s.meta.files && s.meta.chunks == map[FromBytes(h, body) := Chunk(FromBytes(h, body), |body|)];
    s := CallIsReachable(h, s, Event(PutManifest(m), f, now));
    assert f in s.meta.files && s.meta.manifests == map[id := m];
    s := CallIsReachable(h, s, Event(CreateVersion(f, v, None, id), f, now));
    assert s.meta.manifests == map[id := m] && v in s.meta.versions && s.meta.versions[v].manifestId == id;
    s := CallIsReachable(h, s, Event(CommitVersion(v), f, now));
  }

  /** The 32-bit limit matters: a file of one chunk of 2^32 bytes can be uploaded, published and
      committed, and then cannot be read. */
  lemma LargeFileIsCommittedButUnreadable(h: Hasher, v: VersionId, id: ManifestId) returns (s: System)
    ensures Reachable(h, s)
    ensures CommittedManifest(s.meta, v, WholeFile(h, id, Zeros(0x1_0000_0000)))
    ensures Reassembled(h, s.blobs, WholeFile(h, id, Zeros(0x1_0000_0000))) == Err(IntegrityLengthMismatch)
  {
    hide Reachable, Valid, Intact, Sound, CommittedManifest, Reassembled;
    var body := Zeros(0x1_0000_0000);
    var m := WholeFile(h, id, body);
    s := AnyBodyCanBeCommitted(h, body, FileId(0), v, id, Instant(0));
    ReachableIsSound(h, s);
    CommittedIsIntact(h, s, v, m);
    ReassembleIntact(h, s.blobs, m);
    assert m.entries[0].length > U32_MAX;
  }
}
