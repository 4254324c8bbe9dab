/** A blob store under arbitrary faults, and what a read then reports. */
module Faults {
  import opened Model
  import opened Validation
  import opened ObjectStore
  import opened RangeRead
  import opened Reassembly

  datatype StoreOp =
    | Put(id: ChunkId, body: Blob)
    | Flip(id: ChunkId, at: nat)
    | Truncate(id: ChunkId, len: nat)
    | Delete(id: ChunkId)

  function Perform(h: Hasher, blobs: Blobs, op: StoreOp): Blobs {
    match op
    case Put(id, body) => PutBlob(h, blobs, id, body).0
    case Flip(id, at) => FlipStored(blobs, id, at)
    case Truncate(id, len) => TruncateStored(blobs, id, len)
    case Delete(id) => DeleteStored(blobs, id)
  }

  function PerformAll(h: Hasher, ops: seq<StoreOp>): Blobs {
    if ops == [] then map[] else Perform(h, PerformAll(h, ops[..|ops| - 1]), ops[|ops| - 1])
  }

  type Originals = map<ChunkId, Blob>

  /** Each original is the body that its id addresses. */
  ghost predicate Addressed(h: Hasher, originals: Originals) {
    forall id | id in originals :: id == FromBytes(h, originals[id])
  }

  /** No put of the run offers other bytes that have the address of an original. */
  ghost predicate NoForgedPut(h: Hasher, ops: seq<StoreOp>, originals: Originals) {
    forall i | 0 <= i < |ops| && ops[i].Put? && ops[i].id in originals && Verify(h, ops[i].id, ops[i].body) ::
      ops[i].body == originals[ops[i].id]
  }

  /** No stored body that differs from its original has the address of it. */
  ghost predicate NoForgedBlob(h: Hasher, blobs: Blobs, originals: Originals) {
    forall id | id in originals && id in blobs && Verify(h, id, blobs[id]) :: blobs[id] == originals[id]
  }

  ghost predicate NoLonger(blobs: Blobs, originals: Originals) {
    forall id | id in originals && id in blobs :: |blobs[id]| <= |originals[id]|
  }

  /** Faults never make a stored body longer than its original. */
  lemma {:induction false} FaultsNeverLengthen(h: Hasher, ops: seq<StoreOp>, originals: Originals)
    requires NoForgedPut(h, ops, originals)
    ensures NoLonger(PerformAll(h, ops), originals)
  {
    hide Verify;
    if ops != [] {
      var init := ops[..|ops| - 1];
      assert forall i | 0 <= i < |init| :: init[i] == ops[i];
      FaultsNeverLengthen(h, init, originals);
      OpNeverLengthens(h, PerformAll(h, init), ops[|ops| - 1], originals);
    }
  }

  lemma OpNeverLengthens(h: Hasher, blobs: Blobs, op: StoreOp, originals: Originals)
    requires NoLonger(blobs, originals)
    requires op.Put? && op.id in originals && Verify(h, op.id, op.body) ==> op.body == originals[op.id]
    ensures NoLonger(Perform(h, blobs, op), originals)
  {
    hide Verify;
  }

  /** The error code for a stored copy that is not as it was. */
  function HarmCode(blobs: Blobs, original: Blob, id: ChunkId): ErrorCode {
    if id !in blobs then ChunkNotFound
    else if |blobs[id]| < |original| then IntegrityLengthMismatch
    else IntegrityHashMismatch
  }

  /** What is wrong with the stored copy of a chunk, if anything. */
  function Diagnosis(blobs: Blobs, original: Blob, id: ChunkId): Option<ErrorCode> {
    if id in blobs && blobs[id] == original then None else Some(HarmCode(blobs, original, id))
  }

  /** Every entry covers the whole of a chunk of 32-bit size whose original is known. */
  ghost predicate WholeChunks(m: Manifest, originals: Originals) {
    forall i | 0 <= i < |m.entries| :: WholeChunk(m, originals, m.entries[i])
  }

  ghost predicate WholeChunk(m: Manifest, originals: Originals, e: Entry) {
    && e.chunkOffset == 0 && ChunkSize(m.chunks, e.chunkId) == Some(e.length)
    && e.length <= U32_MAX
    && e.chunkId in originals && |originals[e.chunkId]| == e.length
  }

  /** The first entry whose stored chunk is not as it was, searching from `k` on. */
  function FirstBad(blobs: Blobs, originals: Originals, m: Manifest, k: nat): Option<nat>
    requires k <= |m.entries|
    requires forall i | 0 <= i < |m.entries| :: m.entries[i].chunkId in originals
    decreases |m.entries| - k
  {
    if k == |m.entries| then None
    else
      var id := m.entries[k].chunkId;
      if Diagnosis(blobs, originals[id], id).Some? then Some(k) else FirstBad(blobs, originals, m, k + 1)
  }

  /** The stored bodies are no longer than their originals, and none that differs from its original
      passes for it. */
  ghost predicate Damaged(h: Hasher, blobs: Blobs, originals: Originals) {
    && Addressed(h, originals)
    && NoLonger(blobs, originals)
    && NoForgedBlob(h, blobs, originals)
  }

  lemma DamagedVerifies(h: Hasher, blobs: Blobs, originals: Originals, id: ChunkId)
    requires Damaged(h, blobs, originals) && id in blobs && id in originals
    ensures Verify(h, id, blobs[id]) <==> blobs[id] == originals[id]
  {
    hide FromBytes;
  }

  /** One entry: the read returns the original, or exactly the diagnosis. */
  lemma FetchReportsDiagnosis(h: Hasher, blobs: Blobs, originals: Originals, m: Manifest, i: nat)
    requires Valid(m) && i < |m.entries| && Damaged(h, blobs, originals) && WholeChunks(m, originals)
    ensures var id := m.entries[i].chunkId;
            id in originals &&
            FetchEntry(h, HeadBlob(blobs, id), blobs, m, i) ==
              match Diagnosis(blobs, originals[id], id)
              case None => Ok(originals[id])
              case Some(code) => Err(code)
  {
    hide Valid, FetchRange, FromBytes, ParsesAsChunkId;
    ValidFacts(m);
    var e := m.entries[i];
    var id := e.chunkId;
    assert InPlace(m.entries, i) && WholeChunk(m, originals, e);
    var head := HeadBlob(blobs, id);
    FromBytesParses(h, originals[id]);
    RangeReadIsExactOrAnError(h, head, blobs, id, 0, e.length);
    RangeReadOutcome(h, head, blobs, id, 0, e.length);
    if id in blobs {
      DamagedVerifies(h, blobs, originals, id);
      if |blobs[id]| == e.length { assert blobs[id][0..e.length] == blobs[id]; }
    }
  }

  /** The originals of the first `k` entries, one after the other. */
  ghost function OriginalContent(originals: Originals, m: Manifest, k: nat): Bytes
    requires k <= |m.entries|
    requires forall i | 0 <= i < |m.entries| :: m.entries[i].chunkId in originals
  {
    if k == 0 then [] else OriginalContent(originals, m, k - 1) + originals[m.entries[k - 1].chunkId]
  }

  lemma KnownOriginals(m: Manifest, originals: Originals)
    requires WholeChunks(m, originals)
    ensures forall i | 0 <= i < |m.entries| :: m.entries[i].chunkId in originals
  {
    forall i | 0 <= i < |m.entries| ensures m.entries[i].chunkId in originals {
      assert WholeChunk(m, originals, m.entries[i]);
    }
  }

  lemma {:induction false} ReadReportsFirstBad(
    h: Hasher, blobs: Blobs, originals: Originals, m: Manifest, k: nat, out: Bytes)
    requires Valid(m) && k <= |m.entries| && |out| == m.totalSize
    requires Damaged(h, blobs, originals) && WholeChunks(m, originals)
    requires forall i | 0 <= i < |m.entries| :: m.entries[i].chunkId in originals
    ensures match FirstBad(blobs, originals, m, k)
            case None => ReadFrom(h, blobs, m, k, out).Ok?
            case Some(i) =>
              && k <= i < |m.entries|
              && var id := m.entries[i].chunkId;
                 Diagnosis(blobs, originals[id], id).Some? &&
                 ReadFrom(h, blobs, m, k, out) == Err(Diagnosis(blobs, originals[id], id).value)
    decreases |m.entries| - k
  {
    hide Valid, FetchEntry, Damaged, WholeChunks, Diagnosis;
    if k < |m.entries| {
      var id := m.entries[k].chunkId;
      var head := HeadBlob(blobs, id);
      FetchReportsDiagnosis(h, blobs, originals, m, k);
      if Diagnosis(blobs, originals[id], id).None? {
        FetchedEntryFits(h, head, blobs, m, k);
        ReadReportsFirstBad(h, blobs, originals, m, k + 1,
                            Splice(out, m.entries[k].logicalOffset, originals[id]));
      }
    }
  }

  /** The chunk is stored as it originally was. */
  predicate AsItWas(blobs: Blobs, originals: Originals, id: ChunkId) {
    id in originals && id in blobs && blobs[id] == originals[id]
  }

  /** Every referenced chunk is stored as it originally was. */
  ghost predicate Unharmed(blobs: Blobs, originals: Originals, m: Manifest) {
    forall i | 0 <= i < |m.entries| :: AsItWas(blobs, originals, m.entries[i].chunkId)
  }

  /** Entry `j` is the first whose chunk is not stored as it was. */
  ghost predicate FirstHarmed(blobs: Blobs, originals: Originals, m: Manifest, j: nat) {
    && j < |m.entries|
    && (forall i | 0 <= i < j :: AsItWas(blobs, originals, m.entries[i].chunkId))
    && !AsItWas(blobs, originals, m.entries[j].chunkId)
  }

  lemma {:induction false} FirstBadMeans(blobs: Blobs, originals: Originals, m: Manifest, k: nat)
    requires k <= |m.entries|
    requires forall i | 0 <= i < |m.entries| :: m.entries[i].chunkId in originals
    requires forall i | 0 <= i < k :: AsItWas(blobs, originals, m.entries[i].chunkId)
    ensures match FirstBad(blobs, originals, m, k)
            case None => Unharmed(blobs, originals, m)
            case Some(j) => FirstHarmed(blobs, originals, m, j) && !Unharmed(blobs, originals, m)
    decreases |m.entries| - k
  {
    if k < |m.entries| && AsItWas(blobs, originals, m.entries[k].chunkId) {
      FirstBadMeans(blobs, originals, m, k + 1);
    }
  }

  lemma {:induction false} UnharmedContent(blobs: Blobs, originals: Originals, m: Manifest, k: nat)
    requires k <= |m.entries| && Unharmed(blobs, originals, m) && WholeChunks(m, originals)
    requires forall i | 0 <= i < |m.entries| :: m.entries[i].chunkId in originals
    ensures Readable(blobs, m, k) && Content(blobs, m, k) == OriginalContent(originals, m, k)
  {
    forall i | 0 <= i < k ensures EntryReadable(blobs, m.entries[i]) {
      assert WholeChunk(m, originals, m.entries[i]) && AsItWas(blobs, originals, m.entries[i].chunkId);
    }
    if k > 0 {
      UnharmedContent(blobs, originals, m, k - 1);
      var e := m.entries[k - 1];
      assert WholeChunk(m, originals, e) && AsItWas(blobs, originals, e.chunkId);
      assert Slice(blobs, e) == originals[e.chunkId];
    }
  }

  lemma UnharmedReadsBack(h: Hasher, blobs: Blobs, originals: Originals, m: Manifest)
    requires Valid(m) && Damaged(h, blobs, originals) && WholeChunks(m, originals)
    requires forall i | 0 <= i < |m.entries| :: m.entries[i].chunkId in originals
    requires Unharmed(blobs, originals, m)
    ensures Reassembled(h, blobs, m) == Ok(OriginalContent(originals, m, |m.entries|))
  {
    hide Valid, FetchEntry, WholeChunks, ReadFrom, FirstBad, Damaged, Unharmed, FirstHarmed;
    FirstBadMeans(blobs, originals, m, 0);
    ReadReportsFirstBad(h, blobs, originals, m, 0, Zeros(m.totalSize));
    UnharmedContent(blobs, originals, m, |m.entries|);
    ReassemblyIsConcatenation(h, blobs, m);
  }

  lemma HarmedIsReported(h: Hasher, blobs: Blobs, originals: Originals, m: Manifest) returns (j: nat)
    requires Valid(m) && Damaged(h, blobs, originals) && WholeChunks(m, originals)
    requires forall i | 0 <= i < |m.entries| :: m.entries[i].chunkId in originals
    requires !Unharmed(blobs, originals, m)
    ensures FirstHarmed(blobs, originals, m, j)
    ensures Reassembled(h, blobs, m) == Err(HarmCode(blobs, originals[m.entries[j].chunkId], m.entries[j].chunkId))
  {
    hide Valid, FetchEntry, WholeChunks, ReadFrom, FirstBad, Damaged, Unharmed, FirstHarmed;
    FirstBadMeans(blobs, originals, m, 0);
    ReadReportsFirstBad(h, blobs, originals, m, 0, Zeros(m.totalSize));
    j := FirstBad(blobs, originals, m, 0).value;
  }

  /** After any run of puts, bit flips, truncations and deletions, reading a manifest of whole chunks
      returns the original bytes exactly when every referenced chunk is stored as it was; otherwise
      it returns the error of the first entry `j` whose chunk is not: absent, shorter, or altered at
      the same length. The only assumption is that no other bytes, offered or stored under the id of
      an original, have its address. */
  lemma FaultsAreClassified(h: Hasher, ops: seq<StoreOp>, originals: Originals, m: Manifest) returns (j: nat)
    requires Valid(m) && Addressed(h, originals) && WholeChunks(m, originals)
    requires NoForgedPut(h, ops, originals) && NoForgedBlob(h, PerformAll(h, ops), originals)
    ensures forall i | 0 <= i < |m.entries| :: m.entries[i].chunkId in originals
    ensures Reassembled(h, PerformAll(h, ops), m).Ok? <==> Unharmed(PerformAll(h, ops), originals, m)
    ensures Unharmed(PerformAll(h, ops), originals, m) ==>
              Reassembled(h, PerformAll(h, ops), m) == Ok(OriginalContent(originals, m, |m.entries|))
    ensures !Unharmed(PerformAll(h, ops), originals, m) ==>
              && FirstHarmed(PerformAll(h, ops), originals, m, j)
              && var id := m.entries[j].chunkId;
                 Reassembled(h, PerformAll(h, ops), m) == Err(HarmCode(PerformAll(h, ops), originals[id], id))
  {
    hide Valid, WholeChunks, Reassembled, PerformAll, Unharmed, FirstHarmed, OriginalContent, FromBytes;
    j := 0;
    var blobs := PerformAll(h, ops);
    KnownOriginals(m, originals);
    FaultsNeverLengthen(h, ops, originals);
    assert Damaged(h, blobs, originals);
    if Unharmed(blobs, originals, m) {
      UnharmedReadsBack(h, blobs, originals, m);
    } else {
      j := HarmedIsReported(h, blobs, originals, m);
    }
  }

  // ---- one fault ----

  /** The operation is a fault that changes the stored body. */
  predicate Harms(blobs: Blobs, op: StoreOp) {
    match op
    case Put(_, _) => false
    case Flip(id, at) => id in blobs && at < |blobs[id]|
    case Truncate(id, len) => id in blobs && len < |blobs[id]|
    case Delete(id) => id in blobs
  }

  lemma FaultHarmsOneChunk(h: Hasher, blobs: Blobs, op: StoreOp)
    requires Harms(blobs, op)
    ensures OnlyTouches(blobs, Perform(h, blobs, op), op.id)
    ensures Diagnosis(Perform(h, blobs, op), blobs[op.id], op.id) == Some(
              if op.Delete? then ChunkNotFound
              else if op.Truncate? then IntegrityLengthMismatch
              else IntegrityHashMismatch)
  {
    match op
    case Flip(id, at) => FlipIsExact(blobs, id, at);
    case Truncate(id, len) => TruncateIsExact(blobs, id, len);
    case Delete(id) => DeleteIsExact(blobs, id);
  }

  /** A single flip, truncation or deletion of any chunk of a readable file is reported, each with its
      own code, wherever it strikes. */
  lemma SingleFaultIsReported(h: Hasher, blobs: Blobs, originals: Originals, m: Manifest, op: StoreOp)
    requires Valid(m) && WholeChunks(m, originals) && Damaged(h, blobs, originals)
    requires Unharmed(blobs, originals, m) && Harms(blobs, op) && Referenced(m, op.id)
    requires NoForgedBlob(h, Perform(h, blobs, op), originals)
    ensures Reassembled(h, blobs, m).Ok?
    ensures Reassembled(h, Perform(h, blobs, op), m) == Err(
              if op.Delete? then ChunkNotFound
              else if op.Truncate? then IntegrityLengthMismatch
              else IntegrityHashMismatch)
  {
    hide Valid, Reassembled, Perform, FromBytes, Verify, WholeChunks;
    KnownOriginals(m, originals);
    UnharmedReadsBack(h, blobs, originals, m);
    var after := Perform(h, blobs, op);
    FaultHarmsOneChunk(h, blobs, op);
    OpNeverLengthens(h, blobs, op, originals);
    var i :| 0 <= i < |m.entries| && m.entries[i].chunkId == op.id;
    assert AsItWas(blobs, originals, m.entries[i].chunkId);
    assert !AsItWas(after, originals, m.entries[i].chunkId);
    var j := HarmedIsReported(h, after, originals, m);
    assert AsItWas(blobs, originals, m.entries[j].chunkId);
    assert m.entries[j].chunkId == op.id;
  }

  /** Uploading a chunk again restores it after a deletion, and is refused after a flip or a
      truncation: the damaged body stays. */
  lemma ReuploadHealsDeletionOnly(h: Hasher, blobs: Blobs, op: StoreOp)
    requires Harms(blobs, op) && Verify(h, op.id, blobs[op.id])
    ensures var damaged := Perform(h, blobs, op);
            Perform(h, damaged, Put(op.id, blobs[op.id])) == if op.Delete? then blobs else damaged
    ensures PutBlob(h, Perform(h, blobs, op), op.id, blobs[op.id]).1 ==
            if op.Delete? then Ok(()) else Err(IntegrityChunkIdConflict)
  {
    hide Verify;
    FaultHarmsOneChunk(h, blobs, op);
    if op.Delete? { assert (blobs - {op.id})[op.id := blobs[op.id]] == blobs; }
  }

  // ---- faults elsewhere ----

  lemma {:induction false} SameSlicesSameContent(a: Blobs, b: Blobs, m: Manifest, k: nat)
    requires k <= |m.entries| && Readable(a, m, k)
    requires forall i | 0 <= i < k :: SameChunk(a, b, m.entries[i].chunkId)
    ensures Readable(b, m, k) && Content(a, m, k) == Content(b, m, k)
  {
    forall i | 0 <= i < k ensures EntryReadable(b, m.entries[i]) {
      assert EntryReadable(a, m.entries[i]) && SameChunk(a, b, m.entries[i].chunkId);
    }
    if k > 0 { SameSlicesSameContent(a, b, m, k - 1); }
  }

  predicate SameChunk(a: Blobs, b: Blobs, id: ChunkId) {
    (id in a <==> id in b) && (id in a ==> a[id] == b[id])
  }

  /** A read depends on the chunks that its manifest references and on nothing else. */
  lemma ReadDependsOnItsChunks(h: Hasher, a: Blobs, b: Blobs, m: Manifest)
    requires forall i | 0 <= i < |m.entries| :: SameChunk(a, b, m.entries[i].chunkId)
    ensures Reassembled(h, a, m) == Reassembled(h, b, m)
  {
    hide WellFormed, Reassembled, EntryFault;
    var j := ReassemblyOutcome(h, a, m);
    var k := ReassemblyOutcome(h, b, m);
    forall i | 0 <= i < |m.entries|
      ensures EntryFault(h, a, m, m.entries[i]) == EntryFault(h, b, m, m.entries[i])
    {
      SameChunkSameFault(h, a, b, m, m.entries[i]);
    }
    assert j == k;
    if WellFormed(m) && j == |m.entries| { SameSlicesSameContent(a, b, m, |m.entries|); }
  }

  lemma SameChunkSameFault(h: Hasher, a: Blobs, b: Blobs, m: Manifest, e: Entry)
    requires SameChunk(a, b, e.chunkId)
    ensures EntryFault(h, a, m, e) == EntryFault(h, b, m, e)
  {
    hide FromBytes, ChunkSize;
  }

  lemma OpTouchesOneChunk(h: Hasher, blobs: Blobs, op: StoreOp, id: ChunkId)
    requires id != op.id
    ensures SameChunk(blobs, Perform(h, blobs, op), id)
  {
    hide Verify;
  }

  /** A file that does not use a chunk is read the same, whatever is done to that chunk. */
  lemma FaultElsewhereIsHarmless(h: Hasher, blobs: Blobs, m: Manifest, op: StoreOp)
    requires !Referenced(m, op.id)
    ensures Reassembled(h, Perform(h, blobs, op), m) == Reassembled(h, blobs, m)
  {
    hide Perform, Reassembled;
    forall i | 0 <= i < |m.entries| ensures SameChunk(blobs, Perform(h, blobs, op), m.entries[i].chunkId) {
      OpTouchesOneChunk(h, blobs, op, m.entries[i].chunkId);
    }
    ReadDependsOnItsChunks(h, blobs, Perform(h, blobs, op), m);
  }
}
