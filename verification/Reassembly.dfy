/** Reading a whole file: fetch every entry of a manifest and copy it into one buffer. */
module Reassembly {
  import opened Model
  import opened Validation
  import opened ObjectStore
  import opened RangeRead

  // ---- what a manifest names ----

  ghost predicate EntryReadable(blobs: Blobs, e: Entry) {
    e.chunkId in blobs && e.chunkOffset + e.length <= |blobs[e.chunkId]|
  }

  ghost predicate Readable(blobs: Blobs, m: Manifest, k: nat)
    requires k <= |m.entries|
  {
    forall i | 0 <= i < k :: EntryReadable(blobs, m.entries[i])
  }

  ghost function Slice(blobs: Blobs, e: Entry): Bytes
    requires EntryReadable(blobs, e)
  {
    blobs[e.chunkId][e.chunkOffset..e.chunkOffset + e.length]
  }

  /** The slices of the first `k` entries, one after the other. */
  ghost function Content(blobs: Blobs, m: Manifest, k: nat): (c: Bytes)
    requires k <= |m.entries| && Readable(blobs, m, k)
    ensures |c| == Extent(m.entries, k)
  {
    if k == 0 then [] else Content(blobs, m, k - 1) + Slice(blobs, m.entries[k - 1])
  }

  // ---- one entry ----

  function FetchEntry(h: Hasher, head: Result<U64>, blobs: Blobs, m: Manifest, i: nat): Result<Blob>
    requires Valid(m) && i < |m.entries|
  {
    ValidFacts(m);
    var e := m.entries[i];
    assert InPlace(m.entries, i);
    match FetchRange(h, head, blobs, e.chunkId, e.chunkOffset, e.length)
    case Err(code) => Err(code)
    case Ok(bytes) =>
      if ChunkSize(m.chunks, e.chunkId) == Some(e.length) && e.chunkOffset == 0 && !Verify(h, e.chunkId, bytes)
      then Err(IntegrityHashMismatch)
      else Ok(bytes)
  }

  /** Whatever the store holds, an entry that is read is exactly its slice. */
  lemma FetchedEntryIsItsSlice(h: Hasher, head: Result<U64>, blobs: Blobs, m: Manifest, i: nat)
    requires Valid(m) && i < |m.entries|
    requires FetchEntry(h, head, blobs, m, i).Ok?
    ensures EntryReadable(blobs, m.entries[i])
    ensures FetchEntry(h, head, blobs, m, i).value == Slice(blobs, m.entries[i])
  {
    hide Valid, FetchRange;
    ValidFacts(m);
    var e := m.entries[i];
    assert InPlace(m.entries, i);
    RangeReadIsExactOrAnError(h, head, blobs, e.chunkId, e.chunkOffset, e.length);
  }

  // ---- the whole file ----

  /** Overwrite `out` from `at` on with `bytes`. */
  function Splice(out: Bytes, at: nat, bytes: Bytes): (r: Bytes)
    requires at + |bytes| <= |out|
    ensures |r| == |out|
  {
    out[..at] + bytes + out[at + |bytes|..]
  }

  function Zeros(n: nat): Bytes {
    seq(n, _ => 0)
  }

  lemma FetchedEntryFits(h: Hasher, head: Result<U64>, blobs: Blobs, m: Manifest, i: nat)
    requires Valid(m) && i < |m.entries|
    requires FetchEntry(h, head, blobs, m, i).Ok?
    ensures |FetchEntry(h, head, blobs, m, i).value| == m.entries[i].length
    ensures m.entries[i].logicalOffset == Extent(m.entries, i)
    ensures m.entries[i].logicalOffset + m.entries[i].length <= m.totalSize
  {
    hide Valid, FetchEntry;
    FetchedEntryIsItsSlice(h, head, blobs, m, i);
    ValidFacts(m);
    assert InPlace(m.entries, i);
  }

  /** The loop from entry `k` on, with the buffer as it then is. */
  function ReadFrom(h: Hasher, blobs: Blobs, m: Manifest, k: nat, out: Bytes): Result<Bytes>
    requires Valid(m) && k <= |m.entries| && |out| == m.totalSize
    decreases |m.entries| - k
  {
    if k == |m.entries| then Ok(out)
    else
      var head := HeadBlob(blobs, m.entries[k].chunkId);
      match FetchEntry(h, head, blobs, m, k)
      case Err(code) => Err(code)
      case Ok(bytes) =>
        FetchedEntryFits(h, head, blobs, m, k);
        ReadFrom(h, blobs, m, k + 1, Splice(out, m.entries[k].logicalOffset, bytes))
  }

  function Reassembled(h: Hasher, blobs: Blobs, m: Manifest): Result<Bytes> {
    if !Valid(m) then Err(IntegrityManifestInvalid) else ReadFrom(h, blobs, m, 0, Zeros(m.totalSize))
  }

  /** Writing the next slice at its own offset extends the finished prefix. */
  lemma SpliceExtendsPrefix(blobs: Blobs, m: Manifest, k: nat, out: Bytes)
    requires Valid(m) && k < |m.entries| && |out| == m.totalSize
    requires Readable(blobs, m, k + 1)
    requires Extent(m.entries, k) <= |out| && out[..Extent(m.entries, k)] == Content(blobs, m, k)
    requires m.entries[k].logicalOffset == Extent(m.entries, k)
    requires Extent(m.entries, k + 1) <= |out|
    ensures Splice(out, m.entries[k].logicalOffset, Slice(blobs, m.entries[k]))[..Extent(m.entries, k + 1)]
            == Content(blobs, m, k + 1)
  {
    hide Valid;
  }

  lemma {:induction false} ReadFromConcatenates(h: Hasher, blobs: Blobs, m: Manifest, k: nat, out: Bytes)
    requires Valid(m) && k <= |m.entries| && |out| == m.totalSize
    requires Readable(blobs, m, k) && Extent(m.entries, k) <= |out|
    requires out[..Extent(m.entries, k)] == Content(blobs, m, k)
    requires ReadFrom(h, blobs, m, k, out).Ok?
    ensures Readable(blobs, m, |m.entries|)
    ensures ReadFrom(h, blobs, m, k, out).value == Content(blobs, m, |m.entries|)
    decreases |m.entries| - k
  {
    hide Valid, FetchEntry;
    ValidFacts(m);
    if k < |m.entries| {
      var head := HeadBlob(blobs, m.entries[k].chunkId);
      FetchedEntryFits(h, head, blobs, m, k);
      FetchedEntryIsItsSlice(h, head, blobs, m, k);
      SpliceExtendsPrefix(blobs, m, k, out);
      var out' := Splice(out, m.entries[k].logicalOffset, Slice(blobs, m.entries[k]));
      ReadFromConcatenates(h, blobs, m, k + 1, out');
    }
  }

  /** A successful read returns the concatenation of the named slices, whatever the store holds. */
  lemma ReassemblyIsConcatenation(h: Hasher, blobs: Blobs, m: Manifest)
    requires Reassembled(h, blobs, m).Ok?
    ensures Valid(m) && Readable(blobs, m, |m.entries|)
    ensures Reassembled(h, blobs, m).value == Content(blobs, m, |m.entries|)
    ensures |Reassembled(h, blobs, m).value| == m.totalSize
  {
    hide Valid, FetchEntry;
    ReadFromConcatenates(h, blobs, m, 0, Zeros(m.totalSize));
    ValidFacts(m);
  }

  /** Byte by byte: offset `x` of the content is the byte that the covering entry names. */
  lemma {:induction false} ContentByte(blobs: Blobs, m: Manifest, k: nat, i: nat, x: nat)
    requires Valid(m) && i < k <= |m.entries| && Readable(blobs, m, k) && Covers(m.entries[i], x)
    ensures x < |Content(blobs, m, k)|
    ensures Content(blobs, m, k)[x] ==
            blobs[m.entries[i].chunkId][m.entries[i].chunkOffset + (x - m.entries[i].logicalOffset)]
  {
    hide Valid;
    ValidFacts(m);
    assert InPlace(m.entries, i);
    ExtentGrows(m.entries, i + 1, k);
    if i < k - 1 {
      ContentByte(blobs, m, k - 1, i, x);
    }
  }

  /** Every output byte comes from the one entry that covers its offset; no initial zero survives. */
  lemma EveryByteIsWrittenByItsEntry(h: Hasher, blobs: Blobs, m: Manifest, x: nat) returns (i: nat)
    requires Reassembled(h, blobs, m).Ok? && x < m.totalSize
    ensures i < |m.entries| && Covers(m.entries[i], x)
    ensures forall j | 0 <= j < |m.entries| && Covers(m.entries[j], x) :: j == i
    ensures EntryReadable(blobs, m.entries[i])
    ensures x < |Reassembled(h, blobs, m).value|
    ensures Reassembled(h, blobs, m).value[x] ==
            blobs[m.entries[i].chunkId][m.entries[i].chunkOffset + (x - m.entries[i].logicalOffset)]
  {
    hide Valid, Reassembled, Content;
    ReassemblyIsConcatenation(h, blobs, m);
    ValidCoversOnce(m, x);
    i :| 0 <= i < |m.entries| && Covers(m.entries[i], x)
         && forall j | 0 <= j < |m.entries| && Covers(m.entries[j], x) :: j == i;
    ContentByte(blobs, m, |m.entries|, i, x);
  }

  // ---- every store ----

  /** The entry covers a whole chunk of the declared size. */
  ghost predicate DeclaredWhole(m: Manifest, e: Entry) {
    e.chunkOffset == 0 && ChunkSize(m.chunks, e.chunkId) == Some(e.length)
  }

  /** What is wrong with an entry, told from the stored bytes alone. */
  ghost function EntryFault(h: Hasher, blobs: Blobs, m: Manifest, e: Entry): Option<ErrorCode> {
    if e.chunkId !in blobs then Some(ChunkNotFound)
    else if e.chunkOffset == 0 && e.length % 0x1_0000_0000 == |blobs[e.chunkId]| && e.chunkId != FromBytes(h, blobs[e.chunkId])
    then Some(IntegrityHashMismatch)
    else if e.length > U32_MAX || !EntryReadable(blobs, e) then Some(IntegrityLengthMismatch)
    else if DeclaredWhole(m, e) && e.chunkId != FromBytes(h, Slice(blobs, e)) then Some(IntegrityHashMismatch)
    else None
  }

  /** The fetch of one entry, on every store and after every size lookup. */
  lemma FetchEntryOutcome(h: Hasher, head: Result<U64>, blobs: Blobs, m: Manifest, i: nat)
    requires Valid(m) && i < |m.entries|
    ensures var e := m.entries[i];
            FetchEntry(h, head, blobs, m, i) ==
              if head.Err? then Err(head.code)
              else match EntryFault(h, blobs, m, e)
                case Some(code) => Err(code)
                case None => Ok(Slice(blobs, e))
  {
    hide Valid, FetchRange, FromBytes, ParsesAsChunkId;
    ValidFacts(m);
    ValidIdsParse(m);
    var e := m.entries[i];
    assert InPlace(m.entries, i);
    RangeReadOutcome(h, head, blobs, e.chunkId, e.chunkOffset, e.length);
  }

  /** Every entry before `j` is without fault, and entry `j`, if there is one, is not. */
  ghost predicate FirstFault(h: Hasher, blobs: Blobs, m: Manifest, j: nat) {
    && j <= |m.entries|
    && (forall i | 0 <= i < j :: EntryFault(h, blobs, m, m.entries[i]).None?)
    && (j < |m.entries| ==> EntryFault(h, blobs, m, m.entries[j]).Some?)
  }

  lemma {:induction false} ReadFromStopsAt(h: Hasher, blobs: Blobs, m: Manifest, k: nat, out: Bytes, j: nat)
    requires Valid(m) && k <= j && |out| == m.totalSize && FirstFault(h, blobs, m, j)
    ensures if j == |m.entries| then ReadFrom(h, blobs, m, k, out).Ok?
            else ReadFrom(h, blobs, m, k, out) == Err(EntryFault(h, blobs, m, m.entries[j]).value)
    decreases |m.entries| - k
  {
    hide Valid, FetchEntry, EntryFault;
    if k < |m.entries| {
      var e := m.entries[k];
      var head := HeadBlob(blobs, e.chunkId);
      FetchEntryOutcome(h, head, blobs, m, k);
      AbsentIsAFault(h, blobs, m, e);
      if k < j {
        FetchedEntryFits(h, head, blobs, m, k);
        ReadFromStopsAt(h, blobs, m, k + 1, Splice(out, e.logicalOffset, Slice(blobs, e)), j);
      }
    }
  }

  lemma AbsentIsAFault(h: Hasher, blobs: Blobs, m: Manifest, e: Entry)
    ensures HeadBlob(blobs, e.chunkId).Err? ==>
              EntryFault(h, blobs, m, e) == Some(HeadBlob(blobs, e.chunkId).code)
    ensures EntryFault(h, blobs, m, e).None? ==> EntryReadable(blobs, e)
  {
  }

  lemma {:induction false} FindFirstFault(h: Hasher, blobs: Blobs, m: Manifest, k: nat) returns (j: nat)
    requires k <= |m.entries| && forall i | 0 <= i < k :: EntryFault(h, blobs, m, m.entries[i]).None?
    ensures FirstFault(h, blobs, m, j)
    decreases |m.entries| - k
  {
    hide EntryFault;
    if k < |m.entries| && EntryFault(h, blobs, m, m.entries[k]).None? {
      j := FindFirstFault(h, blobs, m, k + 1);
    } else {
      j := k;
    }
  }

  /** What reading any manifest from any store returns: an ill-formed manifest is refused, the first
      entry `j` with a fault decides the error, and without a fault the answer is the content. */
  lemma ReassemblyOutcome(h: Hasher, blobs: Blobs, m: Manifest) returns (j: nat)
    ensures FirstFault(h, blobs, m, j)
    ensures !WellFormed(m) ==> Reassembled(h, blobs, m) == Err(IntegrityManifestInvalid)
    ensures WellFormed(m) && j < |m.entries| ==>
              Reassembled(h, blobs, m) == Err(EntryFault(h, blobs, m, m.entries[j]).value)
    ensures WellFormed(m) && j == |m.entries| ==>
              && Readable(blobs, m, |m.entries|)
              && Reassembled(h, blobs, m) == Ok(Content(blobs, m, |m.entries|))
  {
    hide Valid, WellFormed, EntryFault, ReadFrom;
    j := FindFirstFault(h, blobs, m, 0);
    ValidationIsExact(m);
    if Valid(m) {
      ReadFromStopsAt(h, blobs, m, 0, Zeros(m.totalSize), j);
      if j == |m.entries| { ReassemblyIsConcatenation(h, blobs, m); }
    }
  }

  /** Content addressing reaches the client: whatever the store holds, a file is returned only if
      every entry that covers a whole chunk has bytes with the address of that chunk. */
  lemma WholeChunksAreVerified(h: Hasher, blobs: Blobs, m: Manifest, i: nat)
    requires Reassembled(h, blobs, m).Ok? && i < |m.entries| && DeclaredWhole(m, m.entries[i])
    ensures EntryReadable(blobs, m.entries[i])
    ensures m.entries[i].chunkId == FromBytes(h, Slice(blobs, m.entries[i]))
  {
    hide WellFormed, Reassembled, FromBytes;
    var j := ReassemblyOutcome(h, blobs, m);
    assert EntryFault(h, blobs, m, m.entries[i]).None?;
  }

  /** And other bytes are reported: the first faulty entry, if it covers a whole chunk of 32-bit size
      and its slice does not have the address of that chunk, makes the read a hash mismatch. */
  lemma WrongBytesAreReported(h: Hasher, blobs: Blobs, m: Manifest, j: nat)
    requires Valid(m) && j < |m.entries| && DeclaredWhole(m, m.entries[j])
    requires forall i | 0 <= i < j :: EntryFault(h, blobs, m, m.entries[i]).None?
    requires EntryReadable(blobs, m.entries[j]) && m.entries[j].length <= U32_MAX
    requires m.entries[j].chunkId != FromBytes(h, Slice(blobs, m.entries[j]))
    ensures Reassembled(h, blobs, m) == Err(IntegrityHashMismatch)
  {
    hide Valid, ReadFrom, FromBytes;
    assert EntryFault(h, blobs, m, m.entries[j]) == Some(IntegrityHashMismatch);
    ReadFromStopsAt(h, blobs, m, 0, Zeros(m.totalSize), j);
  }

  // ---- an intact store ----

  /** The store holds, for each entry, the addressed bytes at the declared size. */
  ghost predicate EntryIntact(h: Hasher, blobs: Blobs, m: Manifest, e: Entry) {
    && e.chunkId in blobs
    && Verify(h, e.chunkId, blobs[e.chunkId])
    && ChunkSize(m.chunks, e.chunkId) == Some(|blobs[e.chunkId]|)
  }

  ghost predicate Intact(h: Hasher, blobs: Blobs, m: Manifest) {
    forall i | 0 <= i < |m.entries| :: EntryIntact(h, blobs, m, m.entries[i])
  }

  lemma IntactIsReadable(h: Hasher, blobs: Blobs, m: Manifest)
    requires Valid(m) && Intact(h, blobs, m)
    ensures Readable(blobs, m, |m.entries|)
  {
    hide Valid;
    ValidFacts(m);
    forall i | 0 <= i < |m.entries| ensures EntryReadable(blobs, m.entries[i]) {
      assert SliceFits(m, m.entries[i]) && EntryIntact(h, blobs, m, m.entries[i]);
    }
  }

  /** On an intact entry the read succeeds exactly when its length fits 32 bits. */
  lemma FetchIntactEntry(h: Hasher, head: Result<U64>, blobs: Blobs, m: Manifest, i: nat)
    requires Valid(m) && i < |m.entries| && head.Ok?
    requires EntryIntact(h, blobs, m, m.entries[i])
    ensures EntryReadable(blobs, m.entries[i])
    ensures FetchEntry(h, head, blobs, m, i) ==
            if m.entries[i].length <= U32_MAX then Ok(Slice(blobs, m.entries[i])) else Err(IntegrityLengthMismatch)
  {
    hide Valid, FetchRange;
    ValidFacts(m);
    var e := m.entries[i];
    assert InPlace(m.entries, i) && SliceFits(m, e);
    FromBytesParses(h, blobs[e.chunkId]);
    RangeReadIsExactOrAnError(h, head, blobs, e.chunkId, e.chunkOffset, e.length);
    RangeReadOutcome(h, head, blobs, e.chunkId, e.chunkOffset, e.length);
    if e.chunkOffset == 0 && e.length == |blobs[e.chunkId]| {
      assert Slice(blobs, e) == blobs[e.chunkId];
    }
  }

  predicate FitsU32(m: Manifest) {
    forall i | 0 <= i < |m.entries| :: m.entries[i].length <= U32_MAX
  }

  lemma {:induction false} ReadFromIntact(h: Hasher, blobs: Blobs, m: Manifest, k: nat, out: Bytes)
    requires Valid(m) && k <= |m.entries| && |out| == m.totalSize && Intact(h, blobs, m)
    ensures ReadFrom(h, blobs, m, k, out).Ok? <==> forall i | k <= i < |m.entries| :: m.entries[i].length <= U32_MAX
    ensures ReadFrom(h, blobs, m, k, out).Err? ==> ReadFrom(h, blobs, m, k, out).code == IntegrityLengthMismatch
    decreases |m.entries| - k
  {
    hide Valid, FetchEntry;
    if k < |m.entries| {
      var e := m.entries[k];
      assert EntryIntact(h, blobs, m, e);
      var head := HeadBlob(blobs, e.chunkId);
      FetchIntactEntry(h, head, blobs, m, k);
      if e.length <= U32_MAX {
        FetchedEntryFits(h, head, blobs, m, k);
        ReadFromIntact(h, blobs, m, k + 1, Splice(out, e.logicalOffset, Slice(blobs, e)));
      }
    }
  }

  /** On an intact store a valid manifest reads back as its content exactly when every entry length
      fits 32 bits; otherwise the read reports a length mismatch. */
  lemma ReassembleIntact(h: Hasher, blobs: Blobs, m: Manifest)
    requires Valid(m) && Intact(h, blobs, m)
    ensures Readable(blobs, m, |m.entries|)
    ensures Reassembled(h, blobs, m) ==
            if FitsU32(m) then Ok(Content(blobs, m, |m.entries|)) else Err(IntegrityLengthMismatch)
  {
    hide Valid, FetchEntry;
    IntactIsReadable(h, blobs, m);
    ReadFromIntact(h, blobs, m, 0, Zeros(m.totalSize));
    if FitsU32(m) { ReassemblyIsConcatenation(h, blobs, m); }
  }

  /** The 32-bit limit is real: one chunk of 2^32 zero bytes, stored intact under a valid manifest,
      cannot be read back. */
  lemma LargeEntryCannotBeRead(h: Hasher, id: ManifestId)
    ensures var body := Zeros(0x1_0000_0000);
            var m := WholeFile(h, id, body);
            Valid(m) && Intact(h, map[FromBytes(h, body) := body], m)
            && Reassembled(h, map[FromBytes(h, body) := body], m) == Err(IntegrityLengthMismatch)
  {
    hide Valid;
    var body := Zeros(0x1_0000_0000);
    var m := WholeFile(h, id, body);
    var blobs: Blobs := map[FromBytes(h, body) := body];
    WholeFileIsValid(h, id, body);
    assert EntryIntact(h, blobs, m, m.entries[0]);
    ReassembleIntact(h, blobs, m);
    assert m.entries[0].length > U32_MAX;
  }

  /** A file of one chunk. */
  function WholeFile(h: Hasher, id: ManifestId, body: Blob): Manifest {
    Manifest(id, |body|, 1, [Entry(0, |body|, FromBytes(h, body), 0)], [Chunk(FromBytes(h, body), |body|)])
  }

  lemma WholeFileIsValid(h: Hasher, id: ManifestId, body: Blob)
    requires body != []
    ensures Valid(WholeFile(h, id, body))
  {
    hide Valid, FromBytes, ParsesAsChunkId;
    var m := WholeFile(h, id, body);
    FromBytesParses(h, body);
    assert Extent(m.entries, 1) == |body|;
    assert InPlace(m.entries, 0);
    TilesIffChained(m.entries, m.totalSize);
    assert m.entries[0].chunkId == m.chunks[0].chunkId;
    ValidationIsExact(m);
  }

  // ---- the loop over a buffer ----

  /** One turn of the loop: fetch the entry's range and, if it covers a whole chunk, verify it. */
  method FetchAndVerify(store: FakeObjectStore, m: Manifest, i: nat) returns (r: Result<Blob>)
    requires Valid(m) && i < |m.entries|
    ensures r == FetchEntry(store.hash, HeadBlob(store.blobs, m.entries[i].chunkId), store.blobs, m, i)
    ensures r.Ok? ==> EntryReadable(store.blobs, m.entries[i]) && r.value == Slice(store.blobs, m.entries[i])
    ensures r.Ok? && DeclaredWhole(m, m.entries[i]) ==> m.entries[i].chunkId == FromBytes(store.hash, r.value)
  {
    hide Valid, FetchRange, FromBytes;
    ValidFacts(m);
    var e := m.entries[i];
    assert InPlace(m.entries, i);
    r := GetChunkRange(store, e.chunkId, e.chunkOffset, e.length);
    if r.Ok? {
      var size := ChunkSize(m.chunks, e.chunkId);
      if size.Some? && e.chunkOffset == 0 && e.length == size.value && !Verify(store.hash, e.chunkId, r.value) {
        return Err(IntegrityHashMismatch);
      }
    }
  }

  /** `reassemble` of the client: validate, allocate, then fetch and copy entry by entry. */
  method Reassemble(store: FakeObjectStore, m: Manifest) returns (r: Result<Bytes>)
    ensures r == Reassembled(store.hash, store.blobs, m)
    ensures r.Ok? ==> forall e | e in m.entries && DeclaredWhole(m, e) ::
              EntryReadable(store.blobs, e) && e.chunkId == FromBytes(store.hash, Slice(store.blobs, e))
  {
    hide FromBytes;
    forall i | 0 <= i < |m.entries| && Reassembled(store.hash, store.blobs, m).Ok? && DeclaredWhole(m, m.entries[i])
      ensures EntryReadable(store.blobs, m.entries[i])
      ensures m.entries[i].chunkId == FromBytes(store.hash, Slice(store.blobs, m.entries[i]))
    {
      WholeChunksAreVerified(store.hash, store.blobs, m, i);
    }
    var verdict := ValidateManifest(m);
    if verdict.Reject? {
      return Err(verdict.Code());
    }
    r := ReadEntries(store, m);
  }

  method ReadEntries(store: FakeObjectStore, m: Manifest) returns (r: Result<Bytes>)
    requires Valid(m)
    ensures r == ReadFrom(store.hash, store.blobs, m, 0, Zeros(m.totalSize))
  {
    hide Valid, FetchEntry;
    var out := new bv8[m.totalSize](_ => 0);
    assert out[..] == Zeros(m.totalSize);
    for i := 0 to |m.entries|
      invariant ReadFrom(store.hash, store.blobs, m, i, out[..])
             == ReadFrom(store.hash, store.blobs, m, 0, Zeros(m.totalSize))
    {
      var got := FetchAndVerify(store, m, i);
      if got.Err? {
        return Err(got.code);
      }
      FetchedEntryFits(store.hash, HeadBlob(store.blobs, m.entries[i].chunkId), store.blobs, m, i);
      CopyInto(out, m.entries[i].logicalOffset, got.value);
    }
    return Ok(out[..]);
  }

  method CopyInto(out: array<bv8>, at: nat, bytes: Bytes)
    requires at + |bytes| <= out.Length
    modifies out
    ensures out[..] == Splice(old(out[..]), at, bytes)
  {
    forall k | 0 <= k < |bytes| {
      out[at + k] := bytes[k];
    }
  }
}
