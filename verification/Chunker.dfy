/** Cutting a generated file into chunks, with the manifest that names them. */
module Chunker {
  import opened Model
  import opened Validation
  import opened Generators

  function ChunkCount(fileSize: U64, chunkSize: U64): nat
    requires chunkSize > 0
  {
    if fileSize % chunkSize > 0 then fileSize / chunkSize + 1 else fileSize / chunkSize
  }

  /** Where chunk `i` starts. */
  function Start(i: nat, chunkSize: U64): nat {
    i * chunkSize
  }

  lemma StartsRise(i: nat, j: nat, chunkSize: U64)
    requires i <= j
    ensures Start(i, chunkSize) <= Start(j, chunkSize)
  {
    assert (j - i) * chunkSize >= 0;
    assert j * chunkSize == i * chunkSize + (j - i) * chunkSize;
  }

  lemma NextStart(i: nat, chunkSize: U64)
    ensures Start(i + 1, chunkSize) == Start(i, chunkSize) + chunkSize
  {
  }

  lemma Division(fileSize: U64, chunkSize: U64)
    requires chunkSize > 0
    ensures fileSize == Start(fileSize / chunkSize, chunkSize) + fileSize % chunkSize
  {
  }

  /** The count is the least number of chunks that covers the file. */
  lemma ChunkCountIsCeiling(fileSize: U64, chunkSize: U64)
    requires chunkSize > 0
    ensures Start(ChunkCount(fileSize, chunkSize), chunkSize) >= fileSize
    ensures forall k: nat | k < ChunkCount(fileSize, chunkSize) :: Start(k, chunkSize) < fileSize
    ensures ChunkCount(fileSize, chunkSize) <= fileSize
  {
    var q := fileSize / chunkSize;
    Division(fileSize, chunkSize);
    NextStart(q, chunkSize);
    AtLeastOneEach(q, chunkSize);
    hide Start;
    forall k: nat | k < ChunkCount(fileSize, chunkSize) ensures Start(k, chunkSize) < fileSize {
      if k < q {
        NextStart(k, chunkSize);
        StartsRise(k + 1, q, chunkSize);
      }
    }
  }

  lemma AtLeastOneEach(n: nat, chunkSize: U64)
    requires chunkSize > 0
    ensures Start(n, chunkSize) >= n
  {
    assert n * chunkSize == n + n * (chunkSize - 1);
    assert n * (chunkSize - 1) >= 0;
  }

  type Body = (Chunk, Blob)

  function Bodies(bodies: seq<Body>): seq<Bytes> {
    seq(|bodies|, i requires 0 <= i < |bodies| => bodies[i].1)
  }

  // ---- what grows as entries and chunks are appended ----

  lemma {:induction false} ExtentOfPrefix(es: seq<Entry>, more: seq<Entry>, k: nat)
    requires k <= |es|
    ensures Extent(es + more, k) == Extent(es, k)
  {
    if k > 0 { ExtentOfPrefix(es, more, k - 1); }
  }

  lemma {:induction false} LookUpInPrefix(chunks: seq<Chunk>, more: seq<Chunk>, id: ChunkId)
    ensures ChunkSize(chunks, id).Some? ==> ChunkSize(chunks + more, id) == ChunkSize(chunks, id)
    ensures ChunkSize(chunks, id).None? ==> ChunkSize(chunks + more, id) == ChunkSize(more, id)
  {
    if chunks == [] {
      assert chunks + more == more;
    } else {
      assert (chunks + more)[1..] == chunks[1..] + more;
      LookUpInPrefix(chunks[1..], more, id);
    }
  }

  // ---- what the chunker has built so far ----

  /** Entry `i` names one whole body of the stream at its place in the file. */
  ghost predicate EntryMade(
    h: Hasher, noise: Noise, seed: U64, fileSize: U64, chunkSize: U64, es: seq<Entry>, bodies: seq<Body>, i: nat)
    requires i < |es| == |bodies|
  {
    var (e, body) := (es[i], bodies[i]);
    && e.logicalOffset == Start(i, chunkSize) < fileSize
    && e.length == (if fileSize - e.logicalOffset < chunkSize then fileSize - e.logicalOffset else chunkSize)
    && e.chunkOffset == 0
    && body.1 == Stream(noise, seed, e.logicalOffset, e.length)
    && e.chunkId == FromBytes(h, body.1)
    && body.0 == Chunk(e.chunkId, e.length)
  }

  /** Entry `i` finds its chunk, at least as large as itself. */
  ghost predicate EntryServed(es: seq<Entry>, chunks: seq<Chunk>, i: nat)
    requires i < |es|
  {
    ChunkSize(chunks, es[i].chunkId).Some? && es[i].length <= ChunkSize(chunks, es[i].chunkId).value
  }

  ghost predicate ChunkNamed(es: seq<Entry>, c: Chunk) {
    exists i | 0 <= i < |es| :: es[i].chunkId == c.chunkId && es[i].length == c.size
  }

  /** No id is declared twice. */
  ghost predicate Distinct(chunks: seq<Chunk>) {
    forall i, j | 0 <= i < j < |chunks| :: chunks[i].chunkId != chunks[j].chunkId
  }

  ghost predicate Made(
    h: Hasher, noise: Noise, seed: U64, fileSize: U64, chunkSize: U64,
    es: seq<Entry>, bodies: seq<Body>, chunks: seq<Chunk>)
  {
    && |es| == |bodies|
    && (forall i | 0 <= i < |es| :: EntryMade(h, noise, seed, fileSize, chunkSize, es, bodies, i))
    && (forall i | 0 <= i < |es| :: InPlace(es, i))
    && (forall i | 0 <= i < |es| :: EntryServed(es, chunks, i))
    && (forall c | c in chunks :: ChunkNamed(es, c)) && Distinct(chunks)
    && (Extent(es, |es|) < fileSize ==> forall c | c in chunks :: c.size == chunkSize)
    && Extent(es, |es|) <= fileSize && Extent(es, |es|) <= Start(|es|, chunkSize)
    && (Extent(es, |es|) < fileSize ==> Extent(es, |es|) == Start(|es|, chunkSize))
    && Join(Bodies(bodies)) == Stream(noise, seed, 0, Extent(es, |es|))
  }

  lemma ChainGrows(es: seq<Entry>, e: Entry)
    requires (forall i | 0 <= i < |es| :: InPlace(es, i)) && e.length > 0 && e.logicalOffset == Extent(es, |es|)
    ensures forall i | 0 <= i < |es + [e]| :: InPlace(es + [e], i)
    ensures Extent(es + [e], |es + [e]|) == Extent(es, |es|) + e.length
  {
    forall i | 0 <= i < |es + [e]| ensures InPlace(es + [e], i) {
      ExtentOfPrefix(es, [e], i);
      assert i < |es| ==> InPlace(es, i);
    }
    ExtentOfPrefix(es, [e], |es|);
  }

  lemma ServiceGrows(es: seq<Entry>, e: Entry, chunks: seq<Chunk>, chunkSize: U64)
    requires forall i | 0 <= i < |es| :: EntryServed(es, chunks, i)
    requires (forall c | c in chunks :: c.size == chunkSize) && e.length <= chunkSize
    ensures ChunkSize(chunks, e.chunkId).Some? ==>
              forall i | 0 <= i < |es + [e]| :: EntryServed(es + [e], chunks, i)
    ensures ChunkSize(chunks, e.chunkId).None? ==>
              forall i | 0 <= i < |es + [e]| :: EntryServed(es + [e], chunks + [Chunk(e.chunkId, e.length)], i)
  {
    var added := [Chunk(e.chunkId, e.length)];
    var grown := chunks + added;
    if ChunkSize(chunks, e.chunkId).Some? {
      ChunkSizeFindsFirst(chunks, e.chunkId);
      forall i | 0 <= i < |es + [e]| ensures EntryServed(es + [e], chunks, i) {
        assert i < |es| ==> EntryServed(es, chunks, i);
      }
    } else {
      forall i | 0 <= i < |es + [e]| ensures EntryServed(es + [e], grown, i) {
        assert i < |es| ==> EntryServed(es, chunks, i);
        LookUpInPrefix(chunks, added, (es + [e])[i].chunkId);
      }
    }
  }

  lemma NamesGrow(es: seq<Entry>, e: Entry, chunks: seq<Chunk>)
    requires forall c | c in chunks :: ChunkNamed(es, c)
    ensures forall c | c in chunks :: ChunkNamed(es + [e], c)
    ensures ChunkNamed(es + [e], Chunk(e.chunkId, e.length))
  {
    assert (es + [e])[|es|] == e;
    forall c | c in chunks ensures ChunkNamed(es + [e], c) {
      var i :| 0 <= i < |es| && es[i].chunkId == c.chunkId && es[i].length == c.size;
      assert (es + [e])[i] == es[i];
    }
  }

  lemma DistinctGrows(chunks: seq<Chunk>, c: Chunk)
    requires Distinct(chunks) && ChunkSize(chunks, c.chunkId).None?
    ensures Distinct(chunks + [c])
  {
    ChunkSizeFindsFirst(chunks, c.chunkId);
    forall i | 0 <= i < |chunks| ensures chunks[i].chunkId != c.chunkId { assert chunks[i] in chunks; }
  }

  lemma BodiesGrow(noise: Noise, seed: U64, bodies: seq<Body>, offset: nat, body: Body)
    requires Join(Bodies(bodies)) == Stream(noise, seed, 0, offset)
    requires body.1 == Stream(noise, seed, offset, |body.1|)
    ensures Join(Bodies(bodies + [body])) == Stream(noise, seed, 0, offset + |body.1|)
  {
    var grown := Bodies(bodies + [body]);
    assert grown[..|grown| - 1] == Bodies(bodies);
    StreamSplits(noise, seed, 0, offset, |body.1|);
  }

  lemma EntriesGrow(
    h: Hasher, noise: Noise, seed: U64, fileSize: U64, chunkSize: U64,
    es: seq<Entry>, bodies: seq<Body>, e: Entry, body: Blob)
    requires |es| == |bodies|
    requires forall i | 0 <= i < |es| :: EntryMade(h, noise, seed, fileSize, chunkSize, es, bodies, i)
    requires e.logicalOffset == Start(|es|, chunkSize) < fileSize
    requires e.length == if fileSize - e.logicalOffset < chunkSize then fileSize - e.logicalOffset else chunkSize
    requires body == Stream(noise, seed, e.logicalOffset, e.length)
    requires e.chunkId == FromBytes(h, body) && e.chunkOffset == 0
    ensures forall i | 0 <= i < |es + [e]| ::
              EntryMade(h, noise, seed, fileSize, chunkSize, es + [e], bodies + [(Chunk(e.chunkId, e.length), body)], i)
  {
    hide Start, Stream, FromBytes;
    var es', bodies' := es + [e], bodies + [(Chunk(e.chunkId, e.length), body)];
    forall i | 0 <= i < |es'| ensures EntryMade(h, noise, seed, fileSize, chunkSize, es', bodies', i) {
      if i < |es| { assert EntryMade(h, noise, seed, fileSize, chunkSize, es, bodies, i); }
    }
  }

  /** One turn of the chunker keeps everything that it has built. */
  lemma MadeGrows(
    h: Hasher, noise: Noise, seed: U64, fileSize: U64, chunkSize: U64,
    es: seq<Entry>, bodies: seq<Body>, chunks: seq<Chunk>, e: Entry, body: Blob)
    requires chunkSize > 0 && Made(h, noise, seed, fileSize, chunkSize, es, bodies, chunks)
    requires Extent(es, |es|) < fileSize && e.logicalOffset == Extent(es, |es|)
    requires e.length == if fileSize - e.logicalOffset < chunkSize then fileSize - e.logicalOffset else chunkSize
    requires body == Stream(noise, seed, e.logicalOffset, e.length)
    requires e.chunkId == FromBytes(h, body) && e.chunkOffset == 0
    ensures Made(h, noise, seed, fileSize, chunkSize, es + [e], bodies + [(Chunk(e.chunkId, e.length), body)],
                 if ChunkSize(chunks, e.chunkId).Some? then chunks else chunks + [Chunk(e.chunkId, e.length)])
    ensures Extent(es + [e], |es + [e]|) == Extent(es, |es|) + e.length
  {
    hide InPlace, EntryServed, EntryMade, ChunkNamed, Distinct, FromBytes, Stream, Join, Bodies, ChunkSize, Extent, Start;
    var chunk := Chunk(e.chunkId, e.length);
    ChainGrows(es, e);
    ServiceGrows(es, e, chunks, chunkSize);
    NamesGrow(es, e, chunks);
    if ChunkSize(chunks, e.chunkId).None? { DistinctGrows(chunks, chunk); }
    BodiesGrow(noise, seed, bodies, Extent(es, |es|), (chunk, body));
    NextStart(|es|, chunkSize);
    EntriesGrow(h, noise, seed, fileSize, chunkSize, es, bodies, e, body);
  }

  /** The finished manifest passes validation, whether or not equal chunks were merged, and even if
      different chunks collide: only the last chunk may be shorter, so the first one declared under
      an id is never too small. */
  lemma MadeIsValid(h: Hasher, noise: Noise, seed: U64, fileSize: U64, chunkSize: U64, m: Manifest, bodies: seq<Body>)
    requires Made(h, noise, seed, fileSize, chunkSize, m.entries, bodies, m.chunks)
    requires Extent(m.entries, |m.entries|) == fileSize == m.totalSize && m.chunkCount == |m.entries|
    ensures Valid(m)
  {
    hide Valid, Tiles, ParsesAsChunkId, Join, Extent;
    TilesIffChained(m.entries, m.totalSize);
    forall i | 0 <= i < |m.entries|
      ensures ParsesAsChunkId(m.entries[i].chunkId) && SliceFits(m, m.entries[i])
    {
      assert EntryMade(h, noise, seed, fileSize, chunkSize, m.entries, bodies, i);
      assert EntryServed(m.entries, m.chunks, i);
      FromBytesParses(h, bodies[i].1);
    }
    forall c | c in m.chunks ensures ParsesAsChunkId(c.chunkId) && Referenced(m, c.chunkId) {
      assert ChunkNamed(m.entries, c);
    }
    ValidationIsExact(m);
  }

  /** What `generate_manifest` promises of its result. */
  ghost predicate Generated(
    h: Hasher, noise: Noise, seed: U64, fileSize: U64, chunkSize: U64, m: Manifest, bodies: seq<Body>)
    requires chunkSize > 0
  {
    && Valid(m)
    && m.totalSize == fileSize
    && |m.entries| == |bodies| == ChunkCount(fileSize, chunkSize)
    && (forall i | 0 <= i < |bodies| :: EntryMade(h, noise, seed, fileSize, chunkSize, m.entries, bodies, i))
    && (forall c | c in m.chunks :: ChunkNamed(m.entries, c)) && Distinct(m.chunks)
    && Join(Bodies(bodies)) == Stream(noise, seed, 0, fileSize)
  }

  method GenerateManifest(
    h: Hasher, noise: Noise, fileSize: U64, chunkSize: U64, seed: U64, newId: ManifestId)
    returns (m: Manifest, bodies: seq<Body>)
    requires chunkSize > 0
    ensures Generated(h, noise, seed, fileSize, chunkSize, m, bodies) && m.manifestId == newId
  {
    ChunkCountIsCeiling(fileSize, chunkSize);
    var stream := new ByteStream(noise, seed);
    var n := ChunkCount(fileSize, chunkSize);
    var entries: seq<Entry> := [];
    var chunks: seq<Chunk> := [];
    var offset: U64 := 0;
    bodies := [];
    for k := 0 to n
      invariant stream.Valid() && fresh(stream) && fresh(stream.block)
      invariant stream.Position() == offset && stream.noise == noise && stream.seed == seed
      invariant |entries| == k && offset == Extent(entries, k)
      invariant Made(h, noise, seed, fileSize, chunkSize, entries, bodies, chunks)
    {
      hide Made, Extent, ChunkCount, Stream, FromBytes, ByteStream.Valid, ByteStream.Position;
      MadeSoFar(h, noise, seed, fileSize, chunkSize, entries, bodies, chunks);
      var len: U64 := if fileSize - offset < chunkSize then fileSize - offset else chunkSize;
      var buf := new bv8[len](_ => 0);
      stream.Fill(buf, len);
      var body: Blob := buf[..];
      assert body == buf[..len];
      var id := FromBytes(h, body);
      var entry := Entry(offset, len, id, 0);
      MadeGrows(h, noise, seed, fileSize, chunkSize, entries, bodies, chunks, entry, body);
      ChunkSizeFindsFirst(chunks, id);
      entries := entries + [entry];
      var chunk := Chunk(id, len);
      if !(exists q | 0 <= q < |chunks| :: chunks[q].chunkId == id) {
        chunks := chunks + [chunk];
      }
      bodies := bodies + [(chunk, body)];
      offset := offset + len;
    }
    m := Manifest(newId, fileSize, |entries|, entries, chunks);
    MadeIsValid(h, noise, seed, fileSize, chunkSize, m, bodies);
  }

  /** Before each of the counted turns something of the file is left. */
  lemma MadeSoFar(
    h: Hasher, noise: Noise, seed: U64, fileSize: U64, chunkSize: U64,
    es: seq<Entry>, bodies: seq<Body>, chunks: seq<Chunk>)
    requires chunkSize > 0 && Made(h, noise, seed, fileSize, chunkSize, es, bodies, chunks)
    ensures |es| < ChunkCount(fileSize, chunkSize) ==> Extent(es, |es|) < fileSize
    ensures |es| == ChunkCount(fileSize, chunkSize) ==> Extent(es, |es|) == fileSize
  {
    hide Start, EntryMade, InPlace, EntryServed, ChunkNamed;
    ChunkCountIsCeiling(fileSize, chunkSize);
  }
}
