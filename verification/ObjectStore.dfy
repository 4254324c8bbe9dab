/** The content-addressed blob store: its operations as functions of the stored map, and the
    in-memory store that updates the map in place. */
module ObjectStore {
  import opened Model

  type Blobs = map<ChunkId, Blob>

  function PutBlob(h: Hasher, blobs: Blobs, id: ChunkId, bytes: Blob): (Blobs, Result<()>) {
    if !Verify(h, id, bytes) then (blobs, Err(IntegrityChunkIdConflict))
    else if id in blobs then
      if blobs[id] == bytes then (blobs, Ok(())) else (blobs, Err(IntegrityChunkIdConflict))
    else (blobs[id := bytes], Ok(()))
  }

  function GetBlob(h: Hasher, blobs: Blobs, id: ChunkId): Result<Blob> {
    if id !in blobs then Err(ChunkNotFound)
    else if !Verify(h, id, blobs[id]) then Err(IntegrityHashMismatch)
    else Ok(blobs[id])
  }

  function GetBlobRange(h: Hasher, blobs: Blobs, id: ChunkId, offset: U64, length: U32): Result<Blob> {
    if id !in blobs then Err(ChunkNotFound)
    else match CheckedAdd(offset, length)
      case None => Err(InvalidParameter)
      case Some(end) =>
        if end > |blobs[id]| then Err(IntegrityLengthMismatch)
        else if offset == 0 && length == |blobs[id]| && !Verify(h, id, blobs[id]) then Err(IntegrityHashMismatch)
        else Ok(blobs[id][offset..end])
  }

  function HeadBlob(blobs: Blobs, id: ChunkId): Result<U64> {
    if id in blobs then Ok(|blobs[id]|) else Err(ChunkNotFound)
  }

  /** Flip every bit of one stored byte, if there is such a byte. */
  function FlipStored(blobs: Blobs, id: ChunkId, at: nat): Blobs {
    if id in blobs && at < |blobs[id]| then blobs[id := blobs[id][at := blobs[id][at] ^ 0xFF]] else blobs
  }

  function TruncateStored(blobs: Blobs, id: ChunkId, len: nat): Blobs {
    if id in blobs && len < |blobs[id]| then blobs[id := blobs[id][..len]] else blobs
  }

  function DeleteStored(blobs: Blobs, id: ChunkId): Blobs {
    blobs - {id}
  }

  /** Everything in `a` is still in `b`, unchanged. */
  ghost predicate Kept(a: Blobs, b: Blobs) {
    forall id | id in a :: id in b && b[id] == a[id]
  }

  /** A put never alters what is stored; it succeeds exactly when the store then holds the bytes
      under their own address, and then a get returns them. */
  lemma PutIsExact(h: Hasher, blobs: Blobs, id: ChunkId, bytes: Blob)
    ensures Kept(blobs, PutBlob(h, blobs, id, bytes).0)
    ensures PutBlob(h, blobs, id, bytes).1.Ok? <==>
              id == FromBytes(h, bytes) && (id in blobs ==> blobs[id] == bytes)
    ensures PutBlob(h, blobs, id, bytes).1.Ok? ==>
              && PutBlob(h, blobs, id, bytes).0 == blobs[id := bytes]
              && GetBlob(h, PutBlob(h, blobs, id, bytes).0, id) == Ok(bytes)
    ensures PutBlob(h, blobs, id, bytes).1.Err? ==>
              PutBlob(h, blobs, id, bytes) == (blobs, Err(IntegrityChunkIdConflict))
  {
    if id in blobs && blobs[id] == bytes {
      assert blobs[id := bytes] == blobs;
    }
  }

  /** A put that was accepted is found by the size lookup. */
  lemma HeadAfterPut(h: Hasher, blobs: Blobs, id: ChunkId, bytes: Blob)
    requires PutBlob(h, blobs, id, bytes).1.Ok?
    ensures HeadBlob(PutBlob(h, blobs, id, bytes).0, id) == Ok(|bytes|)
    ensures forall k | k != id :: HeadBlob(PutBlob(h, blobs, id, bytes).0, k) == HeadBlob(blobs, k)
  {
  }

  /** A whole read returns bytes exactly when they are stored under the id and match it. */
  lemma GetIsExact(h: Hasher, blobs: Blobs, id: ChunkId, bytes: Blob)
    ensures GetBlob(h, blobs, id) == Ok(bytes) <==> id in blobs && blobs[id] == bytes && id == FromBytes(h, bytes)
    ensures GetBlob(h, blobs, id) == Err(ChunkNotFound) <==> id !in blobs
    ensures GetBlob(h, blobs, id) == Err(IntegrityHashMismatch) <==> id in blobs && id != FromBytes(h, blobs[id])
  {
  }

  /** A slice read never returns fewer bytes than asked for: it returns exactly the slice, and only a
      whole object is verified. */
  lemma GetRangeIsExact(h: Hasher, blobs: Blobs, id: ChunkId, offset: U64, length: U32, bytes: Blob)
    ensures GetBlobRange(h, blobs, id, offset, length) == Ok(bytes) <==>
            && id in blobs && offset + length <= |blobs[id]|
            && bytes == blobs[id][offset..offset + length]
            && (bytes == blobs[id] ==> id == FromBytes(h, bytes))
    ensures id !in blobs ==> GetBlobRange(h, blobs, id, offset, length) == Err(ChunkNotFound)
    ensures id in blobs && offset + length > U64_MAX ==>
              GetBlobRange(h, blobs, id, offset, length) == Err(InvalidParameter)
    ensures id in blobs && |blobs[id]| < offset + length <= U64_MAX ==>
              GetBlobRange(h, blobs, id, offset, length) == Err(IntegrityLengthMismatch)
    ensures id in blobs && offset == 0 && length == |blobs[id]| && id != FromBytes(h, blobs[id]) ==>
              GetBlobRange(h, blobs, id, offset, length) == Err(IntegrityHashMismatch)
  {
    if id in blobs && offset + length <= |blobs[id]| {
      var slice := blobs[id][offset..offset + length];
      assert slice == blobs[id] <==> offset == 0 && length == |blobs[id]|;
    }
  }

  /** Every other object is as before. */
  ghost predicate OnlyTouches(a: Blobs, b: Blobs, id: ChunkId) {
    forall k | k != id :: (k in b <==> k in a) && (k in a ==> b[k] == a[k])
  }

  /** A flip in range changes exactly the named byte, and a second one undoes it. */
  lemma FlipIsExact(blobs: Blobs, id: ChunkId, at: nat)
    ensures OnlyTouches(blobs, FlipStored(blobs, id, at), id)
    ensures id in FlipStored(blobs, id, at) <==> id in blobs
    ensures id in blobs ==>
              && |FlipStored(blobs, id, at)[id]| == |blobs[id]|
              && forall j | 0 <= j < |blobs[id]| ::
                   FlipStored(blobs, id, at)[id][j] == if j == at then blobs[id][j] ^ 0xFF else blobs[id][j]
    ensures FlipStored(blobs, id, at) == blobs <==> !(id in blobs && at < |blobs[id]|)
    ensures FlipStored(FlipStored(blobs, id, at), id, at) == blobs
  {
    if id in blobs && at < |blobs[id]| {
      var b := blobs[id][at];
      assert b ^ 0xFF != b && (b ^ 0xFF) ^ 0xFF == b;
      var once := FlipStored(blobs, id, at);
      assert once[id][at] != blobs[id][at];
      assert once[id][at := once[id][at] ^ 0xFF] == blobs[id];
    }
  }

  /** A truncation leaves exactly the first bytes of the one object. */
  lemma TruncateIsExact(blobs: Blobs, id: ChunkId, len: nat)
    ensures OnlyTouches(blobs, TruncateStored(blobs, id, len), id)
    ensures id in TruncateStored(blobs, id, len) <==> id in blobs
    ensures id in blobs ==>
              && TruncateStored(blobs, id, len)[id] <= blobs[id]
              && |TruncateStored(blobs, id, len)[id]| == if len < |blobs[id]| then len else |blobs[id]|
  {
  }

  /** A deletion removes the one object. */
  lemma DeleteIsExact(blobs: Blobs, id: ChunkId)
    ensures OnlyTouches(blobs, DeleteStored(blobs, id), id)
    ensures id !in DeleteStored(blobs, id)
  {
  }

  class FakeObjectStore {
    const hash: Hasher
    var blobs: Blobs

    constructor (hash: Hasher)
      ensures this.hash == hash && blobs == map[]
    {
      this.hash := hash;
      blobs := map[];
    }

    method Put(id: ChunkId, bytes: Blob) returns (r: Result<()>)
      modifies this
      ensures (blobs, r) == PutBlob(hash, old(blobs), id, bytes)
    {
      if !Verify(hash, id, bytes) {
        return Err(IntegrityChunkIdConflict);
      }
      if id in blobs {
        if blobs[id] == bytes {
          return Ok(());
        }
        return Err(IntegrityChunkIdConflict);
      }
      blobs := blobs[id := bytes];
      return Ok(());
    }

    method Head(id: ChunkId) returns (r: Result<U64>)
      ensures r == HeadBlob(blobs, id)
    {
      if id in blobs {
        return Ok(|blobs[id]|);
      }
      return Err(ChunkNotFound);
    }

    method Get(id: ChunkId) returns (r: Result<Blob>)
      ensures r == GetBlob(hash, blobs, id)
    {
      if id !in blobs {
        return Err(ChunkNotFound);
      }
      if !Verify(hash, id, blobs[id]) {
        return Err(IntegrityHashMismatch);
      }
      return Ok(blobs[id]);
    }

    method GetRange(id: ChunkId, offset: U64, length: U32) returns (r: Result<Blob>)
      ensures r == GetBlobRange(hash, blobs, id, offset, length)
    {
      if id !in blobs {
        return Err(ChunkNotFound);
      }
      var obj := blobs[id];
      var end := CheckedAdd(offset, length);
      if end.None? {
        return Err(InvalidParameter);
      }
      if end.value > |obj| {
        return Err(IntegrityLengthMismatch);
      }
      if offset == 0 && length == |obj| && !Verify(hash, id, obj) {
        return Err(IntegrityHashMismatch);
      }
      return Ok(obj[offset..end.value]);
    }

    method CorruptForTest(id: ChunkId, at: nat)
      modifies this
      ensures blobs == FlipStored(old(blobs), id, at)
      ensures OnlyTouches(old(blobs), blobs, id)
    {
      if id in blobs {
        var v := blobs[id];
        if at < |v| {
          v := v[at := v[at] ^ 0xFF];
          blobs := blobs[id := v];
        }
      }
    }

    method TruncateForTest(id: ChunkId, len: nat)
      modifies this
      ensures blobs == TruncateStored(old(blobs), id, len)
      ensures OnlyTouches(old(blobs), blobs, id)
    {
      if id in blobs {
        var v := blobs[id];
        if len < |v| {
          v := v[..len];
        }
        blobs := blobs[id := v];
        assert len >= |old(blobs)[id]| ==> blobs == old(blobs);
      }
    }

    method Delete(id: ChunkId)
      modifies this
      ensures blobs == DeleteStored(old(blobs), id)
      ensures id !in blobs && OnlyTouches(old(blobs), blobs, id)
    {
      blobs := map k | k in blobs && k != id :: blobs[k];
    }
  }
}
