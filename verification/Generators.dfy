/** Deterministic test data: a buffered byte stream, and a file cut into chunks with its manifest. */
module Generators {
  import opened Model

  const BLOCK: nat := 8192

  /** The seeded generator: byte `i` of the `k`-th block that is drawn from it. */
  type Noise = (U64, nat, nat) -> bv8

  function Nz(b: bv8): (r: bv8)
    ensures r != 0
    ensures b != 0 ==> r == b
  {
    if b == 0 then 0xAA else b
  }

  /** Byte `p` of the stream of a seed. */
  function StreamByte(noise: Noise, seed: U64, p: nat): bv8 {
    Nz(noise(seed, p / BLOCK, p % BLOCK))
  }

  function Stream(noise: Noise, seed: U64, from: nat, len: nat): (s: Bytes)
    ensures |s| == len
    ensures forall i | 0 <= i < len :: s[i] == StreamByte(noise, seed, from + i)
  {
    seq(len, i requires i >= 0 => StreamByte(noise, seed, from + i))
  }

  lemma StreamSplits(noise: Noise, seed: U64, from: nat, a: nat, b: nat)
    ensures Stream(noise, seed, from, a) + Stream(noise, seed, from + a, b) == Stream(noise, seed, from, a + b)
  {
    hide StreamByte;
  }

  function Join(pieces: seq<Bytes>): Bytes {
    if pieces == [] then [] else Join(pieces[..|pieces| - 1]) + pieces[|pieces| - 1]
  }

  lemma JoinAppends(pieces: seq<Bytes>, p: Bytes)
    ensures Join(pieces + [p]) == Join(pieces) + p
  {
    assert (pieces + [p])[..|pieces|] == pieces;
  }

  function Sum(lens: seq<nat>): nat {
    if lens == [] then 0 else Sum(lens[..|lens| - 1]) + lens[|lens| - 1]
  }

  /** The bytes that consecutive reads of the given lengths return. */
  function Sliced(noise: Noise, seed: U64, from: nat, lens: seq<nat>): seq<Bytes> {
    if lens == [] then []
    else
      var init := lens[..|lens| - 1];
      Sliced(noise, seed, from, init) + [Stream(noise, seed, from + Sum(init), lens[|lens| - 1])]
  }

  /** However a stretch of the stream is cut into reads, the bytes are those of one read. */
  lemma {:induction false} SlicingDoesNotMatter(noise: Noise, seed: U64, from: nat, lens: seq<nat>)
    ensures Join(Sliced(noise, seed, from, lens)) == Stream(noise, seed, from, Sum(lens))
  {
    if lens != [] {
      var init := lens[..|lens| - 1];
      SlicingDoesNotMatter(noise, seed, from, init);
      StreamSplits(noise, seed, from, Sum(init), lens[|lens| - 1]);
      var cut := Sliced(noise, seed, from, lens);
      assert cut[..|cut| - 1] == Sliced(noise, seed, from, init);
    }
  }

  /** The stream behind a fixed-size buffer. */
  class ByteStream {
    const noise: Noise
    const seed: U64
    const block: array<bv8>
    var drawn: nat
    var used: nat

    ghost predicate Valid()
      reads this, block
    {
      && block.Length == BLOCK && used <= BLOCK
      && (drawn == 0 ==> used == BLOCK)
      && (drawn > 0 ==> forall i | 0 <= i < BLOCK :: block[i] == Nz(noise(seed, drawn - 1, i)))
    }

    /** How many bytes have been handed out. */
    ghost function Position(): nat
      requires Valid()
      reads this, block
    {
      drawn * BLOCK - (BLOCK - used)
    }

    constructor (noise: Noise, seed: U64)
      ensures Valid() && fresh(block) && Position() == 0
      ensures this.noise == noise && this.seed == seed
    {
      this.noise, this.seed := noise, seed;
      block := new bv8[BLOCK](_ => 0);
      drawn, used := 0, BLOCK;
    }

    method Refill()
      requires Valid() && used == BLOCK
      modifies this, block
      ensures Valid() && used == 0 && Position() == old(Position())
    {
      forall i | 0 <= i < BLOCK {
        block[i] := noise(seed, drawn, i);
      }
      for i := 0 to BLOCK
        modifies block
        invariant forall j | 0 <= j < i :: block[j] == Nz(noise(seed, drawn, j))
        invariant forall j | i <= j < BLOCK :: block[j] == noise(seed, drawn, j)
      {
        block[i] := Nz(block[i]);
      }
      drawn := drawn + 1;
      used := 0;
    }

    /** The unused part of the buffer is the next stretch of the stream. */
    lemma BufferIsStream(n: nat)
      requires Valid() && used + n <= BLOCK
      ensures block[used..used + n] == Stream(noise, seed, Position(), n)
    {
      var next := block[used..used + n];
      forall k | 0 <= k < n ensures next[k] == StreamByte(noise, seed, Position() + k) {
        var p := Position() + k;
        assert p == (drawn - 1) * BLOCK + (used + k);
        assert p / BLOCK == drawn - 1 && p % BLOCK == used + k;
      }
    }

    /** Copy the next `n` unused bytes of the buffer to `buf[i..]`. */
    method CopyOut(buf: array<bv8>, i: nat, n: nat)
      requires Valid() && buf != block && used + n <= BLOCK && i + n <= buf.Length
      modifies `used, buf
      ensures Valid() && Position() == old(Position()) + n
      ensures buf[..i] == old(buf[..i]) && buf[i + n..] == old(buf[i + n..])
      ensures buf[i..i + n] == Stream(noise, seed, old(Position()), n)
    {
      BufferIsStream(n);
      forall k | 0 <= k < n {
        buf[i + k] := block[used + k];
      }
      assert buf[i..i + n] == block[used..used + n];
      used := used + n;
    }

    /** One turn of the fill: draw a block if the buffer is used up, then copy what fits. */
    method FillSome(buf: array<bv8>, i: nat, n: nat) returns (m: nat)
      requires Valid() && buf != block && i < n <= buf.Length
      modifies this, block, buf
      ensures Valid() && 0 < m <= n - i && Position() == old(Position()) + m
      ensures buf[..i] == old(buf[..i])
      ensures buf[i..i + m] == Stream(noise, seed, old(Position()), m)
    {
      hide Stream;
      if used == BLOCK {
        Refill();
      }
      m := if n - i < BLOCK - used then n - i else BLOCK - used;
      CopyOut(buf, i, m);
    }

    /** Fill the first `n` bytes of a buffer with the next `n` bytes of the stream. */
    method Fill(buf: array<bv8>, n: nat)
      requires Valid() && buf != block && n <= buf.Length
      modifies this, block, buf
      ensures Valid() && Position() == old(Position()) + n
      ensures buf[..n] == Stream(noise, seed, old(Position()), n)
    {
      hide Stream, Valid, Position;
      ghost var from := Position();
      var i := 0;
      while i < n
        invariant Valid() && 0 <= i <= n && Position() == from + i
        invariant buf[..i] == Stream(noise, seed, from, i)
        decreases n - i
      {
        ghost var before := buf[..i];
        var m := FillSome(buf, i, n);
        StreamSplits(noise, seed, from, i, m);
        assert buf[..i + m] == before + buf[i..i + m];
        i := i + m;
      }
    }
  }

  /** Consecutive fills of any lengths on one stream hand out the bytes of a single fill of their sum. */
  method FillPieces(stream: ByteStream, lens: seq<nat>) returns (pieces: seq<Bytes>)
    requires stream.Valid()
    modifies stream, stream.block
    ensures stream.Valid() && stream.Position() == old(stream.Position()) + Sum(lens)
    ensures pieces == Sliced(stream.noise, stream.seed, old(stream.Position()), lens)
    ensures Join(pieces) == Stream(stream.noise, stream.seed, old(stream.Position()), Sum(lens))
  {
    ghost var from := stream.Position();
    pieces := [];
    for i := 0 to |lens|
      invariant stream.Valid() && stream.Position() == from + Sum(lens[..i])
      invariant pieces == Sliced(stream.noise, stream.seed, from, lens[..i])
    {
      var buf := new bv8[lens[i]](_ => 0);
      stream.Fill(buf, lens[i]);
      assert lens[..i + 1][..i] == lens[..i];
      pieces := pieces + [buf[..lens[i]]];
    }
    assert lens[..|lens|] == lens;
    SlicingDoesNotMatter(stream.noise, stream.seed, from, lens);
  }

  method GenerateFile(noise: Noise, size: U64, seed: U64) returns (out: Bytes)
    ensures out == Stream(noise, seed, 0, size)
    ensures |out| == size && forall i | 0 <= i < |out| :: out[i] != 0
    ensures forall i | 0 <= i < |out| ::
              out[i] == var b := noise(seed, i / 8192, i % 8192); if b == 0 then 0xAA else b
  {
    var buf := new bv8[size](_ => 0);
    var stream := new ByteStream(noise, seed);
    stream.Fill(buf, size);
    out := buf[..];
    assert out == buf[..size];
  }

  lemma PieceJoins(noise: Noise, seed: U64, pieces: seq<Bytes>, p: Bytes, from: nat)
    requires Join(pieces) == Stream(noise, seed, 0, from) && p == Stream(noise, seed, from, |p|)
    ensures Join(pieces + [p]) == Stream(noise, seed, 0, from + |p|)
  {
    hide Stream, Join;
    JoinAppends(pieces, p);
    StreamSplits(noise, seed, 0, from, |p|);
  }

  /** The same file handed to a sink in pieces of at most `block` bytes; `pieces` is what the sink saw. */
  method GenerateFileStreaming(noise: Noise, size: U64, seed: U64, block: nat) returns (pieces: seq<Bytes>)
    requires block > 0
    ensures Join(pieces) == Stream(noise, seed, 0, size)
    ensures forall p | p in pieces :: 0 < |p| <= block
  {
    assert Join([]) == Stream(noise, seed, 0, 0);
    hide Stream, Join, ByteStream.Valid, ByteStream.Position;
    var stream := new ByteStream(noise, seed);
    var remaining: nat := size;
    var buf := new bv8[block](_ => 0);
    pieces := [];
    while remaining > 0
      invariant remaining <= size && stream.Valid() && fresh(stream) && fresh(stream.block) && buf != stream.block
      invariant stream.Position() == size - remaining && stream.noise == noise && stream.seed == seed
      invariant Join(pieces) == Stream(noise, seed, 0, size - remaining)
      invariant forall p | p in pieces :: 0 < |p| <= block
      decreases remaining
    {
      var n := if remaining < block then remaining else block;
      stream.Fill(buf, n);
      PieceJoins(noise, seed, pieces, buf[..n], size - remaining);
      pieces := pieces + [buf[..n]];
      remaining := remaining - n;
    }
  }
}
