/** One ranged read: the client prints an inclusive Range header, the server parses it, narrows the
    length to 32 bits and reads the slice, and the client checks the length of the answer. */
module RangeRead {
  import opened Model
  import opened ObjectStore

  // ---- decimal numbers ----

  predicate IsDigit(c: char) {
    '0' <= c <= '9'
  }

  predicate AllDigits(s: string) {
    forall i | 0 <= i < |s| :: IsDigit(s[i])
  }

  function DigitOf(d: nat): char
    requires d < 10
  {
    '0' + d as char
  }

  function Print(n: nat): string {
    if n < 10 then [DigitOf(n)] else Print(n / 10) + [DigitOf(n % 10)]
  }

  function ValueOf(s: string): nat
    requires AllDigits(s)
  {
    if s == [] then 0 else 10 * ValueOf(s[..|s| - 1]) + (s[|s| - 1] as int - '0' as int)
  }

  /** Decimal parsing of an unsigned 64-bit number: an optional plus sign, then digits only. */
  function ParseU64(s: string): Option<U64> {
    var digits := if |s| > 1 && s[0] == '+' then s[1..] else s;
    if digits == [] || !AllDigits(digits) then None
    else if ValueOf(digits) <= U64_MAX then Some(ValueOf(digits)) else None
  }

  lemma {:induction false} PrintThenValue(n: nat)
    ensures Print(n) != [] && AllDigits(Print(n)) && ValueOf(Print(n)) == n
    ensures n > 0 ==> Print(n)[0] != '0'
  {
    if n >= 10 {
      PrintThenValue(n / 10);
      var s := Print(n);
      assert s[..|s| - 1] == Print(n / 10);
    }
  }

  lemma PrintThenParse(n: U64)
    ensures ParseU64(Print(n)) == Some(n)
  {
    PrintThenValue(n);
    assert IsDigit(Print(n)[0]);
  }

  /** The printed number after `z` zeros. */
  function Padded(z: nat, n: nat): string {
    seq(z, _ => '0') + Print(n)
  }

  lemma {:induction false} PaddedValue(z: nat, n: nat)
    ensures AllDigits(Padded(z, n)) && ValueOf(Padded(z, n)) == n
  {
    PrintThenValue(n);
    var s := Padded(z, n);
    var init := s[..|s| - 1];
    if n >= 10 {
      PaddedValue(z, n / 10);
      assert init == Padded(z, n / 10);
    } else if z > 0 {
      PaddedValue(z - 1, 0);
      assert init == Padded(z - 1, 0);
    }
  }

  lemma PrintAppends(n: nat, d: nat)
    requires n > 0 && d < 10
    ensures Print(10 * n + d) == Print(n) + [DigitOf(d)]
  {
  }

  /** A string of digits is its value, printed after some zeros. */
  lemma {:induction false} DigitsArePadded(s: string) returns (z: nat)
    requires s != [] && AllDigits(s)
    ensures s == Padded(z, ValueOf(s))
  {
    var init, d := s[..|s| - 1], s[|s| - 1] as int - '0' as int;
    assert IsDigit(s[|s| - 1]) && s == init + [DigitOf(d)];
    assert Print(d) == [DigitOf(d)] && Print(0) == [DigitOf(0)];
    hide Print;
    z := 0;
    if init != [] {
      z := DigitsArePadded(init);
      if ValueOf(init) > 0 {
        PrintAppends(ValueOf(init), d);
      } else {
        z := z + 1;
      }
    }
  }

  /** `s` is a decimal numeral of `n`: a plus sign or none, any number of zeros, and the digits. */
  ghost predicate Numeral(s: string, n: nat) {
    exists z: nat :: s == Padded(z, n) || s == "+" + Padded(z, n)
  }

  /** The parser accepts exactly the numerals of 64-bit numbers. */
  lemma ParseU64IsExact(s: string, n: U64)
    ensures ParseU64(s) == Some(n) <==> Numeral(s, n)
  {
    hide Padded;
    if ParseU64(s) == Some(n) {
      var digits := if |s| > 1 && s[0] == '+' then s[1..] else s;
      var z := DigitsArePadded(digits);
      assert s == digits || s == "+" + digits;
    }
    if z: nat :| s == Padded(z, n) || s == "+" + Padded(z, n) {
      var digits := Padded(z, n);
      PaddedValue(z, n);
      PaddedIsNotEmpty(z, n);
      assert IsDigit(digits[0]);
      if s != digits { assert s[1..] == digits; }
    }
  }

  lemma PaddedIsNotEmpty(z: nat, n: nat)
    ensures Padded(z, n) != []
  {
    PrintThenValue(n);
  }

  // ---- the header ----

  const UNIT: string := "bytes="

  function PrintRange(first: nat, last: nat): string {
    UNIT + (Print(first) + "-" + Print(last))
  }

  /** Split at the first hyphen. */
  function SplitOnce(s: string): Option<(string, string)> {
    if s == [] then None
    else if s[0] == '-' then Some(([], s[1..]))
    else match SplitOnce(s[1..])
      case None => None
      case Some(parts) => Some(([s[0]] + parts.0, parts.1))
  }

  function ParseRange(raw: string, size: U64): (bounds: Option<(U64, U64)>)
    ensures bounds.Some? ==> bounds.value.0 <= bounds.value.1
  {
    if !(UNIT <= raw) then None
    else match SplitOnce(raw[|UNIT|..])
      case None => None
      case Some(parts) =>
        match ParseU64(parts.0)
        case None => None
        case Some(first) =>
          var last := if parts.1 == [] then Some((if size > 1 then size else 1) - 1) else ParseU64(parts.1);
          if last.None? || first > last.value then None else Some((first, last.value))
  }

  /** The split is at the first hyphen. */
  lemma {:induction false} SplitOnceIsExact(s: string, a: string, b: string)
    ensures SplitOnce(s) == Some((a, b)) <==> s == a + "-" + b && '-' !in a
  {
    if s != [] && s[0] != '-' {
      var rest := s[1..];
      if a != [] {
        SplitOnceIsExact(rest, a[1..], b);
        assert s == a + "-" + b <==> s[0] == a[0] && rest == a[1..] + "-" + b by {
          assert (a + "-" + b)[1..] == a[1..] + "-" + b;
          assert s == [s[0]] + rest && a + "-" + b == [a[0]] + (a + "-" + b)[1..];
        }
        assert '-' in a <==> a[0] == '-' || '-' in a[1..];
        assert a == [a[0]] + a[1..];
      }
    } else if s != [] {
      assert a == [] && s == a + "-" + b ==> s[1..] == b;
      assert s == ['-'] + s[1..];
      if a != [] && s == a + "-" + b { assert a[0] == s[0]; }
    }
  }

  lemma NumeralHasNoHyphen(s: string, n: nat)
    requires Numeral(s, n)
    ensures s != [] && '-' !in s
  {
    hide Padded;
    var z: nat :| s == Padded(z, n) || s == "+" + Padded(z, n);
    PaddedValue(z, n);
    PaddedIsNotEmpty(z, n);
    assert forall c | c in Padded(z, n) :: IsDigit(c);
  }

  /** A header is a byte range exactly when it is the unit, a numeral, a hyphen and a numeral or
      nothing, and does not run backwards; without a last position it ends with the object, and an
      empty object counts as one byte. */
  lemma ParseRangeIsExact(raw: string, size: U64, first: U64, last: U64)
    ensures ParseRange(raw, size) == Some((first, last)) <==>
            first <= last && exists a, b :: RangeText(raw, a, b) && Names(a, b, size, first, last)
  {
    hide Numeral, SplitOnce, ParseU64;
    if UNIT <= raw && SplitOnce(raw[|UNIT|..]).Some? {
      var (a, b) := SplitOnce(raw[|UNIT|..]).value;
      SplitOnceIsExact(raw[|UNIT|..], a, b);
      assert raw == UNIT + raw[|UNIT|..];
      assert RangeText(raw, a, b);
      ParseU64IsExact(a, first);
      ParseU64IsExact(b, last);
    }
    if a, b :| RangeText(raw, a, b) && Names(a, b, size, first, last) {
      SplitFindsText(raw, a, b, first);
    }
  }

  /** The two texts name the positions `first` and `last`. */
  ghost predicate Names(a: string, b: string, size: U64, first: nat, last: nat) {
    Numeral(a, first) && if b == [] then last == (if size == 0 then 0 else size - 1) else Numeral(b, last)
  }

  ghost predicate RangeText(raw: string, a: string, b: string) {
    raw == "bytes=" + (a + "-" + b)
  }

  lemma SplitFindsText(raw: string, a: string, b: string, first: nat)
    requires RangeText(raw, a, b) && Numeral(a, first)
    ensures UNIT <= raw && SplitOnce(raw[|UNIT|..]) == Some((a, b))
  {
    NumeralHasNoHyphen(a, first);
    assert raw[|UNIT|..] == a + "-" + b;
    SplitOnceIsExact(raw[|UNIT|..], a, b);
  }

  lemma PrintIsNumeral(n: nat)
    ensures Numeral(Print(n), n)
  {
    assert Print(n) == Padded(0, n);
  }

  /** A printed range parses back to its bounds, whatever the stored size is; a range that runs
      backwards is refused. */
  lemma RangeHeaderRoundTrip(first: U64, last: U64, size: U64)
    ensures ParseRange(PrintRange(first, last), size) == if first <= last then Some((first, last)) else None
  {
    hide Print, Numeral, SplitOnce;
    PrintIsNumeral(first);
    SplitFindsText(PrintRange(first, last), Print(first), Print(last), first);
    PrintThenParse(first);
    PrintThenParse(last);
    PrintThenValue(last);
  }

  /** The same without a last position. */
  function PrintOpenRange(first: nat): string {
    UNIT + (Print(first) + "-")
  }

  lemma OpenHeaderRoundTrip(first: U64, size: U64)
    ensures ParseRange(PrintOpenRange(first), size) ==
            var last := if size == 0 then 0 else size - 1;
            if first <= last then Some((first, last)) else None
  {
    hide Print, Numeral, SplitOnce;
    PrintIsNumeral(first);
    assert Print(first) + "-" == Print(first) + "-" + [];
    SplitFindsText(PrintOpenRange(first), Print(first), [], first);
    PrintThenParse(first);
  }

  /** The headers of the server's own test. */
  lemma RangeExamples()
    ensures ParseRange("bytes=0-9", 100) == Some((0, 9))
    ensures ParseRange("bytes=90-", 100) == Some((90, 99))
    ensures ParseRange("bytes=90-200", 100) == Some((90, 200))
    ensures ParseRange("bytes=9-2", 100) == None
    ensures ParseRange("0-9", 100) == None
  {
    assert Print(0) == "0" && Print(9) == "9" && Print(2) == "2" && Print(90) == "90" && Print(200) == "200";
    assert PrintRange(0, 9) == "bytes=0-9" && PrintRange(90, 200) == "bytes=90-200";
    assert PrintRange(9, 2) == "bytes=9-2" && PrintOpenRange(90) == "bytes=90-";
    RangeHeaderRoundTrip(0, 9, 100);
    OpenHeaderRoundTrip(90, 100);
    RangeHeaderRoundTrip(90, 200, 100);
    RangeHeaderRoundTrip(9, 2, 100);
  }

  // ---- the two sides ----

  /** A length cut to 32 bits. */
  function Narrow(length: nat): (r: U32)
    ensures r <= length
    ensures r == length <==> length <= U32_MAX
    ensures (length - r) % 0x1_0000_0000 == 0
  {
    length % 0x1_0000_0000
  }

  /** The server's answer to a chunk request: `head` is what the size lookup returned under the first
      lock, `blobs` the store under the second, `range` the header if there is one. */
  function ServeChunk(h: Hasher, head: Result<U64>, blobs: Blobs, id: ChunkId, range: Option<string>): Result<Blob> {
    if !ParsesAsChunkId(id) then Err(InvalidParameter)
    else match head
      case Err(code) => Err(code)
      case Ok(size) =>
        match range
        case None => GetBlob(h, blobs, id)
        case Some(header) =>
          match ParseRange(header, size)
          case None => Err(InvalidParameter)
          case Some((first, last)) => GetBlobRange(h, blobs, id, first, Narrow(last - first + 1))
  }

  /** A whole-object request is answered exactly with stored bytes that match the id, and otherwise
      with the first thing that is wrong. */
  lemma WholeReadIsVerified(h: Hasher, head: Result<U64>, blobs: Blobs, id: ChunkId, bytes: Blob)
    ensures ServeChunk(h, head, blobs, id, None) == Ok(bytes) <==>
            head.Ok? && id in blobs && blobs[id] == bytes && id == FromBytes(h, bytes)
    ensures ServeChunk(h, head, blobs, id, None).Err? ==>
            ServeChunk(h, head, blobs, id, None).code ==
              if !ParsesAsChunkId(id) then InvalidParameter
              else if head.Err? then head.code
              else if id !in blobs then ChunkNotFound
              else IntegrityHashMismatch
  {
    FromBytesParses(h, bytes);
  }

  /** The server's answer to `bytes=k-`. It reaches to the end of the object exactly when what is left
      there fits 32 bits; of a longer rest the length is cut, and the answer is too short. */
  lemma OpenRangeOutcome(h: Hasher, blobs: Blobs, id: ChunkId, k: U64)
    requires ParsesAsChunkId(id) && id in blobs
    ensures var (b, r) := (blobs[id], ServeChunk(h, HeadBlob(blobs, id), blobs, id, Some(PrintOpenRange(k))));
            if k >= |b| then r == Err(if b == [] && k == 0 then IntegrityLengthMismatch else InvalidParameter)
            else if k == 0 && |b| <= U32_MAX && id != FromBytes(h, b) then r == Err(IntegrityHashMismatch)
            else
              && r.Ok? && r.value <= b[k..] && |r.value| == (|b| - k) % 0x1_0000_0000
              && (r.value == b[k..] <==> |b| - k <= U32_MAX)
  {
    hide PrintOpenRange, ParseRange, ParsesAsChunkId, FromBytes;
    OpenHeaderRoundTrip(k, |blobs[id]|);
  }

  /** An object of 2^32 bytes, asked for from its start, is answered with nothing. */
  lemma LargeObjectReadsAsNothing(h: Hasher)
    ensures var b: Blob := seq(0x1_0000_0000, _ => 0);
            var id := FromBytes(h, b);
            ServeChunk(h, Ok(|b|), map[id := b], id, Some(PrintOpenRange(0))) == Ok([])
  {
    hide PrintOpenRange, ParsesAsChunkId, FromBytes;
    var b: Blob := seq(0x1_0000_0000, _ => 0);
    FromBytesParses(h, b);
    OpenRangeOutcome(h, map[FromBytes(h, b) := b], FromBytes(h, b), 0);
  }

  /** The client's read of `length` bytes at `offset`. The sum must not leave the machine word. */
  function FetchRange(h: Hasher, head: Result<U64>, blobs: Blobs, id: ChunkId, offset: U64, length: U64): Result<Blob>
    requires 1 <= offset + length <= U64_MAX
  {
    match ServeChunk(h, head, blobs, id, Some(PrintRange(offset, offset + length - 1)))
    case Err(code) => Err(code)
    case Ok(bytes) => if |bytes| != length then Err(IntegrityLengthMismatch) else Ok(bytes)
  }

  /** Once the size lookup has succeeded, the header text comes down to one slice read. */
  lemma FetchIsOneSliceRead(h: Hasher, head: Result<U64>, blobs: Blobs, id: ChunkId, offset: U64, length: U64)
    requires 0 < length && offset + length <= U64_MAX
    requires ParsesAsChunkId(id) && head.Ok?
    ensures FetchRange(h, head, blobs, id, offset, length) ==
            match GetBlobRange(h, blobs, id, offset, Narrow(length))
            case Err(code) => Err(code)
            case Ok(bytes) => if Narrow(length) != length then Err(IntegrityLengthMismatch) else Ok(bytes)
  {
    hide PrintRange, ParseRange, Narrow;
    RangeHeaderRoundTrip(offset, offset + length - 1, head.value);
  }

  /** When a ranged read of `length` bytes at `offset` is answered. */
  ghost predicate Answerable(h: Hasher, blobs: Blobs, id: ChunkId, offset: U64, length: U64) {
    && id in blobs
    && 0 < length <= U32_MAX
    && offset + length <= |blobs[id]|
    && (offset == 0 && length == |blobs[id]| ==> Verify(h, id, blobs[id]))
  }

  /** What every ranged read returns, on every store. */
  lemma RangeReadOutcome(
    h: Hasher, head: Result<U64>, blobs: Blobs, id: ChunkId, offset: U64, length: U64)
    requires 1 <= offset + length <= U64_MAX
    ensures FetchRange(h, head, blobs, id, offset, length) ==
            if !ParsesAsChunkId(id) then Err(InvalidParameter)
            else if head.Err? then Err(head.code)
            else if length == 0 then Err(InvalidParameter)
            else if id !in blobs then Err(ChunkNotFound)
            else if Answerable(h, blobs, id, offset, length) then Ok(blobs[id][offset..offset + length])
            else if offset == 0 && Narrow(length) == |blobs[id]| && !Verify(h, id, blobs[id]) then
              Err(IntegrityHashMismatch)
            else Err(IntegrityLengthMismatch)
  {
    hide PrintRange, ParseRange, Narrow, Verify, ParsesAsChunkId;
    if head.Ok? && ParsesAsChunkId(id) {
      if length > 0 {
        FetchIsOneSliceRead(h, head, blobs, id, offset, length);
      } else {
        RangeHeaderRoundTrip(offset, offset - 1, head.value);
      }
    }
  }

  /** A ranged read is answered exactly when it can be, and then with exactly the requested slice of
      the stored bytes, on every store. Narrowing the length never lets a wrong slice through. */
  lemma RangeReadIsExactOrAnError(
    h: Hasher, head: Result<U64>, blobs: Blobs, id: ChunkId, offset: U64, length: U64)
    requires 1 <= offset + length <= U64_MAX
    ensures FetchRange(h, head, blobs, id, offset, length).Ok? <==>
              ParsesAsChunkId(id) && head.Ok? && Answerable(h, blobs, id, offset, length)
    ensures FetchRange(h, head, blobs, id, offset, length).Ok? ==>
              FetchRange(h, head, blobs, id, offset, length).value == blobs[id][offset..offset + length]
  {
    hide FetchRange, Narrow, Verify, ParsesAsChunkId;
    RangeReadOutcome(h, head, blobs, id, offset, length);
  }

  // ---- the same, over the store object ----

  /** `get_chunk`, with or without a Range header. */
  method GetChunk(store: FakeObjectStore, id: ChunkId, range: Option<string>) returns (r: Result<Blob>)
    ensures r == ServeChunk(store.hash, HeadBlob(store.blobs, id), store.blobs, id, range)
    ensures range.None? && r.Ok? ==> Verify(store.hash, id, r.value)
  {
    hide ParseRange, Narrow, GetBlobRange, ParsesAsChunkId, Verify;
    if !ParsesAsChunkId(id) {
      return Err(InvalidParameter);
    }
    var size := store.Head(id);
    if size.Err? {
      return Err(size.code);
    }
    if range.None? {
      r := store.Get(id);
      return;
    }
    var bounds := ParseRange(range.value, size.value);
    if bounds.None? {
      return Err(InvalidParameter);
    }
    var first: U64, last: int := bounds.value.0, bounds.value.1;
    r := store.GetRange(id, first, Narrow(last - first + 1));
  }

  /** `get_chunk_range` of the client. */
  method GetChunkRange(store: FakeObjectStore, id: ChunkId, offset: U64, length: U64) returns (r: Result<Blob>)
    requires 1 <= offset + length <= U64_MAX
    ensures r == FetchRange(store.hash, HeadBlob(store.blobs, id), store.blobs, id, offset, length)
    ensures r.Ok? <==> ParsesAsChunkId(id) && Answerable(store.hash, store.blobs, id, offset, length)
    ensures r.Ok? ==> r.value == store.blobs[id][offset..offset + length]
  {
    RangeReadIsExactOrAnError(store.hash, HeadBlob(store.blobs, id), store.blobs, id, offset, length);
    var end := offset + length - 1;
    r := GetChunk(store, id, Some(PrintRange(offset, end)));
    if r.Ok? && |r.value| != length {
      return Err(IntegrityLengthMismatch);
    }
  }
}
