/** Manifest validation: the ten structural checks, and what they amount to. */
module Validation {
  import opened Model

  /** The rule, and the branch of it, that a check reports. Every breach has the same error code. */
  datatype Breach =
    | Inv01Unsorted
    | Inv02Overflow
    | Inv02Gap
    | Inv03Overflow
    | Inv03Overlap
    | Inv04NotAtZero
    | Inv05Overflow
    | Inv05Sum
    | Inv06Count
    | Inv07ZeroLength
    | Inv08UnknownChunk
    | Inv08Overflow
    | Inv08PastEnd
    | Inv09MalformedChunk
    | Inv09MalformedEntry
    | Inv09NoMetadata
    | Inv09Orphan
    | Inv13NotEmpty

  datatype Verdict = Accept | Reject(breach: Breach) {
    predicate IsFailure() { Reject? }
    function PropagateFailure(): Verdict
      requires Reject?
    {
      this
    }
    function Code(): ErrorCode
      requires Reject?
    {
      IntegrityManifestInvalid
    }
  }

  // ---- the checks, each on its own ----

  function Inv01EntriesSorted(m: Manifest): Verdict {
    if exists i | 0 <= i < |m.entries| - 1 :: m.entries[i].logicalOffset > m.entries[i + 1].logicalOffset
    then Reject(Inv01Unsorted) else Accept
  }

  function Inv02EntriesContiguous(es: seq<Entry>, i: nat := 0): (v: Verdict)
    requires i <= |es|
    ensures v.Accept? || v.breach == Inv02Overflow || v.breach == Inv02Gap
    decreases |es| - i
  {
    if i + 1 >= |es| then Accept
    else match CheckedAdd(es[i].logicalOffset, es[i].length)
      case None => Reject(Inv02Overflow)
      case Some(end) =>
        if end < es[i + 1].logicalOffset then Reject(Inv02Gap) else Inv02EntriesContiguous(es, i + 1)
  }

  function Inv03NoOverlap(es: seq<Entry>, i: nat := 0): (v: Verdict)
    requires i <= |es|
    ensures v.Accept? || v.breach == Inv03Overflow || v.breach == Inv03Overlap
    decreases |es| - i
  {
    if i + 1 >= |es| then Accept
    else match CheckedAdd(es[i].logicalOffset, es[i].length)
      case None => Reject(Inv03Overflow)
      case Some(end) =>
        if end > es[i + 1].logicalOffset then Reject(Inv03Overlap) else Inv03NoOverlap(es, i + 1)
  }

  function Inv04StartsAtZero(m: Manifest): Verdict {
    if m.entries != [] && m.entries[0].logicalOffset != 0 then Reject(Inv04NotAtZero) else Accept
  }

  /** The running sum of the first `k` lengths in checked arithmetic. */
  function CheckedExtent(es: seq<Entry>, k: nat): Option<U64>
    requires k <= |es|
  {
    if k == 0 then Some(0)
    else match CheckedExtent(es, k - 1)
      case None => None
      case Some(sum) => CheckedAdd(sum, es[k - 1].length)
  }

  function Inv05LengthsSumToTotal(m: Manifest): Verdict {
    match CheckedExtent(m.entries, |m.entries|)
    case None => Reject(Inv05Overflow)
    case Some(sum) => if sum != m.totalSize then Reject(Inv05Sum) else Accept
  }

  function Inv06CountMatches(m: Manifest): Verdict {
    if m.chunkCount != |m.entries| then Reject(Inv06Count) else Accept
  }

  function Inv07LengthsNonzero(m: Manifest): Verdict {
    if exists i | 0 <= i < |m.entries| :: m.entries[i].length == 0 then Reject(Inv07ZeroLength) else Accept
  }

  function Inv08SlicesWithinChunks(m: Manifest, i: nat := 0): (v: Verdict)
    requires i <= |m.entries|
    ensures v.Accept? || v.breach == Inv08UnknownChunk || v.breach == Inv08Overflow || v.breach == Inv08PastEnd
    decreases |m.entries| - i
  {
    if i == |m.entries| then Accept
    else
      var e := m.entries[i];
      match ChunkSize(m.chunks, e.chunkId)
      case None => Reject(Inv08UnknownChunk)
      case Some(size) =>
        match CheckedAdd(e.chunkOffset, e.length)
        case None => Reject(Inv08Overflow)
        case Some(end) => if end > size then Reject(Inv08PastEnd) else Inv08SlicesWithinChunks(m, i + 1)
  }

  function EntryIdsResolve(m: Manifest, i: nat := 0): (v: Verdict)
    requires i <= |m.entries|
    ensures v.Accept? || v.breach == Inv09MalformedEntry || v.breach == Inv09NoMetadata
    decreases |m.entries| - i
  {
    if i == |m.entries| then Accept
    else if !ParsesAsChunkId(m.entries[i].chunkId) then Reject(Inv09MalformedEntry)
    else if ChunkSize(m.chunks, m.entries[i].chunkId).None? then Reject(Inv09NoMetadata)
    else EntryIdsResolve(m, i + 1)
  }

  predicate Referenced(m: Manifest, id: ChunkId) {
    exists i | 0 <= i < |m.entries| :: m.entries[i].chunkId == id
  }

  function Inv09ChunkIdsWellFormed(m: Manifest): Verdict {
    if exists k | 0 <= k < |m.chunks| :: !ParsesAsChunkId(m.chunks[k].chunkId) then Reject(Inv09MalformedChunk)
    else
      :- EntryIdsResolve(m);
      if exists k | 0 <= k < |m.chunks| :: !Referenced(m, m.chunks[k].chunkId) then Reject(Inv09Orphan)
      else Accept
  }

  function Inv13EmptyFileIsValid(m: Manifest): Verdict {
    if m.totalSize == 0 && (m.entries != [] || m.chunkCount != 0) then Reject(Inv13NotEmpty) else Accept
  }

  /** All checks, in the order in which the store and the client run them. */
  function Validate(m: Manifest): Verdict {
    var first := Inv13EmptyFileIsValid(m);
    :- first;
    :- Inv01EntriesSorted(m);
    :- Inv04StartsAtZero(m);
    :- Inv02EntriesContiguous(m.entries);
    :- Inv03NoOverlap(m.entries);
    :- Inv07LengthsNonzero(m);
    :- Inv05LengthsSumToTotal(m);
    :- Inv06CountMatches(m);
    :- Inv09ChunkIdsWellFormed(m);
    :- Inv08SlicesWithinChunks(m);
    Accept
  }

  predicate Valid(m: Manifest) {
    Validate(m).Accept?
  }

  // ---- what a valid manifest is, said without the checks ----

  predicate Covers(e: Entry, x: int) {
    e.logicalOffset <= x < e.logicalOffset + e.length
  }

  ghost predicate CoveredOnce(es: seq<Entry>, x: int) {
    exists i | 0 <= i < |es| ::
      Covers(es[i], x) && forall j | 0 <= j < |es| && Covers(es[j], x) :: j == i
  }

  /** The entries are non-empty intervals in increasing order that cover each offset of
      `[0, total)` exactly once and nothing else. */
  ghost predicate Tiles(es: seq<Entry>, total: int) {
    && (forall i | 0 <= i < |es| :: es[i].length > 0)
    && (forall i, j | 0 <= i < j < |es| :: es[i].logicalOffset < es[j].logicalOffset)
    && (forall x | 0 <= x < total :: CoveredOnce(es, x))
    && (forall i, x | 0 <= i < |es| && Covers(es[i], x) :: x < total)
  }

  ghost predicate SliceFits(m: Manifest, e: Entry) {
    && ChunkSize(m.chunks, e.chunkId).Some?
    && e.chunkOffset + e.length <= ChunkSize(m.chunks, e.chunkId).value
  }

  ghost predicate WellFormed(m: Manifest) {
    && Tiles(m.entries, m.totalSize)
    && (forall i | 0 <= i < |m.entries| :: SliceFits(m, m.entries[i]))
    && m.chunkCount == |m.entries|
    && (forall i | 0 <= i < |m.entries| :: ParsesAsChunkId(m.entries[i].chunkId))
    && (forall c | c in m.chunks :: ParsesAsChunkId(c.chunkId) && Referenced(m, c.chunkId))
  }

  // ---- each recursive check, characterised ----

  lemma {:induction false} ContiguousMeans(es: seq<Entry>, i: nat)
    requires i <= |es|
    ensures Inv02EntriesContiguous(es, i).Accept? <==>
            forall j | i <= j < |es| - 1 ::
              es[j + 1].logicalOffset <= es[j].logicalOffset + es[j].length <= U64_MAX
    decreases |es| - i
  {
    if i + 1 < |es| {
      ContiguousMeans(es, i + 1);
      assert Inv02EntriesContiguous(es, i).Accept? <==>
             es[i + 1].logicalOffset <= es[i].logicalOffset + es[i].length <= U64_MAX
             && Inv02EntriesContiguous(es, i + 1).Accept?;
    }
  }

  lemma {:induction false} NoOverlapMeans(es: seq<Entry>, i: nat)
    requires i <= |es|
    ensures Inv03NoOverlap(es, i).Accept? <==>
            forall j | i <= j < |es| - 1 ::
              es[j].logicalOffset + es[j].length <= es[j + 1].logicalOffset
    decreases |es| - i
  {
    if i + 1 < |es| {
      NoOverlapMeans(es, i + 1);
      assert Inv03NoOverlap(es, i).Accept? <==>
             es[i].logicalOffset + es[i].length <= es[i + 1].logicalOffset && Inv03NoOverlap(es, i + 1).Accept?;
    }
  }

  lemma {:induction false} CheckedExtentMeans(es: seq<Entry>, k: nat)
    requires k <= |es|
    ensures CheckedExtent(es, k) == if Extent(es, k) <= U64_MAX then Some(Extent(es, k)) else None
  {
    if k > 0 { CheckedExtentMeans(es, k - 1); }
  }

  lemma {:induction false} SlicesMean(m: Manifest, i: nat)
    requires i <= |m.entries|
    ensures Inv08SlicesWithinChunks(m, i).Accept? <==> forall j | i <= j < |m.entries| :: SliceFits(m, m.entries[j])
    decreases |m.entries| - i
  {
    if i < |m.entries| { SlicesMean(m, i + 1); }
  }

  lemma {:induction false} EntryIdsMean(m: Manifest, i: nat)
    requires i <= |m.entries|
    ensures EntryIdsResolve(m, i).Accept? <==>
            forall j | i <= j < |m.entries| ::
              ParsesAsChunkId(m.entries[j].chunkId) && ChunkSize(m.chunks, m.entries[j].chunkId).Some?
    decreases |m.entries| - i
  {
    if i < |m.entries| { EntryIdsMean(m, i + 1); }
  }

  // ---- tilings are chains ----

  /** Each entry starts where the ones before it end, and together they reach `total`. */
  ghost predicate Chained(es: seq<Entry>, total: int) {
    && (forall i | 0 <= i < |es| :: InPlace(es, i))
    && Extent(es, |es|) == total
  }

  ghost predicate InPlace(es: seq<Entry>, i: nat)
    requires i < |es|
  {
    es[i].length > 0 && es[i].logicalOffset == Extent(es, i)
  }

  lemma {:induction false} LocateInChain(es: seq<Entry>, k: nat, x: int) returns (i: nat)
    requires k <= |es|
    requires forall i | 0 <= i < |es| :: InPlace(es, i)
    requires 0 <= x < Extent(es, k)
    ensures i < k && Covers(es[i], x)
  {
    if x >= Extent(es, k - 1) {
      assert InPlace(es, k - 1);
      i := k - 1;
    } else {
      i := LocateInChain(es, k - 1, x);
    }
  }

  lemma ChainIsOrdered(es: seq<Entry>, i: nat, j: nat)
    requires i < j < |es|
    requires InPlace(es, i) && InPlace(es, j)
    ensures es[i].logicalOffset + es[i].length <= es[j].logicalOffset
  {
    ExtentGrows(es, i + 1, j);
  }

  lemma ChainCoversOnce(es: seq<Entry>, total: int, x: int)
    requires Chained(es, total) && 0 <= x < total
    ensures CoveredOnce(es, x)
  {
    var i := LocateInChain(es, |es|, x);
    assert InPlace(es, i);
    forall j | 0 <= j < |es| && Covers(es[j], x) ensures j == i {
      assert InPlace(es, j);
      if i < j { ChainIsOrdered(es, i, j); }
      if j < i { ChainIsOrdered(es, j, i); }
    }
  }

  lemma ChainTiles(es: seq<Entry>, total: int)
    requires Chained(es, total)
    ensures Tiles(es, total)
  {
    forall i | 0 <= i < |es| ensures es[i].length > 0 && es[i].logicalOffset + es[i].length <= total {
      assert InPlace(es, i);
      ExtentGrows(es, i + 1, |es|);
    }
    forall i, j | 0 <= i < j < |es| ensures es[i].logicalOffset < es[j].logicalOffset {
      assert InPlace(es, i) && InPlace(es, j);
      ChainIsOrdered(es, i, j);
    }
    forall x | 0 <= x < total ensures CoveredOnce(es, x) { ChainCoversOnce(es, total, x); }
  }

  /** An offset past entry `i` that only an earlier entry could cover would make that entry cover
      the start of entry `i` too. */
  lemma ReachedTwice(es: seq<Entry>, total: int, i: nat, x: int)
    requires Tiles(es, total) && i < |es|
    requires es[i].logicalOffset + es[i].length <= x < total
    ensures i + 1 < |es| && es[i + 1].logicalOffset <= x
  {
    assert CoveredOnce(es, x);
    var k :| 0 <= k < |es| && Covers(es[k], x);
    var start := es[i].logicalOffset;
    assert Covers(es[i], start);
    assert CoveredOnce(es, start);
    assert k > i;
  }

  /** In a tiling an entry ends exactly where the next one starts. */
  lemma TilingHasNoGap(es: seq<Entry>, total: int, i: nat)
    requires Tiles(es, total) && i + 1 < |es|
    ensures es[i].logicalOffset + es[i].length == es[i + 1].logicalOffset
  {
    var end := es[i].logicalOffset + es[i].length;
    var next := es[i + 1].logicalOffset;
    assert Covers(es[i + 1], next);
    assert CoveredOnce(es, next);
    assert !Covers(es[i], next);
    assert end >= next by {
      if end < next { ReachedTwice(es, total, i, end); }
    }
  }

  lemma {:induction false} TilingChains(es: seq<Entry>, total: int, k: nat)
    requires Tiles(es, total) && 0 <= total && k <= |es|
    ensures k < |es| ==> es[k].logicalOffset == Extent(es, k)
    ensures k == |es| ==> Extent(es, k) == total
  {
    if k == 0 {
      if es != [] {
        assert Covers(es[0], es[0].logicalOffset);
      }
      assert total > 0 ==> CoveredOnce(es, 0);
    } else {
      TilingChains(es, total, k - 1);
      if k < |es| {
        TilingHasNoGap(es, total, k - 1);
      } else {
        var end := es[k - 1].logicalOffset + es[k - 1].length;
        assert Covers(es[k - 1], end - 1);
        assert end >= total by {
          if end < total { ReachedTwice(es, total, k - 1, end); }
        }
      }
    }
  }

  lemma TilesIffChained(es: seq<Entry>, total: U64)
    ensures Tiles(es, total) <==> Chained(es, total)
  {
    if Tiles(es, total) {
      forall k | 0 <= k < |es| ensures InPlace(es, k) { TilingChains(es, total, k); }
      TilingChains(es, total, |es|);
    }
    if Chained(es, total) { ChainTiles(es, total); }
  }

  // ---- the layout checks are exactly the chain ----

  ghost predicate LayoutAccepted(m: Manifest) {
    && Inv02EntriesContiguous(m.entries).Accept?
    && Inv03NoOverlap(m.entries).Accept?
    && Inv04StartsAtZero(m).Accept?
    && Inv05LengthsSumToTotal(m).Accept?
    && Inv07LengthsNonzero(m).Accept?
  }

  lemma {:induction false} OffsetsAreExtents(m: Manifest, k: nat)
    requires Inv02EntriesContiguous(m.entries).Accept? && Inv03NoOverlap(m.entries).Accept?
    requires Inv04StartsAtZero(m).Accept? && k < |m.entries|
    ensures m.entries[k].logicalOffset == Extent(m.entries, k)
  {
    ContiguousMeans(m.entries, 0);
    NoOverlapMeans(m.entries, 0);
    if k > 0 {
      OffsetsAreExtents(m, k - 1);
      assert m.entries[k - 1 + 1] == m.entries[k];
    }
  }

  lemma ChainLayoutAccepted(m: Manifest)
    requires Chained(m.entries, m.totalSize)
    ensures LayoutAccepted(m)
  {
    var es := m.entries;
    forall j | 0 <= j < |es| - 1
      ensures es[j + 1].logicalOffset <= es[j].logicalOffset + es[j].length <= U64_MAX
      ensures es[j].logicalOffset + es[j].length <= es[j + 1].logicalOffset
    {
      assert InPlace(es, j) && InPlace(es, j + 1);
    }
    forall i | 0 <= i < |es| ensures es[i].length > 0 { assert InPlace(es, i); }
    ContiguousMeans(es, 0);
    NoOverlapMeans(es, 0);
    CheckedExtentMeans(es, |es|);
    assert es != [] ==> InPlace(es, 0);
  }

  lemma LayoutIffChained(m: Manifest)
    ensures LayoutAccepted(m) <==> Chained(m.entries, m.totalSize)
  {
    if LayoutAccepted(m) {
      CheckedExtentMeans(m.entries, |m.entries|);
      forall k | 0 <= k < |m.entries| ensures InPlace(m.entries, k) { OffsetsAreExtents(m, k); }
    }
    if Chained(m.entries, m.totalSize) { ChainLayoutAccepted(m); }
  }

  /** A chain is sorted, and an empty total leaves no room for entries. */
  lemma ChainMakesTwoChecksRedundant(m: Manifest)
    requires Chained(m.entries, m.totalSize) && m.chunkCount == |m.entries|
    ensures Inv01EntriesSorted(m).Accept? && Inv13EmptyFileIsValid(m).Accept?
  {
    forall i | 0 <= i < |m.entries| - 1
      ensures m.entries[i].logicalOffset <= m.entries[i + 1].logicalOffset
    {
      assert InPlace(m.entries, i) && InPlace(m.entries, i + 1);
      ChainIsOrdered(m.entries, i, i + 1);
    }
    if m.entries != [] {
      assert InPlace(m.entries, 0);
      ExtentGrows(m.entries, 1, |m.entries|);
    }
  }

  lemma ReferencesMean(m: Manifest)
    ensures Inv09ChunkIdsWellFormed(m).Accept? && Inv08SlicesWithinChunks(m).Accept? <==>
            && (forall i | 0 <= i < |m.entries| :: SliceFits(m, m.entries[i]))
            && (forall i | 0 <= i < |m.entries| :: ParsesAsChunkId(m.entries[i].chunkId))
            && (forall c | c in m.chunks :: ParsesAsChunkId(c.chunkId) && Referenced(m, c.chunkId))
  {
    EntryIdsMean(m, 0);
    SlicesMean(m, 0);
  }

  /** Validation accepts exactly the well-formed manifests. */
  lemma ValidationIsExact(m: Manifest)
    ensures Valid(m) <==> WellFormed(m)
  {
    LayoutIffChained(m);
    TilesIffChained(m.entries, m.totalSize);
    ReferencesMean(m);
    if Chained(m.entries, m.totalSize) && m.chunkCount == |m.entries| { ChainMakesTwoChecksRedundant(m); }
  }

  /** What callers use of an accepted manifest. */
  lemma ValidFacts(m: Manifest)
    requires Valid(m)
    ensures Chained(m.entries, m.totalSize) && m.chunkCount == |m.entries|
    ensures forall i | 0 <= i < |m.entries| :: SliceFits(m, m.entries[i])
    ensures forall i | 0 <= i < |m.entries| ::
              m.entries[i].logicalOffset + m.entries[i].length <= m.totalSize
  {
    LayoutIffChained(m);
    ReferencesMean(m);
    forall i | 0 <= i < |m.entries|
      ensures m.entries[i].logicalOffset + m.entries[i].length <= m.totalSize
    {
      assert InPlace(m.entries, i);
      ExtentGrows(m.entries, i + 1, |m.entries|);
    }
  }

  lemma ValidIdsParse(m: Manifest)
    requires Valid(m)
    ensures forall i | 0 <= i < |m.entries| :: ParsesAsChunkId(m.entries[i].chunkId)
  {
    ReferencesMean(m);
  }

  lemma ValidCoversOnce(m: Manifest, x: nat)
    requires Valid(m) && x < m.totalSize
    ensures CoveredOnce(m.entries, x)
  {
    hide Valid;
    ValidFacts(m);
    ChainCoversOnce(m.entries, m.totalSize, x);
  }

  // ---- branches that cannot be reached, checks that are not needed ----

  /** Inside `Validate` the overflow branch of rule 3 and the unknown-chunk branch of rule 8 are dead. */
  lemma DeadBranches(m: Manifest)
    ensures Validate(m) != Reject(Inv03Overflow)
    ensures Validate(m) != Reject(Inv08UnknownChunk)
  {
    if Inv02EntriesContiguous(m.entries).Accept? {
      ContiguousMeans(m.entries, 0);
      OverlapScanDoesNotOverflow(m.entries, 0);
    }
    if Inv09ChunkIdsWellFormed(m).Accept? {
      EntryIdsMean(m, 0);
      SliceScanKnowsItsChunks(m, 0);
    }
  }

  lemma {:induction false} OverlapScanDoesNotOverflow(es: seq<Entry>, i: nat)
    requires i <= |es|
    requires forall j | i <= j < |es| - 1 :: es[j].logicalOffset + es[j].length <= U64_MAX
    ensures Inv03NoOverlap(es, i) != Reject(Inv03Overflow)
    decreases |es| - i
  {
    if i + 1 < |es| { OverlapScanDoesNotOverflow(es, i + 1); }
  }

  lemma {:induction false} SliceScanKnowsItsChunks(m: Manifest, i: nat)
    requires i <= |m.entries|
    requires forall j | i <= j < |m.entries| :: ChunkSize(m.chunks, m.entries[j].chunkId).Some?
    ensures Inv08SlicesWithinChunks(m, i) != Reject(Inv08UnknownChunk)
    decreases |m.entries| - i
  {
    if i < |m.entries| { SliceScanKnowsItsChunks(m, i + 1); }
  }

  /** When `Validate` reports that the lengths overflow, only the last addition did. */
  lemma OnlyTheLastLengthOverflows(m: Manifest)
    requires Validate(m) == Reject(Inv05Overflow)
    ensures m.entries != [] && Extent(m.entries, |m.entries| - 1) <= U64_MAX < Extent(m.entries, |m.entries|)
  {
    var es := m.entries;
    CheckedExtentMeans(es, |es|);
    assert es != [];
    assert Inv02EntriesContiguous(es).Accept? && Inv03NoOverlap(es).Accept? && Inv04StartsAtZero(m).Accept?;
    OffsetsAreExtents(m, |es| - 1);
  }

  datatype Check = C01 | C02 | C03 | C04 | C05 | C06 | C07 | C08 | C09 | C13

  function RunCheck(c: Check, m: Manifest): Verdict {
    match c
    case C01 => Inv01EntriesSorted(m)
    case C02 => Inv02EntriesContiguous(m.entries)
    case C03 => Inv03NoOverlap(m.entries)
    case C04 => Inv04StartsAtZero(m)
    case C05 => Inv05LengthsSumToTotal(m)
    case C06 => Inv06CountMatches(m)
    case C07 => Inv07LengthsNonzero(m)
    case C08 => Inv08SlicesWithinChunks(m)
    case C09 => Inv09ChunkIdsWellFormed(m)
    case C13 => Inv13EmptyFileIsValid(m)
  }

  function RunInOrder(order: seq<Check>, m: Manifest): Verdict {
    if order == [] then Accept
    else
      :- RunCheck(order[0], m);
      RunInOrder(order[1..], m)
  }

  lemma {:induction false} RunInOrderMeans(order: seq<Check>, m: Manifest)
    ensures RunInOrder(order, m).Accept? <==> forall c | c in order :: RunCheck(c, m).Accept?
  {
    if order != [] {
      RunInOrderMeans(order[1..], m);
      assert forall c :: c in order <==> c == order[0] || c in order[1..];
    }
  }

  lemma InSelection(order: seq<Check>)
    requires {C02, C03, C04, C05, C06, C07, C08, C09} <= (set c | c in order)
    ensures C02 in order && C03 in order && C04 in order && C05 in order
    ensures C06 in order && C07 in order && C08 in order && C09 in order
  {
  }

  /** Any order of any selection of the checks gives the verdict of `Validate`, as long as it
      contains the eight that are not 1 and 13; a rejection has the same code. */
  lemma OrderDoesNotMatter(order: seq<Check>, m: Manifest)
    requires {C02, C03, C04, C05, C06, C07, C08, C09} <= (set c | c in order)
    ensures RunInOrder(order, m).Accept? <==> Valid(m)
    ensures !Valid(m) ==> RunInOrder(order, m).Code() == Validate(m).Code()
  {
    RunInOrderMeans(order, m);
    assert C02 in order && C03 in order && C04 in order && C05 in order by { InSelection(order); }
    assert C06 in order && C07 in order && C08 in order && C09 in order by { InSelection(order); }
    if RunInOrder(order, m).Accept? {
      assert RunCheck(C02, m).Accept? && RunCheck(C03, m).Accept? && RunCheck(C04, m).Accept?;
      assert RunCheck(C05, m).Accept? && RunCheck(C07, m).Accept? && RunCheck(C06, m).Accept?;
      assert RunCheck(C08, m).Accept? && RunCheck(C09, m).Accept?;
      LayoutIffChained(m);
      ChainMakesTwoChecksRedundant(m);
    }
  }

  // ---- what is reported is there ----

  /** Two neighbours, the first of them at `i`. */
  predicate HasNext(es: seq<Entry>, i: int) {
    0 <= i < |es| - 1
  }

  function EndOf(e: Entry): nat {
    e.logicalOffset + e.length
  }

  /** The manifest has the fault that the breach names. */
  ghost predicate Genuine(m: Manifest, b: Breach) {
    var es := m.entries;
    match b
    case Inv01Unsorted => exists i :: HasNext(es, i) && es[i].logicalOffset > es[i + 1].logicalOffset
    case Inv02Overflow => exists i :: HasNext(es, i) && EndOf(es[i]) > U64_MAX
    case Inv02Gap => exists i :: HasNext(es, i) && EndOf(es[i]) < es[i + 1].logicalOffset
    case Inv03Overflow => exists i :: HasNext(es, i) && EndOf(es[i]) > U64_MAX
    case Inv03Overlap => exists i :: HasNext(es, i) && EndOf(es[i]) > es[i + 1].logicalOffset
    case Inv04NotAtZero => es != [] && es[0].logicalOffset != 0
    case Inv05Overflow => Extent(es, |es|) > U64_MAX
    case Inv05Sum => m.totalSize != Extent(es, |es|) <= U64_MAX
    case Inv06Count => m.chunkCount != |es|
    case Inv07ZeroLength => exists e :: e in es && e.length == 0
    case Inv08UnknownChunk => exists e :: e in es && ChunkSize(m.chunks, e.chunkId).None?
    case Inv08Overflow => exists e :: e in es && e.chunkOffset + e.length > U64_MAX
    case Inv08PastEnd =>
      exists e :: e in es && ChunkSize(m.chunks, e.chunkId).Some?
                  && ChunkSize(m.chunks, e.chunkId).value < e.chunkOffset + e.length <= U64_MAX
    case Inv09MalformedChunk => exists c :: c in m.chunks && !ParsesAsChunkId(c.chunkId)
    case Inv09MalformedEntry => exists e :: e in es && !ParsesAsChunkId(e.chunkId)
    case Inv09NoMetadata => exists e :: e in es && ParsesAsChunkId(e.chunkId) && !Declares(m.chunks, e.chunkId)
    case Inv09Orphan => exists c :: c in m.chunks && forall e | e in es :: e.chunkId != c.chunkId
    case Inv13NotEmpty => m.totalSize == 0 && (es != [] || m.chunkCount != 0)
  }

  lemma {:induction false} NeighbourBreachIsGenuine(m: Manifest, i: nat)
    requires i <= |m.entries|
    ensures Inv02EntriesContiguous(m.entries, i).Reject? ==> Genuine(m, Inv02EntriesContiguous(m.entries, i).breach)
    ensures Inv03NoOverlap(m.entries, i).Reject? ==> Genuine(m, Inv03NoOverlap(m.entries, i).breach)
    decreases |m.entries| - i
  {
    if i + 1 < |m.entries| {
      assert HasNext(m.entries, i);
      NeighbourBreachIsGenuine(m, i + 1);
    }
  }

  lemma {:induction false} SliceBreachIsGenuine(m: Manifest, i: nat)
    requires i <= |m.entries|
    ensures Inv08SlicesWithinChunks(m, i).Reject? ==> Genuine(m, Inv08SlicesWithinChunks(m, i).breach)
    ensures EntryIdsResolve(m, i).Reject? ==> Genuine(m, EntryIdsResolve(m, i).breach)
    decreases |m.entries| - i
  {
    hide ParsesAsChunkId, ChunkSize;
    if i < |m.entries| {
      var e := m.entries[i];
      assert e in m.entries;
      ChunkSizeFindsFirst(m.chunks, e.chunkId);
      SliceBreachIsGenuine(m, i + 1);
    }
  }

  lemma IdBreachIsGenuine(m: Manifest)
    ensures Inv09ChunkIdsWellFormed(m).Reject? ==> Genuine(m, Inv09ChunkIdsWellFormed(m).breach)
  {
    hide ParsesAsChunkId, EntryIdsResolve;
    SliceBreachIsGenuine(m, 0);
    if k :| 0 <= k < |m.chunks| && !ParsesAsChunkId(m.chunks[k].chunkId) {
      assert m.chunks[k] in m.chunks;
    } else if EntryIdsResolve(m).Accept? {
      if k :| 0 <= k < |m.chunks| && !Referenced(m, m.chunks[k].chunkId) {
        assert m.chunks[k] in m.chunks;
      }
    }
  }

  lemma SimpleBreachIsGenuine(m: Manifest)
    ensures Inv01EntriesSorted(m).Reject? ==> Genuine(m, Inv01EntriesSorted(m).breach)
    ensures Inv05LengthsSumToTotal(m).Reject? ==> Genuine(m, Inv05LengthsSumToTotal(m).breach)
    ensures Inv07LengthsNonzero(m).Reject? ==> Genuine(m, Inv07LengthsNonzero(m).breach)
  {
    CheckedExtentMeans(m.entries, |m.entries|);
    if i :| 0 <= i < |m.entries| - 1 && m.entries[i].logicalOffset > m.entries[i + 1].logicalOffset {
      assert HasNext(m.entries, i);
    }
  }

  /** Every rejection names a fault that the manifest really has. */
  lemma BreachIsGenuine(m: Manifest)
    ensures Validate(m).Reject? ==> Genuine(m, Validate(m).breach)
  {
    hide Inv01EntriesSorted, Inv02EntriesContiguous, Inv03NoOverlap, Inv05LengthsSumToTotal, Inv07LengthsNonzero,
         Inv08SlicesWithinChunks, Inv09ChunkIdsWellFormed;
    SimpleBreachIsGenuine(m);
    NeighbourBreachIsGenuine(m, 0);
    IdBreachIsGenuine(m);
    SliceBreachIsGenuine(m, 0);
  }

  // ---- the running sum, as the loop it is ----

  method LengthsSumToTotal(m: Manifest) returns (v: Verdict)
    ensures v == Inv05LengthsSumToTotal(m)
    ensures v.Accept? <==> Extent(m.entries, |m.entries|) == m.totalSize
  {
    CheckedExtentMeans(m.entries, |m.entries|);
    var sum: U64 := 0;
    for i := 0 to |m.entries|
      invariant CheckedExtent(m.entries, i) == Some(sum)
    {
      CheckedExtentMeans(m.entries, i);
      CheckedExtentMeans(m.entries, i + 1);
      var next := CheckedAdd(sum, m.entries[i].length);
      if next.None? {
        ExtentGrows(m.entries, i + 1, |m.entries|);
        return Reject(Inv05Overflow);
      }
      sum := next.value;
    }
    if sum != m.totalSize {
      return Reject(Inv05Sum);
    }
    return Accept;
  }

  /** The whole validation, as both the store and the client run it. */
  method ValidateManifest(m: Manifest) returns (v: Verdict)
    ensures v == Validate(m)
    ensures v.Accept? <==> WellFormed(m)
  {
    ValidationIsExact(m);
    v := Inv13EmptyFileIsValid(m);
    if v.Reject? { return; }
    v := Inv01EntriesSorted(m);
    if v.Reject? { return; }
    v := Inv04StartsAtZero(m);
    if v.Reject? { return; }
    v := Inv02EntriesContiguous(m.entries);
    if v.Reject? { return; }
    v := Inv03NoOverlap(m.entries);
    if v.Reject? { return; }
    v := Inv07LengthsNonzero(m);
    if v.Reject? { return; }
    v := LengthsSumToTotal(m);
    if v.Reject? { return; }
    v := Inv06CountMatches(m);
    if v.Reject? { return; }
    v := Inv09ChunkIdsWellFormed(m);
    if v.Reject? { return; }
    v := Inv08SlicesWithinChunks(m);
  }
}
