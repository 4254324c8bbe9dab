/** Deliberate damage to a manifest, one mutation for each kind, and its rejection. */
module Corruptor {
  import opened Model
  import opened Validation

  type I64 = n: int | -0x8000_0000_0000_0000 <= n <= 0x7FFF_FFFF_FFFF_FFFF

  /** A manifest that is changed in place. */
  class ManifestCell {
    var m: Manifest

    constructor (m: Manifest)
      ensures this.m == m
    {
      this.m := m;
    }
  }

  // ---- what each mutation does ----

  function Swapped(m: Manifest, i: nat, j: nat): (r: Manifest)
    requires i < |m.entries| && j < |m.entries|
    ensures r == m.(entries := r.entries) && multiset(r.entries) == multiset(m.entries)
    ensures |r.entries| == |m.entries| && r.entries[i] == m.entries[j] && r.entries[j] == m.entries[i]
    ensures forall k | 0 <= k < |m.entries| && k != i && k != j :: r.entries[k] == m.entries[k]
  {
    m.(entries := m.entries[i := m.entries[j]][j := m.entries[i]])
  }

  function Dropped(m: Manifest, i: nat): (r: Manifest)
    ensures r == m.(entries := r.entries)
    ensures i < |m.entries| ==> |r.entries| == |m.entries| - 1
    ensures i >= |m.entries| ==> r == m
    ensures forall k | 0 <= k < |r.entries| :: r.entries[k] == m.entries[if k < i then k else k + 1]
  {
    if i < |m.entries| then m.(entries := m.entries[..i] + m.entries[i + 1..]) else m
  }

  /** Add in wide signed arithmetic, stop at zero, then cut to 64 bits. */
  function Nudged(x: U64, delta: I64): (r: U64)
    ensures 0 <= x + delta <= U64_MAX ==> r == x + delta
    ensures x + delta < 0 ==> r == 0
    ensures x + delta > U64_MAX ==> r == x + delta - U64_MAX - 1
  {
    if x + delta < 0 then 0 else (x + delta) % 0x1_0000_0000_0000_0000
  }

  /** The additions of `introduce_gap` stay inside the machine word. */
  ghost predicate RoomForGap(m: Manifest, at: nat) {
    m.totalSize < U64_MAX && forall i | at < i < |m.entries| :: m.entries[i].logicalOffset < U64_MAX
  }

  ghost function PushedFrom(es: seq<Entry>, first: nat, k: nat): (r: seq<Entry>)
    requires k <= |es| && forall i | first <= i < |es| :: es[i].logicalOffset < U64_MAX
    ensures |r| == |es|
    ensures forall i | 0 <= i < |es| :: r[i] == es[i].(logicalOffset := r[i].logicalOffset)
    ensures forall i | 0 <= i < |es| :: r[i].logicalOffset - es[i].logicalOffset == if first <= i < k then 1 else 0
  {
    seq(|es|, i requires 0 <= i < |es| =>
      if first <= i < k then es[i].(logicalOffset := es[i].logicalOffset + 1) else es[i])
  }

  ghost function Gapped(m: Manifest, at: nat): (r: Manifest)
    requires RoomForGap(m, at)
    ensures r == m.(entries := r.entries, totalSize := r.totalSize) && r.totalSize == m.totalSize + 1
    ensures |r.entries| == |m.entries|
    ensures forall i | 0 <= i < |m.entries| ::
              r.entries[i] == if i <= at then m.entries[i]
                              else m.entries[i].(logicalOffset := m.entries[i].logicalOffset + 1)
  {
    m.(entries := PushedFrom(m.entries, at + 1, |m.entries|), totalSize := m.totalSize + 1)
  }

  function Overlapped(m: Manifest, at: nat): (r: Manifest)
    ensures r == m.(entries := r.entries) && |r.entries| == |m.entries|
    ensures forall i | 0 <= i < |m.entries| && i != at + 1 :: r.entries[i] == m.entries[i]
    ensures at + 1 < |m.entries| ==>
              && r.entries[at + 1] == m.entries[at + 1].(logicalOffset := r.entries[at + 1].logicalOffset)
              && (m.entries[at + 1].logicalOffset > 0 ==>
                    r.entries[at + 1].logicalOffset + 1 == m.entries[at + 1].logicalOffset)
              && (m.entries[at + 1].logicalOffset == 0 ==> r == m)
  {
    if at + 1 < |m.entries| then
      var e := m.entries[at + 1];
      m.(entries := m.entries[at + 1 := e.(logicalOffset := if e.logicalOffset > 0 then e.logicalOffset - 1 else 0)])
    else m
  }

  function Dangled(m: Manifest, at: nat, dangling: ChunkId): (r: Manifest)
    ensures r == m.(entries := r.entries) && |r.entries| == |m.entries|
    ensures forall i | 0 <= i < |m.entries| ::
              r.entries[i] == m.entries[i].(chunkId := if i == at then dangling else m.entries[i].chunkId)
  {
    if at < |m.entries| then m.(entries := m.entries[at := m.entries[at].(chunkId := dangling)]) else m
  }

  /** The arithmetic of `insert_zero_length_entry` stays inside the machine word. */
  ghost predicate RoomForEntry(m: Manifest) {
    m.entries != [] ==>
      && m.entries[|m.entries| - 1].logicalOffset + m.entries[|m.entries| - 1].length <= U64_MAX
      && m.chunkCount < U64_MAX
  }

  function ZeroLengthAdded(m: Manifest): (r: Manifest)
    requires RoomForEntry(m)
    ensures r == m.(entries := r.entries, chunkCount := r.chunkCount) && m.entries <= r.entries
    ensures m.entries == [] ==> r == m
    ensures m.entries != [] ==>
              && r.chunkCount == m.chunkCount + 1 && |r.entries| == |m.entries| + 1
              && var (last, added) := (r.entries[|m.entries| - 1], r.entries[|m.entries|]);
                 added.length == 0 && added.logicalOffset == last.logicalOffset + last.length
                 && added.chunkId == last.chunkId && added.chunkOffset == 0
  {
    if m.entries == [] then m
    else
      var last := m.entries[|m.entries| - 1];
      m.(entries := m.entries + [Entry(last.logicalOffset + last.length, 0, last.chunkId, 0)],
         chunkCount := m.chunkCount + 1)
  }

  // ---- each of them is caught exactly when it changes something ----

  lemma SwapIsCaught(m: Manifest, i: nat, j: nat)
    requires Valid(m) && i < |m.entries| && j < |m.entries|
    ensures Valid(Swapped(m, i, j)) <==> i == j
  {
    hide Valid;
    if i == j {
      assert Swapped(m, i, j) == m;
    } else if Valid(Swapped(m, i, j)) {
      var (a, b) := if i < j then (i, j) else (j, i);
      var es := Swapped(m, i, j).entries;
      ValidFacts(m);
      ValidFacts(Swapped(m, i, j));
      assert InPlace(m.entries, a) && InPlace(m.entries, b) && InPlace(es, a) && InPlace(es, b);
      ChainIsOrdered(m.entries, a, b);
      ChainIsOrdered(es, a, b);
    }
  }

  lemma DropIsCaught(m: Manifest, i: nat)
    requires Valid(m)
    ensures Valid(Dropped(m, i)) <==> i >= |m.entries|
  {
    hide Valid;
    ValidFacts(m);
    if Valid(Dropped(m, i)) { ValidFacts(Dropped(m, i)); }
  }

  lemma NudgeChanges(x: U64, delta: I64)
    ensures Nudged(x, delta) == x <==> delta == 0 || (x == 0 && delta < 0)
  {
  }

  lemma SizeChangeIsCaught(m: Manifest, delta: I64)
    requires Valid(m)
    ensures Valid(m.(totalSize := Nudged(m.totalSize, delta))) <==>
            delta == 0 || (m.totalSize == 0 && delta < 0)
  {
    hide Valid;
    var n := m.(totalSize := Nudged(m.totalSize, delta));
    NudgeChanges(m.totalSize, delta);
    hide Nudged;
    ValidFacts(m);
    if Valid(n) { ValidFacts(n); }
    if n.totalSize == m.totalSize { assert n == m; }
  }

  lemma CountChangeIsCaught(m: Manifest, delta: I64)
    requires Valid(m)
    ensures Valid(m.(chunkCount := Nudged(m.chunkCount, delta))) <==>
            delta == 0 || (m.chunkCount == 0 && delta < 0)
  {
    hide Valid;
    var n := m.(chunkCount := Nudged(m.chunkCount, delta));
    NudgeChanges(m.chunkCount, delta);
    hide Nudged;
    ValidFacts(m);
    if Valid(n) { ValidFacts(n); }
    if n.chunkCount == m.chunkCount { assert n == m; }
  }

  /** In a valid manifest the next entry starts exactly at the end of this one. */
  lemma NextStartsAtEnd(m: Manifest, i: nat)
    requires Valid(m) && i + 1 < |m.entries|
    ensures m.entries[i + 1].logicalOffset == m.entries[i].logicalOffset + m.entries[i].length
    ensures m.entries[i].length > 0
  {
    hide Valid;
    ValidFacts(m);
    assert InPlace(m.entries, i) && InPlace(m.entries, i + 1);
  }

  lemma ValidLeavesRoom(m: Manifest, at: nat)
    requires Valid(m) && m.totalSize < U64_MAX
    ensures RoomForGap(m, at)
  {
    hide Valid;
    ValidFacts(m);
  }

  lemma GapIsCaught(m: Manifest, at: nat)
    requires Valid(m) && m.totalSize < U64_MAX
    ensures RoomForGap(m, at) && !Valid(Gapped(m, at))
  {
    hide Valid;
    ValidLeavesRoom(m, at);
    var n := Gapped(m, at);
    if Valid(n) {
      if at + 1 < |m.entries| {
        NextStartsAtEnd(m, at);
        NextStartsAtEnd(n, at);
      } else {
        assert n.entries == m.entries;
        ValidFacts(m);
        ValidFacts(n);
      }
    }
  }

  lemma OverlapIsCaught(m: Manifest, at: nat)
    requires Valid(m)
    ensures Valid(Overlapped(m, at)) <==> at + 1 >= |m.entries|
  {
    hide Valid;
    if at + 1 < |m.entries| && Valid(Overlapped(m, at)) {
      NextStartsAtEnd(m, at);
      NextStartsAtEnd(Overlapped(m, at), at);
    }
  }

  /** Only offsets and lengths matter to the layout. */
  lemma {:induction false} SameLengthsSameExtent(a: seq<Entry>, b: seq<Entry>, k: nat)
    requires |a| == |b| && k <= |a| && forall i | 0 <= i < |a| :: b[i].length == a[i].length
    ensures Extent(a, k) == Extent(b, k)
  {
    if k > 0 { SameLengthsSameExtent(a, b, k - 1); }
  }

  lemma SameLayoutSameTiling(a: seq<Entry>, b: seq<Entry>, total: U64)
    requires |a| == |b| && Tiles(a, total)
    requires forall i | 0 <= i < |a| :: b[i].length == a[i].length
    requires forall i | 0 <= i < |a| :: b[i].logicalOffset == a[i].logicalOffset
    ensures Tiles(b, total)
  {
    hide Tiles;
    TilesIffChained(a, total);
    forall i | 0 <= i < |b| ensures InPlace(b, i) {
      assert InPlace(a, i);
      SameLengthsSameExtent(a, b, i);
    }
    SameLengthsSameExtent(a, b, |a|);
    TilesIffChained(b, total);
  }

  /** The redirected entry fits the chunk that it now names, and another entry still names its old one. */
  ghost predicate Redirectable(m: Manifest, at: nat, dangling: ChunkId)
    requires at < |m.entries|
  {
    && SliceFits(m, m.entries[at].(chunkId := dangling))
    && exists i | 0 <= i < |m.entries| && i != at :: m.entries[i].chunkId == m.entries[at].chunkId
  }

  /** A redirected entry is rejected, unless it named that chunk already or could have named it. In
      particular it is rejected whenever the manifest does not declare the new id. */
  lemma DanglingIsCaught(m: Manifest, at: nat, dangling: ChunkId)
    requires Valid(m)
    ensures Valid(Dangled(m, at, dangling)) <==>
            at >= |m.entries| || m.entries[at].chunkId == dangling || Redirectable(m, at, dangling)
    ensures at < |m.entries| && !Declares(m.chunks, dangling) ==> !Valid(Dangled(m, at, dangling))
  {
    hide Valid;
    ValidationIsExact(m);
    if at < |m.entries| {
      ChunkSizeFindsFirst(m.chunks, dangling);
      if m.entries[at].chunkId == dangling {
        assert SliceFits(m, m.entries[at]);
        assert Dangled(m, at, dangling) == m;
      } else {
        if Valid(Dangled(m, at, dangling)) { AcceptedRedirect(m, at, dangling); }
        if Redirectable(m, at, dangling) { RedirectAccepted(m, at, dangling); }
      }
    }
  }

  lemma AcceptedRedirect(m: Manifest, at: nat, dangling: ChunkId)
    requires Valid(m) && at < |m.entries| && m.entries[at].chunkId != dangling
    requires Valid(Dangled(m, at, dangling))
    ensures Redirectable(m, at, dangling)
  {
    hide Valid, Tiles, ParsesAsChunkId;
    var n := Dangled(m, at, dangling);
    ValidationIsExact(m);
    ValidationIsExact(n);
    assert SliceFits(n, n.entries[at]) && SliceFits(m, m.entries[at]);
    var was := m.entries[at].chunkId;
    ChunkSizeFindsFirst(m.chunks, was);
    var declared := Chunk(was, ChunkSize(m.chunks, was).value);
    assert declared in n.chunks && Referenced(n, was);
    var i :| 0 <= i < |n.entries| && n.entries[i].chunkId == was;
    assert i != at && m.entries[i].chunkId == was;
  }

  lemma RedirectAccepted(m: Manifest, at: nat, dangling: ChunkId)
    requires Valid(m) && at < |m.entries| && Redirectable(m, at, dangling)
    ensures Valid(Dangled(m, at, dangling))
  {
    hide Valid, Tiles, ParsesAsChunkId;
    var n := Dangled(m, at, dangling);
    ValidationIsExact(m);
    SameLayoutSameTiling(m.entries, n.entries, m.totalSize);
    ChunkSizeFindsFirst(m.chunks, dangling);
    forall i | 0 <= i < |n.entries| ensures SliceFits(n, n.entries[i]) && ParsesAsChunkId(n.entries[i].chunkId) {
      if i != at { assert SliceFits(m, m.entries[i]); }
    }
    forall c | c in n.chunks ensures Referenced(n, c.chunkId) {
      StillReferenced(m, at, dangling, c.chunkId);
    }
    ValidationIsExact(n);
  }

  lemma StillReferenced(m: Manifest, at: nat, dangling: ChunkId, id: ChunkId)
    requires at < |m.entries| && Redirectable(m, at, dangling) && Referenced(m, id)
    ensures Referenced(Dangled(m, at, dangling), id)
  {
    var n := Dangled(m, at, dangling);
    var k :| 0 <= k < |m.entries| && m.entries[k].chunkId == id;
    var other :| 0 <= other < |m.entries| && other != at && m.entries[other].chunkId == m.entries[at].chunkId;
    var i := if k == at then other else k;
    assert n.entries[i].chunkId == id;
  }

  lemma LastIsNotEmpty(m: Manifest)
    requires Valid(m) && m.entries != []
    ensures m.entries[|m.entries| - 1].length > 0
  {
    hide Valid;
    ValidFacts(m);
    assert InPlace(m.entries, |m.entries| - 1);
  }

  lemma ZeroLengthIsCaught(m: Manifest)
    requires Valid(m) && m.chunkCount < U64_MAX
    ensures RoomForEntry(m)
    ensures Valid(ZeroLengthAdded(m)) <==> m.entries == []
  {
    hide Valid;
    ValidFacts(m);
    if m.entries != [] && Valid(ZeroLengthAdded(m)) {
      LastIsNotEmpty(ZeroLengthAdded(m));
    }
  }

  // ---- all of them together ----

  datatype Damage =
    | Swap(i: nat, j: nat)
    | Drop(at: nat)
    | Resize(delta: I64)
    | Recount(delta: I64)
    | Gap(at: nat)
    | Overlap(at: nat)
    | Dangle(at: nat, id: ChunkId)
    | AddEmpty

  /** The mutation can be carried out: its indices exist and its unchecked additions do not overflow. */
  ghost predicate Applies(m: Manifest, d: Damage) {
    match d
    case Swap(i, j) => i < |m.entries| && j < |m.entries|
    case Gap(_) => m.totalSize < U64_MAX
    case AddEmpty => m.chunkCount < U64_MAX
    case _ => true
  }

  ghost function Corrupted(m: Manifest, d: Damage): (r: Manifest)
    requires Valid(m) && Applies(m, d)
    ensures r.manifestId == m.manifestId
  {
    match d
    case Swap(i, j) => Swapped(m, i, j)
    case Drop(at) => Dropped(m, at)
    case Resize(delta) => m.(totalSize := Nudged(m.totalSize, delta))
    case Recount(delta) => m.(chunkCount := Nudged(m.chunkCount, delta))
    case Gap(at) => ValidLeavesRoom(m, at); Gapped(m, at)
    case Overlap(at) => Overlapped(m, at)
    case Dangle(at, id) => Dangled(m, at, id)
    case AddEmpty => ZeroLengthIsCaught(m); ZeroLengthAdded(m)
  }

  /** When a mutation leaves a valid manifest, told from the manifest before it. */
  ghost predicate Harmless(m: Manifest, d: Damage)
    requires Applies(m, d)
  {
    match d
    case Swap(i, j) => i == j
    case Drop(at) => at >= |m.entries|
    case Resize(delta) => delta == 0 || (m.totalSize == 0 && delta < 0)
    case Recount(delta) => delta == 0 || (m.chunkCount == 0 && delta < 0)
    case Gap(_) => false
    case Overlap(at) => at + 1 >= |m.entries|
    case Dangle(at, id) => at >= |m.entries| || m.entries[at].chunkId == id || Redirectable(m, at, id)
    case AddEmpty => m.entries == []
  }

  /** Every mutation of every valid manifest is rejected, except exactly the harmless ones. */
  lemma DamageIsCaught(m: Manifest, d: Damage)
    requires Valid(m) && Applies(m, d)
    ensures Valid(Corrupted(m, d)) <==> Harmless(m, d)
  {
    hide Valid;
    match d
    case Swap(i, j) => SwapIsCaught(m, i, j);
    case Drop(at) => DropIsCaught(m, at);
    case Resize(delta) => SizeChangeIsCaught(m, delta);
    case Recount(delta) => CountChangeIsCaught(m, delta);
    case Gap(at) => GapIsCaught(m, at);
    case Overlap(at) => OverlapIsCaught(m, at);
    case Dangle(at, id) => DanglingIsCaught(m, at, id);
    case AddEmpty => ZeroLengthIsCaught(m);
  }

  // ---- the mutations in place ----

  method SwapEntries(c: ManifestCell, i: nat, j: nat)
    requires i < |c.m.entries| && j < |c.m.entries|
    modifies c
    ensures c.m == Swapped(old(c.m), i, j)
    ensures Valid(old(c.m)) ==> (Valid(c.m) <==> i == j)
  {
    hide Valid;
    if Valid(c.m) { SwapIsCaught(c.m, i, j); }
    var a, b := c.m.entries[i], c.m.entries[j];
    c.m := c.m.(entries := c.m.entries[i := b]);
    c.m := c.m.(entries := c.m.entries[j := a]);
  }

  method DropEntry(c: ManifestCell, i: nat)
    modifies c
    ensures c.m == Dropped(old(c.m), i)
    ensures Valid(old(c.m)) ==> (Valid(c.m) <==> i >= |old(c.m).entries|)
  {
    hide Valid;
    if Valid(c.m) { DropIsCaught(c.m, i); }
    if i < |c.m.entries| {
      c.m := c.m.(entries := c.m.entries[..i] + c.m.entries[i + 1..]);
    }
  }

  method AlterTotalSize(c: ManifestCell, delta: I64)
    modifies c
    ensures c.m == old(c.m).(totalSize := Nudged(old(c.m).totalSize, delta))
    ensures Valid(old(c.m)) ==> (Valid(c.m) <==> delta == 0 || (old(c.m).totalSize == 0 && delta < 0))
  {
    hide Valid;
    if Valid(c.m) { SizeChangeIsCaught(c.m, delta); }
    var wide: int := c.m.totalSize + delta;
    if wide < 0 {
      wide := 0;
    }
    c.m := c.m.(totalSize := wide % 0x1_0000_0000_0000_0000);
  }

  method AlterChunkCount(c: ManifestCell, delta: I64)
    modifies c
    ensures c.m == old(c.m).(chunkCount := Nudged(old(c.m).chunkCount, delta))
    ensures Valid(old(c.m)) ==> (Valid(c.m) <==> delta == 0 || (old(c.m).chunkCount == 0 && delta < 0))
  {
    hide Valid;
    if Valid(c.m) { CountChangeIsCaught(c.m, delta); }
    var wide: int := c.m.chunkCount + delta;
    if wide < 0 {
      wide := 0;
    }
    c.m := c.m.(chunkCount := wide % 0x1_0000_0000_0000_0000);
  }

  method IntroduceGap(c: ManifestCell, at: nat)
    requires RoomForGap(c.m, at)
    modifies c
    ensures c.m == Gapped(old(c.m), at)
    ensures Valid(old(c.m)) ==> !Valid(c.m)
  {
    hide Valid;
    if Valid(c.m) { GapIsCaught(c.m, at); }
    ghost var was := c.m;
    var i := if at + 1 < |c.m.entries| then at + 1 else |c.m.entries|;
    assert c.m.entries == PushedFrom(was.entries, at + 1, i);
    while i < |c.m.entries|
      invariant i <= |was.entries| && (i < |was.entries| ==> at + 1 <= i)
      invariant c.m == was.(entries := c.m.entries)
      invariant c.m.entries == PushedFrom(was.entries, at + 1, i)
      decreases |was.entries| - i
    {
      var e := c.m.entries[i];
      c.m := c.m.(entries := c.m.entries[i := e.(logicalOffset := e.logicalOffset + 1)]);
      i := i + 1;
    }
    c.m := c.m.(totalSize := c.m.totalSize + 1);
  }

  method IntroduceOverlap(c: ManifestCell, at: nat)
    modifies c
    ensures c.m == Overlapped(old(c.m), at)
    ensures Valid(old(c.m)) ==> (Valid(c.m) <==> at + 1 >= |old(c.m).entries|)
  {
    hide Valid;
    if Valid(c.m) { OverlapIsCaught(c.m, at); }
    if at + 1 < |c.m.entries| {
      var e := c.m.entries[at + 1];
      var back: U64 := if e.logicalOffset == 0 then 0 else e.logicalOffset - 1;
      c.m := c.m.(entries := c.m.entries[at + 1 := e.(logicalOffset := back)]);
    }
  }

  method DangleChunkRef(c: ManifestCell, at: nat, dangling: ChunkId)
    modifies c
    ensures c.m == Dangled(old(c.m), at, dangling)
    ensures Valid(old(c.m)) ==>
              (Valid(c.m) <==>
               at >= |old(c.m).entries| || old(c.m).entries[at].chunkId == dangling || Redirectable(old(c.m), at, dangling))
  {
    hide Valid;
    if Valid(c.m) { DanglingIsCaught(c.m, at, dangling); }
    if at < |c.m.entries| {
      c.m := c.m.(entries := c.m.entries[at := c.m.entries[at].(chunkId := dangling)]);
    }
  }

  method InsertZeroLengthEntry(c: ManifestCell)
    requires RoomForEntry(c.m)
    modifies c
    ensures c.m == ZeroLengthAdded(old(c.m))
    ensures Valid(old(c.m)) ==> (Valid(c.m) <==> old(c.m).entries == [])
  {
    hide Valid;
    if Valid(c.m) && c.m.entries != [] { ZeroLengthIsCaught(c.m); }
    if c.m.entries != [] {
      var last := c.m.entries[|c.m.entries| - 1];
      var entry := Entry(last.logicalOffset + last.length, 0, last.chunkId, 0);
      c.m := c.m.(entries := c.m.entries + [entry]);
      c.m := c.m.(chunkCount := c.m.chunkCount + 1);
    }
  }
}
