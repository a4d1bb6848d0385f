/**
 Properties of the pool that relate several operations: what construction
 produces, how slot addresses map back to slots, the Get/Put round trip, the
 fallback path, and that two claims never hand out overlapping memory.
 */
module PoolProperties {
  import opened Machine
  import opened Outcomes
  import opened GoSlices
  import opened Rotation
  import opened BytePool

  /** Construction fails exactly on a zero shard count (division by zero), a
      slab size `(max/shards) * cap` that is zero or beyond MaxInt (either
      wrapped or negative as an int), or a marker array whose byte size
      overflows. On success every shard gets `max/shards` slots (the
      remainder is dropped), slot `j` starts `j*cap` bytes into its slab with
      length 0 and capacity `cap`, every marker is clear and every cursor 0. */
  lemma NewBytePoolCorrect(cap: U64, max: U64, shards: U64, heads: seq<U64>)
    requires |heads| == shards
    ensures var r := NewBytePool(cap, max, shards, heads);
      && (r.Ok? <==> 0 < shards && 0 < (max / shards) * cap <= MaxInt
                     && UsedElemSize * (max / shards) <= MaxUintptr)
      && (shards == 0 ==> r == Fail(DivideByZero))
      && (r.Ok? ==>
            && r.value.cap == cap && r.value.len == max
            && |r.value.shards| == shards
            && forall i :: 0 <= i < shards ==> FreshShard(r.value.shards[i], heads[i], cap, max / shards))
  {
    if shards != 0 {
      var shardSize := max / shards;
      var sh := ToInt(Wrap(shardSize * cap));
      SlabSizeConversion(shardSize * cap);
      assert NewBytePool(cap, max, shards, heads) ==
        match BuildShards(cap, shardSize, sh, heads)
        case Fail(e) => Fail(e)
        case Ok(ss) => Ok(Pool(ss, cap, max));
    }
  }

  /** `int(size)` of the wrapped uint product is positive and at least the
      true product exactly when the true product lies in `(0, MaxInt]`. */
  lemma SlabSizeConversion(size: nat)
    ensures 0 < ToInt(Wrap(size)) && size <= ToInt(Wrap(size)) <==> 0 < size <= MaxInt
  {
    assert Wrap(size) <= size;
  }

  /** The allocator placed every slab of `size` bytes so that it ends
      strictly below 2^64, and no two slabs overlap. */
  predicate SlabsPlaced(heads: seq<U64>, size: int)
  {
    && (forall i :: 0 <= i < |heads| ==> heads[i] + size < Word)
    && (forall i, k :: 0 <= i < k < |heads| ==> heads[i] + size <= heads[k] || heads[k] + size <= heads[i])
  }

  /** A constructed pool is in the state Get and Put work on, given that the
      allocator placed the slabs apart and each slab ends strictly below 2^64. */
  lemma NewBytePoolValid(cap: U64, max: U64, shards: U64, heads: seq<U64>)
    requires |heads| == shards
    requires NewBytePool(cap, max, shards, heads).Ok?
    requires 0 < shards && SlabsPlaced(heads, (max / shards) * cap)
    ensures Valid(NewBytePool(cap, max, shards, heads).value)
  {
    var p, n := ConstructedShape(cap, max, shards, heads);
    FreshPoolValid(p, heads, cap, n);
  }

  /** The facts about a constructed pool that its validity rests on. */
  lemma ConstructedShape(cap: U64, max: U64, shards: U64, heads: seq<U64>) returns (p: Pool, n: nat)
    requires |heads| == shards
    requires NewBytePool(cap, max, shards, heads).Ok?
    ensures NewBytePool(cap, max, shards, heads) == Ok(p)
    ensures n == max / shards && 0 < n && 0 < cap && n * cap <= MaxInt
    ensures |p.shards| == |heads| && 0 < |heads| && p.cap == cap
    ensures forall i :: 0 <= i < |heads| ==> FreshShard(p.shards[i], heads[i], cap, n)
  {
    p := NewBytePool(cap, max, shards, heads).value;
    n := max / shards;
    NewBytePoolCorrect(cap, max, shards, heads);
    MulPositive(n, cap);
  }

  /** A pool of freshly carved shards over placed slabs is well formed. */
  lemma FreshPoolValid(p: Pool, heads: seq<U64>, cap: U64, n: nat)
    requires |p.shards| == |heads| && 0 < |heads| && p.cap == cap
    requires 0 < n && 0 < cap && n * cap <= MaxInt
    requires forall i :: 0 <= i < |heads| ==> FreshShard(p.shards[i], heads[i], cap, n)
    requires SlabsPlaced(heads, n * cap)
    ensures Valid(p)
  {
    MulMonotone(1, n, cap);
    forall i | 0 <= i < |p.shards|
      ensures ShardValid(p.shards[i], p.cap)
    {
      FreshShardValid(p.shards[i], heads[i], cap, n);
    }
    forall i, k | 0 <= i < k < |p.shards|
      ensures SlabsDisjoint(p.shards[i], p.shards[k])
    {
      assert SlabSize(p.shards[i]) == n * cap && SlabSize(p.shards[k]) == n * cap;
    }
  }

  /** A freshly carved shard whose slab ends strictly below 2^64 is well formed. */
  lemma FreshShardValid(s: Shard, head: U64, cap: U64, n: nat)
    requires FreshShard(s, head, cap, n)
    requires 0 < n && 0 < cap && n * cap <= MaxInt && head + n * cap < Word
    ensures ShardValid(s, cap)
  {
    forall j | 0 <= j < n
      ensures IsSlot(s.caches[j], s.head, cap, j)
    {
      MulMonotone(j, n, cap);
    }
  }

  /** Slot `j` of a well-formed shard lies inside the slab, and distinct
      slots of one shard do not overlap. */
  lemma SlotsInsideSlabAndDisjoint(s: Shard, cap: U64, j1: nat, j2: nat)
    requires ShardValid(s, cap) && j1 < |s.caches| && j2 < |s.caches|
    ensures s.head <= s.caches[j1].data && s.caches[j1].data + cap <= s.head + SlabSize(s)
    ensures j1 != j2 ==> s.caches[j1].data + cap <= s.caches[j2].data || s.caches[j2].data + cap <= s.caches[j1].data
  {
    SlotEnd(s, cap, j1, |s.caches|);
    assert SlabSize(s) == |s.caches| * cap;
    if j1 < j2 {
      SlotEnd(s, cap, j1, j2);
    } else if j2 < j1 {
      SlotEnd(s, cap, j2, j1);
    }
  }

  /** Slot `j` ends no later than where slot `k > j` (or the slab end, for
      `k = n`) begins. */
  lemma SlotEnd(s: Shard, cap: U64, j: nat, k: nat)
    requires ShardValid(s, cap) && j < k <= |s.caches|
    ensures s.caches[j].data + cap <= s.head + k * cap
  {
    assert s.caches[j].data == s.head + j * cap;
    assert (j + 1) * cap == j * cap + cap;
    MulMonotone(j + 1, k, cap);
  }

  /** Any two slots of a valid pool, in the same shard or not, are the same
      slot or occupy disjoint bytes. */
  lemma SlotsDisjoint(p: Pool, k1: nat, j1: nat, k2: nat, j2: nat)
    requires Valid(p) && k1 < |p.shards| && k2 < |p.shards|
    requires j1 < |p.shards[k1].caches| && j2 < |p.shards[k2].caches|
    requires k1 != k2 || j1 != j2
    ensures var x, y := p.shards[k1].caches[j1], p.shards[k2].caches[j2];
      x.data + x.cap <= y.data || y.data + y.cap <= x.data
  {
    if k1 == k2 {
      SlotsInsideSlabAndDisjoint(p.shards[k1], p.cap, j1, j2);
    } else {
      SlotsInsideSlabAndDisjoint(p.shards[k1], p.cap, j1, j1);
      SlotsInsideSlabAndDisjoint(p.shards[k2], p.cap, j2, j2);
      if k1 < k2 {
        assert SlabsDisjoint(p.shards[k1], p.shards[k2]);
      } else {
        assert SlabsDisjoint(p.shards[k2], p.shards[k1]);
      }
    }
  }

  /** From the address of slot `j` of shard `k`, Put finds shard `k` as the
      first owning shard and recomputes slot index `j`: `(j*cap)/cap == j`. */
  lemma SlotAddressMapsBack(p: Pool, k: nat, j: nat)
    requires Valid(p) && k < |p.shards| && j < |p.shards[k].caches|
    ensures IsOwner(p, p.shards[k].caches[j].data, k)
    ensures SlotIndex(p.shards[k], p.shards[k].caches[j].data) == j
  {
    var s := p.shards[k];
    var addr := s.caches[j].data;
    SlotsInsideSlabAndDisjoint(s, p.cap, j, j);
    assert SlabSize(s) == |s.caches| * s.cap;
    forall i | 0 <= i < k
      ensures !Contains(p.shards[i], addr)
    {
      assert SlabsDisjoint(p.shards[i], p.shards[k]);
    }
    assert addr - s.head == j * s.cap;
    MulDivCancel(j, s.cap);
  }

  /** The occupancy of every shard, in shard order. */
  function Markers(p: Pool): seq<seq<bool>>
  {
    seq(|p.shards|, i requires 0 <= i < |p.shards| => p.shards[i].used)
  }

  /** Put of a buffer Get just claimed from a slot finds the same slot and
      restores the pool to its state before the Get, except for the chosen
      shard's cursor, which stays advanced by one. */
  lemma GetPutRoundTrip(p: Pool, rnd: U32, spareAddr: U64)
    requires Valid(p) && |p.shards| % 0x1_0000_0000 != 0
    requires !AllClaimed(p.shards[Pick(p, rnd)].used)
    ensures var q, x := Get(p, rnd, spareAddr).0, Get(p, rnd, spareAddr).1;
      var k := Pick(p, rnd);
      && Put(q, x) == p.(shards := p.shards[k := p.shards[k].(index := Wrap(p.shards[k].index + 1))])
      && Markers(Put(q, x)) == Markers(p)
  {
    var k := Pick(p, rnd);
    var s := p.shards[k];
    var idx := SlotClaim(p, rnd, spareAddr);
    var q := Get(p, rnd, spareAddr).0;
    PutOfSlot(q, k, idx);
    assert q.shards[k].used[idx := false] == s.used;
  }

  /** A Get that is served from a slot, spelled out: the chosen shard's
      cursor advances, marker `idx` is set, and slot `idx`'s view is
      returned. */
  lemma SlotClaim(p: Pool, rnd: U32, spareAddr: U64) returns (idx: nat)
    requires Valid(p) && |p.shards| % 0x1_0000_0000 != 0
    requires !AllClaimed(p.shards[Pick(p, rnd)].used)
    ensures var k := Pick(p, rnd); var s := p.shards[k];
      && idx < |s.caches| && idx < |s.used| && !s.used[idx]
      && Get(p, rnd, spareAddr).0 == p.(shards := p.shards[k := s.(used := s.used[idx := true], index := Wrap(s.index + 1))])
      && Get(p, rnd, spareAddr).1 == s.caches[idx]
  {
    var k := Pick(p, rnd);
    var s := p.shards[k];
    var q, x := Get(p, rnd, spareAddr).0, Get(p, rnd, spareAddr).1;
    idx :| IsFirstFree(s.used, ScanStart(s), idx)
      && q.shards[k].used == s.used[idx := true] && x == s.caches[idx];
    assert q.shards[k] == s.(used := s.used[idx := true], index := Wrap(s.index + 1));
    assert q.shards == p.shards[k := s.(used := s.used[idx := true], index := Wrap(s.index + 1))];
  }

  /** Put of the view of slot `j` of shard `k` clears exactly that marker. */
  lemma PutOfSlot(p: Pool, k: nat, j: nat)
    requires Valid(p) && k < |p.shards| && j < |p.shards[k].caches|
    ensures j < |p.shards[k].used|
    ensures Put(p, p.shards[k].caches[j]) == ClearMarker(p, k, j)
  {
    SlotAddressMapsBack(p, k, j);
  }

  /** On a saturated shard Get changes no marker and returns a new buffer of
      length 0 and capacity `cap` at the allocator's address; when that
      address lies outside every slab, Put of it leaves the pool unchanged. */
  lemma FallbackIgnoredByPut(p: Pool, rnd: U32, spareAddr: U64)
    requires Valid(p) && |p.shards| % 0x1_0000_0000 != 0
    requires AllClaimed(p.shards[Pick(p, rnd)].used)
    requires forall i :: 0 <= i < |p.shards| ==> !Contains(p.shards[i], spareAddr)
    ensures var (q, x) := Get(p, rnd, spareAddr);
      && x == Slice(spareAddr, 0, p.cap)
      && Markers(q) == Markers(p)
      && Put(q, x) == q
  {
    var (q, x) := Get(p, rnd, spareAddr);
    assert forall i :: 0 <= i < |p.shards| ==> Contains(q.shards[i], spareAddr) == Contains(p.shards[i], spareAddr);
  }

  /** Two claims in a row that are both served from slots return buffers over
      disjoint bytes: the first slot's marker is set, so the second scan
      cannot pick it. */
  lemma SuccessiveClaimsDisjoint(p: Pool, rnd1: U32, a1: U64, rnd2: U32, a2: U64)
    requires Valid(p) && |p.shards| % 0x1_0000_0000 != 0
    requires !AllClaimed(p.shards[Pick(p, rnd1)].used)
    requires !AllClaimed(Get(p, rnd1, a1).0.shards[Pick(Get(p, rnd1, a1).0, rnd2)].used)
    ensures var (q, x) := Get(p, rnd1, a1);
      var y := Get(q, rnd2, a2).1;
      x.data + x.cap <= y.data || y.data + y.cap <= x.data
  {
    var (q, x) := Get(p, rnd1, a1);
    var k1 := Pick(p, rnd1);
    var s := p.shards[k1];
    var i1: nat :| IsFirstFree(s.used, ScanStart(s), i1)
      && q.shards[k1].used == s.used[i1 := true] && x == s.caches[i1];
    var k2 := Pick(q, rnd2);
    var t := q.shards[k2];
    var y := Get(q, rnd2, a2).1;
    var i2: nat :| IsFirstFree(t.used, ScanStart(t), i2)
      && Get(q, rnd2, a2).0.shards[k2].used == t.used[i2 := true] && y == t.caches[i2];
    assert x == q.shards[k1].caches[i1];
    SlotsDisjoint(q, k1, i1, k2, i2);
  }
}
