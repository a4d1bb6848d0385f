/**
 Runs of several claims and releases on a pool with a single shard: claims
 keep succeeding while a slot is free, each claim occupies one more slot,
 releasing everything claimed empties the shard again, and a pool built
 with the repository test's configuration (capacity 1024, ten slots, one
 shard) driven past saturation.
 */
module PoolScenarios {
  import opened Machine
  import opened Outcomes
  import opened GoSlices
  import opened Rotation
  import opened BytePool
  import opened PoolProperties

  /** Number of claimed slots. */
  function Occupied(used: seq<bool>): nat
  {
    if used == [] then 0 else (if used[0] then 1 else 0) + Occupied(used[1..])
  }

  /** The occupancy never exceeds the slot count and reaches it exactly when
      every slot is claimed; it is zero exactly when every slot is free. */
  lemma {:induction false} OccupiedBounds(used: seq<bool>)
    ensures Occupied(used) <= |used|
    ensures Occupied(used) == |used| <==> AllClaimed(used)
    ensures Occupied(used) == 0 <==> forall j :: 0 <= j < |used| ==> !used[j]
  {
    if used != [] {
      OccupiedBounds(used[1..]);
      assert forall j :: 1 <= j < |used| ==> used[j] == used[1..][j - 1];
    }
  }

  /** Setting one clear marker raises the occupancy by exactly one. */
  lemma {:induction false} OccupiedClaim(used: seq<bool>, j: nat)
    requires j < |used| && !used[j]
    ensures Occupied(used[j := true]) == Occupied(used) + 1
  {
    if j != 0 {
      assert used[j := true][1..] == used[1..][j - 1 := true];
      OccupiedClaim(used[1..], j - 1);
    }
  }

  /** Claims one per draw, every fallback buffer at `spareAddr`. */
  function GetAll(p: Pool, draws: seq<U32>, spareAddr: U64): (r: (Pool, seq<Slice>))
    requires Valid(p) && |p.shards| % 0x1_0000_0000 != 0
    decreases |draws|
    ensures Valid(r.0) && |r.0.shards| == |p.shards| && r.0.cap == p.cap && |r.1| == |draws|
  {
    if draws == [] then (p, [])
    else
      var (q, x) := Get(p, draws[0], spareAddr);
      var (q', xs) := GetAll(q, draws[1..], spareAddr);
      (q', [x] + xs)
  }

  /** Releases the buffers in order. */
  function PutAll(p: Pool, xs: seq<Slice>): (r: Pool)
    requires Valid(p)
    decreases |xs|
    ensures Valid(r) && |r.shards| == |p.shards| && r.cap == p.cap
  {
    if xs == [] then p else PutAll(Put(p, xs[0]), xs[1..])
  }

  /** The single shard keeps its slab and its slot views. */
  predicate SameLayout(p: Pool, q: Pool)
    requires |p.shards| == 1 && |q.shards| == 1
  {
    && q.shards[0].caches == p.shards[0].caches
    && q.shards[0].head == p.shards[0].head
    && q.shards[0].cap == p.shards[0].cap
  }

  /** On a one-shard pool, as long as the draws do not outnumber the free
      slots, every claim is served from a slot (no fallback), the occupancy
      grows by one per claim, and the claimed slots are exactly those newly
      marked. */
  lemma {:induction false} FillSingleShard(p: Pool, draws: seq<U32>, spareAddr: U64)
    requires Valid(p) && |p.shards| == 1
    requires Occupied(p.shards[0].used) + |draws| <= |p.shards[0].used|
    decreases |draws|
    ensures var q, xs := GetAll(p, draws, spareAddr).0, GetAll(p, draws, spareAddr).1;
      && |q.shards| == 1 && SameLayout(p, q)
      && Occupied(q.shards[0].used) == Occupied(p.shards[0].used) + |draws|
      && (forall t :: 0 <= t < |xs| ==> xs[t] in p.shards[0].caches)
      && (forall j :: 0 <= j < |p.shards[0].used| ==>
            (q.shards[0].used[j] <==> p.shards[0].used[j] || p.shards[0].caches[j] in xs))
  {
    if draws != [] {
      var s := p.shards[0];
      OccupiedBounds(s.used);
      var q, x := Get(p, draws[0], spareAddr).0, Get(p, draws[0], spareAddr).1;
      var idx := ClaimOnSingleShard(p, draws[0], spareAddr);
      OccupiedClaim(s.used, idx);
      FillSingleShard(q, draws[1..], spareAddr);
      var q', xs' := GetAll(q, draws[1..], spareAddr).0, GetAll(q, draws[1..], spareAddr).1;
      assert GetAll(p, draws, spareAddr) == (q', [x] + xs');
      forall j | 0 <= j < |s.used|
        ensures q'.shards[0].used[j] <==> s.used[j] || s.caches[j] in [x] + xs'
      {
        assert s.caches[j] in [x] + xs' <==> s.caches[j] == x || s.caches[j] in xs';
        if s.caches[j] == x {
          SlotViewsDistinct(p, j, idx);
        }
      }
    }
  }

  /** A claim on a one-shard pool with a free slot sets the marker of one
      free slot and returns that slot's view. */
  lemma ClaimOnSingleShard(p: Pool, rnd: U32, spareAddr: U64) returns (idx: nat)
    requires Valid(p) && |p.shards| == 1 && !AllClaimed(p.shards[0].used)
    ensures idx < |p.shards[0].used| && !p.shards[0].used[idx]
    ensures |Get(p, rnd, spareAddr).0.shards| == 1
    ensures SameLayout(p, Get(p, rnd, spareAddr).0)
    ensures Get(p, rnd, spareAddr).0.shards[0].used == p.shards[0].used[idx := true]
    ensures Get(p, rnd, spareAddr).1 == p.shards[0].caches[idx]
  {
    var s := p.shards[0];
    assert Pick(p, rnd) == 0;
    var (q, x) := Get(p, rnd, spareAddr);
    idx :| IsFirstFree(s.used, ScanStart(s), idx)
      && q.shards[0].used == s.used[idx := true] && x == s.caches[idx];
  }

  /** Two slot views of one shard are equal only when they are the same slot. */
  lemma SlotViewsDistinct(p: Pool, j1: nat, j2: nat)
    requires Valid(p) && 0 < |p.shards| && j1 < |p.shards[0].caches| && j2 < |p.shards[0].caches|
    requires p.shards[0].caches[j1] == p.shards[0].caches[j2]
    ensures j1 == j2
  {
    if j1 != j2 {
      SlotsDisjoint(p, 0, j1, 0, j2);
    }
  }

  /** On a one-shard pool, releasing slot views clears exactly the markers
      of the slots released and changes nothing else. */
  lemma {:induction false} ReleaseSingleShard(p: Pool, xs: seq<Slice>)
    requires Valid(p) && |p.shards| == 1
    requires forall t :: 0 <= t < |xs| ==> xs[t] in p.shards[0].caches
    decreases |xs|
    ensures var r := PutAll(p, xs);
      && |r.shards| == 1 && SameLayout(p, r)
      && |r.shards[0].used| == |p.shards[0].used|
      && forall j :: 0 <= j < |p.shards[0].used| ==>
           (r.shards[0].used[j] <==> p.shards[0].used[j] && p.shards[0].caches[j] !in xs)
  {
    if xs != [] {
      var s := p.shards[0];
      var i :| 0 <= i < |s.caches| && s.caches[i] == xs[0];
      SlotAddressMapsBack(p, 0, i);
      var q := Put(p, xs[0]);
      assert q == ClearMarker(p, 0, i);
      forall j | 0 <= j < |s.caches| && s.caches[j] == xs[0]
        ensures j == i
      {
        SlotViewsDistinct(p, i, j);
      }
      ReleaseSingleShard(q, xs[1..]);
      assert forall x :: x in xs <==> x == xs[0] || x in xs[1..];
    }
  }

  /** Claiming every slot of an empty one-shard pool, releasing all of the
      buffers, and claiming every slot again: each round ends with every
      slot claimed, which n claims from an empty shard reach only if none of
      them fell back, and the shard is empty between the rounds. */
  lemma ClaimReleaseClaimAgain(p: Pool, first: seq<U32>, second: seq<U32>, spareAddr: U64)
    requires Valid(p) && |p.shards| == 1
    requires forall j :: 0 <= j < |p.shards[0].used| ==> !p.shards[0].used[j]
    requires |first| == |p.shards[0].used| && |second| == |p.shards[0].used|
    ensures var q, xs := GetAll(p, first, spareAddr).0, GetAll(p, first, spareAddr).1;
      var r := PutAll(q, xs);
      var ys := GetAll(r, second, spareAddr).1;
      && (forall t :: 0 <= t < |xs| ==> xs[t] in p.shards[0].caches)
      && AllClaimed(q.shards[0].used)
      && (forall j :: 0 <= j < |r.shards[0].used| ==> !r.shards[0].used[j])
      && (forall t :: 0 <= t < |ys| ==> ys[t] in p.shards[0].caches)
      && AllClaimed(GetAll(r, second, spareAddr).0.shards[0].used)
  {
    var s := p.shards[0];
    OccupiedBounds(s.used);
    FillSingleShard(p, first, spareAddr);
    var q, xs := GetAll(p, first, spareAddr).0, GetAll(p, first, spareAddr).1;
    ReleaseSingleShard(q, xs);
    var r := PutAll(q, xs);
    assert SameLayout(p, r);
    forall j | 0 <= j < |r.shards[0].used|
      ensures !r.shards[0].used[j]
    {
    }
    OccupiedBounds(q.shards[0].used);
    OccupiedBounds(r.shards[0].used);
    FillSingleShard(r, second, spareAddr);
    OccupiedBounds(GetAll(r, second, spareAddr).0.shards[0].used);
  }

  /** A one-shard pool with every slot free: as many claims as slots are all
      served from the slab; the next falls back to a fresh buffer of length 0
      and the pool's capacity without touching a marker, and releasing that
      buffer changes nothing. */
  lemma SaturateSingleShard(p: Pool, draws: seq<U32>, rnd: U32, spareAddr: U64)
    requires Valid(p) && |p.shards| == 1
    requires forall j :: 0 <= j < |p.shards[0].used| ==> !p.shards[0].used[j]
    requires |draws| == |p.shards[0].used|
    requires !Contains(p.shards[0], spareAddr)
    ensures var q, xs := GetAll(p, draws, spareAddr).0, GetAll(p, draws, spareAddr).1;
      var q', x := Get(q, rnd, spareAddr).0, Get(q, rnd, spareAddr).1;
      && (forall t :: 0 <= t < |xs| ==> xs[t] in p.shards[0].caches && xs[t].len == 0 && xs[t].cap == p.cap)
      && x == Slice(spareAddr, 0, p.cap)
      && Markers(q') == Markers(q)
      && Put(q', x) == q'
  {
    var s := p.shards[0];
    OccupiedBounds(s.used);
    FillSingleShard(p, draws, spareAddr);
    var q, xs := GetAll(p, draws, spareAddr).0, GetAll(p, draws, spareAddr).1;
    OccupiedBounds(q.shards[0].used);
    assert Pick(q, rnd) == 0;
    assert !Contains(q.shards[0], spareAddr);
    FallbackIgnoredByPut(q, rnd, spareAddr);
  }

  /** A pool built with the repository test's configuration: slots of
      `cap` = 1024 bytes, `max` = 10 slots, one shard. Ten claims are all
      served from the slab with length 0 and capacity 1024; an eleventh
      claim, which the test itself never makes, falls back to a buffer of
      length 0 and capacity 1024 without touching a marker, and Put of that
      buffer changes nothing. The configuration enters as parameters pinned
      by the precondition rather than as literals, so that the verifier does
      not evaluate construction on constants while checking the contract. */
  lemma SaturationScenario(cap: U64, max: U64, head: U64, draws: seq<U32>, rnd: U32, spareAddr: U64)
    requires cap == 1024 && max == 10
    requires head + max * cap < Word
    requires |draws| == max
    requires !(head <= spareAddr < head + max * cap)
    ensures NewBytePool(cap, max, 1, [head]).Ok?
    ensures Valid(NewBytePool(cap, max, 1, [head]).value)
    ensures |NewBytePool(cap, max, 1, [head]).value.shards| == 1
    ensures var p := NewBytePool(cap, max, 1, [head]).value;
      var q, xs := GetAll(p, draws, spareAddr).0, GetAll(p, draws, spareAddr).1;
      var q', x := Get(q, rnd, spareAddr).0, Get(q, rnd, spareAddr).1;
      && (forall t :: 0 <= t < |xs| ==> xs[t] in p.shards[0].caches && xs[t].len == 0 && xs[t].cap == 1024)
      && x == Slice(spareAddr, 0, 1024)
      && Markers(q') == Markers(q)
      && Put(q', x) == q'
  {
    NewBytePoolCorrect(cap, max, 1, [head]);
    NewBytePoolValid(cap, max, 1, [head]);
    var p := NewBytePool(cap, max, 1, [head]).value;
    assert FreshShard(p.shards[0], head, cap, max);
    SaturateSingleShard(p, draws, rnd, spareAddr);
  }
}

/**
 Claims without releases in between, on a pool with any number of shards:
 every buffer handed out from a slot comes from a slot that was free, no
 slot is handed out twice, and buffers from distinct claims never share a
 byte.
 */
module ClaimRuns {
  import opened Machine
  import opened Outcomes
  import opened GoSlices
  import opened Rotation
  import opened BytePool
  import opened PoolProperties
  import opened PoolScenarios

  /** Slot `slot` of shard `shard`. */
  datatype SlotId = SlotId(shard: nat, slot: nat)

  predicate IsSlotOf(p: Pool, id: SlotId)
  {
    id.shard < |p.shards| && id.slot < |p.shards[id.shard].caches| && id.slot < |p.shards[id.shard].used|
  }

  /** Every shard keeps its slot views, and the pool its capacity. */
  predicate SameViews(p: Pool, q: Pool)
  {
    && |q.shards| == |p.shards| && q.cap == p.cap
    && forall k :: 0 <= k < |p.shards| ==> q.shards[k].caches == p.shards[k].caches
  }

  /** No marker of `p` is clear in `q`. */
  predicate MarkersGrow(p: Pool, q: Pool)
    requires |q.shards| == |p.shards|
  {
    forall k :: 0 <= k < |p.shards| ==>
      && |q.shards[k].used| == |p.shards[k].used|
      && forall j :: 0 <= j < |p.shards[k].used| && p.shards[k].used[j] ==> q.shards[k].used[j]
  }

  /** `cs` says which slot each buffer of `xs` came from, on the way from
      pool `p` to pool `q`: a claimed slot was free in `p` and is marked in
      `q`, and the buffer is its view; an unclaimed buffer is the fallback
      at `spareAddr`; no slot is claimed twice. Slot views are kept and
      markers only get set. */
  predicate ClaimsDescribe(p: Pool, q: Pool, xs: seq<Slice>, cs: seq<Option<SlotId>>, spareAddr: U64)
  {
    && |cs| == |xs|
    && SameViews(p, q) && MarkersGrow(p, q)
    && (forall t :: 0 <= t < |cs| && cs[t].Some? ==>
          && IsSlotOf(p, cs[t].value)
          && xs[t] == p.shards[cs[t].value.shard].caches[cs[t].value.slot]
          && !p.shards[cs[t].value.shard].used[cs[t].value.slot]
          && q.shards[cs[t].value.shard].used[cs[t].value.slot])
    && (forall t :: 0 <= t < |cs| && cs[t].None? ==> xs[t] == Slice(spareAddr, 0, p.cap))
    && (forall t1, t2 :: 0 <= t1 < t2 < |cs| && cs[t1].Some? && cs[t2].Some? ==> cs[t1].value != cs[t2].value)
  }

  /** One Get, described by the slot it claimed, if any. */
  lemma GetClaim(p: Pool, rnd: U32, spareAddr: U64) returns (c: Option<SlotId>)
    requires Valid(p) && |p.shards| % 0x1_0000_0000 != 0
    ensures ClaimsDescribe(p, Get(p, rnd, spareAddr).0, [Get(p, rnd, spareAddr).1], [c], spareAddr)
  {
    var k := Pick(p, rnd);
    var s := p.shards[k];
    if AllClaimed(s.used) {
      c := None;
    } else {
      var idx := SlotClaim(p, rnd, spareAddr);
      c := Some(SlotId(k, idx));
    }
  }

  /** Two consecutive runs of claims make one: the slots the second run
      claims were free after the first, which had marked its own. */
  lemma ClaimsCompose(p: Pool, q1: Pool, q: Pool, xs1: seq<Slice>, cs1: seq<Option<SlotId>>,
                      xs2: seq<Slice>, cs2: seq<Option<SlotId>>, spareAddr: U64)
    requires ClaimsDescribe(p, q1, xs1, cs1, spareAddr)
    requires ClaimsDescribe(q1, q, xs2, cs2, spareAddr)
    ensures ClaimsDescribe(p, q, xs1 + xs2, cs1 + cs2, spareAddr)
  {
    ComposeSlots(p, q1, q, xs1, cs1, xs2, cs2, spareAddr);
    ComposeDistinct(p, q1, q, xs1, cs1, xs2, cs2, spareAddr);
  }

  /** The per-buffer half of `ClaimsCompose`. */
  lemma ComposeSlots(p: Pool, q1: Pool, q: Pool, xs1: seq<Slice>, cs1: seq<Option<SlotId>>,
                     xs2: seq<Slice>, cs2: seq<Option<SlotId>>, spareAddr: U64)
    requires ClaimsDescribe(p, q1, xs1, cs1, spareAddr)
    requires ClaimsDescribe(q1, q, xs2, cs2, spareAddr)
    ensures SameViews(p, q) && MarkersGrow(p, q)
    ensures var xs, cs := xs1 + xs2, cs1 + cs2;
      && (forall t :: 0 <= t < |cs| && cs[t].Some? ==>
            && IsSlotOf(p, cs[t].value)
            && xs[t] == p.shards[cs[t].value.shard].caches[cs[t].value.slot]
            && !p.shards[cs[t].value.shard].used[cs[t].value.slot]
            && q.shards[cs[t].value.shard].used[cs[t].value.slot])
      && (forall t :: 0 <= t < |cs| && cs[t].None? ==> xs[t] == Slice(spareAddr, 0, p.cap))
  {
    var xs, cs := xs1 + xs2, cs1 + cs2;
    var n1 := |cs1|;
    forall t | 0 <= t < |cs| && cs[t].Some?
      ensures IsSlotOf(p, cs[t].value)
      ensures xs[t] == p.shards[cs[t].value.shard].caches[cs[t].value.slot]
      ensures !p.shards[cs[t].value.shard].used[cs[t].value.slot]
      ensures q.shards[cs[t].value.shard].used[cs[t].value.slot]
    {
      if t < n1 {
        assert cs[t] == cs1[t] && xs[t] == xs1[t];
      } else {
        assert cs[t] == cs2[t - n1] && xs[t] == xs2[t - n1];
      }
    }
    forall t | 0 <= t < |cs| && cs[t].None?
      ensures xs[t] == Slice(spareAddr, 0, p.cap)
    {
      if t < n1 {
        assert cs[t] == cs1[t] && xs[t] == xs1[t];
      } else {
        assert cs[t] == cs2[t - n1] && xs[t] == xs2[t - n1];
      }
    }
  }

  /** The no-slot-twice half of `ClaimsCompose`. */
  lemma ComposeDistinct(p: Pool, q1: Pool, q: Pool, xs1: seq<Slice>, cs1: seq<Option<SlotId>>,
                        xs2: seq<Slice>, cs2: seq<Option<SlotId>>, spareAddr: U64)
    requires ClaimsDescribe(p, q1, xs1, cs1, spareAddr)
    requires ClaimsDescribe(q1, q, xs2, cs2, spareAddr)
    ensures var cs := cs1 + cs2;
      forall t1, t2 :: 0 <= t1 < t2 < |cs| && cs[t1].Some? && cs[t2].Some? ==> cs[t1].value != cs[t2].value
  {
    var cs := cs1 + cs2;
    var n1 := |cs1|;
    forall t1, t2 | 0 <= t1 < t2 < |cs| && cs[t1].Some? && cs[t2].Some?
      ensures cs[t1].value != cs[t2].value
    {
      if t2 < n1 {
        assert cs[t1] == cs1[t1] && cs[t2] == cs1[t2];
      } else if t1 < n1 {
        assert cs[t1] == cs1[t1] && cs[t2] == cs2[t2 - n1];
      } else {
        assert cs[t1] == cs2[t1 - n1] && cs[t2] == cs2[t2 - n1];
      }
    }
  }

  /** A run of Gets, described by the slot each claimed. */
  lemma {:induction false} GetAllClaims(p: Pool, draws: seq<U32>, spareAddr: U64) returns (cs: seq<Option<SlotId>>)
    requires Valid(p) && |p.shards| % 0x1_0000_0000 != 0
    decreases |draws|
    ensures ClaimsDescribe(p, GetAll(p, draws, spareAddr).0, GetAll(p, draws, spareAddr).1, cs, spareAddr)
  {
    if draws == [] {
      cs := [];
    } else {
      var q1, x := Get(p, draws[0], spareAddr).0, Get(p, draws[0], spareAddr).1;
      var c := GetClaim(p, draws[0], spareAddr);
      var rest := GetAllClaims(q1, draws[1..], spareAddr);
      cs := [c] + rest;
      assert GetAll(p, draws, spareAddr) == (GetAll(q1, draws[1..], spareAddr).0, [x] + GetAll(q1, draws[1..], spareAddr).1);
      ClaimsCompose(p, q1, GetAll(q1, draws[1..], spareAddr).0, [x], [c], GetAll(q1, draws[1..], spareAddr).1, rest, spareAddr);
    }
  }

  /** Any number of Gets without a Put in between: two results that were
      both served from slots occupy disjoint bytes, and each came from a
      slot that was free before the run. */
  lemma ClaimsDisjoint(p: Pool, draws: seq<U32>, spareAddr: U64) returns (cs: seq<Option<SlotId>>)
    requires Valid(p) && |p.shards| % 0x1_0000_0000 != 0
    ensures var xs := GetAll(p, draws, spareAddr).1;
      && |cs| == |xs|
      && (forall t :: 0 <= t < |cs| && cs[t].Some? ==>
            && IsSlotOf(p, cs[t].value)
            && xs[t] == p.shards[cs[t].value.shard].caches[cs[t].value.slot]
            && !p.shards[cs[t].value.shard].used[cs[t].value.slot])
      && (forall t :: 0 <= t < |cs| && cs[t].None? ==> xs[t] == Slice(spareAddr, 0, p.cap))
      && (forall t1, t2 :: 0 <= t1 < |cs| && 0 <= t2 < |cs| && t1 != t2 && cs[t1].Some? && cs[t2].Some? ==>
            xs[t1].data + xs[t1].cap <= xs[t2].data || xs[t2].data + xs[t2].cap <= xs[t1].data)
  {
    cs := GetAllClaims(p, draws, spareAddr);
    var xs := GetAll(p, draws, spareAddr).1;
    forall t1, t2 | 0 <= t1 < |cs| && 0 <= t2 < |cs| && t1 != t2 && cs[t1].Some? && cs[t2].Some?
      ensures xs[t1].data + xs[t1].cap <= xs[t2].data || xs[t2].data + xs[t2].cap <= xs[t1].data
    {
      var a, b := cs[t1].value, cs[t2].value;
      if t1 < t2 { assert a != b; } else { assert b != a; }
      SlotsDisjoint(p, a.shard, a.slot, b.shard, b.slot);
    }
  }
}
