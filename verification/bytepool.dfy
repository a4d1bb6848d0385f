/**
 The sharded byte pool read as a sequential state machine. Each shard owns
 one slab carved into equal slots, one marker per slot (true while the
 slot's buffer is handed out) and a rotation cursor. `Get` claims a slot of
 a caller-chosen shard or falls back to a fresh buffer; `Put` maps a buffer
 back to its slot from its address and clears the marker. Atomic operations
 are read as plain read-modify-write steps.
 */
module BytePool {
  import opened Machine
  import opened Outcomes
  import opened GoSlices
  import opened Alloc
  import opened Rotation

  /** Size of one marker: a uint32 flag padded by 60 bytes to a cache line. */
  const UsedElemSize: U64 := 64
  const ByteSize: U64 := 1

  /** Go's `bytePoolShard`: the slot views, the markers, the cursor, the
      slab's base address and the slot capacity. */
  datatype Shard = Shard(caches: seq<Slice>, used: seq<bool>, index: U64, head: U64, cap: U64)

  /** Go's `BytePool`: the shards, the slot capacity and the requested total
      slot count. */
  datatype Pool = Pool(shards: seq<Shard>, cap: U64, len: U64)

  /** Bytes of the shard's slab. */
  function SlabSize(s: Shard): nat
  {
    s.cap * |s.caches|
  }

  /** The address lies in the shard's slab `[head, head + cap * n)`. */
  predicate Contains(s: Shard, addr: nat)
  {
    s.head <= addr < s.head + SlabSize(s)
  }

  /** `x` is the view of slot `j` of a slab at `head`: bytes
      `[head + j*cap, head + (j+1)*cap)`, no elements, capacity `cap`. */
  predicate IsSlot(x: Slice, head: nat, cap: nat, j: nat)
  {
    x.data == head + j * cap && x.len == 0 && x.cap == cap
  }

  predicate ShardValid(s: Shard, cap: U64)
  {
    && s.cap == cap
    && 0 < |s.caches|
    && |s.used| == |s.caches|
    && SlabSize(s) <= MaxInt
    && s.head + SlabSize(s) < Word
    && forall j :: 0 <= j < |s.caches| ==> IsSlot(s.caches[j], s.head, cap, j)
  }

  predicate SlabsDisjoint(s: Shard, t: Shard)
  {
    s.head + SlabSize(s) <= t.head || t.head + SlabSize(t) <= s.head
  }

  /** The state every pool built by NewBytePool is in, provided the allocator
      placed the slabs apart and each slab ends strictly below 2^64; Get and
      Put keep it. */
  predicate Valid(p: Pool)
  {
    && 0 < p.cap <= MaxInt
    && 0 < |p.shards|
    && (forall i :: 0 <= i < |p.shards| ==> ShardValid(p.shards[i], p.cap))
    && (forall i, k :: 0 <= i < k < |p.shards| ==> SlabsDisjoint(p.shards[i], p.shards[k]))
  }

  // ---------------------------------------------------------------------
  // Construction

  lemma WrapBelowTwoWords(x: nat)
    requires Word <= x < 2 * Word
    ensures Wrap(x) == x - Word
  {
  }

  /** Slicing out slot `j` stays in bounds exactly when the slot ends inside
      the slab; the uint products then do not wrap. */
  lemma CarveStep(dataCap: nat, cap: U64, j: nat)
    requires dataCap <= MaxInt && j * cap <= dataCap
    ensures Wrap(j * cap) == j * cap
    ensures Wrap(j * cap) <= Wrap((j + 1) * cap) <= dataCap <==> (j + 1) * cap <= dataCap
    ensures (j + 1) * cap <= dataCap ==> Wrap((j + 1) * cap) == (j + 1) * cap
  {
    assert (j + 1) * cap == j * cap + cap;
    if Word <= (j + 1) * cap {
      WrapBelowTwoWords((j + 1) * cap);
    }
  }

  /** The carving loop from slot `j` on: slot `k` is
      `data[k*cap : (k+1)*cap : (k+1)*cap][:0]`, with the bounds computed as
      wrapping uint products. It panics at the first slot that does not fit. */
  function Carve(data: Slice, cap: U64, shardSize: U64, j: nat): (r: Result<seq<Slice>>)
    requires data.cap <= MaxInt && j <= shardSize && j * cap <= data.cap
    decreases shardSize - j
    ensures r.Ok? <==> shardSize * cap <= data.cap
    ensures r.Fail? ==> r.panic == SliceBounds
    ensures r.Ok? ==> |r.value| == shardSize - j
    ensures r.Ok? ==> forall k :: 0 <= k < |r.value| ==>
      r.value[k] == Slice(Wrap(data.data + (j + k) * cap), 0, cap)
  {
    if j == shardSize then Ok([])
    else
      var lo, hi := Wrap(j * cap), Wrap((j + 1) * cap);
      CarveStep(data.cap, cap, j);
      match Slice3(data, lo, hi, hi)
      case Fail(e) =>
        MulMonotone(j + 1, shardSize, cap);
        Fail(e)
      case Ok(s) =>
        match Carve(data, cap, shardSize, j + 1)
        case Fail(e) => Fail(e)
        case Ok(rest) =>
          Ok([Empty(s)] + rest)
  }

  /** A shard as construction leaves it: slab at `head`, `n` slots whose view
      `j` starts at `head + j*cap` (as a register computes it), every marker
      clear and the cursor at zero. */
  predicate FreshShard(s: Shard, head: U64, cap: U64, n: nat)
  {
    && s.head == head && s.cap == cap && s.index == 0
    && |s.caches| == n && |s.used| == n
    && (forall j :: 0 <= j < n ==> !s.used[j])
    && (forall j :: 0 <= j < n ==> s.caches[j] == Slice(Wrap(head + j * cap), 0, cap))
  }

  /** One iteration of the shard loop of NewBytePool: allocate the slab of
      `sh` bytes at `head`, allocate the marker array, carve the slots, and
      take the address of the slab's first byte. Markers start clear: the
      marker array's address plays no role, so the model passes 0. */
  function NewShard(cap: U64, shardSize: U64, sh: GoInt, head: U64): (r: Result<Shard>)
    ensures r.Ok? <==> 0 < sh && shardSize * cap <= sh && UsedElemSize * shardSize <= MaxUintptr
    ensures r.Ok? ==> FreshShard(r.value, head, cap, shardSize)
  {
    MallocSliceCorrect(ByteSize, sh, sh, head);
    MallocSliceCorrect(UsedElemSize, ToInt(shardSize), ToInt(shardSize), 0);
    match MallocSlice(ByteSize, sh, sh, head)
    case Fail(e) => Fail(e)
    case Ok(data) =>
      match MallocSlice(UsedElemSize, ToInt(shardSize), ToInt(shardSize), 0)
      case Fail(e) => Fail(e)
      case Ok(used) =>
        match Carve(data, cap, shardSize, 0)
        case Fail(e) => Fail(e)
        case Ok(caches) =>
          if data.len == 0 then Fail(IndexOutOfRange)
          else Ok(Shard(caches, seq(used.len, _ => false), 0, data.data, cap))
  }

  /** The shard loop of NewBytePool over the allocator's slab addresses. */
  function BuildShards(cap: U64, shardSize: U64, sh: GoInt, heads: seq<U64>): (r: Result<seq<Shard>>)
    decreases |heads|
    ensures r.Ok? <==> heads == [] || NewShard(cap, shardSize, sh, heads[0]).Ok?
    ensures r.Ok? ==> |r.value| == |heads|
    ensures r.Ok? ==> forall i :: 0 <= i < |heads| ==> FreshShard(r.value[i], heads[i], cap, shardSize)
  {
    if heads == [] then Ok([])
    else
      match NewShard(cap, shardSize, sh, heads[0])
      case Fail(e) => Fail(e)
      case Ok(s) =>
        match BuildShards(cap, shardSize, sh, heads[1..])
        case Fail(e) => Fail(e)
        case Ok(rest) =>
          FreshShardsCons(s, rest, heads, cap, shardSize);
          Ok([s] + rest)
  }

  /** Prepending the first slab's fresh shard to the fresh shards of the
      remaining slabs gives one fresh shard per slab. */
  lemma FreshShardsCons(s: Shard, rest: seq<Shard>, heads: seq<U64>, cap: U64, n: nat)
    requires 0 < |heads| && |rest| == |heads| - 1
    requires FreshShard(s, heads[0], cap, n)
    requires forall i :: 0 <= i < |rest| ==> FreshShard(rest[i], heads[1..][i], cap, n)
    ensures forall i :: 0 <= i < |heads| ==> FreshShard(([s] + rest)[i], heads[i], cap, n)
  {
    forall i | 0 <= i < |heads|
      ensures FreshShard(([s] + rest)[i], heads[i], cap, n)
    {
      if i > 0 {
        assert ([s] + rest)[i] == rest[i - 1] && heads[i] == heads[1..][i - 1];
      }
    }
  }

  /** `NewBytePool(cap, max, shards)`. The runtime allocator is represented
      by `heads`, the address it returns for each shard's slab. */
  function NewBytePool(cap: U64, max: U64, shards: U64, heads: seq<U64>): Result<Pool>
    requires |heads| == shards
  {
    if shards == 0 then Fail(DivideByZero)
    else
      var shardSize := max / shards;
      var sh := ToInt(Wrap(shardSize * cap));
      match BuildShards(cap, shardSize, sh, heads)
      case Fail(e) => Fail(e)
      case Ok(ss) => Ok(Pool(ss, cap, max))
  }

  // ---------------------------------------------------------------------
  // Get

  /** `math.Uint32() % uint32(len(b.shards))`: the random draw is an input. */
  function Pick(p: Pool, rnd: U32): (k: nat)
    requires |p.shards| % 0x1_0000_0000 != 0
    ensures k < |p.shards|
  {
    rnd % (|p.shards| % 0x1_0000_0000)
  }

  /** Where the scan of a shard starts once its cursor has advanced: the
      slot after the old cursor, except that a cursor at MaxUintptr wraps
      to 0 and the scan then starts at slot 0 whatever the slot count. */
  function ScanStart(s: Shard): (start: nat)
    requires 0 < |s.caches|
    ensures start < |s.caches|
    ensures s.index < MaxUintptr ==> start == (s.index + 1) % |s.caches|
    ensures s.index == MaxUintptr ==> start == 0
  {
    Wrap(s.index + 1) % |s.caches|
  }

  /** `Get()`: advance the chosen shard's cursor, claim the first free slot
      from the new start in rotation order, else return a fresh buffer at
      the allocator's address `spareAddr`. */
  function Get(p: Pool, rnd: U32, spareAddr: U64): (r: (Pool, Slice))
    requires Valid(p) && |p.shards| % 0x1_0000_0000 != 0
    ensures Valid(r.0)
    ensures r.1.len == 0 && r.1.cap == p.cap
    ensures |r.0.shards| == |p.shards| && r.0.cap == p.cap && r.0.len == p.len
    ensures forall i :: 0 <= i < |p.shards| && i != Pick(p, rnd) ==> r.0.shards[i] == p.shards[i]
    ensures var s, s' := p.shards[Pick(p, rnd)], r.0.shards[Pick(p, rnd)];
      && s'.index == Wrap(s.index + 1)
      && s'.caches == s.caches && s'.head == s.head && s'.cap == s.cap
      && (AllClaimed(s.used) ==> s'.used == s.used && r.1 == Slice(spareAddr, 0, p.cap))
      && (!AllClaimed(s.used) ==>
            exists idx: nat :: IsFirstFree(s.used, ScanStart(s), idx)
              && s'.used == s.used[idx := true] && r.1 == s.caches[idx])
  {
    var k := Pick(p, rnd);
    var s := p.shards[k];
    var cursor := Wrap(s.index + 1);
    var start := cursor % |s.caches|;
    FirstFreeCorrect(s.used, start);
    match FirstFree(s.used, start, 0)
    case Some(idx) =>
      (p.(shards := p.shards[k := s.(used := s.used[idx := true], index := cursor)]), s.caches[idx])
    case None =>
      (p.(shards := p.shards[k := s.(index := cursor)]), Slice(spareAddr, 0, p.cap))
  }

  // ---------------------------------------------------------------------
  // Put

  lemma DivBelow(a: nat, c: nat, n: nat)
    requires 0 < c && a < c * n
    ensures a / c < n
  {
    if a / c >= n {
      MulMonotone(n, a / c, c);
    }
  }

  /** Shard `i` is the first whose slab holds `addr`. */
  predicate IsOwner(p: Pool, addr: nat, i: nat)
  {
    && i < |p.shards|
    && Contains(p.shards[i], addr)
    && forall i' :: 0 <= i' < i ==> !Contains(p.shards[i'], addr)
  }

  /** The marker `Put` clears for an address in the shard's slab. */
  function SlotIndex(s: Shard, addr: nat): nat
    requires 0 < s.cap && s.head <= addr
  {
    (addr - s.head) / s.cap
  }

  /** An address inside the slab maps to a slot of the shard. */
  lemma SlotIndexInRange(s: Shard, cap: U64, addr: nat)
    requires ShardValid(s, cap) && 0 < cap && Contains(s, addr)
    ensures SlotIndex(s, addr) < |s.used|
  {
    DivBelow(addr - s.head, s.cap, |s.caches|);
  }

  /** The pool with marker `j` of shard `i` cleared and nothing else changed. */
  function ClearMarker(p: Pool, i: nat, j: nat): Pool
    requires i < |p.shards| && j < |p.shards[i].used|
  {
    p.(shards := p.shards[i := p.shards[i].(used := p.shards[i].used[j := false])])
  }

  lemma ClearMarkerValid(p: Pool, i: nat, j: nat)
    requires Valid(p) && i < |p.shards| && j < |p.shards[i].used|
    ensures Valid(ClearMarker(p, i, j))
  {
    var q := ClearMarker(p, i, j);
    assert forall k :: 0 <= k < |p.shards| ==> SlabSize(q.shards[k]) == SlabSize(p.shards[k]);
  }

  /** Put's test that `addr` lies in the shard's slab, with the range end
      `head + cap*n` computed in wrapping uintptr arithmetic. */
  predicate InRange(s: Shard, addr: nat)
  {
    addr >= s.head && addr < Wrap(s.head + Wrap(s.cap * |s.caches|))
  }

  /** When the slab ends below 2^64 the wrapping test is exact. */
  lemma InRangeExact(s: Shard, addr: nat)
    requires SlabSize(s) < Word && s.head + SlabSize(s) < Word
    ensures InRange(s, addr) <==> Contains(s, addr)
  {
    assert Wrap(s.cap * |s.caches|) == SlabSize(s);
  }

  /** A slab whose last byte is the last byte of the address space has a
      range end that wraps to 0, so the test rejects every address. */
  lemma InRangeAtTopOfMemory(s: Shard, addr: nat)
    requires SlabSize(s) < Word && s.head + SlabSize(s) == Word
    ensures !InRange(s, addr)
  {
    assert Wrap(s.cap * |s.caches|) == SlabSize(s);
  }

  /** The shard loop of `Put` from shard `i` on, with the range end computed
      as Go's `Put` does, in wrapping uintptr arithmetic. */
  function Release(p: Pool, addr: U64, i: nat): (r: Pool)
    requires Valid(p) && i <= |p.shards|
    decreases |p.shards| - i
    ensures Valid(r)
    ensures (forall i' :: i <= i' < |p.shards| ==> !Contains(p.shards[i'], addr)) ==> r == p
    ensures forall i' :: i <= i' < |p.shards| && Contains(p.shards[i'], addr)
                         && (forall i'' :: i <= i'' < i' ==> !Contains(p.shards[i''], addr)) ==>
      && SlotIndex(p.shards[i'], addr) < |p.shards[i'].used|
      && r == ClearMarker(p, i', SlotIndex(p.shards[i'], addr))
  {
    if i == |p.shards| then p
    else
      var s := p.shards[i];
      InRangeExact(s, addr);
      if InRange(s, addr) then
        SlotIndexInRange(s, p.cap, addr);
        ClearMarkerValid(p, i, (addr - s.head) / s.cap);
        ClearMarker(p, i, (addr - s.head) / s.cap)
      else Release(p, addr, i + 1)
  }

  /** `Put(x)`: a buffer whose capacity differs from the pool's is ignored;
      otherwise the first shard whose slab holds the buffer's first byte has
      marker `(addr - head) / cap` cleared, and nothing else changes. A
      buffer outside every slab is ignored. */
  function Put(p: Pool, x: Slice): (r: Pool)
    requires Valid(p)
    ensures Valid(r)
    ensures x.cap != p.cap ==> r == p
    ensures (forall i :: 0 <= i < |p.shards| ==> !Contains(p.shards[i], x.data)) ==> r == p
    ensures forall i: nat :: x.cap == p.cap && IsOwner(p, x.data, i) ==>
      && SlotIndex(p.shards[i], x.data) < |p.shards[i].used|
      && r == ClearMarker(p, i, SlotIndex(p.shards[i], x.data))
  {
    if x.cap != ToInt(p.cap) then p
    else Release(p, x.data, 0)
  }
}
