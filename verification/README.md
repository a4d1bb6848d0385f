# bytepool in Dafny

A model of `bytepool`, a Go pool of fixed-capacity byte buffers. The pool is
split into shards. Each shard owns one slab of memory carved into `max/shards`
equal slots of `cap` bytes. Each slot has a marker that is set while its
buffer is handed out, and each shard has a rotation cursor.

- `Get` picks a shard from a random draw and advances its cursor. It then
  claims the first free slot in rotation order from the new cursor position.
  If every slot of that shard is claimed, it returns a freshly allocated
  buffer instead.
- `Put` ignores a buffer whose capacity differs from the pool's. Otherwise it
  finds the shard whose slab holds the buffer's first byte, recomputes the
  slot index from the address, and clears that slot's marker.

The model runs on the 64-bit target (`PtrSize = 8`). Every `uint`/`uintptr`
product and sum that can wrap is written with an explicit `mod 2^64`. Every
`int(...)` conversion is a two's-complement reinterpretation. Panics are
values: `Result.Fail(DivideByZero | BadSliceLen | SliceBounds |
IndexOutOfRange)`.

Modules:

- `Machine` (machine.dfy): word size, wrapping, `int` reinterpretation, and
  the bitwise or on naturals.
- `Outcomes` and `GoSlices` (outcomes.dfy): `Option`, `Result`, the panic
  reasons, slice headers, and the full slice expression `s[lo:hi:max]`.
- `Alloc` (alloc.dfy): `MulUintptr` and `MallocSlice`.
- `Rotation` (rotation.dfy): the rotating scan of a shard's markers.
- `BytePool` (bytepool.dfy): the shard and pool records, `NewBytePool`,
  `Get`, `Put`, and the well-formedness invariant `Valid`.
- `PoolProperties` (properties.dfy): properties that relate construction,
  `Get` and `Put`.
- `PoolScenarios` (scenarios.dfy): sequences of claims and releases on a
  one-shard pool, including the repository's test configuration; and
  `ClaimRuns` (same file): runs of any number of `Get`s on any valid pool,
  described by the slot each one claimed.

Some inputs stand in for things outside the code:

- The random draw of `Get` is a parameter `rnd`.
- The address the runtime allocator returns for each slab is a parameter
  `heads`.
- The address of `Get`'s fallback buffer is a parameter `spareAddr`.

That slabs do not overlap and each slab ends strictly below 2^64 (its last
byte below 2^64 - 1) is a hypothesis (`SlabsPlaced`) of the lemma proving
that a constructed pool is `Valid`. It is not a precondition of
construction. The one placement inside the address space it excludes, a
slab whose last byte is at 2^64 - 1, is described under "## Left out".

## Model

| member | source | states |
|---|---|---|
| Machine.ToInt | bytepool.go:51 | `int(u)` of a uint is non-negative exactly when `u <= MaxInt`, then equal to `u`, and converting back to uint gives `u` again |
| Machine.BitOrBelow | bytepool.go:100 | `a \| b` is below `2^k` exactly when both `a` and `b` are, so the fast-path test `a\|b < 1<<32` means "both operands fit in 32 bits" |
| Alloc.MulUintptrCorrect | bytepool.go:99-106 | the first result is the product modulo 2^64; the overflow flag is set exactly when the true product exceeds MaxUintptr, on the unchecked fast path as well as on the division-checked path |
| Alloc.MallocSliceCorrect | bytepool.go:84-97 | MallocSlice succeeds exactly when `0 <= len <= cap` and `elemSize*cap` fits in a uintptr; every failure is the "invalid slice length or capacity" panic; on success the slice has the requested length and capacity and the byte count requested from the allocator is exact |
| GoSlices.Slice3 | bytepool.go:57 | a view cut by `s[lo:hi:max]` is a well-formed slice (length at most capacity) that never reaches past the end of the backing array, and when the array does not wrap the address space the view lies inside it; a bounds panic is the only failure |
| BytePool.Carve | bytepool.go:56-58 | the slot-carving loop succeeds exactly when all `shardSize` slots fit in the slab, including when the uint bounds `j*cap` wrap; a failure is a slice-bounds panic; on success slot `k` starts `k*cap` bytes into the slab with length 0 and capacity `cap` |
| BytePool.NewShard | bytepool.go:51-65 | one shard is built exactly when the slab size is positive, all slots fit in it, and the marker array's byte size does not overflow; the shard has `shardSize` slots laid out from `head`, all markers clear and the cursor at 0 |
| BytePool.BuildShards | bytepool.go:52-66 | the shard loop either fails or yields one fresh shard per slab address, in order |
| PoolProperties.NewBytePoolCorrect | bytepool.go:43-68 | construction succeeds exactly when `shards > 0`, `0 < (max/shards)*cap <= MaxInt`, and `64*(max/shards)` fits in a uintptr; zero shards is a divide-by-zero panic; on success the pool keeps `cap` and `max`, has `shards` shards, and each shard has `max/shards` slots with the remainder dropped |
| PoolProperties.NewBytePoolValid | bytepool.go:43-68 | a constructed pool whose slabs the allocator placed apart is well formed: every slot lies in its slab at `head + j*cap`, and slab ends do not wrap |
| PoolProperties.FreshShardValid | bytepool.go:51-65 | a freshly carved shard whose slab ends strictly below 2^64 is well formed |
| PoolProperties.SlotsInsideSlabAndDisjoint | bytepool.go:56-58 | each slot lies inside its shard's slab, and two distinct slots of one shard do not overlap |
| PoolProperties.SlotsDisjoint | bytepool.go:52-58 | any two distinct slots of a valid pool, in the same shard or in different shards, occupy disjoint bytes |
| BytePool.Pick | bytepool.go:118 | the shard index `rnd % uint32(len(shards))` is a valid shard, given the shard count is not a multiple of 2^32 |
| BytePool.ScanStart | bytepool.go:119 | the scan starts at a valid slot: the one after the old cursor, or slot 0 when the 64-bit cursor wraps from MaxUintptr to 0 |
| Rotation.ScanVisitsEachSlotOnce | bytepool.go:119-121 | a scan of `n` steps from any start visits each slot of `[0, n)` exactly once: each step lands on a slot, each slot is reached, and no two steps reach the same slot |
| Rotation.RotOffset | bytepool.go:121 | the step at which the scan reaches slot `j` is below `n` and leads back to `j` |
| Rotation.OffsetRot | bytepool.go:121 | the slot reached at step `o < n` has step `o` as its offset |
| Rotation.FirstFreeCorrect | bytepool.go:120-125 | the scan finds nothing exactly when every slot is claimed; what it finds is free and every slot visited before it is claimed; any slot with that property is the one it finds |
| Rotation.FirstFreeUnique | bytepool.go:120-125 | at most one slot is free with all slots before it in the scan claimed, and the scan finds it |
| Rotation.ClaimScan | bytepool.go:120-126 | the claim loop step by step: it claims the first free slot in rotation order and sets only that marker, or, when every slot is claimed, reports none and changes nothing |
| BytePool.Get | bytepool.go:117-128 | Get keeps the pool well formed and returns a buffer of length 0 and capacity `cap`; only the chosen shard changes; its cursor advances by one modulo 2^64; a saturated shard keeps its markers and yields the fallback buffer; otherwise the first free slot from the new cursor is marked and its view returned |
| BytePool.SlotIndexInRange | bytepool.go:138-140 | an address inside a shard's slab maps to a marker index of that shard, so the store cannot go out of bounds |
| BytePool.ClearMarkerValid | bytepool.go:140 | clearing one marker keeps the pool well formed |
| BytePool.InRangeExact | bytepool.go:138 | for a slab that ends below 2^64, Put's range test with its wrapping end `head + cap*n` accepts exactly the addresses inside the slab |
| BytePool.InRangeAtTopOfMemory | bytepool.go:138 | for a slab whose last byte is the last byte of the address space, the range end wraps to 0 and Put's range test rejects every address |
| BytePool.Release | bytepool.go:135-143 | the shard loop of Put keeps the pool well formed; when no remaining shard holds the address, nothing changes; otherwise exactly the marker `(addr-head)/cap` of the first shard holding it is cleared, although the range end is computed in wrapping arithmetic |
| BytePool.Put | bytepool.go:131-144 | Put keeps the pool well formed; a buffer of another capacity, or one outside every slab, leaves the pool unchanged; otherwise only the marker `(addr-head)/cap` of the first shard whose slab holds the address is cleared |
| PoolProperties.SlotAddressMapsBack | bytepool.go:138-139 | from the address of slot `j` of shard `k`, Put's search finds shard `k` as the first owner and recomputes `j` |
| PoolProperties.SlotClaim | bytepool.go:117-124 | a Get served from a slot sets the marker of one previously free slot, advances the chosen cursor and returns that slot's view, and changes nothing else |
| PoolProperties.PutOfSlot | bytepool.go:131-143 | Put of the view of any slot clears exactly that slot's marker and changes nothing else |
| PoolProperties.SlabSizeConversion | bytepool.go:51-53 | `int(shardSize*cap)`, computed as a wrapping uint product, is positive and at least the true product exactly when the true product lies in `(0, MaxInt]`, so MallocSlice and the carve loop accept exactly those sizes |
| PoolProperties.GetPutRoundTrip | bytepool.go:117-144 | Put of a buffer that Get claimed from a slot restores every marker, so the pool equals the one before the Get except that the chosen cursor has advanced by one |
| PoolProperties.FallbackIgnoredByPut | bytepool.go:126-143 | on a saturated shard, Get returns a length-0, capacity-`cap` buffer at the allocator's address and changes no marker; Put of that buffer changes nothing when the address lies outside every slab |
| PoolProperties.SuccessiveClaimsDisjoint | bytepool.go:120-124 | two claims in a row that are both served from slots return buffers over disjoint bytes |
| PoolScenarios.OccupiedBounds | bytepool.go:120-126 | the number of claimed slots is at most the slot count; it equals the slot count exactly when Get would fall back; it is zero exactly when all slots are free |
| PoolScenarios.OccupiedClaim | bytepool.go:122 | a successful test-and-set raises the number of claimed slots by one |
| PoolScenarios.FillSingleShard | pool_test.go:23-26 | on one shard, while free slots remain for every draw, each Get is served from a slot; occupancy grows by one per Get; the newly marked slots are exactly those returned |
| PoolScenarios.ClaimOnSingleShard | bytepool.go:117-124 | on one shard with a free slot, Get marks one previously free slot and returns that slot's view, leaving the layout unchanged |
| PoolScenarios.SlotViewsDistinct | bytepool.go:56-58 | two slot views of one shard are equal only when they are the same slot |
| PoolScenarios.ReleaseSingleShard | pool_test.go:28-30 | on one shard, putting back slot views clears exactly the markers of the slots put back and changes nothing else |
| PoolScenarios.ClaimReleaseClaimAgain | bytepool.go:117-143 | on an empty one-shard pool, a round of as many Gets as slots ends with every slot claimed, so no Get of the round fell back; putting all of them back empties the shard; a second such round again ends with every slot claimed |
| ClaimRuns.GetClaim | bytepool.go:117-126 | a Get leaves every slot view and the capacity alone and clears no marker; its buffer is either the view of a slot that was free and is now marked, or the fallback buffer at the allocator's address with length 0 and the pool's capacity |
| ClaimRuns.ClaimsCompose | bytepool.go:117-126 | two consecutive runs of Gets, each described slot by slot, form one run so described: no slot is claimed in both, since the second run only claims slots the first left free |
| ClaimRuns.GetAllClaims | bytepool.go:117-126 | any number of Gets without a Put in between: each result is the view of a slot that was free before the run and is marked after it, or the fallback buffer; no slot is handed out twice |
| ClaimRuns.ClaimsDisjoint | bytepool.go:117-126 | any number of Gets without a Put in between: every two results served from slots occupy disjoint bytes |
| PoolScenarios.SaturateSingleShard | bytepool.go:117-128 | on an empty one-shard pool, as many Gets as slots are all served from the slab; the next Get falls back without touching a marker; Put of the fallback buffer changes nothing |
| PoolScenarios.SaturationScenario | pool_test.go:9-11 | on the test's pool configuration, `NewBytePool(1024, 10, 1)` succeeds and is well formed; ten Gets return length-0, capacity-1024 slot views; an eleventh Get, which the test does not make, falls back to a length-0, capacity-1024 buffer, and Put of that buffer changes nothing |

## Left out

- Concurrency. `atomic.Uint64.Add`, `CompareAndSwapUint32` and `StoreUint32` are read as plain sequential read-modify-write steps. Interleavings of concurrent Get and Put calls are not modelled, and neither is the 1000-goroutine test (pool_test.go:33-51).
- Randomness. `math.Uint32()` is the parameter `rnd` of Get.
- Runtime allocation. `mallocgc` and `make` are represented by the addresses they return (`heads`, `spareAddr`). Out-of-memory failures and the runtime's own size limits are not modelled.
- The marker array's address plays no role, so it is passed as 0. Markers are assumed to start clear. The source allocates them with `needzero = false`, and the model assumes that memory reads as zero.
- The 60 padding bytes of a marker appear only as its 64-byte element size (`UsedElemSize`). False sharing and cache behaviour are not modelled.
- Buffer contents are not modelled, only slice headers (address, length, capacity). So the `append` in the concurrency test is not modelled either.
- `Pointer` and `Iface` only pass the element type to `mallocgc` inside `MallocSlice` (bytepool.go:96), and the model replaces that call by an address parameter. `Inspect`, `MakeNoZero`, `StrSize` and `SliceSize` are not used by the pool.
- Garbage collection and Go's rule that reslicing to capacity 0 keeps the base pointer are not modelled. Every slot here has capacity `cap > 0`.
- BytePool.Get: requires the shard count not to be a multiple of 2^32. At such a count `uint32(len(b.shards))` truncates to 0 and the `%` in `math.Uint32() % uint32(len(b.shards))` (bytepool.go:118) panics with an integer divide by zero, and a pool like that needs 2^32 slabs.
- BytePool.Get: requires a well-formed pool (`Valid`). Every pool NewBytePool returns is well formed once its slabs are placed apart (NewBytePoolValid).
- BytePool.Put: requires a well-formed pool (`Valid`) for the same reason. Valid also guarantees `cap > 0`, so `x[:1]` cannot panic.
- A slab whose last byte is the last byte of the address space (`head + cap*n == 2^64`) is excluded by `Valid` and `SlabsPlaced`. For such a slab Put's range end `head + cap*n` wraps to 0, so Put ignores every buffer of that shard and its markers are never cleared (InRangeAtTopOfMemory). SlotAddressMapsBack, PutOfSlot and GetPutRoundTrip hold only because this placement is excluded. User-space allocations on the 64-bit platforms Go supports do not reach the top of the address space.
- PoolScenarios.SaturationScenario: the test's Get/Put sequence (pool_test.go:13-30) is covered piecewise. GetPutRoundTrip covers the single Get followed by Put. FillSingleShard and ReleaseSingleShard cover the ten Gets and ten Puts. The capacity and length checks of the test's first Get follow from Get's contract.
