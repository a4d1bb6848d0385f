/**
 The overflow-checked size arithmetic and the raw slice allocation the pool
 builds its slabs and marker arrays with. The runtime allocator itself is
 outside the model: the address it returns is a parameter.
 */
module Alloc {
  import opened Machine
  import opened Outcomes
  import opened GoSlices

  /** Product of two uintptr values together with an overflow flag. The
      fast path skips the division when both operands fit in 32 bits (their
      bitwise or is below 2^32) or when `a` is zero. */
  function MulUintptr(a: U64, b: U64): (U64, bool)
  {
    if BitOr(a, b) < Pow2(4 * PtrSize) || a == 0 then (Wrap(a * b), false)
    else (Wrap(a * b), b > MaxUintptr / a)
  }

  /** For a positive divisor, `b > m / a` is exactly "a * b exceeds m". */
  lemma DivDetectsOverflow(a: nat, b: nat, m: nat)
    requires 0 < a
    ensures b > m / a <==> a * b > m
  {
    var q, r := m / a, m % a;
    assert m == a * q + r;
    if b > q {
      MulMonotone(q + 1, b, a);
      assert a * b >= a * q + a;
    } else {
      MulMonotone(b, q, a);
    }
  }

  /** The low 64 bits of the product, and an overflow flag that is set exactly
      when the mathematical product does not fit in a uintptr, on the fast
      path as well as on the checked one. */
  lemma MulUintptrCorrect(a: U64, b: U64)
    ensures MulUintptr(a, b).0 == (a * b) % Word
    ensures MulUintptr(a, b).1 <==> a * b > MaxUintptr
  {
    Pow2Of32();
    BitOrBelow(a, b, 32);
    if BitOr(a, b) < Pow2(4 * PtrSize) {
      MulMonotone(a, 0xFFFF_FFFF, b);
      MulMonotone(b, 0xFFFF_FFFF, 0xFFFF_FFFF);
    } else if a != 0 {
      DivDetectsOverflow(a, b, MaxUintptr);
    }
  }

  /** `MallocSlice[T](len, cap)` for an element type of `elemSize` bytes:
      panics on a size overflow, a negative length or a length beyond the
      capacity; otherwise a slice header over the memory at `addr`, which the
      allocator supplies. */
  function MallocSlice(elemSize: U64, len: GoInt, cap: GoInt, addr: U64): Result<Slice>
  {
    var (mem, overflow) := MulUintptr(elemSize, Wrap(cap));
    if overflow || len < 0 || len > cap then Fail(BadSliceLen)
    else Ok(Slice(addr, len, cap))
  }

  /** MallocSlice succeeds exactly when `0 <= len <= cap` and the byte size
      `elemSize * cap` fits in a uintptr; the slice then has exactly the
      requested length and capacity, and the byte count handed to the
      allocator is the exact size. */
  lemma MallocSliceCorrect(elemSize: U64, len: GoInt, cap: GoInt, addr: U64)
    ensures MallocSlice(elemSize, len, cap, addr).Ok?
        <==> 0 <= len <= cap && elemSize * cap <= MaxUintptr
    ensures MallocSlice(elemSize, len, cap, addr).Fail? ==>
        MallocSlice(elemSize, len, cap, addr).panic == BadSliceLen
    ensures MallocSlice(elemSize, len, cap, addr).Ok? ==>
        && MallocSlice(elemSize, len, cap, addr).value == Slice(addr, len, cap)
        && MulUintptr(elemSize, Wrap(cap)).0 == elemSize * cap
  {
    MulUintptrCorrect(elemSize, Wrap(cap));
  }
}
