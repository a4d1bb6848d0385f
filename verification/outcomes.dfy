/**
 Outcome types shared by the model: an optional value, and the result of a
 Go operation that either returns a value or panics for a named reason.
 */
module Outcomes {

  datatype Option<+T> = None | Some(value: T)

  /** The runtime panics the pool's code can raise. */
  datatype Panic =
    | DivideByZero      // integer division or remainder by zero
    | BadSliceLen       // "invalid slice length or capacity" raised by MallocSlice
    | SliceBounds       // a slice expression with out-of-range bounds
    | IndexOutOfRange   // indexing an empty slice

  datatype Result<+T> = Ok(value: T) | Fail(panic: Panic)
}

/**
 Go slice headers over bytes. Only the header is modelled: the address of
 the first element, the length and the capacity. Buffer contents are not.
 */
module GoSlices {
  import opened Machine
  import opened Outcomes

  datatype Slice = Slice(data: U64, len: nat, cap: nat)

  /** The full slice expression `s[lo:hi:max]` on a byte slice: it panics
      unless `0 <= lo <= hi <= max <= cap(s)`, and otherwise views the same
      backing array from `lo` on. The view's address is computed modulo 2^64
      (`Wrap`).
      A view it hands out is a well-formed slice that never reaches past the
      end of the backing array, and a bounds panic is its only failure. */
  function Slice3(s: Slice, lo: nat, hi: nat, max: nat): (r: Result<Slice>)
    ensures r.Ok? ==> r.value.len <= r.value.cap && lo + r.value.cap <= s.cap
    ensures r.Ok? && s.data + s.cap < Word ==> s.data <= r.value.data && r.value.data + r.value.cap <= s.data + s.cap
    ensures r.Fail? ==> r.panic == SliceBounds
  {
    if lo <= hi <= max <= s.cap then Ok(Slice(Wrap(s.data + lo), hi - lo, max - lo))
    else Fail(SliceBounds)
  }

  /** `s[:0]`, which never panics: same start and capacity, no elements. */
  function Empty(s: Slice): Slice
  {
    s.(len := 0)
  }
}
