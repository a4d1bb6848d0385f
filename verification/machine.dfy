/**
 Machine integers of the 64-bit Go target the pool is written for.
 `uint`, `uint64` and `uintptr` are 64-bit unsigned integers that wrap
 around; `int` is a 64-bit two's-complement integer. Dafny's integers are
 unbounded, so every wrap and every reinterpretation is written out here.
 */
module Machine {

  /** Size of a pointer in bytes: the model fixes the 64-bit target. */
  const PtrSize: nat := 8

  /** 2^64, the modulus of every unsigned 64-bit operation. */
  const Word: nat := 0x1_0000_0000_0000_0000

  const MaxUintptr: nat := 0xFFFF_FFFF_FFFF_FFFF
  const MaxInt: nat := 0x7FFF_FFFF_FFFF_FFFF

  type U64 = x: int | 0 <= x < 0x1_0000_0000_0000_0000
  type U32 = x: int | 0 <= x < 0x1_0000_0000
  type GoInt = x: int | -0x8000_0000_0000_0000 <= x < 0x8000_0000_0000_0000

  /** The value an unsigned 64-bit register holds after computing `x`;
      also Go's `uintptr(i)` conversion of a signed `i` (two's complement). */
  function Wrap(x: int): (r: U64)
    ensures 0 <= x < Word ==> r == x
  {
    x % Word
  }

  /** Go's `int(u)` conversion of a `uint`: values above MaxInt turn negative. */
  function ToInt(u: U64): (r: GoInt)
    ensures 0 <= r <==> u <= MaxInt
    ensures 0 <= r ==> r == u
    ensures Wrap(r) == u
  {
    if u <= MaxInt then u else u - Word
  }

  function Pow2(k: nat): (r: nat)
    ensures 0 < r
  {
    if k == 0 then 1 else 2 * Pow2(k - 1)
  }

  /** Bitwise or of two naturals, one bit at a time from the least significant. */
  function BitOr(a: nat, b: nat): nat
    decreases a + b
  {
    if a == 0 then b
    else if b == 0 then a
    else 2 * BitOr(a / 2, b / 2) + (if a % 2 == 1 || b % 2 == 1 then 1 else 0)
  }

  /** Or-ing never clears a bit, so the result dominates both operands. */
  lemma {:induction false} BitOrUpper(a: nat, b: nat)
    ensures a <= BitOr(a, b) && b <= BitOr(a, b)
    decreases a + b
  {
    if a != 0 && b != 0 {
      BitOrUpper(a / 2, b / 2);
    }
  }

  /** `a | b` fits in k bits exactly when both operands do. */
  lemma {:induction false} BitOrBelow(a: nat, b: nat, k: nat)
    ensures BitOr(a, b) < Pow2(k) <==> a < Pow2(k) && b < Pow2(k)
    decreases k
  {
    BitOrUpper(a, b);
    if a != 0 && b != 0 && a < Pow2(k) && b < Pow2(k) {
      assert k != 0;
      BitOrBelow(a / 2, b / 2, k - 1);
    }
  }

  lemma {:induction false} Pow2Add(a: nat, b: nat)
    ensures Pow2(a + b) == Pow2(a) * Pow2(b)
    decreases a
  {
    if a != 0 {
      Pow2Add(a - 1, b);
    }
  }

  /** The fast-path bound `1<<(4*PtrSize)` of MulUintptr is 2^32. */
  lemma Pow2Of32()
    ensures Pow2(4 * PtrSize) == 0x1_0000_0000
  {
    assert Pow2(2) == 4;
    Pow2Add(2, 2);
    Pow2Add(4, 4);
    Pow2Add(8, 8);
    Pow2Add(16, 16);
  }

  lemma MulMonotone(a: nat, b: nat, c: nat)
    requires a <= b
    ensures a * c <= b * c
  {
  }

  /** Dividing a multiple of `c` by `c` gives the multiplier back. */
  lemma MulDivCancel(j: nat, c: nat)
    requires 0 < c
    ensures (j * c) / c == j
  {
    var q, r := (j * c) / c, (j * c) % c;
    assert (j - q) * c == r;
    if j > q {
      MulMonotone(1, j - q, c);
    }
  }

  lemma MulPositive(a: nat, b: nat)
    requires 0 < a * b
    ensures 0 < a && 0 < b
  {
  }
}
