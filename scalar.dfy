/** The scalar helpers of otb/utils.hpp (`saturate`, `clamp`) and the 32-bit
    unsigned arithmetic that the rest of the code performs on `uint32_t`. */
module Scalar {

  /** 2^32: one past the largest `uint32_t`. */
  const U32: int := 0x1_0000_0000

  /** `std::numeric_limits<uint32_t>::max()`. */
  const U32Max: int := U32 - 1

  type U32Value = x: int | 0 <= x < U32

  /** The value a C++ `uint32_t` holds after an assignment of the exact
      integer `x` (reduction modulo 2^32). */
  function Wrap32(x: int): (r: U32Value)
    ensures 0 <= x < U32 ==> r == x
    ensures -U32 <= x < 0 ==> r == x + U32
  {
    x % U32
  }

  function Min(a: real, b: real): real { if a <= b then a else b }
  function Max(a: real, b: real): real { if a >= b then a else b }

  function MinInt(a: int, b: int): int { if a <= b then a else b }
  function MaxInt(a: int, b: int): int { if a >= b then a else b }

  /** `saturate(v) = min(1, max(0, v))`: v limited to the unit interval. */
  function Saturate(v: real): (r: real)
    ensures 0.0 <= r <= 1.0
    ensures 0.0 <= v <= 1.0 ==> r == v
    ensures v < 0.0 ==> r == 0.0
    ensures 1.0 < v ==> r == 1.0
  {
    Min(1.0, Max(0.0, v))
  }

  /** `clamp(v, lo, hi) = min(hi, max(lo, v))`, as instantiated on `uint32_t`. */
  function Clamp(v: int, lo: int, hi: int): (r: int)
    ensures lo <= hi ==> lo <= r <= hi
    ensures lo <= v <= hi ==> r == v
    ensures lo <= hi && v < lo ==> r == lo
    ensures hi < v ==> r == hi
    ensures hi < lo ==> r == hi
  {
    MinInt(hi, MaxInt(lo, v))
  }

  /** Saturating twice is saturating once. */
  lemma SaturateIdempotent(v: real)
    ensures Saturate(Saturate(v)) == Saturate(v)
  {
  }
}
