/**
  The 32-bit `int` of the programs. Signed overflow is undefined behaviour in
  C++, so operations that could overflow carry `IsInt32` preconditions; the
  one place a wider unsigned value is converted to `int` (`static_cast<int>`
  of a `size_t`) wraps modulo 2^32, as section [conv.integral] of ISO/IEC
  14882:2020 specifies.
 */
module MachineInt {

  const INT_MIN: int := -0x8000_0000
  const INT_MAX: int := 0x7fff_ffff
  const TWO_TO_32: int := 0x1_0000_0000

  predicate IsInt32(x: int)
  {
    INT_MIN <= x <= INT_MAX
  }

  /** `static_cast<int>(x)` for an unsigned `x`: the `int` congruent to `x`
      modulo 2^32. */
  function ToInt32(x: nat): (r: int)
    ensures IsInt32(r)
    ensures (x - r) % TWO_TO_32 == 0
    ensures x <= INT_MAX ==> r == x
  {
    var m := x % TWO_TO_32;
    if m <= INT_MAX then m else m - TWO_TO_32
  }
}
