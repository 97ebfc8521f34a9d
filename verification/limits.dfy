/** Machine limits and the iteration cap that the engine's arithmetic depends on. */
module Limits {

  /** Largest value of a C++ `int`. */
  const INT_MAX: int := 0x7fff_ffff

  /** Every integer up to 2^24 survives a round trip through a 32-bit `float`. */
  const FLOAT_EXACT: int := 0x100_0000

  /** `size_t` arithmetic wraps modulo 2^64. */
  const SIZE_T_MOD: int := 0x1_0000_0000_0000_0000

  /** The iteration cap MAX_ITER is a positive compile-time constant, small enough that
      `4 * MAX_ITER` (the largest band boundary computed in `int`) does not overflow. */
  predicate ValidMaxIter(maxIter: int)
  {
    0 < maxIter && 4 * maxIter <= INT_MAX
  }
}
