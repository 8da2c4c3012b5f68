/**
 The C integer types and error numbers the firmware relies on.

 The model assumes a 32-bit target: `int` is a signed 32-bit integer and
 `size_t` an unsigned 32-bit integer. Error codes are negated errno
 values, as in Zephyr.
 */
module CTypes {

  const INT_MIN: int := -0x8000_0000
  const INT_MAX: int := 0x7FFF_FFFF
  const SIZE_MODULUS: int := 0x1_0000_0000

  /** A C `int`. */
  type Int32 = x: int | INT_MIN <= x <= INT_MAX

  /** A C `size_t`, assumed 32 bits wide. */
  type SizeT = x: int | 0 <= x < SIZE_MODULUS

  /** The error number the modules use (positive; callers return it negated). */
  const EINVAL: int := 22

  /**
   The implicit conversion of an `int` into a `size_t`: the value is taken
   modulo 2^32, so a negative value becomes a value at or above 2^31.
   */
  function ToSizeT(x: Int32): (s: SizeT)
    ensures 0 <= x ==> s == x
    ensures x < 0 ==> s == SIZE_MODULUS + x && s > INT_MAX
  {
    x % SIZE_MODULUS
  }
}
