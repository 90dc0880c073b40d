/** The C integer types the encoder computes with, and the Option wrapper that
    stands for a pointer that may be NULL. */
module CTypes {

  /** `uint8_t`. */
  type u8 = x: int | 0 <= x < 256

  /** Conversion of an `int` to `uint8_t`. C reduces the value modulo 2^8
      (section 6.3.1.3 of the C11 standard), so values that fit are kept and
      every other value wraps around. */
  function ToU8(x: int): (r: u8)
    ensures 0 <= x < 256 ==> r == x
    ensures x < 0 && -256 <= x ==> r == x + 256
  {
    x % 256
  }

  function Min(a: int, b: int): (m: int)
    ensures m <= a && m <= b
    ensures m == a || m == b
  {
    if a <= b then a else b
  }

  /** A value that may be absent: a C pointer that may be NULL. */
  datatype Option<+T> = None | Some(value: T)
}
