/** The C scalar types that `file_io_read` computes with, on an LP64 target. */
module CTypes {

  /** `size_t` is 64 bits wide: its arithmetic is taken modulo 2^64. */
  const SizeModulus: int := 0x1_0000_0000_0000_0000

  /** `SIZE_MAX`, the largest value a `size_t` holds. */
  const SizeMax: int := SizeModulus - 1

  type SizeT = x: int | 0 <= x < SizeModulus

  /** A `char` of the buffer, taken as an 8-bit byte. */
  type Byte = bv8

  /** The `size_t` value of an unsigned sum or product: the exact value reduced modulo 2^64. */
  function Wrap(x: nat): (r: SizeT)
    ensures x < SizeModulus ==> r == x
    ensures SizeModulus <= x < 2 * SizeModulus ==> r == x - SizeModulus
  {
    x % SizeModulus
  }

  function Min(a: int, b: int): (m: int)
    ensures m <= a && m <= b
    ensures m == a || m == b
  {
    if a <= b then a else b
  }

  function Max(a: int, b: int): (m: int)
    ensures a <= m && b <= m
    ensures m == a || m == b
  {
    if a <= b then b else a
  }
}
