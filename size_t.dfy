/** The C type `size_t` on a 64-bit target: unsigned arithmetic modulo 2^64.
    Every position, count and capacity of the containers is a `SizeT`, and the
    backward end of a walk relies on `0 - 1` wrapping to SIZE_MAX. */
module SizeT {

  /** 2^64, the number of distinct `size_t` values. */
  const LIMIT: int := 0x1_0000_0000_0000_0000

  /** SIZE_MAX: what `(size_t)-1` and the `return -1;` of a `size_t` function yield. */
  const MAX: int := LIMIT - 1

  type SizeT = x: int | 0 <= x < LIMIT

  /** Conversion of a mathematical integer to `size_t` (reduction modulo 2^64). */
  function Wrap(x: int): (r: SizeT)
    ensures 0 <= x < LIMIT ==> r == x
    ensures -LIMIT <= x < 0 ==> r == x + LIMIT
    ensures LIMIT <= x < 2 * LIMIT ==> r == x - LIMIT
  {
    x % LIMIT
  }

  function Min(a: int, b: int): (r: int)
    ensures r <= a && r <= b && (r == a || r == b)
  {
    if a <= b then a else b
  }
}
