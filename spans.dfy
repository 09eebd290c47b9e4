/** The positions a cursor walk visits, as plain integers. A walk starts at
    position p and takes n steps upward (next) or downward (prev); inside a
    valid span no step wraps, so its k-th position is Pos(p, k, up). */
module Spans {
  /** The k-th position of a walk from p. */
  function Pos(p: int, k: int, up: bool): int
  {
    if up then p + k else p - k
  }

  /** The n positions of the walk from p all index a sequence of length len. */
  predicate SpanIn(p: int, n: nat, up: bool, len: nat)
  {
    n == 0 || (if up then 0 <= p && p + n <= len else 0 <= p < len && n <= p + 1)
  }

  /** x is one of the n positions of the walk from p. */
  predicate InSpan(x: int, p: int, n: nat, up: bool)
  {
    if up then p <= x < p + n else p - n < x <= p
  }

  /** x comes strictly before y in the walk's order. */
  predicate ScanBefore(x: int, y: int, up: bool)
  {
    if up then x < y else y < x
  }
}
