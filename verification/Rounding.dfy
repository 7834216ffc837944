/** Rounding to an integer, as a parameter. */
module Rounding {

  /** Any rounding to a nearest integer, whatever it does with ties. */
  ghost predicate Nearest(rnd: real -> int) {
    forall x: real :: x - 0.5 <= rnd(x) as real <= x + 0.5
  }

  lemma NearestMonotone(rnd: real -> int, x: real, y: real)
    requires Nearest(rnd) && x <= y
    ensures rnd(x) <= rnd(y)
  {
    if x < y { assert rnd(x) as real <= x + 0.5 && rnd(y) as real >= y - 0.5; }
  }

  /** Integers are left alone. */
  lemma NearestOfInteger(rnd: real -> int, n: int)
    requires Nearest(rnd)
    ensures rnd(n as real) == n
  {
    assert n as real - 0.5 <= rnd(n as real) as real <= n as real + 0.5;
  }
}
