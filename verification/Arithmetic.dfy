/** Products and order. */
module Arithmetic {

  lemma MulMonotone(a: nat, x: int, y: int)
    requires x <= y
    ensures a * x <= a * y
    ensures a > 0 && x < y ==> a * x < a * y
  {
    var d := y - x;
    assert a * y == a * x + a * d;
    if a > 0 && d > 0 {
      assert a * d > 0;
    } else {
      assert a * d == 0;
    }
  }

  lemma MulCancel(a: nat, x: int, y: int)
    requires a > 0 && a * x <= a * y
    ensures x <= y
  {
    if y < x { MulMonotone(a, y, x); }
  }
}
