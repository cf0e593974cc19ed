/** Facts about Euclidean division by a positive divisor, used by the slot
    arithmetic. */
module Arith {

  lemma MulMonotone(b: int, x: int, y: int)
    requires b > 0 && x <= y
    ensures b * x <= b * y
  {
    assert b * y - b * x == b * (y - x);
  }

  /** The quotient is the unique `q` with `b * q <= a < b * q + b`. */
  lemma DivUnique(a: int, b: int, q: int)
    requires b > 0 && b * q <= a < b * q + b
    ensures a / b == q
  {
    var k := a / b;
    assert b * k <= a < b * k + b;
    if k < q {
      MulMonotone(b, k + 1, q);
    } else if k > q {
      MulMonotone(b, q + 1, k);
    }
  }

  /** Adding the divisor adds one to the quotient and keeps the remainder. */
  lemma DivModPlusDivisor(a: int, b: int)
    requires b > 0
    ensures (a + b) / b == a / b + 1
    ensures (a + b) % b == a % b
  {
    DivUnique(a + b, b, a / b + 1);
  }

  lemma DivModSmall(a: int, b: int)
    requires 0 <= a < b
    ensures a / b == 0 && a % b == a
  {
    DivUnique(a, b, 0);
  }
}
