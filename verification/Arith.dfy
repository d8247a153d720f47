/** Small facts about products and Euclidean division. */
module Arith {

  lemma MulLe(a: int, x: int, y: int)
    requires 0 <= a && x <= y
    ensures a * x <= a * y
  {
  }

  /** Quotient and remainder are unique. */
  lemma Quotient(x: int, d: int, q: int, r: int)
    requires 0 <= r < d && x == d * q + r
    ensures x / d == q && x % d == r
  {
    var k := q - x / d;
    assert d * (x / d) + x % d == x;
    assert d * k == d * q - d * (x / d);
    if k >= 1 {
      MulLe(d, 1, k);
    } else if k <= -1 {
      MulLe(d, k, -1);
    }
  }

  lemma DivMod(x: nat, d: nat)
    requires d > 0
    ensures x == x % d + (x / d) * d
    ensures 0 <= x % d < d && 0 <= x / d
  {
    if x / d < 0 {
      MulLe(d, x / d, -1);
    }
  }
}
