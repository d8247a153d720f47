/** Products of reals and the order, and rounding toward zero. */
module RealArith {

  // Conversion of a non-integral number to int drops the fraction, so it rounds toward zero.
  function Truncate(x: real): int {
    if x >= 0.0 then x.Floor else -((-x).Floor)
  }

  lemma LessTimes(x: real, y: real, z: real)
    requires z > 0.0 && x < y
    ensures x * z < y * z
  {
  }

  lemma LeTimes(x: real, y: real, z: real)
    requires z >= 0.0 && x <= y
    ensures x * z <= y * z
  {
  }

  lemma Distribute(x: real, y: real, z: real)
    ensures (x + y) * z == x * z + y * z
    ensures (x - y) * z == x * z - y * z
  {
  }

  lemma Spread(z: real, x: real, y: real)
    ensures z * (x + y) == z * x + z * y
  {
  }

  lemma SpreadThree(z: real, v: real, x: real, y: real)
    ensures z * (v + x + y) == z * v + z * x + z * y
  {
    Spread(z, v + x, y);
    Spread(z, v, x);
  }

  lemma DivideBack(x: real, y: real)
    requires y != 0.0
    ensures x == (x / y) * y
  {
  }

  lemma SquareLess(x: real, y: real)
    requires 0.0 <= x < y
    ensures x * x < y * y
  {
    assert y * y - x * x == (y - x) * (y + x);
    LessTimes(0.0, y - x, y + x);
  }

  lemma OneRoot(x: real, y: real)
    requires x >= 0.0 && y >= 0.0 && x * x == y * y
    ensures x == y
  {
    if x < y { SquareLess(x, y); }
    if y < x { SquareLess(y, x); }
  }
}
