/** Cubic Bezier curves: monotone and 3-Lipschitz when the control points lie in the unit interval. */
module BezierCurve {
  import opened RealArith

  datatype Curve = Curve(p1x: real, p1y: real, p2x: real, p2y: real)

  /** The curve runs along the diagonal. */
  predicate Diagonal(c: Curve) { c.p1x == c.p1y && c.p2x == c.p2y }

  /** The inner control points lie between the end points horizontally. */
  ghost predicate Monotone(c: Curve) {
    0.0 <= c.p1x <= 1.0 && 0.0 <= c.p2x <= 1.0
  }

  /** The cubic through 0 and 1 with inner control values p1 and p2, in Horner form. */
  function Cubic(p1: real, p2: real, t: real): real {
    var c := 3.0 * p1;
    var b := 3.0 * (p2 - p1) - c;
    var a := 1.0 - c - b;
    ((a * t + b) * t + c) * t
  }

  function Slope(p1: real, p2: real, t: real): real {
    var c := 3.0 * p1;
    var b := 3.0 * (p2 - p1) - c;
    var a := 1.0 - c - b;
    (3.0 * a * t + 2.0 * b) * t + c
  }

  function Abs(x: real): real { if x < 0.0 then -x else x }

  // ----- The cubic is monotone and 3-Lipschitz -----

  /** The mean slope between s and t, from q = tt + ts + ss and u = t + s. */
  ghost function Secant(p1: real, p2: real, q: real, u: real): real {
    q + 3.0 * (p1 * (q - 2.0 * u + 1.0)) + 3.0 * (p2 * (u - q))
  }

  // A product whose definition is hidden where only linear facts about it are used.
  function Product(x: real, y: real): real { x * y }

  lemma Between(p: real, x: real)
    requires 0.0 <= p && 0.0 <= x <= 3.0
    ensures 0.0 <= Product(p, x) <= 3.0 * p
  {
    hide Product;
    ProductMono(p, 0.0, x);
    ProductMono(p, x, 3.0);
    Constants(p);
  }

  lemma ProductMono(p: real, x: real, y: real)
    requires 0.0 <= p && x <= y
    ensures Product(p, x) <= Product(p, y)
  {
    LeTimes(x, y, p);
    assert p * x == x * p && p * y == y * p;
  }

  lemma ProductSplits(p: real, x: real, y: real)
    ensures Product(p, y - x) == Product(p, y) - Product(p, x)
    ensures Product(1.0 - p, x) == x - Product(p, x)
  {
  }

  /** Affine combinations stay between the bounds. */
  lemma Mix(p: real, x: real, y: real)
    requires 0.0 <= p <= 1.0 && 0.0 <= x <= 3.0 && 0.0 <= y <= 3.0
    ensures 0.0 <= x + Product(p, y - x) <= 3.0
  {
    hide Product;
    Between(p, y);
    Between(1.0 - p, x);
    ProductSplits(p, x, y);
  }

  lemma SquareOfDifference(x: real, y: real)
    ensures Product(x, x) - 2.0 * Product(x, y) + Product(y, y) >= 0.0
  {
    var d := x - y;
    assert d * d == x * x - 2.0 * (x * y) + y * y;
    assert d * d >= 0.0;
  }

  lemma SquareOfSum(x: real, y: real)
    ensures Product(x + y, x + y) == Product(x, x) + 2.0 * Product(x, y) + Product(y, y)
  {
  }

  lemma Constants(x: real)
    ensures Product(x, 0.0) == 0.0 && Product(x, 1.0) == x && Product(x, 2.0) == 2.0 * x && Product(x, 3.0) == 3.0 * x
    ensures Product(1.0, 1.0) == 1.0 && Product(2.0, 2.0) == 4.0
  {
  }

  lemma Below(x: real)
    requires 0.0 <= x <= 1.0
    ensures 0.0 <= Product(x, x) <= x
  {
    hide Product;
    ProductMono(x, 0.0, x);
    ProductMono(x, x, 1.0);
    Constants(x);
  }

  lemma ProductNonNegative(x: real, y: real)
    requires 0.0 <= x && 0.0 <= y
    ensures 0.0 <= Product(x, y)
  {
    hide Product;
    ProductMono(x, 0.0, y);
    Constants(x);
  }

  /** With s and t in the unit interval, the mean slope lies between 0 and 3 at the four
      corners of the control square. */
  lemma Corners(s: real, t: real, q: real, u: real)
    requires 0.0 <= s <= 1.0 && 0.0 <= t <= 1.0 && u == t + s
    requires q == Product(t, t) + Product(t, s) + Product(s, s)
    ensures 0.0 <= q <= 3.0
    ensures 0.0 <= 4.0 * q - 6.0 * u + 3.0 <= 3.0
    ensures 0.0 <= 3.0 * u - 2.0 * q <= 3.0
    ensures 0.0 <= q - 3.0 * u + 3.0 <= 3.0
  {
    hide Product;
    Below(s);
    Below(t);
    ProductNonNegative(t, s);
    SquareOfDifference(t, s);
    SquareOfDifference(u, 1.0);
    SquareOfDifference(u, 2.0);
    Constants(u);
    SquareOfSum(t, s);
    CornersOfProducts(t, s, Product(t, t), Product(t, s), Product(s, s), Product(u, u));
  }

  lemma CornersOfProducts(t: real, s: real, tt: real, ts: real, ss: real, uu: real)
    requires 0.0 <= s <= 1.0 && 0.0 <= t <= 1.0 && tt <= t && ss <= s && 0.0 <= ts
    requires 0.0 <= tt && 0.0 <= ss && tt - 2.0 * ts + ss >= 0.0
    requires uu == tt + 2.0 * ts + ss
    requires uu - 2.0 * (t + s) + 1.0 >= 0.0 && uu - 4.0 * (t + s) + 4.0 >= 0.0
    ensures 0.0 <= tt + ts + ss <= 3.0
    ensures 0.0 <= 4.0 * (tt + ts + ss) - 6.0 * (t + s) + 3.0 <= 3.0
    ensures 0.0 <= 3.0 * (t + s) - 2.0 * (tt + ts + ss) <= 3.0
    ensures 0.0 <= (tt + ts + ss) - 3.0 * (t + s) + 3.0 <= 3.0
  {
  }

  lemma SecantBounds(p1: real, p2: real, s: real, t: real)
    requires 0.0 <= p1 <= 1.0 && 0.0 <= p2 <= 1.0 && 0.0 <= s <= 1.0 && 0.0 <= t <= 1.0
    ensures 0.0 <= Secant(p1, p2, t * t + t * s + s * s, t + s) <= 3.0
  {
    var q, u := t * t + t * s + s * s, t + s;
    Corners(s, t, q, u);
    hide Secant;
    SecantMixes(p1, p2, q, u);
  }

  lemma SecantMixes(p1: real, p2: real, q: real, u: real)
    requires 0.0 <= p1 <= 1.0 && 0.0 <= p2 <= 1.0
    requires 0.0 <= q <= 3.0
    requires 0.0 <= 4.0 * q - 6.0 * u + 3.0 <= 3.0
    requires 0.0 <= 3.0 * u - 2.0 * q <= 3.0
    requires 0.0 <= q - 3.0 * u + 3.0 <= 3.0
    ensures 0.0 <= Secant(p1, p2, q, u) <= 3.0
  {
    var v := q - 2.0 * u + 1.0;
    var w := 3.0 * v;
    MixBy(p1, q, w);
    MixBy(p1, 3.0 * u - 2.0 * q, w);
    var pw := p1 * w;
    MixBy(p2, q + pw, 3.0 * (u - q));
    Scale3(p1, v);
    Scale3(p2, u - q);
  }

  lemma MixBy(p: real, x: real, w: real)
    requires 0.0 <= p <= 1.0 && 0.0 <= x <= 3.0 && 0.0 <= x + w <= 3.0
    ensures 0.0 <= x + p * w <= 3.0
  {
    Mix(p, x, x + w);
    assert x + w - x == w;
  }

  lemma Scale3(p: real, x: real)
    ensures p * (3.0 * x) == 3.0 * (p * x)
  {
  }

  /** The cubic in the Bernstein form of its control values. */
  lemma Expanded(p1: real, p2: real, t: real)
    ensures Cubic(p1, p2, t)
         == t * t * t + 3.0 * (p1 * (t * t * t - 2.0 * (t * t) + t)) + 3.0 * (p2 * (t * t - t * t * t))
  {
  }

  lemma PowerDifferences(s: real, t: real)
    ensures (t - s) * (t + s) == t * t - s * s
    ensures (t - s) * (t * t + t * s + s * s) == t * t * t - s * s * s
  {
    assert (t - s) * (t + s) == t * t + t * s - s * t - s * s;
    assert t * (t * t + t * s + s * s) == t * t * t + t * t * s + t * s * s;
    assert s * (t * t + t * s + s * s) == t * t * s + t * s * s + s * s * s;
  }

  lemma SpreadSecant(p1: real, p2: real, q: real, u: real, d: real)
    ensures d * Secant(p1, p2, q, u)
         == d * q + 3.0 * (p1 * (d * q - 2.0 * (d * u) + d)) + 3.0 * (p2 * (d * u - d * q))
  {
    Swap(d, p1, q - 2.0 * u + 1.0);
    Swap(d, p2, u - q);
  }

  lemma Swap(d: real, p: real, x: real)
    ensures d * (p * x) == p * (d * x)
  {
  }

  lemma Gather(p1: real, p2: real, a: real, b: real, c: real, x: real, y: real, z: real)
    ensures (a + 3.0 * (p1 * (a - 2.0 * b + c)) + 3.0 * (p2 * (b - a)))
          - (x + 3.0 * (p1 * (x - 2.0 * y + z)) + 3.0 * (p2 * (y - x)))
         == (a - x) + 3.0 * (p1 * ((a - x) - 2.0 * (b - y) + (c - z))) + 3.0 * (p2 * ((b - y) - (a - x)))
  {
    var m, n := a - 2.0 * b + c, x - 2.0 * y + z;
    assert p1 * m - p1 * n == p1 * (m - n);
    assert m - n == (a - x) - 2.0 * (b - y) + (c - z);
    assert p2 * (b - a) - p2 * (y - x) == p2 * ((b - y) - (a - x));
  }

  /** Secant is what its name says. */
  lemma SecantIsMeanSlope(p1: real, p2: real, s: real, t: real)
    ensures Cubic(p1, p2, t) - Cubic(p1, p2, s)
         == (t - s) * Secant(p1, p2, t * t + t * s + s * s, t + s)
  {
    Expanded(p1, p2, s);
    Expanded(p1, p2, t);
    PowerDifferences(s, t);
    Gather(p1, p2, t * t * t, t * t, t, s * s * s, s * s, s);
    SpreadSecant(p1, p2, t * t + t * s + s * s, t + s, t - s);
    hide Cubic, Secant;
  }

  /** The solver's derivative is the mean slope over an interval shrunk to a point. */
  lemma SlopeIsSecantAtPoint(p1: real, p2: real, t: real)
    ensures Slope(p1, p2, t) == Secant(p1, p2, t * t + t * t + t * t, t + t)
  {
  }

  /** With inner control values in the unit interval the cubic never falls and never rises
      faster than 3. */
  lemma RisesAtMost3(p1: real, p2: real, s: real, t: real)
    requires 0.0 <= p1 <= 1.0 && 0.0 <= p2 <= 1.0 && 0.0 <= s <= t <= 1.0
    ensures 0.0 <= Cubic(p1, p2, t) - Cubic(p1, p2, s) <= 3.0 * (t - s)
  {
    hide Cubic, Secant;
    var q, u := t * t + t * s + s * s, t + s;
    var d, m := t - s, Secant(p1, p2, q, u);
    assert 0.0 <= m <= 3.0 by { SecantBounds(p1, p2, s, t); }
    assert Cubic(p1, p2, t) - Cubic(p1, p2, s) == d * m by { SecantIsMeanSlope(p1, p2, s, t); }
    Between(d, m);
    assert Product(d, m) == d * m;
  }

  /** The cubic in Bernstein form: the control values 0, p1, p2, 1 with their weights at t. */
  function Bernstein(p1: real, p2: real, t: real): real {
    3.0 * ((1.0 - t) * (1.0 - t) * t) * p1 + 3.0 * ((1.0 - t) * (t * t)) * p2 + t * t * t
  }

  function Lerp(p: real, q: real, t: real): real { p + t * (q - p) }

  /** The point that de Casteljau's construction finds: the control values divided in the ratio t,
      three times. */
  function DeCasteljau(p1: real, p2: real, t: real): real {
    var a, b, c := Lerp(0.0, p1, t), Lerp(p1, p2, t), Lerp(p2, 1.0, t);
    Lerp(Lerp(a, b, t), Lerp(b, c, t), t)
  }

  /** The program's polynomial is the Bernstein form with control values 0, p1, p2, 1. */
  lemma CubicIsBernstein(p1: real, p2: real, t: real)
    ensures Cubic(p1, p2, t) == Bernstein(p1, p2, t)
  {
    Expanded(p1, p2, t);
    BernsteinWeights(p1, p2, t);
  }

  lemma BernsteinWeights(p1: real, p2: real, t: real)
    ensures 3.0 * ((1.0 - t) * (1.0 - t) * t) * p1 == 3.0 * (p1 * (t * t * t - 2.0 * (t * t) + t))
    ensures 3.0 * ((1.0 - t) * (t * t)) * p2 == 3.0 * (p2 * (t * t - t * t * t))
  {
    assert (1.0 - t) * (1.0 - t) * t == t * t * t - 2.0 * (t * t) + t;
    assert (1.0 - t) * (t * t) == t * t - t * t * t;
  }

  /** It is also the point to which repeated interpolation between the control values leads. */
  lemma CubicIsDeCasteljau(p1: real, p2: real, t: real)
    ensures Cubic(p1, p2, t) == DeCasteljau(p1, p2, t)
  {
    LerpTwice(0.0, p1, p2, t);
    LerpTwice(p1, p2, 1.0, t);
    LerpAgain(p1, p2, t);
    hide Cubic, Lerp, Quadric;
  }

  // Two divisions in the ratio t.
  function Quadric(p: real, q: real, r: real, t: real): real {
    p + 2.0 * (t * (q - p)) + t * t * (r - 2.0 * q + p)
  }

  lemma LerpTwice(p: real, q: real, r: real, t: real)
    ensures Lerp(Lerp(p, q, t), Lerp(q, r, t), t) == Quadric(p, q, r, t)
  {
    assert t * (q + t * (r - q) - (p + t * (q - p))) == t * (q - p) + t * t * (r - 2.0 * q + p);
  }

  lemma LerpAgain(p1: real, p2: real, t: real)
    ensures Lerp(Quadric(0.0, p1, p2, t), Quadric(p1, p2, 1.0, t), t) == Cubic(p1, p2, t)
  {
    QuadricOut(0.0, p1, p2, t);
    QuadricOut(p1, p2, 1.0, t);
    Expanded(p1, p2, t);
    hide Cubic, Quadric;
    LerpOut(p1, p2, t);
  }

  lemma QuadricOut(p: real, q: real, r: real, t: real)
    ensures Quadric(p, q, r, t) == p + 2.0 * (q * t) - 2.0 * (p * t) + r * (t * t) - 2.0 * (q * (t * t)) + p * (t * t)
  {
  }

  lemma LerpOut(p1: real, p2: real, t: real)
    ensures var a, b := 2.0 * (p1 * t) + p2 * (t * t) - 2.0 * (p1 * (t * t)),
                        p1 + 2.0 * (p2 * t) - 2.0 * (p1 * t) + t * t - 2.0 * (p2 * (t * t)) + p1 * (t * t);
      Lerp(a, b, t) == t * t * t + 3.0 * (p1 * (t * t * t - 2.0 * (t * t) + t)) + 3.0 * (p2 * (t * t - t * t * t))
  {
  }

  lemma Ends(p1: real, p2: real)
    ensures Cubic(p1, p2, 0.0) == 0.0 && Cubic(p1, p2, 1.0) == 1.0
  {
  }

  function X(c: Curve, t: real): real { Cubic(c.p1x, c.p2x, t) }
  function Y(c: Curve, t: real): real { Cubic(c.p1y, c.p2y, t) }
  function Rate(c: Curve, t: real): real { Slope(c.p1x, c.p2x, t) }

  lemma Rises(c: Curve, s: real, t: real)
    requires Monotone(c) && 0.0 <= s <= t <= 1.0
    ensures X(c, s) <= X(c, t) <= X(c, s) + 3.0 * (t - s)
  {
    RisesAtMost3(c.p1x, c.p2x, s, t);
    hide Cubic;
  }
}
