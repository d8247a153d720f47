/** How far the solver's answer is off in height: a condition on curve and progress under which the
    bound of bisection holds at every exit, and inputs where it fails. */
module BezierAccuracy {
  import opened BezierCurve
  import opened BezierSolver
  import opened RealArith

  const TOLERANCE := 3.0 / 65536.0

  // The coefficients of x(t) = (A t + B) t t + C t.
  function C(c: Curve): real { 3.0 * c.p1x }
  function B(c: Curve): real { 3.0 * (c.p2x - c.p1x) - C(c) }
  function A(c: Curve): real { 1.0 - C(c) - B(c) }

  function Max(x: real, y: real): real { if x < y then y else x }

  function Min(x: real, y: real): real { if x < y then x else y }

  // ----- One tangent step -----

  /** How much the curve bends away from its tangent at s on the way to t, per squared distance. */
  function Bend(c: Curve, t: real, s: real): real { A(c) * (t + 2.0 * s) + B(c) }

  function Horner(a: real, b: real, k: real, t: real): real { ((a * t + b) * t + k) * t }
  function Quadratic(a: real, b: real, k: real, s: real): real { (3.0 * a * s + 2.0 * b) * s + k }

  lemma HeightIs(c: Curve, t: real)
    ensures X(c, t) == Horner(A(c), B(c), C(c), t)
  {
  }

  lemma RateIs(c: Curve, s: real)
    ensures Rate(c, s) == Quadratic(A(c), B(c), C(c), s)
    ensures Rate(c, 0.0) == C(c) && Rate(c, 1.0) == 3.0 * A(c) + 2.0 * B(c) + C(c)
  {
  }

  lemma Taylor(c: Curve, t: real, s: real)
    ensures X(c, t) == X(c, s) + (t - s) * Rate(c, s) + (t - s) * (t - s) * Bend(c, t, s)
  {
    HeightIs(c, t);
    HeightIs(c, s);
    RateIs(c, s);
    TaylorCubic(A(c), B(c), C(c), t, s);
    hide X, Rate, Horner, Quadratic, A, B, C;
  }

  lemma TaylorCubic(a: real, b: real, k: real, t: real, s: real)
    ensures Horner(a, b, k, t)
         == Horner(a, b, k, s) + (t - s) * Quadratic(a, b, k, s) + (t - s) * (t - s) * (a * (t + 2.0 * s) + b)
  {
    TaylorPowers(t, s);
    CubicOut(a, b, k, t);
    CubicOut(a, b, k, s);
    SlopeOut(a, b, k, t - s, s);
    BendOut(a, b, (t - s) * (t - s), t + 2.0 * s);
    var d := t - s;
    var d3, d2 := t * t * t - s * s * s, t * t - s * s;
    assert d3 == 3.0 * (d * (s * s)) + d * d * (t + 2.0 * s);
    assert d2 == 2.0 * (d * s) + d * d;
    Spread(a, 3.0 * (d * (s * s)), d * d * (t + 2.0 * s));
    Spread(b, 2.0 * (d * s), d * d);
    CubicDifference(a, b, k, t * t * t, s * s * s, t * t, s * s, t, s);
  }

  lemma TaylorPowers(t: real, s: real)
    ensures t * t * t - s * s * s == 3.0 * ((t - s) * (s * s)) + (t - s) * (t - s) * (t + 2.0 * s)
    ensures t * t - s * s == 2.0 * ((t - s) * s) + (t - s) * (t - s)
  {
  }

  lemma CubicOut(a: real, b: real, k: real, t: real)
    ensures ((a * t + b) * t + k) * t == a * (t * t * t) + b * (t * t) + k * t
  {
  }

  lemma SlopeOut(a: real, b: real, k: real, d: real, s: real)
    ensures d * ((3.0 * a * s + 2.0 * b) * s + k) == a * (3.0 * (d * (s * s))) + b * (2.0 * (d * s)) + k * d
  {
  }

  lemma BendOut(a: real, b: real, dd: real, v: real)
    ensures dd * (a * v + b) == a * (dd * v) + b * dd
  {
  }

  lemma CubicDifference(a: real, b: real, k: real, t3: real, s3: real, t2: real, s2: real, t: real, s: real)
    ensures (a * t3 + b * t2 + k * t) - (a * s3 + b * s2 + k * s) == a * (t3 - s3) + b * (t2 - s2) + k * (t - s)
  {
  }

  /** After a tangent step only the bend is left of the error. */
  lemma StepError(c: Curve, progress: real, t: real)
    requires Rate(c, t) != 0.0
    ensures var u := Tangent(c, progress, t);
      && (u - t) * Rate(c, t) == -(X(c, t) - progress)
      && X(c, u) - progress == (u - t) * (u - t) * Bend(c, u, t)
  {
    hide X, Rate, Tangent, Bend;
    TangentMeets(c, progress, t);
    Taylor(c, Tangent(c, progress, t), t);
  }

  function MaxBend(c: Curve): real { Max(Abs(B(c)), Abs(3.0 * A(c) + B(c))) }

  /** The largest bend of steps that start at s. */
  function BendFrom(c: Curve, s: real): real {
    Max(Abs(Bend(c, 0.0, s)), Abs(Bend(c, 1.0, s)))
  }

  lemma Affine(a: real, b: real, v: real, lo: real, hi: real)
    requires 0.0 <= v <= 1.0 && lo <= b <= hi && lo <= a + b <= hi
    ensures lo <= Product(a, v) + b <= hi
  {
    hide Product;
    Constants(a);
    Constants(-a);
    NegatedProduct(a, v);
    if a >= 0.0 {
      ProductMono(a, 0.0, v);
      ProductMono(a, v, 1.0);
    } else {
      ProductMono(-a, 0.0, v);
      ProductMono(-a, v, 1.0);
    }
  }

  lemma NegatedProduct(a: real, v: real)
    ensures Product(-a, v) == -Product(a, v)
  {
  }

  lemma BendBounds(c: Curve, t: real, s: real)
    requires 0.0 <= t <= 1.0 && 0.0 <= s <= 1.0
    ensures Abs(Bend(c, t, s)) <= MaxBend(c) && Abs(Bend(c, t, s)) <= BendFrom(c, s)
  {
    BendAsAffine(c, t, s);
    hide Product, A, B, Bend;
    var a, b := A(c), B(c);
    Affine(3.0 * a, b, (t + 2.0 * s) / 3.0, -MaxBend(c), MaxBend(c));
    Affine(a, Bend(c, 0.0, s), t, -BendFrom(c, s), BendFrom(c, s));
  }

  lemma BendAsAffine(c: Curve, t: real, s: real)
    ensures Bend(c, t, s) == Product(3.0 * A(c), (t + 2.0 * s) / 3.0) + B(c)
    ensures Bend(c, t, s) == Product(A(c), t) + Bend(c, 0.0, s)
    ensures Bend(c, 1.0, s) == A(c) + Bend(c, 0.0, s)
  {
    hide A, B;
    var a := A(c);
    assert a * (t + 2.0 * s) == 3.0 * a * ((t + 2.0 * s) / 3.0);
    Spread(a, t, 2.0 * s);
    Spread(a, 1.0, 2.0 * s);
    Spread(a, 0.0, 2.0 * s);
  }

  function Square(x: real): real { Product(x, x) }

  /** One tangent step squares the error, up to a factor. */
  lemma StepSquares(c: Curve, progress: real, t: real, m: real, h: real, k: real, e: real)
    requires 0.0 < m <= Rate(c, t) && (h == MaxBend(c) || h == BendFrom(c, t)) && Product(k, Square(m)) == h
    requires 0.0 <= t <= 1.0 && 0.0 <= Tangent(c, progress, t) <= 1.0
    requires Abs(X(c, t) - progress) <= e
    ensures k >= 0.0 && Abs(X(c, Tangent(c, progress, t)) - progress) <= Product(k, Square(e))
  {
    hide X, Rate, Tangent, Bend, MaxBend, BendFrom, Product, Square;
    var u := Tangent(c, progress, t);
    StepErrorSquare(c, progress, t);
    BendBounds(c, u, t);
    SquaredStep(u - t, Rate(c, t), X(c, t) - progress, m, e);
    Combine(Square(u - t), Square(m), Square(e), k, h, Bend(c, u, t));
  }

  lemma StepErrorSquare(c: Curve, progress: real, t: real)
    requires Rate(c, t) != 0.0
    ensures var u := Tangent(c, progress, t);
      && Product(u - t, Rate(c, t)) == -(X(c, t) - progress)
      && X(c, u) - progress == Product(Square(u - t), Bend(c, u, t))
  {
    hide X, Rate, Tangent, Bend;
    StepError(c, progress, t);
  }

  lemma Combine(dd: real, mm: real, ee: real, k: real, h: real, bend: real)
    requires dd >= 0.0 && mm > 0.0 && Product(dd, mm) <= ee && Product(k, mm) == h && Abs(bend) <= h
    ensures k >= 0.0 && Abs(Product(dd, bend)) <= Product(k, ee)
  {
    Scaled(k, mm, h);
    BoundedProduct(dd, bend, h);
    LeTimes(dd * mm, ee, k);
    assert dd * h == dd * mm * k;
    assert ee * k == k * ee;
  }

  lemma SquaredStep(d: real, r: real, x: real, m: real, e: real)
    requires 0.0 < m <= r && Product(d, r) == -x && Abs(x) <= e
    ensures Product(Square(d), Square(m)) <= Square(e) && Square(m) > 0.0 && Square(d) >= 0.0
  {
    var f := Abs(d);
    assert d * d == f * f && f >= 0.0;
    PositiveSquare(m);
    AbsProduct(d, r);
    assert f * r == Abs(x);
    LeTimes(m, r, f);
    assert m * f <= e;
    SquareLe(m * f, e);
    assert m * f * (m * f) == d * d * (m * m);
  }

  lemma PositiveSquare(m: real)
    requires m > 0.0
    ensures Square(m) > 0.0
  {
    hide Product;
    PositiveProduct(m, m);
  }

  lemma PositiveProduct(x: real, y: real)
    requires x > 0.0 && y > 0.0
    ensures Product(x, y) > 0.0
  {
    LessTimes(0.0, x, y);
  }

  lemma AbsProduct(d: real, r: real)
    requires r > 0.0
    ensures Abs(d * r) == Abs(d) * r
  {
    if d >= 0.0 { LeTimes(0.0, d, r); } else { LeTimes(d, 0.0, r); }
  }

  lemma SquareLe(x: real, y: real)
    requires 0.0 <= x <= y
    ensures x * x <= y * y
  {
    LeTimes(x, y, x);
    LeTimes(x, y, y);
  }

  lemma Scaled(k: real, mm: real, h: real)
    requires mm > 0.0 && h >= 0.0 && k * mm == h
    ensures k >= 0.0
  {
    if k < 0.0 { LessTimes(k, 0.0, mm); }
  }

  lemma BoundedProduct(dd: real, x: real, h: real)
    requires dd >= 0.0 && Abs(x) <= h
    ensures Abs(dd * x) <= dd * h
  {
    LeTimes(x, h, dd);
    LeTimes(-h, x, dd);
    assert x * dd == dd * x && h * dd == dd * h && -h * dd == -(dd * h);
  }

  // ----- All tangent steps -----

  /** The error left of e after n steps. */
  function After(e: real, k: real, n: nat): real
    decreases n
  {
    if n == 0 then e else After(Product(k, Square(e)), k, n - 1)
  }

  lemma SquareMono(k: real, x: real, y: real)
    requires k >= 0.0 && 0.0 <= x <= y
    ensures 0.0 <= Product(k, Square(x)) <= Product(k, Square(y))
  {
    SquareLe(x, y);
    LeTimes(0.0, x, x);
    ProductMono(k, 0.0, x * x);
    ProductMono(k, x * x, y * y);
  }

  lemma {:induction false} AfterMono(x: real, y: real, k: real, n: nat)
    requires k >= 0.0 && 0.0 <= x <= y
    ensures 0.0 <= After(x, k, n) <= After(y, k, n)
    decreases n
  {
    hide Product, Square;
    if n > 0 {
      SquareMono(k, x, y);
      AfterMono(Product(k, Square(x)), Product(k, Square(y)), k, n - 1);
    }
  }

  ghost predicate NowhereBelow(c: Curve, m: real) {
    forall s :: 0.0 <= s <= 1.0 ==> Rate(c, s) >= m
  }

  /** Where the slope is bounded away from zero, the steps stop with a tiny error, leave the unit
      interval, or are spent with the error squared time and again. */
  lemma {:induction false} DescendError(c: Curve, progress: real, t: real, n: nat, m: real, k: real, e: real)
    requires 0.000001 <= m && NowhereBelow(c, m) && Product(k, Square(m)) == MaxBend(c) && k >= 0.0
    requires 0.0 <= t <= 1.0 && Abs(X(c, t) - progress) <= e
    ensures var s := Descend(c, progress, t, n);
      s.exit == Converged || s.exit == Diverged
      || (s.exit == Spent && Abs(X(c, s.t) - progress) <= After(e, k, n))
    decreases n
  {
    hide X, Rate, Tangent, MaxBend, Product, Square, NowhereBelow;
    if n > 0 {
      assert Rate(c, t) >= m by { AtLeast(c, m, t); }
      var next := Tangent(c, progress, t);
      if 0.0 <= next <= 1.0 {
        StepSquares(c, progress, t, m, MaxBend(c), k, e);
        DescendError(c, progress, next, n - 1, m, k, Product(k, Square(e)));
      }
    }
  }

  lemma AtLeast(c: Curve, m: real, t: real)
    requires NowhereBelow(c, m) && 0.0 <= t <= 1.0
    ensures Rate(c, t) >= m
  {
  }

  // ----- The least slope -----

  function VertexRate(a: real, b: real, k: real): real
    requires a > 0.0
  {
    k - b * b / (3.0 * a)
  }

  /** The least slope on the unit interval: at the vertex of the slope, or at an end. */
  function MinRate(c: Curve): real {
    if A(c) > 0.0 && 0.0 <= -B(c) <= 3.0 * A(c) then VertexRate(A(c), B(c), C(c))
    else Min(Rate(c, 0.0), Rate(c, 1.0))
  }

  lemma AboveVertex(a: real, b: real, k: real, s: real)
    requires a > 0.0
    ensures Quadratic(a, b, k, s) >= VertexRate(a, b, k)
  {
    var g := 3.0 * a;
    DivideBack(b * b, g);
    AboveVertexBy(g, b, s, b * b / g);
  }

  lemma AboveVertexBy(g: real, b: real, s: real, v: real)
    requires g > 0.0 && b * b == v * g
    ensures (g * s + 2.0 * b) * s + v >= 0.0
  {
    var y, z := g * s + b, (g * s + 2.0 * b) * s + v;
    NonNegativeSquare(y);
    CompletedSquare(g, b, s, v);
    if z < 0.0 { LessTimes(z, 0.0, g); }
  }

  lemma NonNegativeSquare(y: real)
    ensures y * y >= 0.0
  {
  }

  lemma CompletedSquare(g: real, b: real, s: real, v: real)
    requires b * b == v * g
    ensures (g * s + b) * (g * s + b) == ((g * s + 2.0 * b) * s + v) * g
  {
    assert (g * s + b) * (g * s + b) == g * s * (g * s) + 2.0 * (g * s * b) + b * b;
    assert (g * s + 2.0 * b) * s * g == g * s * (g * s) + 2.0 * (g * s * b);
  }

  lemma AboveEnds(a: real, b: real, k: real, s: real)
    requires 0.0 <= s <= 1.0 && (a <= 0.0 || b > 0.0 || -b > 3.0 * a)
    ensures Quadratic(a, b, k, s) >= k || Quadratic(a, b, k, s) >= 3.0 * a + 2.0 * b + k
  {
    if a <= 0.0 {
      ConcaveAboveEnds(3.0 * a, 2.0 * b, s);
    } else if b > 0.0 {
      LeTimes(0.0, s, 3.0 * a);
      LeTimes(0.0, 3.0 * a * s + 2.0 * b, s);
    } else {
      BelowLastEnd(a, b, s);
    }
  }

  lemma ConcaveAboveEnds(g: real, b: real, s: real)
    requires 0.0 <= s <= 1.0 && g <= 0.0
    ensures (g * s + b) * s >= 0.0 || (g * s + b) * s >= g + b
  {
    var d, f := g + b, g * s + b;
    hide Product;
    Constants(-g);
    Constants(s);
    Constants(-d);
    ProductMono(-g, s, 1.0);
    ConcaveProducts(g, b, s);
    ProductMono(s, d, f);
    if d >= 0.0 {
      ProductMono(s, 0.0, d);
    } else {
      ProductMono(-d, s, 1.0);
    }
  }

  lemma ConcaveProducts(g: real, b: real, s: real)
    ensures Product(-g, s) == -(g * s)
    ensures Product(-(g + b), s) == -Product(s, g + b)
    ensures Product(s, g * s + b) == (g * s + b) * s
  {
  }

  lemma BelowLastEnd(a: real, b: real, s: real)
    requires 0.0 <= s <= 1.0 && a > 0.0 && -b > 3.0 * a
    ensures (3.0 * a * s + 2.0 * b) * s >= 3.0 * a + 2.0 * b
  {
    hide Product;
    Constants(3.0 * a);
    Constants(1.0 - s);
    ProductMono(3.0 * a, s, 1.0);
    var f := Product(3.0 * a, s) + 3.0 * a + 2.0 * b;
    ProductMono(1.0 - s, 0.0, -f);
    LastEndProducts(a, b, s);
  }

  lemma LastEndProducts(a: real, b: real, s: real)
    ensures Product(1.0 - s, -(Product(3.0 * a, s) + 3.0 * a + 2.0 * b))
         == (3.0 * a * s + 2.0 * b) * s - (3.0 * a + 2.0 * b)
  {
  }

  lemma MinRateIs(c: Curve)
    ensures NowhereBelow(c, MinRate(c))
  {
    forall s | 0.0 <= s <= 1.0 ensures Rate(c, s) >= MinRate(c) {
      MinRateAt(c, s);
    }
  }

  lemma MinRateAt(c: Curve, s: real)
    requires 0.0 <= s <= 1.0
    ensures Rate(c, s) >= MinRate(c)
  {
    hide A, B, C, Rate, Quadratic, VertexRate;
    RateIs(c, s);
    if A(c) > 0.0 && 0.0 <= -B(c) <= 3.0 * A(c) {
      AboveVertex(A(c), B(c), C(c), s);
    } else {
      AboveEnds(A(c), B(c), C(c), s);
    }
  }

  // ----- The condition -----

  /** The factor of a step's squared error, by bend and slope. */
  function Gain(h: real, m: real): real
    requires m > 0.0
  {
    PositiveSquare(m);
    h / Square(m)
  }

  /** A bound on the error after the first step, by the slope and the error at the start. */
  function FirstError(c: Curve, progress: real): real
    requires Rate(c, progress) > 0.0
  {
    var r, e := Rate(c, progress), Abs(X(c, progress) - progress);
    Product(Gain(BendFrom(c, progress), r), Square(e))
  }

  /** Can be checked beforehand: the least slope is not flat, and a first step followed by five
      that square the error brings it below the tolerance. */
  predicate Steady(c: Curve, progress: real) {
    && MinRate(c) >= 0.000001 && Rate(c, progress) > 0.0
    && After(FirstError(c, progress), Gain(MaxBend(c), MinRate(c)), 5) <= TOLERANCE
  }

  ghost predicate Accurate(c: Curve, progress: real, t: real) {
    0.0 <= t <= 1.0 && Abs(X(c, t) - progress) <= TOLERANCE
  }

  lemma Factor(h: real, m: real)
    requires m > 0.0
    ensures Product(Gain(h, m), Square(m)) == h
  {
    PositiveSquare(m);
    hide Square;
    DivideBack(h, Square(m));
  }

  lemma FactorSign(h: real, m: real)
    requires m > 0.0 && h >= 0.0
    ensures Gain(h, m) >= 0.0
  {
    Factor(h, m);
    PositiveSquare(m);
    hide Square, Gain;
    Scaled(Gain(h, m), Square(m), h);
  }

  lemma BendsNotNegative(c: Curve, s: real)
    ensures MaxBend(c) >= 0.0 && BendFrom(c, s) >= 0.0
  {
    hide A, B, Bend;
  }

  /** Under that condition the tangent steps converge, leave the unit interval, or are spent
      within the tolerance. */
  lemma SteadyDescends(c: Curve, progress: real)
    requires 0.0 <= progress <= 1.0 && Steady(c, progress)
    ensures var s := Descend(c, progress, progress, 6);
      s.exit == Converged || s.exit == Diverged
      || (s.exit == Spent && Abs(X(c, s.t) - progress) <= TOLERANCE)
  {
    hide X, Rate, Tangent, MaxBend, BendFrom, Product, Square, NowhereBelow, MinRate, After, Gain;
    var m, r := MinRate(c), Rate(c, progress);
    var h, h0 := MaxBend(c), BendFrom(c, progress);
    MinRateIs(c);
    AtLeast(c, m, progress);
    BendsNotNegative(c, progress);
    Factor(h, m);
    Factor(h0, r);
    FactorSign(h, m);
    var e := Abs(X(c, progress) - progress);
    var next := Tangent(c, progress, progress);
    if e >= 0.000001 && 0.0 <= next <= 1.0 {
      StepSquares(c, progress, progress, r, h0, Gain(h0, r), e);
      DescendError(c, progress, next, 5, m, Gain(h, m), FirstError(c, progress));
    }
  }

  /** Whenever it converged or bisected on a monotone curve, the solver is within the tolerance. */
  lemma HeightBound(c: Curve, progress: real, exit: Exit, t: real)
    requires Monotone(c) && 0.0 <= progress <= 1.0 && Solves(c, progress, exit, t)
    requires exit == Converged || exit == Bisected
    ensures Accurate(c, progress, t)
  {
    hide X, Rate, Near;
    DescendMeans(c, progress, progress, 6);
    hide Descend;
  }

  /** On a monotone curve the solver's height error is within the tolerance at every exit, if
      curve and progress are steady. */
  lemma SteadyIsAccurate(c: Curve, progress: real, exit: Exit, t: real)
    requires Monotone(c) && 0.0 <= progress <= 1.0 && Steady(c, progress)
    requires Solves(c, progress, exit, t)
    ensures Accurate(c, progress, t)
  {
    hide X, Rate, Steady, Close;
    SteadyDescends(c, progress);
    hide Descend;
    if exit == Converged || exit == Bisected { HeightBound(c, progress, exit, t); }
  }

  /** Where the curve is flat at the start, the solver stops there; its error is that of the
      start. */
  lemma FlatAtOnce(c: Curve, progress: real, exit: Exit, t: real)
    requires 0.0 <= progress <= 1.0 && Abs(Rate(c, progress)) < 0.000001
    requires Solves(c, progress, exit, t)
    ensures exit == Flat && t == progress
    ensures Accurate(c, progress, t) <==> Abs(X(c, progress) - progress) <= TOLERANCE
  {
    hide X, Rate;
  }
}
