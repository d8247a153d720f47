/** Cubic Bezier easing, in exact arithmetic. */
module Bezier {
  import opened BezierAccuracy
  import opened BezierCurve
  import opened BezierSolver
  import opened Options

  /** y is the point of the unit interval nearest to x. */
  predicate NearestUnit(x: real, y: real) {
    0.0 <= y <= 1.0 && (y <= x || y == 0.0) && (x <= y || y == 1.0)
  }

  method Create(p1x: real, p1y: real, p2x: real, p2y: real) returns (c: Curve)
    ensures NearestUnit(p1x, c.p1x) && NearestUnit(p2x, c.p2x)
    ensures Monotone(c) && c.p1y == p1y && c.p2y == p2y
  {
    var a, b := p1x, p2x;
    if a < 0.0 { a := 0.0; }
    if a > 1.0 { a := 1.0; }
    if b < 0.0 { b := 0.0; }
    if b > 1.0 { b := 1.0; }
    c := Curve(a, p1y, b, p2y);
  }

  /** The diagonal shortcut returns what every exact solution would. */
  lemma DiagonalIsExact(c: Curve, progress: real, t: real)
    requires Diagonal(c) && X(c, t) == progress
    ensures Y(c, t) == progress
  {
  }

  /** The value y is that of the control ordinates at the solver's answer. */
  ghost predicate Eased(c: Curve, progress: real, y: real) {
    exists exit, t :: Solves(c, progress, exit, t)
      && y == 3.0 * ((1.0 - t) * (1.0 - t) * t) * c.p1y + 3.0 * ((1.0 - t) * (t * t)) * c.p2y + t * t * t
  }

  /** The value y is that of the control ordinates at a point where that of the abscissas is within
      the tolerance of the progress. */
  ghost predicate EasedWell(c: Curve, progress: real, y: real) {
    exists t :: Accurate(c, progress, t) && Abs(DeCasteljau(c.p1x, c.p2x, t) - progress) <= TOLERANCE
      && y == DeCasteljau(c.p1y, c.p2y, t)
  }

  lemma IsEased(c: Curve, progress: real, exit: Exit, t: real)
    requires Solves(c, progress, exit, t)
    ensures Eased(c, progress, Y(c, t))
  {
    CubicIsBernstein(c.p1y, c.p2y, t);
    hide Solves, Cubic;
  }

  lemma IsEasedWell(c: Curve, progress: real, t: real)
    requires Accurate(c, progress, t)
    ensures EasedWell(c, progress, Y(c, t))
  {
    CubicIsDeCasteljau(c.p1x, c.p2x, t);
    CubicIsDeCasteljau(c.p1y, c.p2y, t);
    hide Cubic, DeCasteljau;
  }

  /** The solver looks at the abscissas alone; the values of two curves that share them differ by
      the weights of their ordinates. */
  lemma OrdinatesDecide(c: Curve, d: Curve, progress: real, exit: Exit, t: real)
    requires c.p1x == d.p1x && c.p2x == d.p2x
    ensures Solves(c, progress, exit, t) <==> Solves(d, progress, exit, t)
    ensures Y(d, t) - Y(c, t)
         == 3.0 * ((1.0 - t) * (1.0 - t) * t) * (d.p1y - c.p1y) + 3.0 * ((1.0 - t) * (t * t)) * (d.p2y - c.p2y)
  {
    SameAnswer(c, d, progress, exit, t);
    ValuesDiffer(c, d, t);
    hide *;
  }

  lemma SameAnswer(c: Curve, d: Curve, progress: real, exit: Exit, t: real)
    requires c.p1x == d.p1x && c.p2x == d.p2x
    ensures Solves(c, progress, exit, t) <==> Solves(d, progress, exit, t)
  {
    SameDescent(c, d, progress, progress, 6);
    hide X, Descend;
    forall r ensures X(c, r) == X(d, r) { SameHeight(c, d, r); }
  }

  lemma ValuesDiffer(c: Curve, d: Curve, t: real)
    ensures Y(d, t) - Y(c, t)
         == 3.0 * ((1.0 - t) * (1.0 - t) * t) * (d.p1y - c.p1y) + 3.0 * ((1.0 - t) * (t * t)) * (d.p2y - c.p2y)
  {
    CubicIsBernstein(c.p1y, c.p2y, t);
    CubicIsBernstein(d.p1y, d.p2y, t);
    hide Cubic;
    var v, w := 3.0 * ((1.0 - t) * (1.0 - t) * t), 3.0 * ((1.0 - t) * (t * t));
    WeightsDiffer(v, c.p1y, d.p1y);
    WeightsDiffer(w, c.p2y, d.p2y);
  }

  lemma WeightsDiffer(w: real, p: real, q: real)
    ensures w * q - w * p == w * (q - p)
  {
  }

  lemma {:induction false} SameDescent(c: Curve, d: Curve, progress: real, t: real, n: nat)
    requires c.p1x == d.p1x && c.p2x == d.p2x
    ensures Descend(c, progress, t, n) == Descend(d, progress, t, n)
    decreases n
  {
    SameHeight(c, d, t);
    hide X, Rate;
    if n > 0 && Abs(Rate(c, t)) >= 0.000001 && Abs(X(c, t) - progress) >= 0.000001 {
      SameDescent(c, d, progress, Tangent(c, progress, t), n - 1);
    }
  }

  lemma SameHeight(c: Curve, d: Curve, t: real)
    requires c.p1x == d.p1x && c.p2x == d.p2x
    ensures X(c, t) == X(d, t) && Rate(c, t) == Rate(d, t)
  {
    hide Cubic, Slope;
  }

  method Eval(curve: Option<Curve>, progress: real) returns (y: real)
    ensures curve == None ==> y == progress
    ensures curve.Some? && progress <= 0.0 ==> y == 0.0
    ensures curve.Some? && progress >= 1.0 ==> y == 1.0
    ensures curve.Some? && 0.0 < progress < 1.0 ==>
              if Diagonal(curve.value) then y == progress else Eased(curve.value, progress, y)
    ensures curve.Some? && 0.0 < progress < 1.0 && !Diagonal(curve.value)
            && Monotone(curve.value) && Steady(curve.value, progress) ==>
              EasedWell(curve.value, progress, y)
  {
    if curve == None { return progress; }
    if progress <= 0.0 { return 0.0; }
    if progress >= 1.0 { return 1.0; }
    var c := curve.value;
    if Diagonal(c) { return progress; }
    hide X, Y, Rate, Descend, Tangent, Steady, Accurate, Close, Eased, EasedWell;
    var exit, t := Newton(c, progress);
    if t < 0.0 || t > 1.0 {
      t := Bisect(c, progress);
      exit := Bisected;
    }
    assert Solves(c, progress, exit, t);
    y := Y(c, t);
    IsEased(c, progress, exit, t);
    if Monotone(c) && Steady(c, progress) {
      SteadyIsAccurate(c, progress, exit, t);
      IsEasedWell(c, progress, t);
    }
  }
}
