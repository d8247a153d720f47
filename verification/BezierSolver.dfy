/** The solver of the easing curves: tangent steps, with bisection behind them. */
module BezierSolver {
  import opened BezierCurve
  import opened RealArith

  // ----- Tangent steps -----

  /** Where the tangent at t crosses the wanted height. */
  function Tangent(c: Curve, progress: real, t: real): real
    requires Rate(c, t) != 0.0
  {
    t - (X(c, t) - progress) / Rate(c, t)
  }

  lemma TangentMeets(c: Curve, progress: real, t: real)
    requires Rate(c, t) != 0.0
    ensures X(c, t) + (Tangent(c, progress, t) - t) * Rate(c, t) == progress
  {
    var d, e := Rate(c, t), X(c, t) - progress;
    DivideBack(e, d);
    assert Tangent(c, progress, t) - t == -(e / d);
    assert -(e / d) * d == -((e / d) * d);
    hide X, Rate, Tangent;
  }

  /** Every exact solution lies within e of t. */
  ghost predicate Near(c: Curve, progress: real, t: real, e: real) {
    forall r :: 0.0 <= r <= 1.0 && X(c, r) == progress ==> Abs(r - t) <= e
  }

  /** What bisection promises: a small error in height and, unless that error is tiny, every
      exact solution close by. */
  ghost predicate Close(c: Curve, progress: real, t: real) {
    Abs(X(c, t) - progress) <= 3.0 / 65536.0
    && (Abs(X(c, t) - progress) < 0.00001 || Near(c, progress, t, 1.0 / 65536.0))
  }

  datatype Exit = Flat | Converged | Diverged | Spent | Bisected

  /** Where the tangent steps stop, and why. */
  datatype Stop = Stop(exit: Exit, t: real)

  /** At most n tangent steps from t. */
  function Descend(c: Curve, progress: real, t: real, n: nat): Stop
    decreases n
  {
    if n == 0 then Stop(Spent, t)
    else if Abs(Rate(c, t)) < 0.000001 then Stop(Flat, t)
    else if Abs(X(c, t) - progress) < 0.000001 then Stop(Converged, t)
    else
      var next := Tangent(c, progress, t);
      if 0.0 <= next <= 1.0 then Descend(c, progress, next, n - 1) else Stop(Diverged, next)
  }

  /** What each stop means. */
  lemma {:induction false} DescendMeans(c: Curve, progress: real, t: real, n: nat)
    requires 0.0 <= t <= 1.0
    ensures var s := Descend(c, progress, t, n);
      && s.exit != Bisected
      && (s.exit == Diverged <==> !(0.0 <= s.t <= 1.0))
      && (s.exit == Flat ==> Abs(Rate(c, s.t)) < 0.000001)
      && (s.exit == Converged ==> Abs(X(c, s.t) - progress) < 0.000001)
    decreases n
  {
    hide X, Rate, Tangent;
    if n > 0 && Abs(Rate(c, t)) >= 0.000001 && Abs(X(c, t) - progress) >= 0.000001 {
      var next := Tangent(c, progress, t);
      if 0.0 <= next <= 1.0 { DescendMeans(c, progress, next, n - 1); }
    }
  }

  /** The solver's answer: where the tangent steps stop, or what bisection finds when they leave
      the unit interval. */
  ghost predicate Solves(c: Curve, progress: real, exit: Exit, t: real) {
    var s := Descend(c, progress, progress, 6);
    0.0 <= t <= 1.0
    && if s.exit == Diverged then exit == Bisected && (Monotone(c) ==> Close(c, progress, t))
       else Stop(exit, t) == s
  }

  method Newton(c: Curve, progress: real) returns (exit: Exit, t: real)
    requires 0.0 <= progress <= 1.0
    ensures Stop(exit, t) == Descend(c, progress, progress, 6)
    ensures exit != Bisected && (exit == Diverged <==> !(0.0 <= t <= 1.0))
  {
    hide X, Rate;
    DescendMeans(c, progress, progress, 6);
    t := progress;
    exit := Spent;
    for i := 0 to 6
      invariant 0.0 <= t <= 1.0 && exit == Spent
      invariant Descend(c, progress, t, 6 - i) == Descend(c, progress, progress, 6)
    {
      var d := Rate(c, t);
      if Abs(d) < 0.000001 { return Flat, t; }
      var err := X(c, t) - progress;
      if Abs(err) < 0.000001 { return Converged, t; }
      t := t - err / d;
      if t < 0.0 || t > 1.0 { return Diverged, t; }
    }
  }

  // ----- Bisection -----

  /** A bracket of the wanted height: t0 is low enough, t1 high enough, and no exact
      solution lies outside. */
  ghost predicate Brackets(c: Curve, progress: real, t0: real, t1: real) {
    0.0 <= t0 <= t1 <= 1.0 && X(c, t0) <= progress <= X(c, t1)
    && forall r :: 0.0 <= r <= 1.0 && X(c, r) == progress ==> t0 <= r <= t1
  }

  lemma UnitBrackets(c: Curve, progress: real)
    requires 0.0 <= progress <= 1.0
    ensures Brackets(c, progress, 0.0, 1.0)
  {
    Ends(c.p1x, c.p2x);
  }

  lemma RaiseLow(c: Curve, progress: real, t0: real, t1: real, t: real)
    requires Monotone(c) && Brackets(c, progress, t0, t1) && t0 <= t <= t1 && X(c, t) < progress
    ensures Brackets(c, progress, t, t1)
  {
    hide X;
    forall r | 0.0 <= r <= 1.0 && X(c, r) == progress ensures t <= r {
      if r < t { Rises(c, r, t); }
    }
  }

  lemma LowerHigh(c: Curve, progress: real, t0: real, t1: real, t: real)
    requires Monotone(c) && Brackets(c, progress, t0, t1) && t0 <= t <= t1 && progress < X(c, t)
    ensures Brackets(c, progress, t0, t)
  {
    hide X;
    forall r | 0.0 <= r <= 1.0 && X(c, r) == progress ensures r <= t {
      if t < r { Rises(c, t, r); }
    }
  }

  /** In a bracket, the error in height is at most three times the distance to its ends. */
  lemma HeightError(c: Curve, progress: real, t0: real, t1: real, t: real, e: real)
    requires Monotone(c) && Brackets(c, progress, t0, t1) && t0 <= t <= t1
    requires t - t0 <= e && t1 - t <= e
    ensures Abs(X(c, t) - progress) <= 3.0 * e
  {
    hide X;
    Rises(c, t0, t);
    Rises(c, t, t1);
  }

  /** The width allowed before round i: halved by every round but the first, which starts
      away from the middle. */
  function Width(i: nat): real { if i <= 1 then 1.0 else Width(i - 1) / 2.0 }

  lemma WidthAfter16()
    ensures Width(16) == 1.0 / 32768.0
  {
    assert Width(4) == 1.0 / 8.0;
    assert Width(8) == 1.0 / 128.0;
    assert Width(12) == 1.0 / 2048.0;
  }

  method Bisect(c: Curve, progress: real) returns (t: real)
    requires 0.0 <= progress <= 1.0
    ensures 0.0 <= t <= 1.0
    ensures Monotone(c) ==> Close(c, progress, t)
  {
    hide X;
    var t0, t1 := 0.0, 1.0;
    t := progress;
    UnitBrackets(c, progress);
    for i := 0 to 16
      invariant 0.0 <= t0 <= t <= t1 <= 1.0
      invariant i > 0 ==> t == (t0 + t1) * 0.5
      invariant t1 - t0 <= Width(i)
      invariant Monotone(c) ==> Brackets(c, progress, t0, t1)
    {
      var x := X(c, t);
      if Abs(x - progress) < 0.00001 { return; }
      if Monotone(c) {
        if progress > x { RaiseLow(c, progress, t0, t1, t); } else { LowerHigh(c, progress, t0, t1, t); }
      }
      if progress > x { t0 := t; } else { t1 := t; }
      t := (t0 + t1) * 0.5;
    }
    WidthAfter16();
    if Monotone(c) { HeightError(c, progress, t0, t1, t, 1.0 / 65536.0); }
  }
}
