/** The curves the program ships, and which of them the solver answers within the tolerance at every
    progress. */
module BezierPresets {
  import opened BezierAccuracy
  import opened BezierCurve
  import opened BezierSolver
  import opened RealArith

  // ----- Following the tangent steps -----

  /** A step that is neither flat nor close is taken. */
  lemma Onward(c: Curve, progress: real, t: real, n: nat)
    requires n > 0 && Rate(c, t) >= 0.000001 && Abs(X(c, t) - progress) >= 0.000001
    requires 0.0 <= Tangent(c, progress, t) <= 1.0
    ensures Descend(c, progress, t, n) == Descend(c, progress, Tangent(c, progress, t), n - 1)
  {
    hide X, Rate, Tangent;
  }

  /** The tangent at t crosses the wanted height between l and u. */
  lemma CrossesBetween(c: Curve, progress: real, t: real, l: real, u: real)
    requires Rate(c, t) > 0.0
    requires Product(t - u, Rate(c, t)) <= X(c, t) - progress <= Product(t - l, Rate(c, t))
    ensures l <= Tangent(c, progress, t) <= u
  {
    StepErrorSquare(c, progress, t);
    hide X, Rate, Tangent, Product, Square;
    var x, r := Tangent(c, progress, t), Rate(c, t);
    ProductAgainst(x, t, r);
    if x < l { ProductLess(t - l, t - x, r); }
    if x > u { ProductLess(t - x, t - u, r); }
  }

  lemma ProductAgainst(x: real, t: real, r: real)
    ensures Product(x - t, r) == -Product(t - x, r)
  {
  }

  lemma TaylorSquare(c: Curve, x: real, t: real)
    ensures X(c, x) == X(c, t) - Product(t - x, Rate(c, t)) + Product(Square(t - x), Bend(c, x, t))
  {
    Taylor(c, x, t);
    hide X, Rate, Bend;
    var d, r, b := t - x, Rate(c, t), Bend(c, x, t);
    assert (x - t) * r == -(d * r) && (x - t) * (x - t) * b == d * d * b;
  }

  lemma BendBetween(c: Curve, x: real, l: real, t: real, u: real)
    requires l <= t <= u
    ensures Min(Bend(c, x, l), Bend(c, x, u)) <= Bend(c, x, t) <= Max(Bend(c, x, l), Bend(c, x, u))
  {
    BendByProduct(c, x, l);
    BendByProduct(c, x, t);
    BendByProduct(c, x, u);
    hide Bend, Product, A, B;
    var a := A(c);
    if a >= 0.0 {
      ProductMono(a, x + 2.0 * l, x + 2.0 * t);
      ProductMono(a, x + 2.0 * t, x + 2.0 * u);
    } else {
      NegatedProduct(a, x + 2.0 * l);
      NegatedProduct(a, x + 2.0 * t);
      NegatedProduct(a, x + 2.0 * u);
      ProductMono(-a, x + 2.0 * l, x + 2.0 * t);
      ProductMono(-a, x + 2.0 * t, x + 2.0 * u);
    }
  }

  lemma BendByProduct(c: Curve, x: real, t: real)
    ensures Bend(c, x, t) == Product(A(c), x + 2.0 * t) + B(c)
  {
  }

  lemma SquareTimes(x: real, y: real, b: real, h: real)
    requires 0.0 <= x <= y && 0.0 <= b <= h
    ensures Product(Square(x), b) <= Product(Square(y), h)
  {
    SquareLe(x, y);
    LeTimes(0.0, x, x);
    LeTimes(x * x, y * y, b);
    LeTimes(b, h, y * y);
  }

  /** From t in [l, u] above the solution, where the curve bends upwards, the next point lies in
      [l2, t]. */
  lemma StepsDown(c: Curve, progress: real, t: real, n: nat, l: real, u: real, l2: real)
    requires n > 0 && Monotone(c) && 0.0 <= l2 <= l <= t <= u <= 1.0
    requires Rate(c, t) >= 0.000001 && X(c, l) - progress >= 0.000001
    requires Bend(c, l2, l) >= 0.0 && Bend(c, l2, u) >= 0.0
    requires X(c, l2) - Product(Square(l - l2), Min(Bend(c, l2, l), Bend(c, l2, u))) <= progress
    ensures l2 <= Tangent(c, progress, t) <= t
    ensures Descend(c, progress, t, n) == Descend(c, progress, Tangent(c, progress, t), n - 1)
  {
    hide X, Rate, Bend, Tangent, Product, Square;
    Rises(c, l, t);
    TaylorSquare(c, l2, t);
    BendBetween(c, l2, l, t, u);
    SquareTimes(l - l2, t - l2, Min(Bend(c, l2, l), Bend(c, l2, u)), Bend(c, l2, t));
    NoProduct(Rate(c, t), t);
    CrossesBetween(c, progress, t, l2, t);
    Onward(c, progress, t, n);
  }

  lemma NoProduct(r: real, t: real)
    ensures Product(t - t, r) == 0.0
  {
  }

  /** And no further up than u2. */
  lemma StepsBelow(c: Curve, progress: real, t: real, l: real, u: real, u2: real)
    requires 0.0 <= u2 <= l <= t <= u <= 1.0 && Rate(c, t) > 0.0
    requires Bend(c, u2, l) >= 0.0 && Bend(c, u2, u) >= 0.0
    requires X(c, u2) - Product(Square(u - u2), Max(Bend(c, u2, l), Bend(c, u2, u))) >= progress
    ensures Tangent(c, progress, t) <= u2
  {
    hide X, Rate, Bend, Tangent, Product, Square;
    TaylorSquare(c, u2, t);
    BendBetween(c, u2, l, t, u);
    SquareTimes(t - u2, u - u2, Bend(c, u2, t), Max(Bend(c, u2, l), Bend(c, u2, u)));
    StepErrorSquare(c, progress, t);
    var x, r := Tangent(c, progress, t), Rate(c, t);
    ProductAgainst(x, t, r);
    if x > u2 { ProductLess(t - x, t - u2, r); }
  }

  lemma ProductLess(x: real, y: real, r: real)
    requires r > 0.0 && x < y
    ensures Product(x, r) < Product(y, r)
  {
    LessTimes(x, y, r);
  }

  // ----- Misses -----

  /** The flat exit can miss: on this curve the solver stops where it starts, more than four
      tolerances off. */
  lemma FlatExitMisses()
    ensures var c, p := Curve(1.0, 0.0, 0.0, 1.0), 0.4998;
      && Monotone(c) && Solves(c, p, Flat, p) && Abs(X(c, p) - p) > 4.0 * TOLERANCE
  {
    var c, p := Curve(1.0, 0.0, 0.0, 1.0), 0.4998;
    assert X(c, p) == 0.499999999968;
    assert Rate(c, p) == 0.00000048;
  }

  function Steep(): Curve { Curve(0.99, 0.0, 0.0, 1.0) }

  lemma SteepSlope(t: real)
    requires 0.0 <= t <= 1.0
    ensures Rate(Steep(), t) >= 0.007
  {
    MinRateAt(Steep(), t);
    assert A(Steep()) == 3.97 && B(Steep()) == -5.94 && C(Steep()) == 2.97;
    assert VertexRate(3.97, -5.94, 2.97) >= 0.007;
  }

  /** The sixth step can miss, on a curve that is nowhere flat: the solver is left more than eight
      tolerances off. */
  lemma SpentExitMisses()
    ensures Monotone(Steep())
    ensures exists t :: Solves(Steep(), 0.5, Spent, t) && Abs(X(Steep(), t) - 0.5) > 8.0 * TOLERANCE
  {
    var t1 := SteepFirst();
    SteepTable();
    hide Descend, Rate, Tangent, Steep, X, SteepDown;
    var t2 := SteepStep(t1, 5, 1.0, 0.8333);
    var t3 := SteepStep(t2, 4, 0.8333, 0.7233);
    var t4 := SteepStep(t3, 3, 0.7233, 0.6527);
    var t5 := SteepStep(t4, 2, 0.6527, 0.6117);
    var t := SteepStep(t5, 1, 0.6117, 0.594);
    SteepEnd(t);
    assert Solves(Steep(), 0.5, Spent, t);
  }

  lemma SteepFirst() returns (t: real)
    ensures t == 1.0 && Descend(Steep(), 0.5, 0.5, 6) == Descend(Steep(), 0.5, t, 5)
  {
    t := Tangent(Steep(), 0.5, 0.5);
    assert X(Steep(), 0.5) == 0.49625 && Rate(Steep(), 0.5) == 0.0075;
    Onward(Steep(), 0.5, 0.5, 6);
  }

  /** A step from l or above ends at l2 or above. */
  ghost predicate SteepDown(l: real, l2: real) {
    && X(Steep(), l) - 0.5 >= 0.000001 && Bend(Steep(), l2, l) >= 0.0
    && X(Steep(), l2) - Product(Square(l - l2), Bend(Steep(), l2, l)) <= 0.5
  }

  lemma SteepTable()
    ensures SteepDown(1.0, 0.8333) && SteepDown(0.8333, 0.7233) && SteepDown(0.7233, 0.6527)
    ensures SteepDown(0.6527, 0.6117) && SteepDown(0.6117, 0.594)
  {
  }

  lemma SteepStep(t: real, n: nat, l: real, l2: real) returns (next: real)
    requires n > 0 && 0.0 <= l2 <= l <= t <= 1.0 && SteepDown(l, l2)
    ensures l2 <= next <= 1.0
    ensures Descend(Steep(), 0.5, t, n) == Descend(Steep(), 0.5, next, n - 1)
  {
    SteepSlope(t);
    assert Bend(Steep(), l2, 1.0) >= Bend(Steep(), l2, l);
    hide X, Rate, Bend, Tangent, Product, Square;
    assert Monotone(Steep());
    StepsDown(Steep(), 0.5, t, n, l, 1.0, l2);
    next := Tangent(Steep(), 0.5, t);
  }

  lemma SteepEnd(t: real)
    requires 0.594 <= t <= 1.0
    ensures X(Steep(), t) - 0.5 > 8.0 * TOLERANCE && Monotone(Steep())
    ensures Descend(Steep(), 0.5, t, 0) == Stop(Spent, t)
  {
    Rises(Steep(), 0.594, t);
    assert X(Steep(), 0.594) >= 0.50038;
  }

  // ----- The shipped curves -----

  function Linear(): Curve { Curve(0.0, 0.0, 1.0, 1.0) }
  function Default(): Curve { Curve(0.25, 0.1, 0.25, 1.0) }
  function EaseIn(): Curve { Curve(0.42, 0.0, 1.0, 1.0) }
  function EaseOut(): Curve { Curve(0.0, 0.0, 0.58, 1.0) }
  function EaseInOut(): Curve { Curve(0.42, 0.0, 0.58, 1.0) }

  /** Whatever the solver answers at that progress is within the tolerance. */
  ghost predicate AccurateAt(c: Curve, progress: real) {
    forall exit, t :: Solves(c, progress, exit, t) ==> Accurate(c, progress, t)
  }

  /** At that progress the solver is spent and out of tolerance. */
  ghost predicate Misses(c: Curve, progress: real) {
    exists t :: Solves(c, progress, Spent, t) && !Accurate(c, progress, t)
  }

  lemma MissIsInaccurate(c: Curve, progress: real)
    requires Misses(c, progress)
    ensures !AccurateAt(c, progress)
  {
    hide Solves, Accurate;
  }

  /** Just above zero the ease-out curve rises too slowly: the sixth step leaves the solver out of
      tolerance. */
  lemma EaseOutMisses()
    ensures Misses(EaseOut(), 0.0001)
  {
    hide Descend, Rate, Tangent, EaseOut, X, Band;
    OutTable();
    var t1 := OutFirst();
    OutCoefficients();
    OutSlope(t1);
    var t2 := BandStep(EaseOut(), 0.0001, t1, 4, 0.2874, 0.2875, 0.13306, 0.13312);
    OutSlope(t2);
    var t3 := BandStep(EaseOut(), 0.0001, t2, 3, 0.13306, 0.13312, 0.0647, 0.06474);
    OutSlope(t3);
    var t4 := BandStep(EaseOut(), 0.0001, t3, 2, 0.0647, 0.06474, 0.03234, 0.03237);
    OutSlope(t4);
    var t5 := BandStep(EaseOut(), 0.0001, t4, 1, 0.03234, 0.03237, 0.01696, 0.01698);
    OutSlope(t5);
    var t := BandStep(EaseOut(), 0.0001, t5, 0, 0.01696, 0.01698, 0.01016, 0.01017);
    OutEnd(t);
    assert Solves(EaseOut(), 0.0001, Spent, t) && !Accurate(EaseOut(), 0.0001, t);
  }

  /** A step from [l, u] ends in [l2, u2]. */
  ghost predicate Band(c: Curve, progress: real, l: real, u: real, l2: real, u2: real) {
    && X(c, l) - progress >= 0.000001
    && 0.0 <= Bend(c, l2, u) <= Bend(c, l2, l) && 0.0 <= Bend(c, u2, u) <= Bend(c, u2, l)
    && X(c, l2) - Product(Square(l - l2), Bend(c, l2, u)) <= progress
    && X(c, u2) - Product(Square(u - u2), Bend(c, u2, l)) >= progress
  }

  lemma OutTable()
    ensures Band(EaseOut(), 0.0001, 0.2874, 0.2875, 0.13306, 0.13312)
    ensures Band(EaseOut(), 0.0001, 0.13306, 0.13312, 0.0647, 0.06474)
    ensures Band(EaseOut(), 0.0001, 0.0647, 0.06474, 0.03234, 0.03237)
    ensures Band(EaseOut(), 0.0001, 0.03234, 0.03237, 0.01696, 0.01698)
    ensures Band(EaseOut(), 0.0001, 0.01696, 0.01698, 0.01016, 0.01017)
  {
  }

  lemma OutFirst() returns (t: real)
    ensures 0.2874 <= t <= 0.2875 && Descend(EaseOut(), 0.0001, 0.0001, 6) == Descend(EaseOut(), 0.0001, t, 5)
  {
    var c, p := EaseOut(), 0.0001;
    assert X(c, p) == 0.00000001739926 && Rate(c, p) == 0.0003479778;
    assert Product(p - 0.2875, 0.0003479778) <= X(c, p) - p <= Product(p - 0.2874, 0.0003479778);
    t := Tangent(c, p, p);
    hide X, Rate, Tangent, Product;
    CrossesBetween(c, p, p, 0.2874, 0.2875);
    Onward(c, p, p, 6);
  }

  lemma OutSlope(t: real)
    requires 0.01 <= t <= 0.3
    ensures Rate(EaseOut(), t) >= 0.000001
  {
    RateIs(EaseOut(), t);
    OutCoefficients();
    hide A, B, C, Rate, EaseOut;
    OutQuadratic(t);
  }

  lemma OutCoefficients()
    ensures A(EaseOut()) == -0.74 && B(EaseOut()) == 1.74 && C(EaseOut()) == 0.0 && Monotone(EaseOut())
  {
  }

  lemma OutQuadratic(t: real)
    requires 0.01 <= t <= 0.3
    ensures Quadratic(-0.74, 1.74, 0.0, t) >= 0.000001
  {
    var f := 3.48 - 2.22 * t;
    assert Quadratic(-0.74, 1.74, 0.0, t) == Product(t, f);
    hide Quadratic, Product;
    ProductMono(t, 2.0, f);
    Constants(t);
  }

  lemma BandStep(c: Curve, progress: real, t: real, n: nat, l: real, u: real, l2: real, u2: real)
      returns (next: real)
    requires 0.0 <= l2 <= u2 <= l <= t <= u <= 1.0 && Monotone(c) && Rate(c, t) >= 0.000001
    requires Band(c, progress, l, u, l2, u2)
    ensures l2 <= next <= u2
    ensures Descend(c, progress, t, n + 1) == Descend(c, progress, next, n)
  {
    hide X, Rate, Bend, Tangent, Product, Square, Descend;
    StepsDown(c, progress, t, n + 1, l, u, l2);
    StepsBelow(c, progress, t, l, u, u2);
    next := Tangent(c, progress, t);
  }

  lemma OutEnd(t: real)
    requires 0.01016 <= t <= 1.0
    ensures X(EaseOut(), t) - 0.0001 > TOLERANCE
    ensures Descend(EaseOut(), 0.0001, t, 0) == Stop(Spent, t)
  {
    Rises(EaseOut(), 0.01016, t);
    assert X(EaseOut(), 0.01016) >= 0.000178;
  }

  // ----- Turning a curve around -----

  function Turned(c: Curve): Curve { Curve(1.0 - c.p2x, 1.0 - c.p2y, 1.0 - c.p1x, 1.0 - c.p1y) }

  lemma TurnedPoint(c: Curve, t: real)
    ensures X(Turned(c), 1.0 - t) == 1.0 - X(c, t) && Rate(Turned(c), 1.0 - t) == Rate(c, t)
  {
    var d := Turned(c);
    assert A(d) == A(c) && B(d) == -(3.0 * A(c) + B(c)) && C(d) == 3.0 * A(c) + 2.0 * B(c) + C(c);
    assert A(c) + B(c) + C(c) == 1.0;
    HeightIs(d, 1.0 - t);
    HeightIs(c, t);
    RateIs(d, 1.0 - t);
    RateIs(c, t);
    TurnedHorner(A(c), B(c), C(c), t);
  }

  lemma TurnedHorner(a: real, b: real, k: real, t: real)
    ensures Horner(a, -(3.0 * a + b), 3.0 * a + 2.0 * b + k, 1.0 - t) == a + b + k - Horner(a, b, k, t)
    ensures Quadratic(a, -(3.0 * a + b), 3.0 * a + 2.0 * b + k, 1.0 - t) == Quadratic(a, b, k, t)
  {
  }

  lemma TurnedTangent(c: Curve, progress: real, t: real)
    requires Rate(c, t) != 0.0
    ensures Rate(Turned(c), 1.0 - t) != 0.0
    ensures Tangent(Turned(c), 1.0 - progress, 1.0 - t) == 1.0 - Tangent(c, progress, t)
  {
    TurnedPoint(c, t);
    var e, r := X(c, t) - progress, Rate(c, t);
    assert -e / r == -(e / r);
    hide X, Rate;
  }

  /** The solver treats a curve and the curve turned around alike. */
  lemma {:induction false} TurnedDescend(c: Curve, progress: real, t: real, n: nat)
    ensures var s := Descend(c, progress, t, n);
      Descend(Turned(c), 1.0 - progress, 1.0 - t, n) == Stop(s.exit, 1.0 - s.t)
    decreases n
  {
    hide X, Rate, Tangent, Turned;
    if n > 0 {
      TurnedPoint(c, t);
      if Abs(Rate(c, t)) >= 0.000001 && Abs(X(c, t) - progress) >= 0.000001 {
        TurnedTangent(c, progress, t);
        var next := Tangent(c, progress, t);
        if 0.0 <= next <= 1.0 { TurnedDescend(c, progress, next, n - 1); }
      }
    }
  }

  lemma TurnedMiss(c: Curve, progress: real, t: real)
    requires Solves(c, progress, Spent, t) && !Accurate(c, progress, t)
    ensures Solves(Turned(c), 1.0 - progress, Spent, 1.0 - t) && !Accurate(Turned(c), 1.0 - progress, 1.0 - t)
  {
    TurnedDescend(c, progress, progress, 6);
    TurnedPoint(c, t);
    hide X, Descend, Turned;
  }

  lemma TurnedMisses(c: Curve, progress: real)
    requires Misses(c, progress)
    ensures Misses(Turned(c), 1.0 - progress)
  {
    hide Solves, Accurate, Turned;
    var t :| Solves(c, progress, Spent, t) && !Accurate(c, progress, t);
    TurnedMiss(c, progress, t);
  }

  /** And so does the ease-in curve, which is ease-out turned around, just below one. */
  lemma EaseInMisses()
    ensures Misses(EaseIn(), 0.9999)
  {
    assert Turned(EaseOut()) == EaseIn();
    hide *;
    EaseOutMisses();
    TurnedMisses(EaseOut(), 0.0001);
  }

  // ----- Curves that are steady throughout -----

  /** The first error, when the error at the start is at most w times the slope there. */
  lemma FirstErrorBound(c: Curve, progress: real, h: real, w: real)
    requires Rate(c, progress) > 0.0 && BendFrom(c, progress) <= h && 0.0 <= w
    requires Abs(X(c, progress) - progress) <= Product(w, Rate(c, progress))
    ensures 0.0 <= FirstError(c, progress) <= Product(Square(w), h)
  {
    hide X, Rate, BendFrom, Product, Square, Gain;
    var r, e, h0 := Rate(c, progress), Abs(X(c, progress) - progress), BendFrom(c, progress);
    var g := Gain(h0, r);
    BendsNotNegative(c, progress);
    FactorSign(h0, r);
    Factor(h0, r);
    SquareMono(g, e, Product(w, r));
    SquareOfProduct(g, w, r);
    SquareTimes(w, w, h0, h);
  }

  lemma SquareOfProduct(g: real, w: real, r: real)
    ensures Product(g, Square(Product(w, r))) == Product(Square(w), Product(g, Square(r)))
  {
    var ww, rr := w * w, r * r;
    assert w * r * (w * r) == ww * rr;
    assert g * (ww * rr) == ww * (g * rr);
  }

  lemma SteadyBy(c: Curve, progress: real, h: real, w: real, q: real)
    requires 0.0 <= progress <= 1.0 && MinRate(c) >= 0.000001 && BendFrom(c, progress) <= h && 0.0 <= w
    requires Abs(X(c, progress) - progress) <= Product(w, Rate(c, progress)) && Product(Square(w), h) <= q
    requires After(q, Gain(MaxBend(c), MinRate(c)), 5) <= TOLERANCE
    ensures Steady(c, progress)
  {
    hide X, Rate, BendFrom, MaxBend, MinRate, Product, Square, Gain, After, FirstError;
    MinRateAt(c, progress);
    FirstErrorBound(c, progress, h, w);
    BendsNotNegative(c, progress);
    FactorSign(MaxBend(c), MinRate(c));
    AfterMono(FirstError(c, progress), q, Gain(MaxBend(c), MinRate(c)), 5);
  }

  lemma DefaultNumbers()
    ensures var c := Default();
      && A(c) == 1.0 && B(c) == -0.75 && C(c) == 0.75
      && MinRate(c) == 0.5625 && MaxBend(c) == 2.25 && Gain(2.25, 0.5625) == 64.0 / 9.0
  {
  }

  lemma DefaultAfter()
    ensures After(0.105, 64.0 / 9.0, 5) <= TOLERANCE
  {
  }

  lemma DefaultIsSteady(progress: real)
    requires 0.0 <= progress <= 1.0
    ensures Steady(Default(), progress)
  {
    DefaultNumbers();
    DefaultAfter();
    DefaultError(progress);
    hide *;
    if progress <= 0.65 {
      SteadyBy(Default(), progress, 1.55, 0.26, 0.105);
    } else {
      SteadyBy(Default(), progress, 2.25, 0.2, 0.105);
    }
  }

  lemma DefaultError(p: real)
    requires 0.0 <= p <= 1.0
    ensures BendFrom(Default(), p) <= if p <= 0.65 then 1.55 else 2.25
    ensures Abs(X(Default(), p) - p) <= Product(if p <= 0.65 then 0.26 else 0.2, Rate(Default(), p))
    ensures Product(Square(0.26), 1.55) <= 0.105 && Product(Square(0.2), 2.25) <= 0.105
  {
    DefaultNumbers();
    HeightIs(Default(), p);
    RateIs(Default(), p);
    hide A, B, C, X, Rate, Default, Horner, Quadratic;
    DefaultNotAbove(p);
    if p <= 0.65 { DefaultLow(p); } else { DefaultHigh(p); }
    DefaultScaled(Rate(Default(), p));
  }

  lemma DefaultScaled(r: real)
    ensures Product(0.26, r) == 0.26 * r && Product(0.2, r) == 0.2 * r
    ensures Product(Square(0.26), 1.55) <= 0.105 && Product(Square(0.2), 2.25) <= 0.105
  {
  }

  lemma DefaultNotAbove(p: real)
    requires 0.0 <= p <= 1.0
    ensures Horner(1.0, -0.75, 0.75, p) <= p
  {
    assert Horner(1.0, -0.75, 0.75, p) - p == -Product(Product(p, 1.0 - p), p + 0.25);
    hide Product, Horner;
    ProductNonNegative(p, 1.0 - p);
    ProductNonNegative(Product(p, 1.0 - p), p + 0.25);
  }

  lemma DefaultLow(p: real)
    requires 0.0 <= p <= 1.0
    ensures p - Horner(1.0, -0.75, 0.75, p) <= 0.26 * Quadratic(1.0, -0.75, 0.75, p)
  {
    var f := Product(Square(p - 0.45), p + 0.93);
    assert 0.26 * Quadratic(1.0, -0.75, 0.75, p) + Horner(1.0, -0.75, 0.75, p) - p == f + 0.006675 - 0.0055 * p;
    NonNegativeSquare(p - 0.45);
    assert Square(p - 0.45) >= 0.0;
    hide Product, Horner, Quadratic, Square;
    ProductNonNegative(Square(p - 0.45), p + 0.93);
  }

  lemma DefaultHigh(p: real)
    requires 0.65 <= p <= 1.0
    ensures p - Horner(1.0, -0.75, 0.75, p) <= 0.2 * Quadratic(1.0, -0.75, 0.75, p)
  {
    var g := Product(p, p) + 0.5 * p - 0.225;
    assert 0.2 * Quadratic(1.0, -0.75, 0.75, p) + Horner(1.0, -0.75, 0.75, p) - p == Product(p - 0.65, g) + 0.00375;
    hide Product, Horner, Quadratic;
    ProductNonNegative(p, p);
    ProductNonNegative(p - 0.65, g);
  }

  lemma InOutNumbers()
    ensures var c := EaseInOut();
      && A(c) == 0.52 && B(c) == -0.78 && C(c) == 1.26
      && MinRate(c) == 0.87 && MaxBend(c) == 0.78 && 1.0 <= Gain(0.78, 0.87) <= 1.1
  {
  }

  lemma InOutAfter(k: real)
    requires 0.0 <= k <= 1.1
    ensures After(0.005, k, 5) <= TOLERANCE
  {
    hide Product, Square;
    SmallSquare(k, 0.005);
    AfterMono(Product(k, Square(0.005)), 0.00003, k, 4);
    AfterSmall(0.00003, k, 4);
  }

  lemma SmallSquare(k: real, x: real)
    requires 0.0 <= k <= 1.1 && 0.0 <= x <= 0.005
    ensures 0.0 <= Product(k, Square(x)) <= 0.00003 && Product(k, Square(x)) <= x
  {
    SquareMono(k, x, 0.005);
    SquareMono(k, 0.0, x);
    ScaledProduct(k, 0.005, x);
    assert Square(x) == Product(x, x) && Square(0.005) == 0.000025;
    hide Product, Square;
    ProductMono(x, x, 0.005);
    Constants(k);
    ProductMono(k, Square(x), 0.005 * x);
    ProductMono(x, k, 1.1);
  }

  lemma ScaledProduct(k: real, y: real, x: real)
    ensures Product(k, y * x) == y * Product(x, k) && Product(x, 1.1) == 1.1 * x
    ensures Product(k, 0.000025) == 0.000025 * k && Product(x, y) == y * x
  {
  }

  lemma {:induction false} AfterSmall(x: real, k: real, n: nat)
    requires 0.0 <= k <= 1.1 && 0.0 <= x <= 0.005
    ensures After(x, k, n) <= x
    decreases n
  {
    hide Product, Square;
    if n > 0 {
      SmallSquare(k, x);
      AfterSmall(Product(k, Square(x)), k, n - 1);
    }
  }

  lemma InOutError(p: real)
    requires 0.0 <= p <= 1.0
    ensures BendFrom(EaseInOut(), p) <= 0.78
    ensures Abs(X(EaseInOut(), p) - p) <= Product(0.075, Rate(EaseInOut(), p))
    ensures Product(Square(0.075), 0.78) <= 0.005
  {
    InOutNumbers();
    HeightIs(EaseInOut(), p);
    InOutHorner(p);
    MinRateAt(EaseInOut(), p);
    hide A, B, C, X, Rate, EaseInOut, Horner, MinRate;
  }

  lemma InOutHorner(p: real)
    requires 0.0 <= p <= 1.0
    ensures Abs(Horner(0.52, -0.78, 1.26, p) - p) <= 0.065
  {
    var f := Product(p, 1.0 - p);
    assert Horner(0.52, -0.78, 1.26, p) - p == 0.26 * Product(f, 1.0 - 2.0 * p);
    assert Square(p - 0.5) == 0.25 - f;
    NonNegativeSquare(p - 0.5);
    assert Square(p - 0.5) >= 0.0;
    hide Product, Horner, Square;
    ProductNonNegative(p, 1.0 - p);
    Constants(f);
    ProductMono(f, 1.0 - 2.0 * p, 1.0);
    ProductMono(f, -1.0, 1.0 - 2.0 * p);
    NegatedOne(f);
  }

  lemma NegatedOne(f: real)
    ensures Product(f, -1.0) == -f
  {
  }

  lemma EaseInOutIsSteady(progress: real)
    requires 0.0 <= progress <= 1.0
    ensures Steady(EaseInOut(), progress)
  {
    InOutNumbers();
    InOutError(progress);
    hide *;
    InOutAfter(Gain(0.78, 0.87));
    SteadyBy(EaseInOut(), progress, 0.78, 0.075, 0.005);
  }

  /** Of the shipped curves, all but ease-in and ease-out are answered within the tolerance at every
      progress. */
  lemma ShippedCurves(c: Curve)
    requires c in {Linear(), Default(), EaseIn(), EaseOut(), EaseInOut()}
    ensures Diagonal(c) || (forall p :: 0.0 < p < 1.0 ==> AccurateAt(c, p))
       <==> c != EaseIn() && c != EaseOut()
  {
    ShapesDiffer();
    hide Solves, Accurate, Steady, Default, Linear, EaseIn, EaseOut, EaseInOut, Diagonal;
    if c == EaseIn() {
      EaseInMisses();
      MissIsInaccurate(c, 0.9999);
    } else if c == EaseOut() {
      EaseOutMisses();
      MissIsInaccurate(c, 0.0001);
    } else if c != Linear() {
      forall p | 0.0 < p < 1.0 ensures AccurateAt(c, p) {
        if c == Default() { DefaultIsSteady(p); } else { EaseInOutIsSteady(p); }
        forall exit, t | Solves(c, p, exit, t) ensures Accurate(c, p, t) { SteadyIsAccurate(c, p, exit, t); }
      }
    }
  }

  lemma ShapesDiffer()
    ensures Diagonal(Linear()) && !Diagonal(EaseIn()) && !Diagonal(EaseOut())
    ensures EaseIn() !in {Linear(), Default(), EaseOut(), EaseInOut()}
    ensures EaseOut() !in {Linear(), Default(), EaseInOut()}
    ensures Monotone(Default()) && Monotone(EaseInOut())
  {
  }
}
