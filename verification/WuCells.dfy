/** What the cells of the histogram are, in colour coordinates, and what that says of the quantised
    points. */
module WuCells {
  import opened RealArith
  import opened WuHistogram
  import opened WuMass
  import opened WuPartition

  /** Where the k-th cell of an axis ends. */
  function Edge(axis: Axis, k: int): real {
    if axis == AxisL then k as real / 32.0 else k as real * 0.025 - 0.4
  }

  function Component(s: Sample, axis: Axis): real {
    match axis case AxisL => s.l case AxisA => s.a case AxisB => s.b
  }

  lemma Threshold(x: real, k: int)
    requires 1 <= k < BINS
    ensures Clamp(Truncate(x) + 1, 1, BINS) <= k <==> x < k as real
  {
  }

  /** A sample lies in one of the first k cells of an axis exactly when its colour lies before the
      end of the k-th; the outer cells take everything beyond. */
  lemma CellIs(s: Sample, axis: Axis, k: int)
    requires 1 <= k < BINS
    ensures 1 <= Coord(s, axis) <= BINS
    ensures Coord(s, axis) <= k <==> Component(s, axis) < Edge(axis, k)
  {
    Threshold(s.l * 32.0, k);
    Threshold((s.a + 0.4) * (1.0 / 0.8) * 32.0, k);
    Threshold((s.b + 0.4) * (1.0 / 0.8) * 32.0, k);
    hide Clamp, Truncate;
    Steps(s.a, k);
    Steps(s.b, k);
  }

  lemma Steps(x: real, k: int)
    ensures (x + 0.4) * (1.0 / 0.8) * 32.0 < k as real <==> x < k as real * 0.025 - 0.4
  {
  }

  /** The ranges the grid is laid over. */
  predicate InGamut(s: Sample) {
    0.0 <= s.l < 1.0 && -0.4 <= s.a < 0.4 && -0.4 <= s.b < 0.4
  }

  /** Inside the ranges a cell is a half-open interval of width 1/32 in lightness and 0.025 else. */
  lemma CellInterval(s: Sample, axis: Axis)
    requires InGamut(s)
    ensures Edge(axis, Coord(s, axis) - 1) <= Component(s, axis) < Edge(axis, Coord(s, axis))
  {
    hide CellL, CellA, CellB;
    var c := Coord(s, axis);
    if c < BINS { CellIs(s, axis, c); }
    if c > 1 { CellIs(s, axis, c - 1); }
    CellIs(s, axis, 1);
  }

  function CellWidth(axis: Axis): real { if axis == AxisL then 1.0 / 32.0 else 0.025 }

  lemma EdgeSteps(axis: Axis, k: int)
    ensures Edge(axis, k) - Edge(axis, k - 1) == CellWidth(axis)
  {
  }

  ghost predicate Within1(x: real, y: real, d: real) { -d < x - y < d }

  /** Samples of the ranges share a cell only when they differ by less than a cell's width. */
  lemma SameCellClose(s: Sample, t: Sample, axis: Axis)
    requires InGamut(s) && InGamut(t) && PackSample(s) == PackSample(t)
    ensures Within1(Component(s, axis), Component(t, axis), CellWidth(axis))
  {
    hide Edge, CellL, CellA, CellB;
    PackInjective(CellL(s), CellA(s), CellB(s), CellL(t), CellA(t), CellB(t));
    CellInterval(s, axis);
    CellInterval(t, axis);
    EdgeSteps(axis, Coord(s, axis));
  }

  // ----- Points -----

  function PointComponent(p: WeightedPoint, axis: Axis): real {
    match axis case AxisL => p.l case AxisA => p.a case AxisB => p.b
  }

  function SumComponent(b: Bin, axis: Axis): real {
    match axis case AxisL => b.l case AxisA => b.a case AxisB => b.b
  }

  lemma EdgeMono(axis: Axis, j: int, k: int)
    requires j <= k
    ensures Edge(axis, j) <= Edge(axis, k)
  {
    assert j as real <= k as real;
  }

  /** A sample in a box lies between the box's edges. */
  lemma InBoxInterval(s: Sample, box: Box, axis: Axis)
    requires InGamut(s) && InBox(s, box)
    ensures Edge(axis, Low(box, axis)) <= Component(s, axis) < Edge(axis, High(box, axis))
  {
    hide Edge, CellL, CellA, CellB, Component;
    CellInterval(s, axis);
    EdgeMono(axis, Low(box, axis), Coord(s, axis) - 1);
    EdgeMono(axis, Coord(s, axis), High(box, axis));
  }

  ghost predicate AllInGamut(samples: seq<Sample>) {
    forall n :: 0 <= n < |samples| ==> InGamut(samples[n])
  }

  /** The sum x of w values that are at least lo and below hi. */
  ghost predicate Bounded(lo: real, hi: real, w: real, x: real) {
    w >= 0.0 && lo * w <= x <= hi * w && (w > 0.0 ==> x < hi * w)
  }

  lemma OneMore(lo: real, hi: real, w: real, x: real, c: real)
    requires Bounded(lo, hi, w, x) && lo <= c < hi
    ensures Bounded(lo, hi, w + 1.0, x + c)
  {
    Spread(lo, w, 1.0);
    Spread(hi, w, 1.0);
  }

  lemma NoneYet(lo: real, hi: real)
    ensures Bounded(lo, hi, 0.0, 0.0)
  {
  }

  /** The colour sums of a box lie between its edges, times its weight. */
  lemma {:induction false} SumInterval(samples: seq<Sample>, box: Box, axis: Axis)
    requires AllInGamut(samples)
    ensures var m := Mass(samples, box);
      Bounded(Edge(axis, Low(box, axis)), Edge(axis, High(box, axis)), m.w, SumComponent(m, axis))
  {
    hide *;
    if samples == [] {
      MassOfNothing();
      SumOfNothing(box, axis);
    } else {
      FewerInGamut(samples);
      SumInterval(samples[..|samples| - 1], box, axis);
      SumGrows(samples, box, axis);
    }
  }

  lemma SumOfNothing(box: Box, axis: Axis)
    ensures Bounded(Edge(axis, Low(box, axis)), Edge(axis, High(box, axis)), Mass([], box).w,
                    SumComponent(Mass([], box), axis))
  {
    hide Edge, Bounded, Low, High;
    NoneYet(Edge(axis, Low(box, axis)), Edge(axis, High(box, axis)));
  }

  lemma FewerInGamut(samples: seq<Sample>)
    requires AllInGamut(samples) && samples != []
    ensures AllInGamut(samples[..|samples| - 1]) && InGamut(samples[|samples| - 1])
  {
    hide InGamut;
  }

  lemma SumGrows(samples: seq<Sample>, box: Box, axis: Axis)
    requires samples != [] && InGamut(samples[|samples| - 1])
    requires var m := Mass(samples[..|samples| - 1], box);
      Bounded(Edge(axis, Low(box, axis)), Edge(axis, High(box, axis)), m.w, SumComponent(m, axis))
    ensures var m := Mass(samples, box);
      Bounded(Edge(axis, Low(box, axis)), Edge(axis, High(box, axis)), m.w, SumComponent(m, axis))
  {
    hide Edge, InBox, InGamut, Component, Mass, Bounded, Unit, Low, High;
    var s, m := samples[|samples| - 1], Mass(samples[..|samples| - 1], box);
    MassStep(samples, box);
    if InBox(s, box) {
      InBoxInterval(s, box, axis);
      UnitComponent(s, axis);
      OneMore(Edge(axis, Low(box, axis)), Edge(axis, High(box, axis)), m.w, SumComponent(m, axis), Component(s, axis));
    }
  }

  lemma UnitComponent(s: Sample, axis: Axis)
    ensures Unit(s).w == 1.0 && SumComponent(Unit(s), axis) == Component(s, axis)
  {
  }

  /** The point of a box lies between the box's edges. */
  lemma PointInterval(samples: seq<Sample>, box: Box, axis: Axis)
    requires AllInGamut(samples) && Mass(samples, box).w > 0.0
    ensures Edge(axis, Low(box, axis)) <= PointComponent(PointOf(Mass(samples, box)), axis)
    ensures PointComponent(PointOf(Mass(samples, box)), axis) < Edge(axis, High(box, axis))
  {
    hide Edge, Mass, InGamut;
    SumInterval(samples, box, axis);
    var m := Mass(samples, box);
    Quotient(SumComponent(m, axis), m.w, Edge(axis, Low(box, axis)), Edge(axis, High(box, axis)));
  }

  lemma Quotient(x: real, w: real, lo: real, hi: real)
    requires w > 0.0 && lo * w <= x < hi * w
    ensures lo <= x * (1.0 / w) < hi
  {
    DivideBack(1.0, w);
    var q := x * (1.0 / w);
    assert q * w == x * ((1.0 / w) * w);
    if q < lo { LessTimes(q, lo, w); }
    if q >= hi { LeTimes(hi, q, w); }
  }

  /** What quantisation promises for samples inside the ranges: every point lies in its box. */
  ghost predicate PointsInside(cells: seq<Box>, points: seq<WeightedPoint>) {
    |points| == |cells|
    && forall k, axis :: 0 <= k < |cells| ==>
         Edge(axis, Low(cells[k], axis)) <= PointComponent(points[k], axis) < Edge(axis, High(cells[k], axis))
  }

  lemma PointsLieInside(samples: seq<Sample>, cells: seq<Box>, points: seq<WeightedPoint>)
    requires AllInGamut(samples) && PointsOf(samples, cells, points)
    ensures PointsInside(cells, points)
  {
    hide Mass, Edge, InGamut, PointOf;
    forall k, axis | 0 <= k < |cells|
      ensures Edge(axis, Low(cells[k], axis)) <= PointComponent(points[k], axis) < Edge(axis, High(cells[k], axis))
    {
      PointInterval(samples, cells[k], axis);
    }
  }

  /** Cell by cell, every sample lies within a cell's width of the point that stands for it. */
  lemma SamplesNearPoints(samples: seq<Sample>, cells: seq<Box>, points: seq<WeightedPoint>, n: nat, k: nat, axis: Axis)
    requires AllInGamut(samples) && CellByCell(samples, cells) && PointsOf(samples, cells, points)
    requires n < |samples| && k < |cells| && InBox(samples[n], cells[k])
    ensures k < |points|
    ensures Within1(Component(samples[n], axis), PointComponent(points[k], axis), CellWidth(axis))
  {
    hide Mass, Edge, InGamut, PointOf, InBox, Component;
    PointsLieInside(samples, cells, points);
    CellsAreUnit(samples, cells, k, axis);
    InBoxInterval(samples[n], cells[k], axis);
    EdgeSteps(axis, High(cells[k], axis));
  }

  lemma CellsAreUnit(samples: seq<Sample>, cells: seq<Box>, k: nat, axis: Axis)
    requires CellByCell(samples, cells) && k < |cells|
    ensures Low(cells[k], axis) == High(cells[k], axis) - 1
  {
    hide ListsCells;
  }

  /** Cell by cell, every sample has its point nearby. */
  ghost predicate NearPoints(samples: seq<Sample>, cells: seq<Box>, points: seq<WeightedPoint>) {
    |points| == |cells|
    && forall n, k, axis :: 0 <= n < |samples| && 0 <= k < |cells| && InBox(samples[n], cells[k]) ==>
         Within1(Component(samples[n], axis), PointComponent(points[k], axis), CellWidth(axis))
  }

  lemma CellwiseNear(samples: seq<Sample>, cells: seq<Box>, points: seq<WeightedPoint>)
    requires AllInGamut(samples) && CellByCell(samples, cells) && PointsOf(samples, cells, points)
    ensures NearPoints(samples, cells, points)
  {
    hide CellByCell, AllInGamut, InBox, Within1, Component, PointComponent, CellWidth;
    assert |points| == |cells|;
    hide PointsOf;
    forall n, k, axis | 0 <= n < |samples| && 0 <= k < |cells| && InBox(samples[n], cells[k])
      ensures Within1(Component(samples[n], axis), PointComponent(points[k], axis), CellWidth(axis))
    {
      SamplesNearPoints(samples, cells, points, n, k, axis);
    }
  }
}
