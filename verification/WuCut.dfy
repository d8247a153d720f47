/** Box sums out of the cumulative histogram and the best cut of a box. */
module WuCut {
  import opened WuMass
  import opened WuHistogram
  import opened WuVariance

  datatype WuBox = WuBox(box: Box, variance: real)

  /** A box whose corners lie in the cumulative part of the histogram. */
  ghost predicate Fits(h: Histogram, box: Box)
    reads h
  {
    && 0 <= box.l0 <= box.l1 <= h.maxL <= BINS
    && 0 <= box.a0 <= box.a1 <= h.maxA <= BINS
    && 0 <= box.b0 <= box.b1 <= h.maxB <= BINS
  }

  ghost predicate OnGrid(box: Box) {
    && 0 <= box.l0 < GRID && 0 <= box.l1 < GRID
    && 0 <= box.a0 < GRID && 0 <= box.a1 < GRID
    && 0 <= box.b0 < GRID && 0 <= box.b1 < GRID
  }

  /** The signed sum over the corners of a box, named by upper (1) and lower (0) ends. */
  function Eight(c111: Bin, c110: Bin, c101: Bin, c100: Bin, c011: Bin, c010: Bin, c001: Bin, c000: Bin): Bin {
    c111.Minus(c110).Minus(c101).Plus(c100).Minus(c011).Plus(c010).Plus(c001).Minus(c000)
  }

  function Four(c11: Bin, c10: Bin, c01: Bin, c00: Bin): Bin {
    c11.Minus(c10).Minus(c01).Plus(c00)
  }

  function Below(p0: Bin, p1: Bin, p2: Bin, p3: Bin): Bin {
    p1.Minus(p0).Plus(p2).Minus(p3)
  }

  lemma FourFromPairs(c11: Bin, c10: Bin, c01: Bin, c00: Bin)
    ensures c11.Minus(c10).Minus(c01.Minus(c00)) == Four(c11, c10, c01, c00)
  {
  }

  lemma EightFromFours(c111: Bin, c110: Bin, c101: Bin, c100: Bin, c011: Bin, c010: Bin, c001: Bin, c000: Bin)
    ensures Four(c111, c110, c101, c100).Minus(Four(c011, c010, c001, c000)) ==
            Eight(c111, c110, c101, c100, c011, c010, c001, c000)
  {
  }

  lemma FourCorners(samples: seq<Sample>, l: int, box: Box)
    requires 0 <= l && 0 <= box.a0 <= box.a1 && 0 <= box.b0 <= box.b1
    ensures Mass(samples, Box(0, l, box.a0, box.a1, box.b0, box.b1)) ==
            Four(Mass(samples, UpTo(l, box.a1, box.b1)), Mass(samples, UpTo(l, box.a1, box.b0)),
                 Mass(samples, UpTo(l, box.a0, box.b1)), Mass(samples, UpTo(l, box.a0, box.b0)))
  {
    MassDifference(samples, Box(0, l, box.a0, box.a1, box.b0, box.b1), AxisA);
    MassDifference(samples, Box(0, l, 0, box.a1, box.b0, box.b1), AxisB);
    MassDifference(samples, Box(0, l, 0, box.a0, box.b0, box.b1), AxisB);
    FourFromPairs(Mass(samples, UpTo(l, box.a1, box.b1)), Mass(samples, UpTo(l, box.a1, box.b0)),
                  Mass(samples, UpTo(l, box.a0, box.b1)), Mass(samples, UpTo(l, box.a0, box.b0)));
  }

  /** The mass of a box out of eight masses that start at the origin. */
  lemma EightCorners(samples: seq<Sample>, box: Box)
    requires 0 <= box.l0 <= box.l1 && 0 <= box.a0 <= box.a1 && 0 <= box.b0 <= box.b1
    ensures Mass(samples, box) ==
            Eight(Mass(samples, UpTo(box.l1, box.a1, box.b1)), Mass(samples, UpTo(box.l1, box.a1, box.b0)),
                  Mass(samples, UpTo(box.l1, box.a0, box.b1)), Mass(samples, UpTo(box.l1, box.a0, box.b0)),
                  Mass(samples, UpTo(box.l0, box.a1, box.b1)), Mass(samples, UpTo(box.l0, box.a1, box.b0)),
                  Mass(samples, UpTo(box.l0, box.a0, box.b1)), Mass(samples, UpTo(box.l0, box.a0, box.b0)))
  {
    MassDifference(samples, box, AxisL);
    FourCorners(samples, box.l1, box);
    FourCorners(samples, box.l0, box);
    EightFromFours(Mass(samples, UpTo(box.l1, box.a1, box.b1)), Mass(samples, UpTo(box.l1, box.a1, box.b0)),
                   Mass(samples, UpTo(box.l1, box.a0, box.b1)), Mass(samples, UpTo(box.l1, box.a0, box.b0)),
                   Mass(samples, UpTo(box.l0, box.a1, box.b1)), Mass(samples, UpTo(box.l0, box.a1, box.b0)),
                   Mass(samples, UpTo(box.l0, box.a0, box.b1)), Mass(samples, UpTo(box.l0, box.a0, box.b0)));
  }

  /** Inclusion-exclusion over the eight corners of the box. */
  function VolBin(box: Box, h: Histogram): Bin
    requires h.Sized() && OnGrid(box)
    reads h, h.bins
  {
    Eight(h.bins[box.l1, box.a1, box.b1], h.bins[box.l1, box.a1, box.b0],
          h.bins[box.l1, box.a0, box.b1], h.bins[box.l1, box.a0, box.b0],
          h.bins[box.l0, box.a1, box.b1], h.bins[box.l0, box.a1, box.b0],
          h.bins[box.l0, box.a0, box.b1], h.bins[box.l0, box.a0, box.b0])
  }

  /** The four corners on the lower face of the box, with signs. */
  function BottomBin(box: Box, axis: Axis, h: Histogram): Bin
    requires h.Sized() && OnGrid(box)
    reads h, h.bins
  {
    match axis
    case AxisL =>
      Below(h.bins[box.l0, box.a1, box.b1], h.bins[box.l0, box.a1, box.b0],
            h.bins[box.l0, box.a0, box.b1], h.bins[box.l0, box.a0, box.b0])
    case AxisA =>
      Below(h.bins[box.l1, box.a0, box.b1], h.bins[box.l1, box.a0, box.b0],
            h.bins[box.l0, box.a0, box.b1], h.bins[box.l0, box.a0, box.b0])
    case AxisB =>
      Below(h.bins[box.l1, box.a1, box.b0], h.bins[box.l1, box.a0, box.b0],
            h.bins[box.l0, box.a1, box.b0], h.bins[box.l0, box.a0, box.b0])
  }

  /** The four corners on the cutting plane, with signs. */
  function TopBin(box: Box, axis: Axis, pos: int, h: Histogram): Bin
    requires h.Sized() && OnGrid(box) && 0 <= pos < GRID
    reads h, h.bins
  {
    match axis
    case AxisL =>
      Four(h.bins[pos, box.a1, box.b1], h.bins[pos, box.a1, box.b0],
           h.bins[pos, box.a0, box.b1], h.bins[pos, box.a0, box.b0])
    case AxisA =>
      Four(h.bins[box.l1, pos, box.b1], h.bins[box.l1, pos, box.b0],
           h.bins[box.l0, pos, box.b1], h.bins[box.l0, pos, box.b0])
    case AxisB =>
      Four(h.bins[box.l1, box.a1, pos], h.bins[box.l1, box.a0, pos],
           h.bins[box.l0, box.a1, pos], h.bins[box.l0, box.a0, pos])
  }

  lemma HalfFromFours(c111: Bin, c110: Bin, c101: Bin, c100: Bin, c011: Bin, c010: Bin, c001: Bin, c000: Bin)
    ensures Below(c011, c010, c001, c000).Plus(Four(c111, c110, c101, c100)) ==
            Eight(c111, c110, c101, c100, c011, c010, c001, c000)
    ensures Below(c101, c100, c001, c000).Plus(Four(c111, c110, c011, c010)) ==
            Eight(c111, c110, c101, c100, c011, c010, c001, c000)
    ensures Below(c110, c100, c010, c000).Plus(Four(c111, c101, c011, c001)) ==
            Eight(c111, c110, c101, c100, c011, c010, c001, c000)
  {
  }

  /** The eight-corner expression is the mass of the box. */
  lemma VolBinIsMass(h: Histogram, box: Box)
    requires h.Cumulative() && Fits(h, box)
    ensures VolBin(box, h) == Mass(h.samples, box)
  {
    hide Mass, Eight;
    EightCorners(h.samples, box);
  }

  /** The two four-corner expressions add up to the mass of the lower half. */
  lemma HalfIsMass(h: Histogram, box: Box, axis: Axis, pos: int)
    requires h.Cumulative() && Fits(h, box) && Low(box, axis) <= pos <= High(box, axis)
    ensures BottomBin(box, axis, h).Plus(TopBin(box, axis, pos, h)) == Mass(h.samples, LowerHalf(box, axis, pos))
  {
    var half := LowerHalf(box, axis, pos);
    VolBinIsMass(h, half);
    HalfFromFours(h.bins[half.l1, half.a1, half.b1], h.bins[half.l1, half.a1, half.b0],
                  h.bins[half.l1, half.a0, half.b1], h.bins[half.l1, half.a0, half.b0],
                  h.bins[half.l0, half.a1, half.b1], h.bins[half.l0, half.a1, half.b0],
                  h.bins[half.l0, half.a0, half.b1], h.bins[half.l0, half.a0, half.b0]);
  }

  /** Past the upper end of the active range the bins stay zero, so there a bin is the sum of
      the cells at or below it exactly when no sample lies there. */
  lemma CumulativeExtent(h: Histogram, i: int, j: int, k: int)
    requires h.Cumulative() && 0 <= i < GRID && 0 <= j < GRID && 0 <= k < GRID
    ensures h.bins[i, j, k] == Mass(h.samples, UpTo(i, j, k)) <==>
            || (i <= h.maxL && j <= h.maxA && k <= h.maxB)
            || forall n :: 0 <= n < |h.samples| ==> !InBox(h.samples[n], UpTo(i, j, k))
  {
    MassPositive(h.samples, UpTo(i, j, k));
    if forall n :: 0 <= n < |h.samples| ==> !InBox(h.samples[n], UpTo(i, j, k)) {
      MassNone(h.samples, UpTo(i, j, k));
    }
  }

  /** A position strictly inside the box that leaves weight on both sides. */
  ghost predicate CutOk(samples: seq<Sample>, box: Box, axis: Axis, i: int) {
    && Low(box, axis) < i < High(box, axis)
    && Mass(samples, LowerHalf(box, axis, i)).w > 0.0
    && Mass(samples, UpperHalf(box, axis, i)).w > 0.0
  }

  ghost function Score(samples: seq<Sample>, box: Box, axis: Axis, i: int): real
    requires CutOk(samples, box, axis, i)
  {
    Quality(Mass(samples, LowerHalf(box, axis, i))) + Quality(Mass(samples, UpperHalf(box, axis, i)))
  }

  /** What is left of the variance after the cut. */
  ghost function CutVariance(samples: seq<Sample>, box: Box, axis: Axis, i: int): real {
    Variance(Mass(samples, LowerHalf(box, axis, i))) + Variance(Mass(samples, UpperHalf(box, axis, i)))
  }

  /** The score is the sum of squares minus the remaining variance: maximising one minimises
      the other. */
  lemma ScoreIsVariance(samples: seq<Sample>, box: Box, axis: Axis, i: int)
    requires CutOk(samples, box, axis, i)
    ensures Score(samples, box, axis, i) >= 0.0
    ensures CutVariance(samples, box, axis, i) == Mass(samples, box).m2 - Score(samples, box, axis, i)
  {
    var lower, upper := LowerHalf(box, axis, i), UpperHalf(box, axis, i);
    MassSplit(samples, box, axis, i);
    VarianceIsLeastDeviation(samples, lower, Mean(Mass(samples, lower)));
    VarianceIsLeastDeviation(samples, upper, Mean(Mass(samples, upper)));
    SumOfQuotients(Mass(samples, lower));
    SumOfQuotients(Mass(samples, upper));
  }

  /** (cut, score) is the best position of the axis among those below last, or (-1, -1) when
      there is none. */
  ghost predicate BestBelow(samples: seq<Sample>, box: Box, axis: Axis, last: int, cut: int, score: real) {
    && (forall i :: Low(box, axis) < i < last && CutOk(samples, box, axis, i) ==> Score(samples, box, axis, i) <= score)
    && if cut == -1 then score == -1.0
       else cut < last && CutOk(samples, box, axis, cut) && score == Score(samples, box, axis, cut) >= 0.0
  }

  method Maximize(h: Histogram, box: Box, axis: Axis, first: int, last: int, whole: Bin) returns (score: real, cut: int)
    requires h.Cumulative() && Fits(h, box) && whole == Mass(h.samples, box)
    requires first == Low(box, axis) + 1 && last == High(box, axis)
    ensures BestBelow(h.samples, box, axis, last, cut, score)
  {
    hide Mass, Eight, BottomBin, TopBin;
    var base := BottomBin(box, axis, h);
    score, cut := -1.0, -1;
    var i := first;
    while i < last
      invariant first <= i
      invariant cut < i && BestBelow(h.samples, box, axis, i, cut, score)
    {
      var half := base.Plus(TopBin(box, axis, i, h));
      var rem := whole.Minus(half);
      HalfIsMass(h, box, axis, i);
      MassSplit(h.samples, box, axis, i);
      assert rem == Mass(h.samples, UpperHalf(box, axis, i));
      if half.w > 0.0 && rem.w > 0.0 {
        ScoreIsVariance(h.samples, box, axis, i);
        var s := half.SumSq() / half.w + rem.SumSq() / rem.w;
        if s > score {
          score, cut := s, i;
        }
      }
      i := i + 1;
    }
  }

  ghost predicate Uncuttable(samples: seq<Sample>, box: Box) {
    forall axis, i :: !CutOk(samples, box, axis, i)
  }

  ghost predicate SameCellIn(samples: seq<Sample>, box: Box) {
    forall m, n :: 0 <= m < |samples| && 0 <= n < |samples| && InBox(samples[m], box) && InBox(samples[n], box) ==>
      Coord(samples[m], AxisL) == Coord(samples[n], AxisL)
      && Coord(samples[m], AxisA) == Coord(samples[n], AxisA)
      && Coord(samples[m], AxisB) == Coord(samples[n], AxisB)
  }

  /** Two samples in different cells of a box can be cut apart. */
  lemma CutBetween(samples: seq<Sample>, box: Box, axis: Axis, m: int, n: int)
    requires 0 <= m < |samples| && 0 <= n < |samples| && InBox(samples[m], box) && InBox(samples[n], box)
    requires Coord(samples[m], axis) < Coord(samples[n], axis)
    ensures CutOk(samples, box, axis, Coord(samples[m], axis))
  {
    hide Mass, CellL, CellA, CellB;
    var i := Coord(samples[m], axis);
    MassPositive(samples, LowerHalf(box, axis, i));
    MassPositive(samples, UpperHalf(box, axis, i));
    assert InBox(samples[m], LowerHalf(box, axis, i));
    assert InBox(samples[n], UpperHalf(box, axis, i));
  }

  /** A box cannot be cut exactly when all its samples share one cell. */
  lemma UncuttableIffOneCell(samples: seq<Sample>, box: Box)
    ensures Uncuttable(samples, box) <==> SameCellIn(samples, box)
  {
    hide Mass, CellL, CellA, CellB;
    if Uncuttable(samples, box) {
      forall m, n, axis | 0 <= m < |samples| && 0 <= n < |samples| && InBox(samples[m], box) && InBox(samples[n], box)
        ensures Coord(samples[m], axis) == Coord(samples[n], axis)
      {
        if Coord(samples[m], axis) < Coord(samples[n], axis) {
          CutBetween(samples, box, axis, m, n);
        } else if Coord(samples[m], axis) > Coord(samples[n], axis) {
          CutBetween(samples, box, axis, n, m);
        }
      }
    }
    if !Uncuttable(samples, box) {
      var axis, i :| CutOk(samples, box, axis, i);
      MassPositive(samples, LowerHalf(box, axis, i));
      MassPositive(samples, UpperHalf(box, axis, i));
      var m :| 0 <= m < |samples| && InBox(samples[m], LowerHalf(box, axis, i));
      var n :| 0 <= n < |samples| && InBox(samples[n], UpperHalf(box, axis, i));
      assert InBox(samples[m], box) && InBox(samples[n], box);
      assert Coord(samples[m], axis) < Coord(samples[n], axis);
    }
  }

  /** No admissible cut of the box, on any axis, leaves less variance. */
  ghost predicate IsBestCut(samples: seq<Sample>, box: Box, axis: Axis, cut: int) {
    && CutOk(samples, box, axis, cut)
    && forall ax, i :: CutOk(samples, box, ax, i) ==>
        CutVariance(samples, box, axis, cut) <= CutVariance(samples, box, ax, i)
  }

  /** The halves as the program stores them, with their variances. */
  ghost function Measured(samples: seq<Sample>, box: Box): WuBox {
    WuBox(box, Variance(Mass(samples, box)))
  }

  lemma BestOfThree(samples: seq<Sample>, box: Box, cuts: Axis -> int, scores: Axis -> real, axis: Axis)
    requires forall ax :: BestBelow(samples, box, ax, High(box, ax), cuts(ax), scores(ax))
    requires forall ax :: scores(ax) <= scores(axis)
    ensures scores(axis) >= 0.0 ==> IsBestCut(samples, box, axis, cuts(axis))
    ensures scores(axis) < 0.0 ==> Uncuttable(samples, box)
  {
    hide Mass;
    forall ax, i | CutOk(samples, box, ax, i)
      ensures Score(samples, box, ax, i) <= scores(axis) && scores(axis) >= 0.0
      ensures CutVariance(samples, box, ax, i) == Mass(samples, box).m2 - Score(samples, box, ax, i)
    {
      assert BestBelow(samples, box, ax, High(box, ax), cuts(ax), scores(ax));
      ScoreIsVariance(samples, box, ax, i);
    }
    assert BestBelow(samples, box, axis, High(box, axis), cuts(axis), scores(axis));
  }

  method BoxVariance(h: Histogram, box: Box) returns (v: real)
    requires h.Cumulative() && Fits(h, box)
    ensures v == Variance(Mass(h.samples, box))
  {
    hide Mass, VolBin;
    VolBinIsMass(h, box);
    var vol := VolBin(box, h);
    if vol.w <= 0.0 {
      return 0.0;
    }
    v := vol.m2 - (vol.l * vol.l + vol.a * vol.a + vol.b * vol.b) / vol.w;
    v := if v > 0.0 then v else 0.0;
  }

  /** The best position over all axes; the score is negative when there is none. */
  method BestCut(h: Histogram, box: Box, whole: Bin) returns (best: real, dir: Axis, pos: int)
    requires h.Cumulative() && Fits(h, box) && whole == Mass(h.samples, box)
    ensures best >= 0.0 ==> IsBestCut(h.samples, box, dir, pos)
    ensures best < 0.0 ==> Uncuttable(h.samples, box)
  {
    hide Mass, BestBelow, IsBestCut, Uncuttable, Fits;
    assert Fits(h, box);
    var maxL, cutL := Maximize(h, box, AxisL, box.l0 + 1, box.l1, whole);
    var maxA, cutA := Maximize(h, box, AxisA, box.a0 + 1, box.a1, whole);
    var maxB, cutB := Maximize(h, box, AxisB, box.b0 + 1, box.b1, whole);
    dir, best := AxisL, maxL;
    if maxA >= best {
      dir, best := AxisA, maxA;
    }
    if maxB >= best {
      dir, best := AxisB, maxB;
    }
    ghost var cuts := (ax: Axis) => match ax case AxisL => cutL case AxisA => cutA case AxisB => cutB;
    ghost var scores := (ax: Axis) => match ax case AxisL => maxL case AxisA => maxA case AxisB => maxB;
    BestOfThree(h.samples, box, cuts, scores, dir);
    pos := match dir case AxisL => cutL case AxisA => cutA case AxisB => cutB;
  }

  /** Cuts box i in two at the best position of all three axes; box j receives the upper half. */
  method Cut(h: Histogram, boxes: array<WuBox>, i: nat, j: nat) returns (ok: bool, ghost axis: Axis, ghost cut: int)
    requires h.Cumulative() && i < boxes.Length && j < boxes.Length && i != j
    requires Fits(h, boxes[i].box)
    modifies boxes
    ensures forall k :: 0 <= k < boxes.Length && k != i && k != j ==> boxes[k] == old(boxes[k])
    ensures ok ==> IsBestCut(h.samples, old(boxes[i].box), axis, cut)
    ensures ok ==> boxes[i] == Measured(h.samples, LowerHalf(old(boxes[i].box), axis, cut))
    ensures ok ==> boxes[j] == Measured(h.samples, UpperHalf(old(boxes[i].box), axis, cut))
    ensures !ok ==> boxes[i].box == old(boxes[i].box) && boxes[j] == old(boxes[j])
    ensures !ok ==> Uncuttable(h.samples, old(boxes[i].box))
  {
    hide Mass, VolBin;
    var box := boxes[i].box;
    axis, cut := AxisL, -1;
    VolBinIsMass(h, box);
    var whole := VolBin(box, h);
    if whole.w <= 0.0 {
      WeightlessUncuttable(h.samples, box);
      return false, axis, cut;
    }
    var best, dir, pos := BestCut(h, box, whole);
    if best < 0.0 {
      boxes[i] := boxes[i].(variance := 0.0);
      return false, axis, cut;
    }
    axis, cut := dir, pos;
    var lower, upper := LowerHalf(box, dir, pos), UpperHalf(box, dir, pos);
    var v1 := BoxVariance(h, lower);
    var v2 := BoxVariance(h, upper);
    boxes[i] := WuBox(lower, v1);
    boxes[j] := WuBox(upper, v2);
    ok := true;
  }

  lemma WeightlessUncuttable(samples: seq<Sample>, box: Box)
    requires Mass(samples, box).w <= 0.0
    ensures Uncuttable(samples, box)
  {
    hide Mass;
    forall axis, i ensures !CutOk(samples, box, axis, i) {
      if CutOk(samples, box, axis, i) {
        MassSplit(samples, box, axis, i);
      }
    }
  }
}
