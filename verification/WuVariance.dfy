/** What the stored sums of squares mean: the variance of a box is the total squared distance
    of its samples to their mean, and the mean is the point that minimises it. */
module WuVariance {
  import opened RealArith
  import opened WuMass

  function DistSq(s: Sample, c: Sample): real {
    (s.l - c.l) * (s.l - c.l) + (s.a - c.a) * (s.a - c.a) + (s.b - c.b) * (s.b - c.b)
  }

  lemma Square(x: real)
    ensures x * x >= 0.0
  {
  }

  lemma DistNonNegative(s: Sample, c: Sample)
    ensures DistSq(s, c) >= 0.0
  {
    Square(s.l - c.l);
    Square(s.a - c.a);
    Square(s.b - c.b);
  }

  /** Total squared distance of the samples in the box to the point c. */
  ghost function Deviation(samples: seq<Sample>, box: Box, c: Sample): real {
    if samples == [] then 0.0
    else
      var s := samples[|samples| - 1];
      Deviation(samples[..|samples| - 1], box, c) + if InBox(s, box) then DistSq(s, c) else 0.0
  }

  function Mean(bin: Bin): Sample
    requires bin.w > 0.0
  {
    Sample(bin.l / bin.w, bin.a / bin.w, bin.b / bin.w)
  }

  /** Squared length of the colour sum, per unit of weight. */
  function Quality(bin: Bin): real
    requires bin.w > 0.0
  {
    bin.SumSq() / bin.w
  }

  /** The variance the program computes from a bin; negative values are cut off. */
  function Variance(bin: Bin): real {
    if bin.w <= 0.0 then 0.0
    else
      var v := bin.m2 - bin.SumSq() / bin.w;
      if v > 0.0 then v else 0.0
  }

  ghost function Expanded(bin: Bin, c: Sample): real {
    bin.m2 - 2.0 * (c.l * bin.l + c.a * bin.a + c.b * bin.b) + (c.l * c.l + c.a * c.a + c.b * c.b) * bin.w
  }

  lemma SquareExpand(x: real, y: real)
    ensures (x - y) * (x - y) == x * x - 2.0 * (y * x) + y * y
  {
  }

  lemma ExpandedPlus(x: Bin, y: Bin, c: Sample)
    ensures Expanded(x.Plus(y), c) == Expanded(x, c) + Expanded(y, c)
  {
    Spread(c.l, x.l, y.l);
    Spread(c.a, x.a, y.a);
    Spread(c.b, x.b, y.b);
    Spread(c.l * c.l + c.a * c.a + c.b * c.b, x.w, y.w);
  }

  lemma ExpandedUnit(s: Sample, c: Sample)
    ensures Expanded(Unit(s), c) == DistSq(s, c)
  {
    SquareExpand(s.l, c.l);
    SquareExpand(s.a, c.a);
    SquareExpand(s.b, c.b);
  }

  lemma {:induction false} DeviationExpand(samples: seq<Sample>, box: Box, c: Sample)
    ensures Deviation(samples, box, c) == Expanded(Mass(samples, box), c)
  {
    if samples != [] {
      hide Expanded, DistSq, Unit, Bin.Plus, InBox;
      var rest, s := samples[..|samples| - 1], samples[|samples| - 1];
      DeviationExpand(rest, box, c);
      ExpandedPlus(Mass(rest, box), Unit(s), c);
      ExpandedUnit(s, c);
    }
  }

  lemma {:induction false} DeviationNonNegative(samples: seq<Sample>, box: Box, c: Sample)
    ensures Deviation(samples, box, c) >= 0.0
  {
    if samples != [] {
      DeviationNonNegative(samples[..|samples| - 1], box, c);
      var s := samples[|samples| - 1];
      DistNonNegative(s, c);
    }
  }

  lemma {:induction false} DeviationSplit(samples: seq<Sample>, box: Box, axis: Axis, cut: int, c: Sample)
    requires Low(box, axis) <= cut <= High(box, axis)
    ensures Deviation(samples, box, c) ==
            Deviation(samples, LowerHalf(box, axis, cut), c) + Deviation(samples, UpperHalf(box, axis, cut), c)
  {
    if samples != [] {
      DeviationSplit(samples[..|samples| - 1], box, axis, cut, c);
    }
  }

  /** One axis of the comparison below: x * x / w is the best value of 2cx - ccw. */
  lemma CompleteSquare(x: real, w: real, c: real)
    requires w > 0.0
    ensures x * x / w - (2.0 * (c * x) - c * c * w) == w * ((c - x / w) * (c - x / w))
  {
    var m := x / w;
    assert x == m * w;
    assert x * x / w == m * m * w by {
      assert x * x == m * m * w * w;
    }
    SquareExpand(c, m);
    assert c * x == c * m * w;
    assert w * ((c - m) * (c - m)) == w * (c * c) - 2.0 * (w * (m * c)) + w * (m * m);
  }

  /** The mean minimises the deviation, and the program's variance is that minimum. */
  lemma VarianceIsLeastDeviation(samples: seq<Sample>, box: Box, c: Sample)
    requires Mass(samples, box).w > 0.0
    ensures Variance(Mass(samples, box)) == Deviation(samples, box, Mean(Mass(samples, box)))
    ensures Variance(Mass(samples, box)) == Mass(samples, box).m2 - Quality(Mass(samples, box))
    ensures Variance(Mass(samples, box)) <= Deviation(samples, box, c)
  {
    var bin := Mass(samples, box);
    DeviationExpand(samples, box, c);
    DeviationExpand(samples, box, Mean(bin));
    DeviationNonNegative(samples, box, Mean(bin));
    ExpandedAgainstMean(bin, c);
    ExpandedAgainstMean(bin, Mean(bin));
  }

  lemma ExpandedAgainstMean(bin: Bin, c: Sample)
    requires bin.w > 0.0
    ensures Expanded(bin, c) >= bin.m2 - Quality(bin)
    ensures c == Mean(bin) ==> Expanded(bin, c) == bin.m2 - Quality(bin)
  {
    CompleteSquare(bin.l, bin.w, c.l);
    CompleteSquare(bin.a, bin.w, c.a);
    CompleteSquare(bin.b, bin.w, c.b);
    SumOfQuotients(bin);
    SquareTimes(bin.w, c.l - bin.l / bin.w);
    SquareTimes(bin.w, c.a - bin.a / bin.w);
    SquareTimes(bin.w, c.b - bin.b / bin.w);
    var cc := c.l * c.l + c.a * c.a + c.b * c.b;
    assert cc * bin.w == c.l * c.l * bin.w + c.a * c.a * bin.w + c.b * c.b * bin.w;
  }

  lemma SquareTimes(w: real, d: real)
    requires w > 0.0
    ensures w * (d * d) >= 0.0
    ensures d == 0.0 ==> w * (d * d) == 0.0
  {
  }

  lemma SumOfQuotients(bin: Bin)
    requires bin.w > 0.0
    ensures Quality(bin) == bin.l * bin.l / bin.w + bin.a * bin.a / bin.w + bin.b * bin.b / bin.w
    ensures Quality(bin) >= 0.0
  {
  }

  /** Cutting a box never increases the total variance. */
  lemma CutLowersVariance(samples: seq<Sample>, box: Box, axis: Axis, cut: int)
    requires Low(box, axis) <= cut <= High(box, axis)
    requires Mass(samples, LowerHalf(box, axis, cut)).w > 0.0 && Mass(samples, UpperHalf(box, axis, cut)).w > 0.0
    ensures Variance(Mass(samples, LowerHalf(box, axis, cut))) + Variance(Mass(samples, UpperHalf(box, axis, cut)))
            <= Variance(Mass(samples, box))
  {
    MassSplit(samples, box, axis, cut);
    var m := Mean(Mass(samples, box));
    DeviationSplit(samples, box, axis, cut, m);
    VarianceIsLeastDeviation(samples, box, m);
    VarianceIsLeastDeviation(samples, LowerHalf(box, axis, cut), m);
    VarianceIsLeastDeviation(samples, UpperHalf(box, axis, cut), m);
  }
}
