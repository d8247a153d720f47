/** The greedy partition of the histogram into weighted points. */
module WuPartition {
  import opened WuMass
  import opened WuHistogram
  import opened WuVariance
  import opened WuCut

  const NEGLIGIBLE := 0.000000001

  datatype WeightedPoint = WeightedPoint(l: real, a: real, b: real, weight: real)

  /** The mean of a bin, weighing as much as the bin. */
  function PointOf(bin: Bin): WeightedPoint
    requires bin.w > 0.0
  {
    var inv := 1.0 / bin.w;
    WeightedPoint(bin.l * inv, bin.a * inv, bin.b * inv, bin.w)
  }

  function WeightSum(points: seq<WeightedPoint>): real {
    if points == [] then 0.0 else WeightSum(points[..|points| - 1]) + points[|points| - 1].weight
  }

  // ----- Boxes that hold every sample exactly once -----

  ghost predicate HeldOnce(s: Sample, boxes: seq<Box>) {
    && (exists k :: 0 <= k < |boxes| && InBox(s, boxes[k]))
    && (forall i, j :: 0 <= i < j < |boxes| ==> !(InBox(s, boxes[i]) && InBox(s, boxes[j])))
  }

  ghost predicate Covers(samples: seq<Sample>, boxes: seq<Box>) {
    && (forall n :: 0 <= n < |samples| ==> HeldOnce(samples[n], boxes))
    && (forall k :: 0 <= k < |boxes| ==> Mass(samples, boxes[k]).w > 0.0)
  }

  /** The points are the means of the boxes, in order. */
  ghost predicate PointsOf(samples: seq<Sample>, boxes: seq<Box>, points: seq<WeightedPoint>) {
    && |points| == |boxes|
    && forall k :: 0 <= k < |boxes| ==>
         Mass(samples, boxes[k]).w > 0.0 && points[k] == PointOf(Mass(samples, boxes[k]))
  }

  function TotalWeight(samples: seq<Sample>, boxes: seq<Box>): real {
    if boxes == [] then 0.0
    else TotalWeight(samples, boxes[..|boxes| - 1]) + Mass(samples, boxes[|boxes| - 1]).w
  }

  lemma {:induction false} NoSamplesNoWeight(boxes: seq<Box>)
    ensures TotalWeight([], boxes) == 0.0
  {
    if boxes != [] {
      NoSamplesNoWeight(boxes[..|boxes| - 1]);
    }
  }

  /** One more sample adds its unit weight once per box that holds it. */
  lemma {:induction false} TotalWeightAppend(samples: seq<Sample>, s: Sample, boxes: seq<Box>)
    requires forall i, j :: 0 <= i < j < |boxes| ==> !(InBox(s, boxes[i]) && InBox(s, boxes[j]))
    ensures TotalWeight(samples + [s], boxes) ==
            TotalWeight(samples, boxes) + if exists k :: 0 <= k < |boxes| && InBox(s, boxes[k]) then 1.0 else 0.0
  {
    hide InBox, Mass;
    if boxes != [] {
      var m := |boxes| - 1;
      TotalWeightAppend(samples, s, boxes[..m]);
      WeightAppend(samples, s, boxes[m]);
      if k :| 0 <= k < m && InBox(s, boxes[..m][k]) {
        assert InBox(s, boxes[k]);
      } else {
        forall k | 0 <= k < m ensures !InBox(s, boxes[k]) {
          assert !InBox(s, boxes[..m][k]);
        }
      }
    }
  }

  lemma WeightAppend(samples: seq<Sample>, s: Sample, box: Box)
    ensures Mass(samples + [s], box).w == Mass(samples, box).w + if InBox(s, box) then 1.0 else 0.0
  {
    MassAppend(samples, s, box);
  }

  /** Boxes that hold every sample exactly once weigh, together, the number of samples. */
  lemma {:induction false} CoverConserves(samples: seq<Sample>, boxes: seq<Box>)
    requires forall n :: 0 <= n < |samples| ==> HeldOnce(samples[n], boxes)
    ensures TotalWeight(samples, boxes) == |samples| as real
  {
    hide InBox, Mass;
    if samples == [] {
      NoSamplesNoWeight(boxes);
    } else {
      var rest, s := samples[..|samples| - 1], samples[|samples| - 1];
      assert samples == rest + [s];
      CoverConserves(rest, boxes);
      assert HeldOnce(s, boxes);
      TotalWeightAppend(rest, s, boxes);
    }
  }

  lemma {:induction false} PointsWeigh(samples: seq<Sample>, boxes: seq<Box>, points: seq<WeightedPoint>)
    requires PointsOf(samples, boxes, points)
    ensures WeightSum(points) == TotalWeight(samples, boxes)
  {
    hide Mass;
    if boxes != [] {
      var m := |boxes| - 1;
      PointsWeigh(samples, boxes[..m], points[..m]);
      assert Mass(samples, boxes[m]).w > 0.0;
    }
  }

  /** Conservation: the points of a cover weigh as much as there are samples. */
  lemma PointsConserve(samples: seq<Sample>, boxes: seq<Box>, points: seq<WeightedPoint>)
    requires Covers(samples, boxes) && PointsOf(samples, boxes, points)
    ensures WeightSum(points) == |samples| as real
  {
    CoverConserves(samples, boxes);
    PointsWeigh(samples, boxes, points);
  }

  // ----- The greedy state machine -----

  function Boxes(state: seq<WuBox>): (boxes: seq<Box>)
    ensures |boxes| == |state| && forall k :: 0 <= k < |state| ==> boxes[k] == state[k].box
  {
    seq(|state|, k requires 0 <= k < |state| => state[k].box)
  }

  /** The box of greatest remaining variance is replaced by its best two halves, or, when it
      cannot be cut, is retired by giving it variance zero. */
  ghost predicate GreedyStep(samples: seq<Sample>, s: seq<WuBox>, t: seq<WuBox>, i: int, axis: Axis, cut: int) {
    && 0 <= i < |s| && s[i].variance > NEGLIGIBLE
    && (forall k :: 0 <= k < |s| ==> s[k].variance <= s[i].variance)
    && ( || (&& IsBestCut(samples, s[i].box, axis, cut)
             && t == s[i := Measured(samples, LowerHalf(s[i].box, axis, cut))]
                     + [Measured(samples, UpperHalf(s[i].box, axis, cut))])
         || (&& Uncuttable(samples, s[i].box)
             && t == s[i := s[i].(variance := 0.0)]))
  }

  ghost predicate Step(samples: seq<Sample>, s: seq<WuBox>, t: seq<WuBox>) {
    exists i, axis, cut :: GreedyStep(samples, s, t, i, axis, cut)
  }

  ghost predicate Run(samples: seq<Sample>, trace: seq<seq<WuBox>>, start: Box) {
    && |trace| > 0 && trace[0] == [Measured(samples, start)]
    && forall k :: 0 <= k < |trace| - 1 ==> Step(samples, trace[k], trace[k + 1])
  }

  ghost predicate Apart(x: Box, y: Box) {
    || x.l1 <= y.l0 || y.l1 <= x.l0
    || x.a1 <= y.a0 || y.a1 <= x.a0
    || x.b1 <= y.b0 || y.b1 <= x.b0
  }

  ghost predicate Inside(box: Box, outer: Box) {
    && outer.l0 <= box.l0 < box.l1 <= outer.l1
    && outer.a0 <= box.a0 < box.a1 <= outer.a1
    && outer.b0 <= box.b0 < box.b1 <= outer.b1
  }

  ghost predicate GoodBox(samples: seq<Sample>, b: WuBox, start: Box) {
    && Inside(b.box, start)
    && Mass(samples, b.box).w > 0.0
    && (b == Measured(samples, b.box) || (b.variance == 0.0 && Uncuttable(samples, b.box)))
  }

  ghost predicate Held(s: Sample, state: seq<WuBox>) {
    exists k :: 0 <= k < |state| && InBox(s, state[k].box)
  }

  /** What every step keeps: good boxes, pairwise apart, that miss no sample. */
  ghost predicate Inv(samples: seq<Sample>, s: seq<WuBox>, start: Box) {
    && (forall k :: 0 <= k < |s| ==> GoodBox(samples, s[k], start))
    && (forall i, j :: 0 <= i < j < |s| ==> Apart(s[i].box, s[j].box))
    && (forall n :: 0 <= n < |samples| ==> Held(samples[n], s))
  }

  ghost function TotalVariance(samples: seq<Sample>, s: seq<WuBox>): real {
    if s == [] then 0.0
    else TotalVariance(samples, s[..|s| - 1]) + Variance(Mass(samples, s[|s| - 1].box))
  }

  lemma HalvesGood(samples: seq<Sample>, box: Box, axis: Axis, cut: int, start: Box)
    requires CutOk(samples, box, axis, cut) && Inside(box, start)
    ensures GoodBox(samples, Measured(samples, LowerHalf(box, axis, cut)), start)
    ensures GoodBox(samples, Measured(samples, UpperHalf(box, axis, cut)), start)
    ensures Apart(LowerHalf(box, axis, cut), UpperHalf(box, axis, cut))
    ensures forall other :: Apart(box, other) || Apart(other, box) ==>
              Apart(LowerHalf(box, axis, cut), other) && Apart(other, UpperHalf(box, axis, cut))
              && Apart(other, LowerHalf(box, axis, cut))
  {
    hide Mass, Variance;
  }

  /** The invariant holds in every state of every run. */
  lemma StepKeeps(samples: seq<Sample>, s: seq<WuBox>, t: seq<WuBox>, start: Box)
    requires Inv(samples, s, start) && Step(samples, s, t)
    ensures Inv(samples, t, start) && |s| <= |t| <= |s| + 1
  {
    hide Mass, Variance, InBox, Apart;
    var i, axis, cut :| GreedyStep(samples, s, t, i, axis, cut);
    assert GoodBox(samples, s[i], start);
    if Uncuttable(samples, s[i].box) && t == s[i := s[i].(variance := 0.0)] {
      forall n | 0 <= n < |samples| ensures Held(samples[n], t) {
        assert Held(samples[n], s);
        var k :| 0 <= k < |s| && InBox(samples[n], s[k].box);
        assert InBox(samples[n], t[k].box);
      }
    } else {
      var box := s[i].box;
      HalvesGood(samples, box, axis, cut, start);
      forall n | 0 <= n < |samples| ensures Held(samples[n], t) {
        assert Held(samples[n], s);
        var k :| 0 <= k < |s| && InBox(samples[n], s[k].box);
        InHalf(samples[n], box, axis, cut);
        if k != i {
          assert InBox(samples[n], t[k].box);
        } else if InBox(samples[n], LowerHalf(box, axis, cut)) {
          assert InBox(samples[n], t[i].box);
        } else {
          assert InBox(samples[n], t[|s|].box);
        }
      }
    }
  }

  lemma InHalf(s: Sample, box: Box, axis: Axis, cut: int)
    ensures InBox(s, box) ==> InBox(s, LowerHalf(box, axis, cut)) || InBox(s, UpperHalf(box, axis, cut))
  {
  }

  lemma {:induction false} RunKeeps(samples: seq<Sample>, trace: seq<seq<WuBox>>, start: Box, k: nat)
    requires Run(samples, trace, start) && k < |trace| && Inv(samples, trace[0], start)
    ensures Inv(samples, trace[k], start)
  {
    hide Inv, Step;
    if k > 0 {
      RunKeeps(samples, trace, start, k - 1);
      assert Step(samples, trace[k - 1], trace[k - 1 + 1]);
      StepKeeps(samples, trace[k - 1], trace[k], start);
    }
  }

  /** Pairwise apart boxes that miss no sample hold each sample once. */
  lemma InvCovers(samples: seq<Sample>, s: seq<WuBox>, start: Box)
    requires Inv(samples, s, start)
    ensures Covers(samples, Boxes(s))
  {
    hide Mass, CellL, CellA, CellB;
    forall n | 0 <= n < |samples| ensures HeldOnce(samples[n], Boxes(s)) {
      assert Held(samples[n], s);
      var k :| 0 <= k < |s| && InBox(samples[n], s[k].box);
      assert InBox(samples[n], Boxes(s)[k]);
      forall i, j | 0 <= i < j < |s| ensures !(InBox(samples[n], Boxes(s)[i]) && InBox(samples[n], Boxes(s)[j])) {
        assert Apart(s[i].box, s[j].box);
      }
    }
    forall k | 0 <= k < |s| ensures Mass(samples, Boxes(s)[k]).w > 0.0 {
      assert GoodBox(samples, s[k], start);
    }
  }

  // ----- The error never grows -----

  lemma {:induction false} TotalVarianceReplace(samples: seq<Sample>, s: seq<WuBox>, i: int, b: WuBox)
    requires 0 <= i < |s|
    ensures TotalVariance(samples, s[i := b]) ==
            TotalVariance(samples, s) - Variance(Mass(samples, s[i].box)) + Variance(Mass(samples, b.box))
  {
    hide Mass, Variance;
    var m := |s| - 1;
    if i < m {
      TotalVarianceReplace(samples, s[..m], i, b);
      assert s[i := b][..m] == s[..m][i := b];
    } else {
      assert s[i := b][..m] == s[..m];
    }
  }

  /** No step increases the total variance of the boxes. */
  lemma StepLowersVariance(samples: seq<Sample>, s: seq<WuBox>, t: seq<WuBox>)
    requires Step(samples, s, t)
    ensures TotalVariance(samples, t) <= TotalVariance(samples, s)
  {
    hide Mass, Variance;
    var i, axis, cut :| GreedyStep(samples, s, t, i, axis, cut);
    if Uncuttable(samples, s[i].box) && t == s[i := s[i].(variance := 0.0)] {
      TotalVarianceReplace(samples, s, i, s[i].(variance := 0.0));
    } else {
      var lower := Measured(samples, LowerHalf(s[i].box, axis, cut));
      var upper := Measured(samples, UpperHalf(s[i].box, axis, cut));
      TotalVarianceReplace(samples, s, i, lower);
      assert t[..|t| - 1] == s[i := lower];
      CutLowersVariance(samples, s[i].box, axis, cut);
    }
  }

  lemma {:induction false} RunLowersVariance(samples: seq<Sample>, trace: seq<seq<WuBox>>, start: Box, k: nat)
    requires Run(samples, trace, start) && k < |trace|
    ensures TotalVariance(samples, trace[k]) <= Variance(Mass(samples, start))
  {
    hide Step;
    if k > 0 {
      RunLowersVariance(samples, trace, start, k - 1);
      assert Step(samples, trace[k - 1], trace[k - 1 + 1]);
      StepLowersVariance(samples, trace[k - 1], trace[k]);
    } else {
      assert trace[0][..0] == [];
    }
  }

  // ----- The method -----

  /** The number of boxes still worth cutting, the second part of the termination measure. */
  function Busy(s: seq<WuBox>): nat {
    if s == [] then 0
    else Busy(s[..|s| - 1]) + if s[|s| - 1].variance > NEGLIGIBLE then 1 else 0
  }

  lemma {:induction false} RetireLowersBusy(s: seq<WuBox>, i: int)
    requires 0 <= i < |s| && s[i].variance > NEGLIGIBLE
    ensures Busy(s[i := s[i].(variance := 0.0)]) == Busy(s) - 1
  {
    var m := |s| - 1;
    if i < m {
      RetireLowersBusy(s[..m], i);
      assert s[i := s[i].(variance := 0.0)][..m] == s[..m][i := s[i].(variance := 0.0)];
    } else {
      assert s[i := s[i].(variance := 0.0)][..m] == s[..m];
    }
  }

  method Widest(boxes: array<WuBox>, n: nat) returns (best: nat, maxV: real)
    requires 1 <= n <= boxes.Length
    ensures best < n
    ensures maxV > -1.0 ==> maxV == boxes[best].variance
    ensures forall k :: 0 <= k < n ==> boxes[k].variance <= maxV
  {
    best, maxV := 0, -1.0;
    for i := 0 to n
      invariant best < n
      invariant maxV > -1.0 ==> maxV == boxes[best].variance
      invariant maxV >= -1.0
      invariant forall k :: 0 <= k < i ==> boxes[k].variance <= maxV
    {
      if boxes[i].variance > maxV {
        maxV, best := boxes[i].variance, i;
      }
    }
  }

  /** The cell boxes of the listed cells, for a histogram too sparse to be cut. */
  ghost function ListedBoxes(list: seq<int>): (boxes: seq<Box>)
    ensures |boxes| == |list| && forall k :: 0 <= k < |list| ==> boxes[k] == UnpackedBox(list[k])
  {
    seq(|list|, k requires 0 <= k < |list| => UnpackedBox(list[k]))
  }

  function UnpackedBox(p: int): Box {
    CellBox(UnpackL(p), UnpackA(p), UnpackB(p))
  }

  lemma InUnpacked(s: Sample, p: int)
    requires 0 <= p < MAX_ACTIVE
    ensures InBox(s, UnpackedBox(p)) <==> PackSample(s) == p
  {
    hide CellL, CellA, CellB;
    PackUnpack(CellL(s), CellA(s), CellB(s));
    Repack(p);
  }

  lemma Repack(p: int)
    requires 0 <= p < MAX_ACTIVE
    ensures IsCell(UnpackL(p), UnpackA(p), UnpackB(p)) && Pack(UnpackL(p), UnpackA(p), UnpackB(p)) == p
  {
    assert p == 32 * (p / 32) + p % 32;
    assert p / 32 == 32 * (p / 32 / 32) + p / 32 % 32;
    Quotients(p);
  }

  lemma Quotients(p: int)
    requires 0 <= p < MAX_ACTIVE
    ensures p / 32 / 32 == p / 1024 < 32
  {
  }

  /** The listed cells hold every sample exactly once. */
  lemma ListedCover(samples: seq<Sample>, list: seq<int>)
    requires ListsCells(list, samples)
    ensures Covers(samples, ListedBoxes(list))
  {
    hide Mass, InBox, PackSample, UnpackedBox;
    var boxes := ListedBoxes(list);
    forall p | p in list ensures 0 <= p < MAX_ACTIVE {
      var n :| 0 <= n < |samples| && PackSample(samples[n]) == p;
      PackedRange(samples[n]);
    }
    forall n | 0 <= n < |samples| ensures HeldOnce(samples[n], boxes) {
      var s := samples[n];
      forall k | 0 <= k < |list| ensures InBox(s, boxes[k]) <==> PackSample(s) == list[k] {
        assert list[k] in list;
        InUnpacked(s, list[k]);
      }
      assert PackSample(s) in list;
      var k :| 0 <= k < |list| && list[k] == PackSample(s);
      assert InBox(s, boxes[k]);
    }
    forall k | 0 <= k < |list| ensures Mass(samples, boxes[k]).w > 0.0 {
      assert list[k] in list;
      var n :| 0 <= n < |samples| && PackSample(samples[n]) == list[k];
      InUnpacked(samples[n], list[k]);
      MassPositive(samples, boxes[k]);
    }
  }

  /** The box the greedy partition starts from: the whole active range. */
  function StartBox(h: Histogram): Box
    reads h
  {
    Box(if h.minL <= h.maxL then h.minL - 1 else 0, if h.minL <= h.maxL then h.maxL else BINS,
        if h.minA <= h.maxA then h.minA - 1 else 0, if h.minA <= h.maxA then h.maxA else BINS,
        if h.minB <= h.maxB then h.minB - 1 else 0, if h.minB <= h.maxB then h.maxB else BINS)
  }

  /** Either all the boxes allowed are in use, or no box is left that is worth cutting and can be. */
  ghost predicate Exhausted(samples: seq<Sample>, boxes: seq<Box>, maxBoxes: nat) {
    || |boxes| == maxBoxes
    || forall k :: 0 <= k < |boxes| ==>
         Variance(Mass(samples, boxes[k])) <= NEGLIGIBLE || Uncuttable(samples, boxes[k])
  }

  /** The start box holds every sample, so the invariant holds at the outset. */
  lemma StartInv(h: Histogram)
    requires h.Ranged() && h.samples != []
    ensures Inv(h.samples, [Measured(h.samples, StartBox(h))], StartBox(h))
    ensures Fits(h, StartBox(h))
  {
    hide Mass, CellL, CellA, CellB, Variance;
    var start, samples := StartBox(h), h.samples;
    var range := Box(h.minL, h.maxL, h.minA, h.maxA, h.minB, h.maxB);
    assert Within(samples[0], range);
    forall n | 0 <= n < |samples| ensures Held(samples[n], [Measured(samples, start)]) {
      assert Within(samples[n], range);
      assert InBox(samples[n], [Measured(samples, start)][0].box);
    }
    assert InBox(samples[0], start);
    MassPositive(samples, start);
  }

  lemma InvFits(h: Histogram, state: seq<WuBox>, i: int)
    requires Fits(h, StartBox(h)) && Inv(h.samples, state, StartBox(h)) && 0 <= i < |state|
    ensures Fits(h, state[i].box) && OnGrid(state[i].box) && Mass(h.samples, state[i].box).w > 0.0
  {
    hide Mass;
    assert GoodBox(h.samples, state[i], StartBox(h));
  }

  method PartitionListed(h: Histogram, out: array<WeightedPoint>, maxBoxes: nat)
      returns (count: nat, ghost cells: seq<Box>)
    requires h.Raw() && h.Listed() && h.numActive <= maxBoxes <= out.Length
    modifies out
    ensures count == |cells| <= maxBoxes && cells == ListedBoxes(h.activeBins[..h.numActive])
    ensures Covers(h.samples, cells) && PointsOf(h.samples, cells, out[..count])
  {
    hide Mass, Covers, UnpackL, UnpackA, UnpackB, PointOf;
    ghost var list := h.activeBins[..h.numActive];
    cells := ListedBoxes(list);
    ListedCover(h.samples, list);
    count := 0;
    var i := 0;
    while i < h.numActive && count < maxBoxes
      invariant count == i <= h.numActive
      invariant PointsOf(h.samples, cells[..i], out[..i])
    {
      var packed := h.activeBins[i];
      var bl := UnpackL(packed);
      var ba := UnpackA(packed);
      var bb := UnpackB(packed);
      UnpackedOnGrid(packed);
      assert cells[i] == UnpackedBox(list[i]) && list[i] == packed;
      CoverPositive(h.samples, cells, i);
      var bin := h.bins[bl, ba, bb];
      if bin.w > 0.0 {
        out[count] := PointOf(bin);
        count := count + 1;
      }
      assert cells[..i + 1] == cells[..i] + [cells[i]];
      assert out[..i + 1] == out[..i] + [PointOf(bin)];
      i := i + 1;
    }
    assert cells[..i] == cells;
  }

  lemma UnpackedOnGrid(p: int)
    ensures IsCell(UnpackL(p), UnpackA(p), UnpackB(p))
  {
  }

  lemma CoverPositive(samples: seq<Sample>, boxes: seq<Box>, k: int)
    requires Covers(samples, boxes) && 0 <= k < |boxes|
    ensures Mass(samples, boxes[k]).w > 0.0
  {
    hide Mass, HeldOnce;
  }

  /** The greedy loop: cut the widest box until the boxes run out or nothing is worth cutting. */
  method SplitBoxes(h: Histogram, boxes: array<WuBox>, maxBoxes: nat) returns (n: nat, ghost trace: seq<seq<WuBox>>)
    requires h.Cumulative() && h.Ranged() && h.samples != []
    requires 1 <= maxBoxes <= boxes.Length
    modifies boxes
    ensures 1 <= n <= maxBoxes
    ensures Run(h.samples, trace, StartBox(h)) && trace[|trace| - 1] == boxes[..n]
    ensures Inv(h.samples, boxes[..n], StartBox(h)) && Fits(h, StartBox(h))
    ensures n == maxBoxes || forall k :: 0 <= k < n ==> boxes[k].variance <= NEGLIGIBLE
  {
    hide Mass, Variance, Inv, GreedyStep, Fits;
    StartInv(h);
    ghost var start := StartBox(h);
    var box := Box(if h.minL <= h.maxL then h.minL - 1 else 0, if h.minL <= h.maxL then h.maxL else BINS,
                   if h.minA <= h.maxA then h.minA - 1 else 0, if h.minA <= h.maxA then h.maxA else BINS,
                   if h.minB <= h.maxB then h.minB - 1 else 0, if h.minB <= h.maxB then h.maxB else BINS);
    var v := BoxVariance(h, box);
    boxes[0] := WuBox(box, v);
    n := 1;
    trace := [boxes[..1]];
    while n < maxBoxes
      invariant 1 <= n <= maxBoxes
      invariant Run(h.samples, trace, start) && trace[|trace| - 1] == boxes[..n]
      invariant Inv(h.samples, boxes[..n], start)
      decreases maxBoxes - n, Busy(boxes[..n])
    {
      var best, maxV := Widest(boxes, n);
      if maxV <= NEGLIGIBLE {
        break;
      }
      ghost var before := boxes[..n];
      n := SplitOne(h, boxes, n, best, maxV);
      StepKeeps(h.samples, before, boxes[..n], start);
      RunGrows(h.samples, trace, start, boxes[..n]);
      trace := trace + [boxes[..n]];
    }
  }

  method SplitOne(h: Histogram, boxes: array<WuBox>, n: nat, best: nat, maxV: real) returns (next: nat)
    requires h.Cumulative() && Fits(h, StartBox(h)) && 1 <= n < boxes.Length && best < n
    requires Inv(h.samples, boxes[..n], StartBox(h))
    requires maxV == boxes[best].variance > NEGLIGIBLE && forall k :: 0 <= k < n ==> boxes[k].variance <= maxV
    modifies boxes
    ensures n <= next <= n + 1
    ensures next == n ==> Busy(boxes[..n]) < Busy(old(boxes[..n]))
    ensures Step(h.samples, old(boxes[..n]), boxes[..next])
  {
    hide Mass, Variance, Inv, Fits, IsBestCut, Uncuttable;
    ghost var before := boxes[..n];
    InvFits(h, before, best);
    var ok;
    ghost var axis, cut;
    ok, axis, cut := Cut(h, boxes, best, n);
    if ok {
      next := n + 1;
      assert boxes[..next] == before[best := boxes[best]] + [boxes[n]];
    } else {
      boxes[best] := boxes[best].(variance := 0.0);
      next := n;
      RetireLowersBusy(before, best);
      assert boxes[..next] == before[best := before[best].(variance := 0.0)];
    }
    assert GreedyStep(h.samples, before, boxes[..next], best, axis, cut);
  }

  lemma RunGrows(samples: seq<Sample>, trace: seq<seq<WuBox>>, start: Box, t: seq<WuBox>)
    requires Run(samples, trace, start) && Step(samples, trace[|trace| - 1], t)
    ensures Run(samples, trace + [t], start)
  {
    hide Step;
    forall k | 0 <= k < |trace| ensures Step(samples, (trace + [t])[k], (trace + [t])[k + 1]) {
      if k < |trace| - 1 {
        assert Step(samples, trace[k], trace[k + 1]);
      }
    }
  }

  method PartitionGreedy(h: Histogram, out: array<WeightedPoint>, maxBoxes: nat)
      returns (count: nat, ghost cells: seq<Box>, ghost trace: seq<seq<WuBox>>)
    requires h.Cumulative() && h.Ranged() && h.samples != []
    requires 1 <= maxBoxes <= MAX_BOXES && maxBoxes <= out.Length
    modifies out
    ensures count == |cells| <= maxBoxes
    ensures Covers(h.samples, cells) && PointsOf(h.samples, cells, out[..count])
    ensures Run(h.samples, trace, StartBox(h)) && cells == Boxes(trace[|trace| - 1])
    ensures Exhausted(h.samples, cells, maxBoxes)
  {
    hide Mass, Variance, Inv, Fits, VolBin, PointOf, Covers, Run, Uncuttable, Held, Apart;
    var boxes := new WuBox[MAX_BOXES](_ => WuBox(Box(0, 0, 0, 0, 0, 0), 0.0));
    var num;
    num, trace := SplitBoxes(h, boxes, maxBoxes);
    ghost var state := boxes[..num];
    cells := Boxes(state);
    InvCovers(h.samples, state, StartBox(h));
    InvExhausted(h.samples, state, StartBox(h), maxBoxes);
    count := 0;
    for i := 0 to num
      invariant count == i && state == boxes[..num]
      invariant PointsOf(h.samples, cells[..i], out[..i])
    {
      InvFits(h, state, i);
      VolBinIsMass(h, state[i].box);
      var vol := VolBin(boxes[i].box, h);
      if vol.w > 0.0 {
        out[count] := PointOf(vol);
        count := count + 1;
      }
      assert cells[..i + 1] == cells[..i] + [cells[i]];
      assert out[..i + 1] == out[..i] + [PointOf(vol)];
    }
    assert cells[..num] == cells;
  }

  lemma InvExhausted(samples: seq<Sample>, state: seq<WuBox>, start: Box, maxBoxes: nat)
    requires Inv(samples, state, start)
    requires |state| == maxBoxes || forall k :: 0 <= k < |state| ==> state[k].variance <= NEGLIGIBLE
    ensures Exhausted(samples, Boxes(state), maxBoxes)
  {
    hide Mass, Variance, Uncuttable;
    forall k | 0 <= k < |state| && state[k].variance <= NEGLIGIBLE
      ensures Variance(Mass(samples, Boxes(state)[k])) <= NEGLIGIBLE || Uncuttable(samples, Boxes(state)[k])
    {
      assert GoodBox(samples, state[k], start);
    }
  }

  /** The partition into at most maxBoxes weighted points.  Each point is the mean of one of
      the cells (boxes that hold every sample exactly once), so the weights add up to the
      number of samples; a dense histogram is partitioned by a greedy run. */
  method Partition(h: Histogram, out: array<WeightedPoint>, maxBoxes: nat)
      returns (count: nat, ghost cells: seq<Box>, ghost trace: seq<seq<WuBox>>)
    requires h.Ranged() && h.Listed()
    requires if h.numActive <= maxBoxes then h.Raw() else h.Cumulative()
    requires 1 <= maxBoxes <= MAX_BOXES && maxBoxes <= out.Length
    modifies out
    ensures count == |cells| <= maxBoxes
    ensures Covers(h.samples, cells) && PointsOf(h.samples, cells, out[..count])
    ensures WeightSum(out[..count]) == |h.samples| as real
    ensures h.numActive > maxBoxes ==>
              && Run(h.samples, trace, StartBox(h)) && cells == Boxes(trace[|trace| - 1])
              && Exhausted(h.samples, cells, maxBoxes)
    ensures h.numActive <= maxBoxes ==> cells == ListedBoxes(h.activeBins[..h.numActive])
  {
    hide Mass, Covers, PointsOf, Run, Exhausted, ListsCells;
    if h.numActive <= maxBoxes {
      count, cells := PartitionListed(h, out, maxBoxes);
      trace := [];
    } else {
      ManyActiveNonEmpty(h.activeBins[..h.numActive], h.samples);
      count, cells, trace := PartitionGreedy(h, out, maxBoxes);
    }
    PointsConserve(h.samples, cells, out[..count]);
  }

  /** One box for each occupied cell, when these are few. */
  ghost predicate CellByCell(samples: seq<Sample>, cells: seq<Box>) {
    exists list :: |list| <= MAX_BOXES && ListsCells(list, samples) && cells == ListedBoxes(list)
  }

  /** The boxes of a greedy run from a start box, which stopped for lack of boxes or of boxes
      worth cutting and lowered the variance. */
  ghost predicate Greedily(samples: seq<Sample>, cells: seq<Box>, start: Box) {
    && Exhausted(samples, cells, MAX_BOXES)
    && exists trace :: Run(samples, trace, start) && cells == Boxes(trace[|trace| - 1])
         && TotalVariance(samples, trace[|trace| - 1]) <= Variance(Mass(samples, start))
  }

  lemma IsCellByCell(samples: seq<Sample>, cells: seq<Box>, list: seq<int>)
    requires |list| <= MAX_BOXES && ListsCells(list, samples) && cells == ListedBoxes(list)
    ensures CellByCell(samples, cells)
  {
  }

  lemma IsGreedy(samples: seq<Sample>, cells: seq<Box>, start: Box, trace: seq<seq<WuBox>>)
    requires Exhausted(samples, cells, MAX_BOXES)
    requires Run(samples, trace, start) && cells == Boxes(trace[|trace| - 1])
    ensures Greedily(samples, cells, start)
  {
    hide Step, Exhausted, Boxes, TotalVariance;
    RunLowersVariance(samples, trace, start, |trace| - 1);
  }
}
