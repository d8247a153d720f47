/** Samples, histogram cells and boxes of the Wu quantiser, and the total mass a box
    holds.  Every bin, line, area and box sum of the program is such a mass, so one
    splitting lemma carries all of the summation arguments. */
module WuMass {
  import opened RealArith

  // Cells per axis; index 0 of the 33-wide grid is the guard plane of zeros.
  const BINS := 32
  const GRID := 33

  datatype Sample = Sample(l: real, a: real, b: real)

  datatype Bin = Bin(w: real, l: real, a: real, b: real, m2: real) {
    function Plus(o: Bin): Bin {
      Bin(w + o.w, l + o.l, a + o.a, b + o.b, m2 + o.m2)
    }

    function Minus(o: Bin): Bin {
      Bin(w - o.w, l - o.l, a - o.a, b - o.b, m2 - o.m2)
    }

    /** Squared length of the colour sum. */
    function SumSq(): real {
      l * l + a * a + b * b
    }
  }

  const ZERO := Bin(0.0, 0.0, 0.0, 0.0, 0.0)

  /** A box of cells, open below and closed above on every axis. */
  datatype Box = Box(l0: int, l1: int, a0: int, a1: int, b0: int, b1: int)

  datatype Axis = AxisL | AxisA | AxisB

  function Low(box: Box, axis: Axis): int {
    match axis case AxisL => box.l0 case AxisA => box.a0 case AxisB => box.b0
  }

  function High(box: Box, axis: Axis): int {
    match axis case AxisL => box.l1 case AxisA => box.a1 case AxisB => box.b1
  }

  function LowerHalf(box: Box, axis: Axis, cut: int): Box {
    match axis
    case AxisL => box.(l1 := cut)
    case AxisA => box.(a1 := cut)
    case AxisB => box.(b1 := cut)
  }

  function UpperHalf(box: Box, axis: Axis, cut: int): Box {
    match axis
    case AxisL => box.(l0 := cut)
    case AxisA => box.(a0 := cut)
    case AxisB => box.(b0 := cut)
  }

  function Clamp(x: int, lo: int, hi: int): int {
    if x < lo then lo else if x > hi then hi else x
  }

  function CellL(s: Sample): (r: int)
    ensures 1 <= r <= BINS
  {
    Clamp(Truncate(s.l * 32.0) + 1, 1, BINS)
  }

  function CellA(s: Sample): (r: int)
    ensures 1 <= r <= BINS
  {
    Clamp(Truncate((s.a + 0.4) * (1.0 / 0.8) * 32.0) + 1, 1, BINS)
  }

  function CellB(s: Sample): (r: int)
    ensures 1 <= r <= BINS
  {
    Clamp(Truncate((s.b + 0.4) * (1.0 / 0.8) * 32.0) + 1, 1, BINS)
  }

  function Coord(s: Sample, axis: Axis): int {
    match axis case AxisL => CellL(s) case AxisA => CellA(s) case AxisB => CellB(s)
  }

  predicate InBox(s: Sample, box: Box) {
    && box.l0 < CellL(s) <= box.l1
    && box.a0 < CellA(s) <= box.a1
    && box.b0 < CellB(s) <= box.b1
  }

  function Unit(s: Sample): Bin {
    Bin(1.0, s.l, s.a, s.b, s.l * s.l + s.a * s.a + s.b * s.b)
  }

  /** Count, colour sums and sum of squares of the samples that fall into the box. */
  function Mass(samples: seq<Sample>, box: Box): Bin {
    if samples == [] then ZERO
    else
      var rest := Mass(samples[..|samples| - 1], box);
      var s := samples[|samples| - 1];
      if InBox(s, box) then rest.Plus(Unit(s)) else rest
  }

  // The boxes met while summing: a cell, the cells of one line up to b, the cells of one
  // plane up to (a, b), and all cells up to (l, a, b).
  function CellBox(l: int, a: int, b: int): Box {
    Box(l - 1, l, a - 1, a, b - 1, b)
  }

  function LineBox(l: int, a: int, b: int): Box {
    Box(l - 1, l, a - 1, a, 0, b)
  }

  function AreaBox(l: int, a: int, b: int): Box {
    Box(l - 1, l, 0, a, 0, b)
  }

  function UpTo(l: int, a: int, b: int): Box {
    Box(0, l, 0, a, 0, b)
  }

  lemma MassAppend(samples: seq<Sample>, s: Sample, box: Box)
    ensures Mass(samples + [s], box) ==
            if InBox(s, box) then Mass(samples, box).Plus(Unit(s)) else Mass(samples, box)
  {
    assert (samples + [s])[..|samples|] == samples;
  }

  /** Cutting a box on any axis splits its mass. */
  lemma {:induction false} MassSplit(samples: seq<Sample>, box: Box, axis: Axis, cut: int)
    requires Low(box, axis) <= cut <= High(box, axis)
    ensures Mass(samples, box) ==
            Mass(samples, LowerHalf(box, axis, cut)).Plus(Mass(samples, UpperHalf(box, axis, cut)))
  {
    hide *;
    if samples == [] {
      MassOfNothing();
    } else {
      var rest, s := samples[..|samples| - 1], samples[|samples| - 1];
      MassSplit(rest, box, axis, cut);
      MassStep(samples, box);
      MassStep(samples, LowerHalf(box, axis, cut));
      MassStep(samples, UpperHalf(box, axis, cut));
      InOneHalf(s, box, axis, cut);
      AddToEither(Mass(rest, LowerHalf(box, axis, cut)), Mass(rest, UpperHalf(box, axis, cut)), Unit(s));
    }
  }

  lemma MassOfNothing()
    ensures forall box :: Mass([], box) == ZERO
    ensures ZERO.Plus(ZERO) == ZERO
  {
  }

  lemma MassStep(samples: seq<Sample>, box: Box)
    requires samples != []
    ensures var rest, s := Mass(samples[..|samples| - 1], box), samples[|samples| - 1];
      Mass(samples, box) == if InBox(s, box) then rest.Plus(Unit(s)) else rest
  {
    hide InBox, Unit, Bin.Plus;
  }

  lemma InOneHalf(s: Sample, box: Box, axis: Axis, cut: int)
    requires Low(box, axis) <= cut <= High(box, axis)
    ensures InBox(s, box) <==> InBox(s, LowerHalf(box, axis, cut)) || InBox(s, UpperHalf(box, axis, cut))
    ensures !(InBox(s, LowerHalf(box, axis, cut)) && InBox(s, UpperHalf(box, axis, cut)))
  {
    hide CellL, CellA, CellB;
  }

  lemma AddToEither(x: Bin, y: Bin, u: Bin)
    ensures x.Plus(u).Plus(y) == x.Plus(y).Plus(u) == x.Plus(y.Plus(u))
  {
  }

  /** A box that no sample falls into has no mass. */
  lemma {:induction false} MassNone(samples: seq<Sample>, box: Box)
    requires forall i :: 0 <= i < |samples| ==> !InBox(samples[i], box)
    ensures Mass(samples, box) == ZERO
  {
    if samples != [] {
      MassNone(samples[..|samples| - 1], box);
      assert !InBox(samples[|samples| - 1], box);
    }
  }

  /** Two boxes that hold the same samples have the same mass. */
  lemma {:induction false} MassSame(samples: seq<Sample>, box1: Box, box2: Box)
    requires forall i :: 0 <= i < |samples| ==> (InBox(samples[i], box1) <==> InBox(samples[i], box2))
    ensures Mass(samples, box1) == Mass(samples, box2)
  {
    if samples != [] {
      MassSame(samples[..|samples| - 1], box1, box2);
      assert InBox(samples[|samples| - 1], box1) <==> InBox(samples[|samples| - 1], box2);
    }
  }

  /** The weight of a box is positive exactly when some sample falls into it. */
  lemma {:induction false} MassPositive(samples: seq<Sample>, box: Box)
    ensures Mass(samples, box).w >= 0.0
    ensures Mass(samples, box).w > 0.0 <==> exists i :: 0 <= i < |samples| && InBox(samples[i], box)
  {
    if samples != [] {
      var rest := samples[..|samples| - 1];
      MassPositive(rest, box);
      if Mass(rest, box).w > 0.0 {
        var i :| 0 <= i < |rest| && InBox(rest[i], box);
        assert InBox(samples[i], box);
      } else {
        forall i | 0 <= i < |rest| ensures !InBox(samples[i], box) {
          assert !InBox(rest[i], box);
        }
      }
    }
  }

  /** A box holding every sample weighs their number. */
  lemma {:induction false} MassAll(samples: seq<Sample>, box: Box)
    requires forall i :: 0 <= i < |samples| ==> InBox(samples[i], box)
    ensures Mass(samples, box).w == |samples| as real
  {
    if samples != [] {
      MassAll(samples[..|samples| - 1], box);
      assert InBox(samples[|samples| - 1], box);
    }
  }

  /** Inclusion-exclusion on one axis: the mass of a box is a difference of two boxes that
      reach down to the guard plane on that axis. */
  lemma MassDifference(samples: seq<Sample>, box: Box, axis: Axis)
    requires 0 <= Low(box, axis) <= High(box, axis)
    ensures Mass(samples, box) ==
            Mass(samples, UpperHalf(box, axis, 0)).Minus(
              Mass(samples, LowerHalf(UpperHalf(box, axis, 0), axis, Low(box, axis))))
  {
    MassSplit(samples, UpperHalf(box, axis, 0), axis, Low(box, axis));
    assert UpperHalf(UpperHalf(box, axis, 0), axis, Low(box, axis)) == box;
  }
}
