/** The sparse histogram and its in-place cumulative moments. */
module WuHistogram {
  import opened Arith
  import opened Counting
  import opened WuMass

  const MAX_BOXES := 64
  const MAX_ACTIVE := BINS * BINS * BINS

  // A cell packed into 15 bits, five per axis.
  function Pack(l: int, a: int, b: int): int {
    (l - 1) * 1024 + (a - 1) * 32 + (b - 1)
  }

  function UnpackL(p: int): int { p / 1024 % 32 + 1 }

  function UnpackA(p: int): int { p / 32 % 32 + 1 }

  function UnpackB(p: int): int { p % 32 + 1 }

  predicate IsCell(l: int, a: int, b: int) {
    1 <= l <= BINS && 1 <= a <= BINS && 1 <= b <= BINS
  }

  lemma PackUnpack(l: int, a: int, b: int)
    requires IsCell(l, a, b)
    ensures 0 <= Pack(l, a, b) < MAX_ACTIVE
    ensures UnpackL(Pack(l, a, b)) == l && UnpackA(Pack(l, a, b)) == a && UnpackB(Pack(l, a, b)) == b
  {
    var p := Pack(l, a, b);
    Quotient(p, 1024, l - 1, (a - 1) * 32 + (b - 1));
    Quotient(p, 32, (l - 1) * 32 + (a - 1), b - 1);
    Quotient((l - 1) * 32 + (a - 1), 32, l - 1, a - 1);
    Quotient(l - 1, 32, 0, l - 1);
  }

  function PackSample(s: Sample): int {
    Pack(CellL(s), CellA(s), CellB(s))
  }

  /** The listed cells are exactly the cells of the samples, each once. */
  ghost predicate ListsCells(list: seq<int>, samples: seq<Sample>) {
    && Distinct(list)
    && (forall p :: p in list <==> exists i :: 0 <= i < |samples| && PackSample(samples[i]) == p)
  }

  /** Some sample lies at x on the axis. */
  ghost predicate Seen(samples: seq<Sample>, axis: Axis, x: int) {
    exists i :: 0 <= i < |samples| && Coord(samples[i], axis) == x
  }

  /** Every end of the range is met. */
  ghost predicate Tight(samples: seq<Sample>, r: Box) {
    forall axis :: Seen(samples, axis, Low(r, axis)) && Seen(samples, axis, High(r, axis))
  }

  /** The closed range r is the smallest that covers every sample, and is the program's initial
      range when there is none. */
  ghost predicate InRange(samples: seq<Sample>, r: Box) {
    && (samples == [] ==> r == Box(BINS, 1, BINS, 1, BINS, 1))
    && (samples != [] ==> Tight(samples, r))
    && 1 <= r.l0 <= BINS && 1 <= r.l1 <= BINS && 1 <= r.a0 <= BINS && 1 <= r.a1 <= BINS
    && 1 <= r.b0 <= BINS && 1 <= r.b1 <= BINS
    && forall i :: 0 <= i < |samples| ==> Within(samples[i], r)
  }

  predicate Within(s: Sample, r: Box) {
    r.l0 <= CellL(s) <= r.l1 && r.a0 <= CellA(s) <= r.a1 && r.b0 <= CellB(s) <= r.b1
  }

  class Histogram {
    ghost var samples: seq<Sample>
    const bins: array3<Bin>
    const activeBins: array<int>
    var numActive: nat
    var minL: int
    var maxL: int
    var minA: int
    var maxA: int
    var minB: int
    var maxB: int

    ghost predicate Sized() {
      bins.Length0 == bins.Length1 == bins.Length2 == GRID && activeBins.Length == MAX_ACTIVE
    }

    ghost predicate Ranged()
      reads this
    {
      InRange(samples, Box(minL, maxL, minA, maxA, minB, maxB))
    }

    ghost predicate Listed()
      reads this, activeBins
    {
      && Sized()
      && numActive <= MAX_ACTIVE
      && ListsCells(activeBins[..numActive], samples)
    }

    /** Before the moments are computed: every bin holds the mass of its own cell. */
    ghost predicate Raw()
      reads this, bins
    {
      && Sized()
      && forall i, j, k :: 0 <= i < GRID && 0 <= j < GRID && 0 <= k < GRID ==>
           bins[i, j, k] == Mass(samples, CellBox(i, j, k))
    }

    /** Afterwards: every bin up to the upper end of the active range holds the mass of all
        cells at or below it, and every bin past that end is still zero. */
    ghost predicate Cumulative()
      reads this, bins
    {
      && Sized()
      && forall i, j, k :: 0 <= i < GRID && 0 <= j < GRID && 0 <= k < GRID ==>
           bins[i, j, k] ==
           if i <= maxL && j <= maxA && k <= maxB then Mass(samples, UpTo(i, j, k)) else ZERO
    }

    constructor ()
      ensures fresh(bins) && fresh(activeBins)
      ensures samples == [] && Raw() && Ranged() && Listed()
    {
      samples := [];
      bins := new Bin[GRID, GRID, GRID];
      activeBins := new int[MAX_ACTIVE];
      new;
      Reset();
    }

    method Reset()
      requires Sized()
      modifies this, bins
      ensures samples == [] && Raw() && Ranged() && Listed()
    {
      forall i, j, k | 0 <= i < GRID && 0 <= j < GRID && 0 <= k < GRID {
        bins[i, j, k] := ZERO;
      }
      numActive := 0;
      minL := BINS;
      maxL := 1;
      minA := BINS;
      maxA := 1;
      minB := BINS;
      maxB := 1;
      samples := [];
    }

    method AccumPixel(s: Sample)
      requires Raw() && Ranged() && Listed()
      modifies this, bins, activeBins
      ensures Raw() && Ranged() && Listed()
      ensures samples == old(samples) + [s]
    {
      var bl, ba, bb := CellL(s), CellA(s), CellB(s);
      ActiveIffSeen(samples, activeBins[..numActive], s);
      if bins[bl, ba, bb].w == 0.0 {
        ListCell(bl, ba, bb, s);
        WidenRange(bl, ba, bb, s);
      } else {
        ListsAppend(activeBins[..numActive], samples, s);
        RangeAppend(samples, Box(minL, maxL, minA, maxA, minB, maxB), s);
      }
      RawAppend(samples, s);
      bins[bl, ba, bb] := bins[bl, ba, bb].Plus(Unit(s));
      samples := samples + [s];
    }

    /** The first sample of a cell lists the cell. */
    method ListCell(bl: int, ba: int, bb: int, ghost s: Sample)
      requires Listed() && bl == CellL(s) && ba == CellA(s) && bb == CellB(s)
      requires PackSample(s) !in activeBins[..numActive]
      modifies `numActive, activeBins
      ensures numActive <= MAX_ACTIVE && ListsCells(activeBins[..numActive], samples + [s])
    {
      ghost var before := activeBins[..numActive];
      PackedRange(s);
      Roomy(before, samples, PackSample(s));
      ListsAppend(before, samples, s);
      if numActive < BINS * BINS * BINS {
        activeBins[numActive] := Pack(bl, ba, bb);
        numActive := numActive + 1;
      }
      assert activeBins[..numActive] == before + [PackSample(s)];
    }

    /** The first sample of a cell widens the active range. */
    method WidenRange(bl: int, ba: int, bb: int, ghost s: Sample)
      requires Ranged() && bl == CellL(s) && ba == CellA(s) && bb == CellB(s)
      modifies `minL, `maxL, `minA, `maxA, `minB, `maxB
      ensures InRange(samples + [s], Box(minL, maxL, minA, maxA, minB, maxB))
    {
      hide InRange, CellL, CellA, CellB;
      RangeWiden(samples, Box(minL, maxL, minA, maxA, minB, maxB), s);
      if bl < minL { minL := bl; }
      if bl > maxL { maxL := bl; }
      if ba < minA { minA := ba; }
      if ba > maxA { maxA := ba; }
      if bb < minB { minB := bb; }
      if bb > maxB { maxB := bb; }
    }

    /** Three nested loops overwrite the bins by their running sums, over the active range
        only; nothing is done when the histogram is so sparse that it is used directly. */
    method ComputeMoments()
      requires Raw() && Ranged() && Listed()
      modifies bins
      ensures numActive <= MAX_BOXES ==> Raw()
      ensures numActive > MAX_BOXES ==> Cumulative()
    {
      if numActive <= MAX_BOXES {
        return;
      }
      hide Raw, Cumulative, Swept, SumStep, InRange, ListsCells, Mass;
      var l0 := if minL <= maxL then minL else 1;
      var l1 := if minL <= maxL then maxL else BINS;
      var a0 := if minA <= maxA then minA else 1;
      var a1 := if minA <= maxA then maxA else BINS;
      var b0 := if minB <= maxB then minB else 1;
      var b1 := if minB <= maxB then maxB else BINS;
      ghost var range := Box(minL, maxL, minA, maxA, minB, maxB);
      ManyActiveNonEmpty(activeBins[..numActive], samples);
      RangeOfSome(samples, range);
      ghost var all := samples;
      ghost var mass := (box: Box) => Mass(all, box);
      Steps(all, mass);
      OutsideRange(all, range, mass);
      FirstPlane(mass, l0, a0, b0);
      AccumulatePlanes(mass, l0, l1, a0, a1, b0, b1);
      LastPlane(mass, a0, b0);
    }

    /** The outer loop: plane after plane. */
    method AccumulatePlanes(ghost mass: Box -> Bin, l0: int, l1: int, a0: int, a1: int, b0: int, b1: int)
      requires Swept(mass, l0, a0, b0) && Additive(mass) && IsCell(l0, a0, b0)
      requires l0 <= l1 <= BINS && a0 <= a1 == maxA <= BINS && b0 <= b1 == maxB <= BINS
      requires forall i, j, k :: j < a0 || k < b0 ==> mass(UpTo(i, j, k)) == mass(CellBox(i, j, k)) == ZERO
      requires forall i, j, k :: j < a0 || k < b0 ==> mass(AreaBox(i, j, k)) == ZERO
      requires forall i, j, k :: k < b0 ==> mass(LineBox(i, j, k)) == ZERO
      modifies bins
      ensures Swept(mass, l1 + 1, a0, b0)
    {
      hide Swept, SumStep;
      var l := l0;
      while l <= l1
        invariant l0 <= l <= l1 + 1
        invariant Swept(mass, l, a0, b0)
      {
        AccumulatePlane(mass, l, a0, a1, b0, b1);
        NextPlane(mass, l, a0, b0);
        l := l + 1;
      }
    }

    // The raw bins are swept up to the first plane, the end of a plane is the start of the
    // next, and behind the last plane the bins are cumulative.
    lemma FirstPlane(mass: Box -> Bin, l0: int, a0: int, b0: int)
      requires Raw() && forall box :: mass(box) == Mass(samples, box)
      requires forall i, j, k :: i < l0 || j < a0 || k < b0 ==> mass(UpTo(i, j, k)) == mass(CellBox(i, j, k)) == ZERO
      ensures Swept(mass, l0, a0, b0)
    {
      hide Mass;
    }

    lemma NextPlane(mass: Box -> Bin, l: int, a0: int, b0: int)
      requires Swept(mass, l, maxA + 1, b0)
      requires forall i, j, k :: j < a0 || k < b0 ==> mass(UpTo(i, j, k)) == mass(CellBox(i, j, k)) == ZERO
      ensures Swept(mass, l + 1, a0, b0)
    {
    }

    lemma LastPlane(mass: Box -> Bin, a0: int, b0: int)
      requires Swept(mass, maxL + 1, a0, b0) && forall box :: mass(box) == Mass(samples, box)
      requires forall i, j, k :: j < a0 || k < b0 ==> mass(UpTo(i, j, k)) == ZERO
      requires forall i, j, k :: i > maxL || j > maxA || k > maxB ==> mass(CellBox(i, j, k)) == ZERO
      ensures Cumulative()
    {
      hide Mass;
    }

    /** The middle loop: one plane of cells, with a fresh area row. */
    method AccumulatePlane(ghost mass: Box -> Bin, l: int, a0: int, a1: int, b0: int, b1: int)
      requires Swept(mass, l, a0, b0) && Additive(mass) && IsCell(l, a0, b0)
      requires a0 <= a1 == maxA <= BINS && b0 <= b1 == maxB <= BINS
      requires forall j, k :: j < a0 || k < b0 ==> mass(AreaBox(l, j, k)) == ZERO
      requires forall j, k :: k < b0 ==> mass(LineBox(l, j, k)) == ZERO
      requires forall j, k :: k < b0 ==> mass(UpTo(l, j, k)) == mass(CellBox(l, j, k)) == ZERO
      modifies bins
      ensures Swept(mass, l, a1 + 1, b0)
    {
      hide Swept, SumStep;
      var area := new Bin[GRID](_ => ZERO);
      var a := a0;
      while a <= a1
        invariant a0 <= a <= a1 + 1
        invariant Swept(mass, l, a, b0)
        invariant forall k :: b0 <= k <= b1 ==> area[k] == mass(AreaBox(l, a - 1, k))
      {
        AccumulateLine(mass, l, a, b0, b1, area);
        NextLine(mass, l, a, b0);
        a := a + 1;
      }
    }

    /** The end of one line is the start of the next. */
    lemma NextLine(mass: Box -> Bin, l: int, a: int, b0: int)
      requires Swept(mass, l, a, maxB + 1)
      requires forall j, k :: k < b0 ==> mass(UpTo(l, j, k)) == mass(CellBox(l, j, k)) == ZERO
      ensures Swept(mass, l, a + 1, b0)
    {
    }

    /** The bins before position (l, a, b) in loop order are cumulative, the rest raw. */
    ghost predicate Swept(mass: Box -> Bin, l: int, a: int, b: int)
      reads this, bins
    {
      && Sized()
      && forall i, j, k :: 0 <= i < GRID && 0 <= j < GRID && 0 <= k < GRID ==>
           bins[i, j, k] == mass(Held(i, j, k, l, a, b, maxA, maxB))
    }

    /** The innermost loop: one line of cells. */
    method AccumulateLine(ghost mass: Box -> Bin, l: int, a: int, b0: int, b1: int, area: array<Bin>)
      requires Swept(mass, l, a, b0) && Additive(mass) && IsCell(l, a, b0) && b0 <= b1 == maxB <= BINS && a <= maxA
      requires mass(LineBox(l, a, b0 - 1)) == ZERO
      requires area.Length == GRID && forall k :: b0 <= k <= b1 ==> area[k] == mass(AreaBox(l, a - 1, k))
      modifies bins, area
      ensures Swept(mass, l, a, b1 + 1)
      ensures forall k :: b0 <= k <= b1 ==> area[k] == mass(AreaBox(l, a, k))
    {
      hide Swept, SumStep;
      var line := ZERO;
      var b := b0;
      while b <= b1
        invariant b0 <= b <= b1 + 1
        invariant Swept(mass, l, a, b)
        invariant line == mass(LineBox(l, a, b - 1))
        invariant forall k :: b0 <= k < b ==> area[k] == mass(AreaBox(l, a, k))
        invariant forall k :: b <= k <= b1 ==> area[k] == mass(AreaBox(l, a - 1, k))
      {
        line := AccumulateBin(mass, l, a, b, line, area);
        b := b + 1;
      }
    }

    /** One bin becomes cumulative: the bin one plane below plus the running sum of its plane. */
    method AccumulateBin(ghost mass: Box -> Bin, l: int, a: int, b: int, line: Bin, area: array<Bin>)
        returns (next: Bin)
      requires Swept(mass, l, a, b) && IsCell(l, a, b) && a <= maxA && b <= maxB
      requires SumStep(mass, l, a, b) && line == mass(LineBox(l, a, b - 1))
      requires area.Length == GRID && area[b] == mass(AreaBox(l, a - 1, b))
      modifies bins, area
      ensures Swept(mass, l, a, b + 1)
      ensures next == mass(LineBox(l, a, b)) && area[b] == mass(AreaBox(l, a, b))
      ensures forall k :: 0 <= k < GRID && k != b ==> area[k] == old(area[k])
    {
      assert bins[l - 1, a, b] == mass(Held(l - 1, a, b, l, a, b, maxA, maxB));
      next := line.Plus(bins[l, a, b]);
      area[b] := area[b].Plus(next);
      bins[l, a, b] := bins[l - 1, a, b].Plus(area[b]);
    }
  }

  /** A histogram of the samples, accumulated one by one. */
  method Accumulated(samples: seq<Sample>) returns (h: Histogram)
    ensures fresh(h) && fresh(h.bins) && fresh(h.activeBins)
    ensures h.Raw() && h.Ranged() && h.Listed() && h.samples == samples
  {
    hide Mass, InRange, ListsCells;
    h := new Histogram();
    for i := 0 to |samples|
      invariant h.Raw() && h.Ranged() && h.Listed() && h.samples == samples[..i]
      invariant fresh(h) && fresh(h.bins) && fresh(h.activeBins)
    {
      h.AccumPixel(samples[i]);
    }
    assert samples[..|samples|] == samples;
  }

  lemma PackInjective(l1: int, a1: int, b1: int, l2: int, a2: int, b2: int)
    requires IsCell(l1, a1, b1) && IsCell(l2, a2, b2) && Pack(l1, a1, b1) == Pack(l2, a2, b2)
    ensures l1 == l2 && a1 == a2 && b1 == b2
  {
    PackUnpack(l1, a1, b1);
    PackUnpack(l2, a2, b2);
  }

  lemma SameCell(s1: Sample, s2: Sample)
    ensures InBox(s1, CellBox(CellL(s2), CellA(s2), CellB(s2))) <==> PackSample(s1) == PackSample(s2)
  {
    if PackSample(s1) == PackSample(s2) {
      PackInjective(CellL(s1), CellA(s1), CellB(s1), CellL(s2), CellA(s2), CellB(s2));
    }
  }

  lemma PackedRange(s: Sample)
    ensures 0 <= PackSample(s) < MAX_ACTIVE
  {
    PackUnpack(CellL(s), CellA(s), CellB(s));
  }

  /** A cell's weight is zero exactly when the cell is not listed yet. */
  lemma ActiveIffSeen(samples: seq<Sample>, list: seq<int>, s: Sample)
    requires ListsCells(list, samples)
    ensures Mass(samples, CellBox(CellL(s), CellA(s), CellB(s))).w == 0.0 <==> PackSample(s) !in list
  {
    var cell := CellBox(CellL(s), CellA(s), CellB(s));
    MassPositive(samples, cell);
    forall i | 0 <= i < |samples| ensures InBox(samples[i], cell) <==> PackSample(samples[i]) == PackSample(s) {
      SameCell(samples[i], s);
    }
  }

  lemma RangeOfSome(samples: seq<Sample>, r: Box)
    requires InRange(samples, r) && samples != []
    ensures 1 <= r.l0 <= r.l1 <= BINS && 1 <= r.a0 <= r.a1 <= BINS && 1 <= r.b0 <= r.b1 <= BINS
  {
    hide Tight, CellL, CellA, CellB;
    assert Within(samples[0], r);
  }

  lemma RangeAppend(samples: seq<Sample>, r: Box, s: Sample)
    requires InRange(samples, r)
    requires exists i :: 0 <= i < |samples| && PackSample(samples[i]) == PackSample(s)
    ensures InRange(samples + [s], r)
  {
    hide Tight;
    var i :| 0 <= i < |samples| && PackSample(samples[i]) == PackSample(s);
    SameCell(samples[i], s);
    assert Within(samples[i], r);
    TightAppend(samples, r, s);
  }

  lemma SeenAppend(samples: seq<Sample>, axis: Axis, x: int, s: Sample)
    ensures Seen(samples + [s], axis, x) <==> Seen(samples, axis, x) || Coord(s, axis) == x
  {
    hide Coord;
    if Seen(samples, axis, x) {
      var i :| 0 <= i < |samples| && Coord(samples[i], axis) == x;
      assert (samples + [s])[i] == samples[i];
    }
    assert (samples + [s])[|samples|] == s;
  }

  lemma TightAppend(samples: seq<Sample>, r: Box, s: Sample)
    requires Tight(samples, r)
    ensures Tight(samples + [s], r)
  {
    hide Seen;
    forall axis ensures Seen(samples + [s], axis, Low(r, axis)) && Seen(samples + [s], axis, High(r, axis)) {
      SeenAppend(samples, axis, Low(r, axis), s);
      SeenAppend(samples, axis, High(r, axis), s);
    }
  }

  lemma TightWiden(samples: seq<Sample>, r: Box, s: Sample)
    requires if samples == [] then r == Box(BINS, 1, BINS, 1, BINS, 1) else Tight(samples, r)
    ensures Tight(samples + [s], Widen(r, s))
  {
    hide Seen, CellL, CellA, CellB;
    var t := Widen(r, s);
    forall axis ensures Seen(samples + [s], axis, Low(t, axis)) && Seen(samples + [s], axis, High(t, axis)) {
      if samples != [] { assert Seen(samples, axis, Low(r, axis)) && Seen(samples, axis, High(r, axis)); }
      SeenAppend(samples, axis, Low(t, axis), s);
      SeenAppend(samples, axis, High(t, axis), s);
    }
  }

  /** The range after a sample in a fresh cell. */
  function Widen(r: Box, s: Sample): Box {
    Box(if CellL(s) < r.l0 then CellL(s) else r.l0, if CellL(s) > r.l1 then CellL(s) else r.l1,
        if CellA(s) < r.a0 then CellA(s) else r.a0, if CellA(s) > r.a1 then CellA(s) else r.a1,
        if CellB(s) < r.b0 then CellB(s) else r.b0, if CellB(s) > r.b1 then CellB(s) else r.b1)
  }

  lemma RangeWiden(samples: seq<Sample>, r: Box, s: Sample)
    requires InRange(samples, r)
    ensures InRange(samples + [s], Widen(r, s))
  {
    hide Tight;
    TightWiden(samples, r, s);
    forall i | 0 <= i <= |samples| ensures Within((samples + [s])[i], Widen(r, s)) {
      if i < |samples| {
        assert Within(samples[i], r);
      }
    }
  }

  lemma RawAppend(samples: seq<Sample>, s: Sample)
    ensures forall i, j, k :: Mass(samples + [s], CellBox(i, j, k)) ==
              if i == CellL(s) && j == CellA(s) && k == CellB(s)
              then Mass(samples, CellBox(i, j, k)).Plus(Unit(s)) else Mass(samples, CellBox(i, j, k))
  {
    forall i, j, k
      ensures Mass(samples + [s], CellBox(i, j, k)) ==
              if i == CellL(s) && j == CellA(s) && k == CellB(s)
              then Mass(samples, CellBox(i, j, k)).Plus(Unit(s)) else Mass(samples, CellBox(i, j, k))
    {
      MassAppend(samples, s, CellBox(i, j, k));
    }
  }

  /** Below the active range nothing has accumulated, past it no cell is occupied. */
  lemma OutsideRange(samples: seq<Sample>, r: Box, mass: Box -> Bin)
    requires InRange(samples, r)
    requires forall box :: mass(box) == Mass(samples, box)
    ensures forall i, j, k :: i < r.l0 || j < r.a0 || k < r.b0 ==> mass(UpTo(i, j, k)) == ZERO
    ensures forall i, j, k :: i < r.l0 || j < r.a0 || k < r.b0 ==> mass(CellBox(i, j, k)) == ZERO
    ensures forall i, j, k :: i > r.l1 || j > r.a1 || k > r.b1 ==> mass(CellBox(i, j, k)) == ZERO
    ensures forall i, j, k :: j < r.a0 || k < r.b0 ==> mass(AreaBox(i, j, k)) == ZERO
    ensures forall i, j, k :: k < r.b0 ==> mass(LineBox(i, j, k)) == ZERO
  {
    forall box: Box | box.l1 < r.l0 || box.a1 < r.a0 || box.b1 < r.b0 || box.l0 >= r.l1 || box.a0 >= r.a1
                   || box.b0 >= r.b1
      ensures mass(box) == ZERO
    {
      forall i | 0 <= i < |samples| ensures !InBox(samples[i], box) {
        assert Within(samples[i], r);
      }
      MassNone(samples, box);
    }
  }

  /** The box whose mass bin (i, j, k) holds when the sweep stands at (l, a, b). */
  ghost function Held(i: int, j: int, k: int, l: int, a: int, b: int, maxA: int, maxB: int): Box {
    if k <= maxB && j <= maxA && (i < l || (i == l && (j < a || (j == a && k < b)))) then UpTo(i, j, k)
    else CellBox(i, j, k)
  }

  /** How the running sums grow: a line by a cell, a plane by a line, the corner by a plane. */
  ghost predicate SumStep(mass: Box -> Bin, l: int, a: int, b: int) {
    && mass(LineBox(l, a, b)) == mass(LineBox(l, a, b - 1)).Plus(mass(CellBox(l, a, b)))
    && mass(AreaBox(l, a, b)) == mass(AreaBox(l, a - 1, b)).Plus(mass(LineBox(l, a, b)))
    && mass(UpTo(l, a, b)) == mass(UpTo(l - 1, a, b)).Plus(mass(AreaBox(l, a, b)))
  }

  ghost predicate Additive(mass: Box -> Bin) {
    forall l, a, b :: IsCell(l, a, b) ==> SumStep(mass, l, a, b)
  }

  lemma Steps(samples: seq<Sample>, mass: Box -> Bin)
    requires forall box :: mass(box) == Mass(samples, box)
    ensures Additive(mass)
  {
    forall l, a, b | IsCell(l, a, b) ensures SumStep(mass, l, a, b) {
      MassSplit(samples, LineBox(l, a, b), AxisB, b - 1);
      MassSplit(samples, AreaBox(l, a, b), AxisA, a - 1);
      MassSplit(samples, UpTo(l, a, b), AxisL, l - 1);
    }
  }

  lemma ManyActiveNonEmpty(list: seq<int>, samples: seq<Sample>)
    requires ListsCells(list, samples) && |list| > 0
    ensures samples != []
  {
    var p := list[0];
    assert p in list;
    var i :| 0 <= i < |samples| && PackSample(samples[i]) == p;
  }

  lemma Roomy(list: seq<int>, samples: seq<Sample>, p: int)
    requires ListsCells(list, samples) && p !in list && 0 <= p < MAX_ACTIVE
    ensures |list| < MAX_ACTIVE
  {
    forall x | x in list ensures 0 <= x < MAX_ACTIVE {
      var j :| 0 <= j < |samples| && PackSample(samples[j]) == x;
      PackedRange(samples[j]);
    }
    DistinctBelow(list + [p], MAX_ACTIVE);
  }

  lemma ListsAppend(list: seq<int>, samples: seq<Sample>, s: Sample)
    requires ListsCells(list, samples)
    ensures PackSample(s) in list ==> ListsCells(list, samples + [s])
    ensures PackSample(s) !in list ==> ListsCells(list + [PackSample(s)], samples + [s])
  {
    var all := samples + [s];
    forall p
      ensures (exists i :: 0 <= i < |all| && PackSample(all[i]) == p) <==> p in list || p == PackSample(s)
    {
      if p in list {
        var i :| 0 <= i < |samples| && PackSample(samples[i]) == p;
        assert PackSample(all[i]) == p;
      }
      assert PackSample(all[|samples|]) == PackSample(s);
      if i :| 0 <= i < |all| && PackSample(all[i]) == p {
        if i < |samples| { assert PackSample(samples[i]) == p; }
      }
    }
  }
}
