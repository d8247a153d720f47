/** The prefix sums past the active range: what the last bin misses. */
module WuExtent {
  import opened Counting
  import opened RealArith
  import opened WuCut
  import opened WuHistogram
  import opened WuMass

  /** The last bin misses their sum as soon as the samples leave out the top of some axis. */
  lemma PastRangeMissed(h: Histogram)
    requires h.Cumulative() && h.Ranged() && h.samples != []
    ensures h.bins[BINS, BINS, BINS] == Mass(h.samples, UpTo(BINS, BINS, BINS))
       <==> forall axis :: Seen(h.samples, axis, BINS)
  {
    hide Mass, CellL, CellA, CellB;
    var r := Box(h.minL, h.maxL, h.minA, h.maxA, h.minB, h.maxB);
    CumulativeExtent(h, BINS, BINS, BINS);
    assert InBox(h.samples[0], UpTo(BINS, BINS, BINS));
    if forall axis :: Seen(h.samples, axis, BINS) {
      assert Seen(h.samples, AxisL, BINS) && Seen(h.samples, AxisA, BINS) && Seen(h.samples, AxisB, BINS);
      AtMost(h.samples, r);
    } else if h.maxL == BINS && h.maxA == BINS && h.maxB == BINS {
      forall axis ensures Seen(h.samples, axis, BINS) {
        assert High(r, axis) == BINS && Seen(h.samples, axis, High(r, axis));
      }
    }
  }

  /** A sample of cell (1, 1 + a, 1 + b). */
  function GridSample(a: int, b: int): Sample {
    Sample(0.0, (a as real + 0.5) * 0.025 - 0.4, (b as real + 0.5) * 0.025 - 0.4)
  }

  lemma GridCell(a: int, b: int)
    requires 0 <= a < BINS && 0 <= b < BINS
    ensures var s := GridSample(a, b); CellL(s) == 1 && CellA(s) == 1 + a && CellB(s) == 1 + b
  {
    GridTruncates(a);
    GridTruncates(b);
  }

  lemma GridTruncates(a: int)
    requires 0 <= a
    ensures Truncate((((a as real + 0.5) * 0.025 - 0.4) + 0.4) * (1.0 / 0.8) * 32.0) == a
  {
    assert (((a as real + 0.5) * 0.025 - 0.4) + 0.4) * (1.0 / 0.8) * 32.0 == a as real + 0.5;
  }

  function Dark(): seq<Sample> {
    seq(MAX_BOXES + 1, n => GridSample(n / 32, n % 32))
  }

  lemma DarkCells(n: int)
    requires 0 <= n <= MAX_BOXES
    ensures Coord(Dark()[n], AxisL) == 1 && PackSample(Dark()[n]) == n
  {
    GridCell(n / 32, n % 32);
  }

  lemma DarkMissesTop()
    ensures Dark() != [] && !Seen(Dark(), AxisL, BINS)
  {
    hide Coord, Dark;
    assert |Dark()| == MAX_BOXES + 1 by { DarkLength(); }
    forall n | 0 <= n < |Dark()| ensures Coord(Dark()[n], AxisL) != BINS {
      DarkCells(n);
    }
  }

  lemma DarkLength()
    ensures |Dark()| == MAX_BOXES + 1
  {
  }

  lemma DarkIsWide(list: seq<int>)
    requires ListsCells(list, Dark())
    ensures |list| > MAX_BOXES
  {
    hide Dark, PackSample;
    DarkLength();
    var packs := seq(MAX_BOXES + 1, n => n);
    forall p | p in packs ensures p in list {
      DarkCells(p);
      assert PackSample(Dark()[p]) == p;
    }
    DistinctAmong(packs, list);
  }

  /** Such a histogram does arise: from dark samples in many cells. */
  method MissedExample() returns (h: Histogram)
    ensures h.Cumulative() && h.Ranged() && h.samples == Dark()
    ensures h.bins[BINS, BINS, BINS] != Mass(h.samples, UpTo(BINS, BINS, BINS))
  {
    hide Dark, Seen, ListsCells, InRange, Mass;
    h := Accumulated(Dark());
    DarkIsWide(h.activeBins[..h.numActive]);
    h.ComputeMoments();
    DarkMissesTop();
    PastRangeMissed(h);
    assert !Seen(h.samples, AxisL, BINS);
  }

  lemma AtMost(samples: seq<Sample>, r: Box)
    requires InRange(samples, r)
    ensures forall axis, x :: Seen(samples, axis, x) ==> x <= High(r, axis)
  {
    hide CellL, CellA, CellB;
  }
}
