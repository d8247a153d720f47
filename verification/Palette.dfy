/** The colour clusters of a palette: quantisation followed by k-means. */
module Palette {
  import opened KMeans
  import opened WuCells
  import opened WuHistogram
  import opened WuMass
  import opened WuPartition

  /** From samples to weighted points: the first calls of the palette extraction.  Inside
      the ranges of the grid every point lies in its box, and cell by cell near its samples. */
  method Quantise(samples: seq<Sample>, out: array<WeightedPoint>)
      returns (count: nat, ghost cells: seq<Box>, ghost start: Box)
    requires out.Length == MAX_BOXES
    modifies out
    ensures count <= MAX_BOXES
    ensures Covers(samples, cells) && PointsOf(samples, cells, out[..count])
    ensures WeightSum(out[..count]) == |samples| as real
    ensures CellByCell(samples, cells) || Greedily(samples, cells, start)
    ensures AllInGamut(samples) ==> PointsInside(cells, out[..count])
    ensures AllInGamut(samples) && CellByCell(samples, cells) ==> NearPoints(samples, cells, out[..count])
  {
    hide Covers, PointsOf, Run, Exhausted, ListsCells, Greedily, CellByCell, ListedBoxes, AllInGamut,
      PointsInside, NearPoints;
    var h := Accumulated(samples);
    h.ComputeMoments();
    ghost var trace;
    count, cells, trace := Partition(h, out, MAX_BOXES);
    start := StartBox(h);
    if h.numActive <= MAX_BOXES {
      IsCellByCell(samples, cells, h.activeBins[..h.numActive]);
    } else {
      IsGreedy(samples, cells, start, trace);
    }
    if AllInGamut(samples) {
      PointsLieInside(samples, cells, out[..count]);
      if CellByCell(samples, cells) { CellwiseNear(samples, cells, out[..count]); }
    }
  }

  lemma PointsArePositive(samples: seq<Sample>, cells: seq<Box>, pts: seq<WeightedPoint>)
    requires PointsOf(samples, cells, pts)
    ensures Positive(pts)
  {
    hide Mass;
  }

  lemma SomePoints(samples: seq<Sample>, cells: seq<Box>, pts: seq<WeightedPoint>)
    requires Covers(samples, cells) && PointsOf(samples, cells, pts)
    ensures samples == [] <==> pts == []
  {
    hide Mass, PointOf;
    if samples != [] {
      assert HeldOnce(samples[0], cells);
    } else if cells != [] {
      CoverPositive(samples, cells, 0);
      NoSamplesNoMass(cells[0]);
    }
  }

  lemma NoSamplesNoMass(box: Box)
    ensures Mass([], box).w == 0.0
  {
  }

  /** The clusters of an image's samples.  The points clustered are the means of boxes that cover
      the samples; the clusters share out the samples without loss. */
  method ExtractClusters(samples: seq<Sample>, clusters: array<WeightedPoint>, sqrt: real -> real)
      returns (k: nat, ghost pts: seq<WeightedPoint>, ghost cells: seq<Box>, ghost start: Box,
               ghost trace: seq<seq<WeightedPoint>>)
    requires clusters.Length == KMEANS_K && forall x :: sqrt(x) >= 0.0
    modifies clusters
    ensures k <= KMEANS_K && (k == 0 <==> samples == [])
    ensures WeightSum(clusters[..k]) == |samples| as real
    ensures Covers(samples, cells) && PointsOf(samples, cells, pts)
    ensures CellByCell(samples, cells) || Greedily(samples, cells, start)
    ensures AllInGamut(samples) ==> PointsInside(cells, pts)
    ensures samples != [] ==>
      && |trace| == KMEANS_ITERS + 1 && Descends(pts, trace)
      && Seeding(pts, trace[0], sqrt) && clusters[..k] == Occupied(trace[KMEANS_ITERS])
  {
    hide Covers, PointsOf, CellByCell, Greedily, Descends, Seeding, Occupied, Cost, Positive, AllInGamut, PointsInside,
      NearPoints;
    var boxes := new WeightedPoint[MAX_BOXES](_ => WeightedPoint(0.0, 0.0, 0.0, 0.0));
    var count;
    count, cells, start := Quantise(samples, boxes);
    pts := boxes[..count];
    PointsArePositive(samples, cells, pts);
    SomePoints(samples, cells, pts);
    k, trace := WeightedKMeans(boxes[..count], clusters, KMEANS_K, sqrt);
  }
}
