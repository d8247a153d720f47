/** Deterministic k-means++ seeding and weighted Lloyd iterations over the quantised points. */
module KMeans {
  import opened RealArith
  import opened WuMass
  import opened WuHistogram
  import opened WuVariance
  import opened WuPartition

  const KMEANS_K := 16
  const KMEANS_ITERS := 6

  function Dist(p: WeightedPoint, c: WeightedPoint): real {
    (p.l - c.l) * (p.l - c.l) + (p.a - c.a) * (p.a - c.a) + (p.b - c.b) * (p.b - c.b)
  }

  function MinReal(x: real, y: real): real {
    if y < x then y else x
  }

  /** Squared distance to the nearest centroid. */
  function NearestDist(p: WeightedPoint, cs: seq<WeightedPoint>): real
    requires cs != []
  {
    if |cs| == 1 then Dist(p, cs[0])
    else MinReal(NearestDist(p, cs[..|cs| - 1]), Dist(p, cs[|cs| - 1]))
  }

  /** The clustering error: weighted squared distances to the nearest centroid. */
  function Cost(pts: seq<WeightedPoint>, cs: seq<WeightedPoint>): real
    requires cs != []
  {
    if pts == [] then 0.0
    else
      var p := pts[|pts| - 1];
      Cost(pts[..|pts| - 1], cs) + p.weight * NearestDist(p, cs)
  }

  /** The error when point i belongs to centroid asg[i]. */
  function AssignedCost(pts: seq<WeightedPoint>, cs: seq<WeightedPoint>, asg: seq<nat>): real
    requires |asg| == |pts| && forall i :: 0 <= i < |asg| ==> asg[i] < |cs|
  {
    if pts == [] then 0.0
    else
      var m := |pts| - 1;
      AssignedCost(pts[..m], cs, asg[..m]) + pts[m].weight * Dist(pts[m], cs[asg[m]])
  }

  /** Weight, weighted coordinate sums and weighted sum of squares of one cluster. */
  function ClusterBin(pts: seq<WeightedPoint>, asg: seq<nat>, c: nat): Bin
    requires |asg| == |pts|
  {
    if pts == [] then ZERO
    else
      var m := |pts| - 1;
      var rest := ClusterBin(pts[..m], asg[..m], c);
      if asg[m] == c then rest.Plus(Weighted(pts[m])) else rest
  }

  function Weighted(p: WeightedPoint): Bin {
    Bin(p.weight, p.weight * p.l, p.weight * p.a, p.weight * p.b, p.weight * (p.l * p.l + p.a * p.a + p.b * p.b))
  }

  ghost predicate Positive(pts: seq<WeightedPoint>) {
    forall i :: 0 <= i < |pts| ==> pts[i].weight > 0.0
  }

  /** The first of the nearest centroids. */
  ghost predicate IsNearest(p: WeightedPoint, cs: seq<WeightedPoint>, c: nat) {
    && c < |cs|
    && (forall j :: 0 <= j < |cs| ==> Dist(p, cs[c]) <= Dist(p, cs[j]))
    && (forall j :: 0 <= j < c ==> Dist(p, cs[c]) < Dist(p, cs[j]))
  }

  lemma {:induction false} NearestDistIs(p: WeightedPoint, cs: seq<WeightedPoint>)
    requires cs != []
    ensures forall j :: 0 <= j < |cs| ==> NearestDist(p, cs) <= Dist(p, cs[j])
    ensures exists j :: 0 <= j < |cs| && NearestDist(p, cs) == Dist(p, cs[j])
    ensures NearestDist(p, cs) >= 0.0
  {
    hide Dist;
    forall j | 0 <= j < |cs| ensures Dist(p, cs[j]) >= 0.0 {
      DistPositive(p, cs[j]);
    }
    var m := |cs| - 1;
    if m > 0 {
      NearestDistIs(p, cs[..m]);
      var j :| 0 <= j < m && NearestDist(p, cs[..m]) == Dist(p, cs[..m][j]);
      assert Dist(p, cs[j]) == Dist(p, cs[..m][j]);
      forall j | 0 <= j < m ensures NearestDist(p, cs) <= Dist(p, cs[j]) {
        assert cs[..m][j] == cs[j];
      }
    }
  }

  lemma DistPositive(p: WeightedPoint, c: WeightedPoint)
    ensures Dist(p, c) >= 0.0
    ensures p.l == c.l && p.a == c.a && p.b == c.b ==> Dist(p, c) == 0.0
  {
    Square(p.l - c.l);
    Square(p.a - c.a);
    Square(p.b - c.b);
  }

  lemma ScaleLe(w: real, x: real, y: real)
    requires w >= 0.0 && x <= y
    ensures w * x <= w * y
  {
  }

  // ----- One Lloyd round -----

  ghost function Place(c: WeightedPoint): Sample {
    Sample(c.l, c.a, c.b)
  }

  /** The new centroid of a cluster: its weighted mean, or the old place with weight zero. */
  function Recentre(bin: Bin, place: WeightedPoint): WeightedPoint {
    if bin.w > 0.0 then
      var inv := 1.0 / bin.w;
      WeightedPoint(bin.l * inv, bin.a * inv, bin.b * inv, bin.w)
    else
      place.(weight := 0.0)
  }

  lemma DistScaled(p: WeightedPoint, y: WeightedPoint)
    ensures Expanded(Weighted(p), Place(y)) == p.weight * Dist(p, y)
  {
    var w := p.weight;
    ExpandedScaled(w, Unit(Place(p)), Place(y));
    ExpandedUnit(Place(p), Place(y));
    hide Expanded;
    assert Scaled(w, Unit(Place(p))) == Weighted(p);
  }

  function Scaled(w: real, x: Bin): Bin {
    Bin(w * x.w, w * x.l, w * x.a, w * x.b, w * x.m2)
  }

  lemma ExpandedScaled(w: real, x: Bin, c: Sample)
    ensures Expanded(Scaled(w, x), c) == w * Expanded(x, c)
  {
    var s, q := c.l * x.l + c.a * x.a + c.b * x.b, c.l * c.l + c.a * c.a + c.b * c.b;
    SpreadThree(w, c.l * x.l, c.a * x.a, c.b * x.b);
    Commute(w, c.l, x.l);
    Commute(w, c.a, x.a);
    Commute(w, c.b, x.b);
    Commute(w, q, x.w);
    SpreadThree(w, x.m2, -2.0 * s, q * x.w);
    assert w * (-2.0 * s) == -2.0 * (w * s);
  }

  lemma Commute(w: real, x: real, y: real)
    ensures w * (x * y) == x * (w * y)
  {
  }

  /** The error of one cluster when its centroid stands at y. */
  ghost function Part(pts: seq<WeightedPoint>, asg: seq<nat>, c: nat, y: WeightedPoint): real
    requires |asg| == |pts|
  {
    if pts == [] then 0.0
    else
      var m := |pts| - 1;
      Part(pts[..m], asg[..m], c, y) + if asg[m] == c then pts[m].weight * Dist(pts[m], y) else 0.0
  }

  lemma {:induction false} PartExpanded(pts: seq<WeightedPoint>, asg: seq<nat>, c: nat, y: WeightedPoint)
    requires |asg| == |pts|
    ensures Part(pts, asg, c, y) == Expanded(ClusterBin(pts, asg, c), Place(y))
  {
    hide Dist, Expanded, Weighted, Bin.Plus;
    if pts == [] {
      ExpandedZero(Place(y));
    } else {
      var m := |pts| - 1;
      PartExpanded(pts[..m], asg[..m], c, y);
      ExpandedPlus(ClusterBin(pts[..m], asg[..m], c), Weighted(pts[m]), Place(y));
      DistScaled(pts[m], y);
    }
  }

  lemma ExpandedZero(c: Sample)
    ensures Expanded(ZERO, c) == 0.0
  {
  }

  /** The weighted mean is the best place for a cluster's centroid. */
  lemma PartImproves(pts: seq<WeightedPoint>, asg: seq<nat>, c: nat, x: WeightedPoint)
    requires |asg| == |pts|
    ensures Part(pts, asg, c, Recentre(ClusterBin(pts, asg, c), x)) <= Part(pts, asg, c, x)
  {
    hide Dist, Expanded, ClusterBin, Part;
    var bin := ClusterBin(pts, asg, c);
    PartExpanded(pts, asg, c, x);
    PartExpanded(pts, asg, c, Recentre(bin, x));
    if bin.w > 0.0 {
      ExpandedAgainstMean(bin, Place(x));
      ExpandedAgainstMean(bin, Mean(bin));
      TimesInverse(bin.l, bin.w);
      TimesInverse(bin.a, bin.w);
      TimesInverse(bin.b, bin.w);
      assert Place(Recentre(bin, x)) == Mean(bin);
    } else {
      assert Place(Recentre(bin, x)) == Place(x);
    }
  }

  lemma TimesInverse(x: real, w: real)
    requires w > 0.0
    ensures x * (1.0 / w) == x / w
  {
    var m := x / w;
    assert x == m * w;
    assert w * (1.0 / w) == 1.0;
    assert m * w * (1.0 / w) == m * (w * (1.0 / w));
  }

  ghost predicate Assigns(asg: seq<nat>, pts: seq<WeightedPoint>, k: nat) {
    |asg| == |pts| && forall i :: 0 <= i < |asg| ==> asg[i] < k
  }

  /** Moving one centroid changes the error by the change of its own cluster. */
  lemma {:induction false} MoveOne(pts: seq<WeightedPoint>, cs: seq<WeightedPoint>, asg: seq<nat>, c: nat,
                                   y: WeightedPoint)
    requires Assigns(asg, pts, |cs|) && c < |cs|
    ensures AssignedCost(pts, cs[c := y], asg) ==
              AssignedCost(pts, cs, asg) - Part(pts, asg, c, cs[c]) + Part(pts, asg, c, y)
  {
    hide Dist;
    if pts != [] {
      MoveOne(pts[..|pts| - 1], cs, asg[..|pts| - 1], c, y);
    }
  }

  /** The centroids after a round in which cluster means replace the first c of them. */
  ghost predicate Recentred(pts: seq<WeightedPoint>, asg: seq<nat>, before: seq<WeightedPoint>,
                            after: seq<WeightedPoint>, c: nat) {
    && |asg| == |pts| && |before| == |after| && c <= |before|
    && (forall j :: 0 <= j < c ==> after[j] == Recentre(ClusterBin(pts, asg, j), before[j]))
    && (forall j :: c <= j < |before| ==> after[j] == before[j])
  }

  lemma {:induction false} RecentringImproves(pts: seq<WeightedPoint>, asg: seq<nat>, before: seq<WeightedPoint>,
                                              after: seq<WeightedPoint>, c: nat)
    requires Recentred(pts, asg, before, after, c) && Assigns(asg, pts, |before|)
    ensures AssignedCost(pts, after, asg) <= AssignedCost(pts, before, asg)
    decreases c
  {
    hide Dist, AssignedCost, Part, ClusterBin, Recentre;
    if c == 0 {
      assert after == before;
    } else {
      var prev := after[c - 1 := before[c - 1]];
      RecentringImproves(pts, asg, before, prev, c - 1);
      assert after == prev[c - 1 := after[c - 1]];
      MoveOne(pts, prev, asg, c - 1, after[c - 1]);
      PartImproves(pts, asg, c - 1, before[c - 1]);
    }
  }

  ghost predicate NearestAssignment(pts: seq<WeightedPoint>, cs: seq<WeightedPoint>, asg: seq<nat>) {
    |asg| == |pts| && forall i :: 0 <= i < |pts| ==> IsNearest(pts[i], cs, asg[i])
  }

  lemma NearestOfLast(pts: seq<WeightedPoint>, cs: seq<WeightedPoint>, asg: seq<nat>)
    requires pts != [] && cs != [] && NearestAssignment(pts, cs, asg)
    ensures var m := |pts| - 1;
      && NearestAssignment(pts[..m], cs, asg[..m])
      && asg[m] < |cs| && NearestDist(pts[m], cs) == Dist(pts[m], cs[asg[m]])
  {
    hide Dist, NearestDist;
    var m := |pts| - 1;
    assert IsNearest(pts[m], cs, asg[m]);
    NearestDistIs(pts[m], cs);
  }

  /** The error of any assignment bounds the error; a nearest assignment attains it. */
  lemma {:induction false} AssignmentBounds(pts: seq<WeightedPoint>, cs: seq<WeightedPoint>, asg: seq<nat>)
    requires cs != [] && Positive(pts) && Assigns(asg, pts, |cs|)
    ensures Cost(pts, cs) <= AssignedCost(pts, cs, asg)
    ensures NearestAssignment(pts, cs, asg) ==> Cost(pts, cs) == AssignedCost(pts, cs, asg)
  {
    hide Dist, NearestDist;
    if pts != [] {
      var m := |pts| - 1;
      AssignmentBounds(pts[..m], cs, asg[..m]);
      NearestDistIs(pts[m], cs);
      var w, d, e := pts[m].weight, NearestDist(pts[m], cs), Dist(pts[m], cs[asg[m]]);
      var wd, we := w * d, w * e;
      assert Cost(pts, cs) == Cost(pts[..m], cs) + wd;
      assert AssignedCost(pts, cs, asg) == AssignedCost(pts[..m], cs, asg[..m]) + we;
      assert wd <= we by { ScaleLe(w, d, e); }
      if NearestAssignment(pts, cs, asg) {
        NearestOfLast(pts, cs, asg);
        assert wd == we;
      }
    }
  }

  /** A Lloyd round never increases the error. */
  lemma LloydImproves(pts: seq<WeightedPoint>, before: seq<WeightedPoint>, after: seq<WeightedPoint>, asg: seq<nat>)
    requires before != [] && Positive(pts)
    requires NearestAssignment(pts, before, asg) && Recentred(pts, asg, before, after, |before|)
    ensures Assigns(asg, pts, |before|)
    ensures Cost(pts, after) <= AssignedCost(pts, after, asg) <= Cost(pts, before)
  {
    hide Dist, Cost, AssignedCost, ClusterBin, Recentre;
    forall i | 0 <= i < |pts| ensures asg[i] < |before| {
      assert IsNearest(pts[i], before, asg[i]);
    }
    RecentringImproves(pts, asg, before, after, |before|);
    AssignmentBounds(pts, before, asg);
    AssignmentBounds(pts, after, asg);
  }

  // ----- Weights -----

  function BinWeights(pts: seq<WeightedPoint>, asg: seq<nat>, k: nat): real
    requires |asg| == |pts|
  {
    if k == 0 then 0.0 else BinWeights(pts, asg, k - 1) + ClusterBin(pts, asg, k - 1).w
  }

  /** The clusters share out the weight of the points. */
  lemma {:induction false} ClustersConserve(pts: seq<WeightedPoint>, asg: seq<nat>, k: nat)
    requires Assigns(asg, pts, k)
    ensures BinWeights(pts, asg, k) == WeightSum(pts)
  {
    if pts == [] {
      NoPointsNoWeight(asg, k);
    } else {
      var m := |pts| - 1;
      ClustersConserve(pts[..m], asg[..m], k);
      OnePointMore(pts, asg, k);
    }
  }

  lemma {:induction false} NoPointsNoWeight(asg: seq<nat>, k: nat)
    requires asg == []
    ensures BinWeights([], asg, k) == 0.0
  {
    if k > 0 {
      NoPointsNoWeight(asg, k - 1);
    }
  }

  lemma {:induction false} OnePointMore(pts: seq<WeightedPoint>, asg: seq<nat>, k: nat)
    requires |asg| == |pts| > 0
    ensures BinWeights(pts, asg, k) ==
            BinWeights(pts[..|pts| - 1], asg[..|pts| - 1], k)
            + if asg[|pts| - 1] < k then pts[|pts| - 1].weight else 0.0
  {
    if k > 0 {
      OnePointMore(pts, asg, k - 1);
    }
  }

  /** The centroids of positive weight, in order. */
  function Occupied(cs: seq<WeightedPoint>): seq<WeightedPoint> {
    if cs == [] then []
    else
      var c := cs[|cs| - 1];
      Occupied(cs[..|cs| - 1]) + if c.weight > 0.0 then [c] else []
  }

  lemma WeightSumAppend(cs: seq<WeightedPoint>, c: WeightedPoint)
    ensures WeightSum(cs + [c]) == WeightSum(cs) + c.weight
  {
    assert (cs + [c])[..|cs|] == cs;
  }

  lemma {:induction false} OccupiedWeight(cs: seq<WeightedPoint>)
    requires forall c :: 0 <= c < |cs| ==> cs[c].weight >= 0.0
    ensures WeightSum(Occupied(cs)) == WeightSum(cs)
    ensures |Occupied(cs)| <= |cs|
  {
    if cs != [] {
      var m := |cs| - 1;
      OccupiedWeight(cs[..m]);
      if cs[m].weight > 0.0 {
        assert Occupied(cs) == Occupied(cs[..m]) + [cs[m]];
        WeightSumAppend(Occupied(cs[..m]), cs[m]);
      } else {
        assert Occupied(cs) == Occupied(cs[..m]);
      }
    }
  }

  lemma {:induction false} OccupiedHas(cs: seq<WeightedPoint>, j: nat) returns (i: nat)
    requires j < |cs| && cs[j].weight > 0.0
    ensures i < |Occupied(cs)| && Occupied(cs)[i] == cs[j]
  {
    var m := |cs| - 1;
    if j == m {
      i := |Occupied(cs)| - 1;
    } else {
      i := OccupiedHas(cs[..m], j);
    }
  }

  lemma {:induction false} ClusterWeightPositive(pts: seq<WeightedPoint>, asg: seq<nat>, c: nat)
    requires |asg| == |pts| && Positive(pts)
    ensures ClusterBin(pts, asg, c).w >= 0.0
    ensures (exists i :: 0 <= i < |asg| && asg[i] == c) ==> ClusterBin(pts, asg, c).w > 0.0
  {
    if pts != [] {
      var m := |pts| - 1;
      ClusterWeightPositive(pts[..m], asg[..m], c);
      if i :| 0 <= i < |asg| && asg[i] == c && asg[m] != c {
        assert asg[..m][i] == c;
      }
    }
  }

  /** Dropping the empty clusters keeps the total weight. */
  lemma CompactionConserves(pts: seq<WeightedPoint>, before: seq<WeightedPoint>, after: seq<WeightedPoint>,
                            asg: seq<nat>)
    requires Positive(pts) && Assigns(asg, pts, |before|) && Recentred(pts, asg, before, after, |before|)
    ensures WeightSum(Occupied(after)) == WeightSum(pts)
  {
    hide ClusterBin, Recentre;
    ClustersConserve(pts, asg, |before|);
    forall c | 0 <= c < |after| ensures after[c].weight == ClusterBin(pts, asg, c).w >= 0.0 {
      ClusterWeightPositive(pts, asg, c);
      RecentreWeight(ClusterBin(pts, asg, c), before[c]);
    }
    SameWeights(pts, asg, after);
    OccupiedWeight(after);
  }

  lemma RecentreWeight(bin: Bin, place: WeightedPoint)
    requires bin.w >= 0.0
    ensures Recentre(bin, place).weight == bin.w
  {
  }

  lemma {:induction false} SameWeights(pts: seq<WeightedPoint>, asg: seq<nat>, cs: seq<WeightedPoint>)
    requires |asg| == |pts| && forall c :: 0 <= c < |cs| ==> cs[c].weight == ClusterBin(pts, asg, c).w
    ensures WeightSum(cs) == BinWeights(pts, asg, |cs|)
  {
    hide ClusterBin;
    if cs != [] {
      SameWeights(pts, asg, cs[..|cs| - 1]);
    }
  }

  /** Dropping the empty clusters does not give up the error bound either. */
  lemma CompactionKeepsBound(pts: seq<WeightedPoint>, before: seq<WeightedPoint>, after: seq<WeightedPoint>,
                             asg: seq<nat>)
    requires pts != [] && before != [] && Positive(pts)
    requires NearestAssignment(pts, before, asg) && Recentred(pts, asg, before, after, |before|)
    ensures Occupied(after) != [] && Cost(pts, Occupied(after)) <= Cost(pts, before)
  {
    hide Dist, Cost, AssignedCost, ClusterBin, Recentre, Occupied;
    LloydImproves(pts, before, after, asg);
    forall i | 0 <= i < |pts| ensures after[asg[i]].weight > 0.0 {
      ClusterWeightPositive(pts, asg, asg[i]);
      RecentreWeight(ClusterBin(pts, asg, asg[i]), before[asg[i]]);
    }
    var first := OccupiedHas(after, asg[0]);
    RestrictedBound(pts, after, asg);
  }

  lemma {:induction false} RestrictedBound(pts: seq<WeightedPoint>, cs: seq<WeightedPoint>, asg: seq<nat>)
    requires Positive(pts) && Assigns(asg, pts, |cs|) && Occupied(cs) != []
    requires forall i :: 0 <= i < |pts| ==> cs[asg[i]].weight > 0.0
    ensures Cost(pts, Occupied(cs)) <= AssignedCost(pts, cs, asg)
  {
    hide Dist, NearestDist, Occupied;
    if pts != [] {
      var m := |pts| - 1;
      RestrictedBound(pts[..m], cs, asg[..m]);
      var j := OccupiedHas(cs, asg[m]);
      NearestDistIs(pts[m], Occupied(cs));
      ScaleLe(pts[m].weight, NearestDist(pts[m], Occupied(cs)), Dist(pts[m], cs[asg[m]]));
    }
  }

  // ----- The program -----

  method LloydRound(pts: seq<WeightedPoint>, centroids: array<WeightedPoint>, k: nat) returns (ghost asg: seq<nat>)
    requires 1 <= k <= KMEANS_K && k <= centroids.Length
    modifies centroids
    ensures NearestAssignment(pts, old(centroids[..k]), asg)
    ensures Recentred(pts, asg, old(centroids[..k]), centroids[..k], k)
  {
    hide Dist, ClusterBin, IsNearest, Recentre, Sums;
    var sumL := new real[KMEANS_K](_ => 0.0);
    var sumA := new real[KMEANS_K](_ => 0.0);
    var sumB := new real[KMEANS_K](_ => 0.0);
    var sumW := new real[KMEANS_K](_ => 0.0);
    asg := [];
    StartSums(k, sumL, sumA, sumB, sumW);
    assert pts[..0] == [];
    for i := 0 to |pts|
      invariant |asg| == i && centroids[..k] == old(centroids[..k])
      invariant forall j :: 0 <= j < i ==> IsNearest(pts[j], centroids[..k], asg[j])
      invariant Sums(pts[..i], asg, k, sumL, sumA, sumB, sumW)
    {
      var bestC := NearestCentroid(pts[i], centroids, k);
      AddToCluster(pts, asg, i, bestC, k, sumL, sumA, sumB, sumW);
      asg := asg + [bestC];
    }
    assert pts[..|pts|] == pts;
    RecentreAll(pts, asg, centroids, k, sumL, sumA, sumB, sumW);
  }

  /** The running sums hold the cluster sums of the points assigned so far. */
  ghost predicate Sums(pts: seq<WeightedPoint>, asg: seq<nat>, k: nat,
                       sumL: array<real>, sumA: array<real>, sumB: array<real>, sumW: array<real>)
    reads sumL, sumA, sumB, sumW
  {
    && |asg| == |pts|
    && sumL.Length == sumA.Length == sumB.Length == sumW.Length == KMEANS_K && k <= KMEANS_K
    && sumL != sumA && sumL != sumB && sumL != sumW && sumA != sumB && sumA != sumW && sumB != sumW
    && forall c :: 0 <= c < k ==>
         SumsAre(ClusterBin(pts, asg, c), sumW[c], sumL[c], sumA[c], sumB[c])
  }

  ghost predicate SumsAre(bin: Bin, w: real, l: real, a: real, b: real) {
    bin.w == w && bin.l == l && bin.a == a && bin.b == b
  }

  lemma StartSums(k: nat, sumL: array<real>, sumA: array<real>, sumB: array<real>, sumW: array<real>)
    requires k <= sumL.Length == sumA.Length == sumB.Length == sumW.Length == KMEANS_K
    requires sumL != sumA && sumL != sumB && sumL != sumW && sumA != sumB && sumA != sumW && sumB != sumW
    requires forall c :: 0 <= c < k ==> sumL[c] == sumA[c] == sumB[c] == sumW[c] == 0.0
    ensures Sums([], [], k, sumL, sumA, sumB, sumW)
  {
  }

  lemma ClusterGrows(pts: seq<WeightedPoint>, asg: seq<nat>, i: nat, best: nat)
    requires |asg| == i < |pts|
    ensures forall c: nat :: ClusterBin(pts[..i + 1], asg + [best], c) ==
              if c == best then ClusterBin(pts[..i], asg, c).Plus(Weighted(pts[i])) else ClusterBin(pts[..i], asg, c)
  {
    assert pts[..i + 1][..i] == pts[..i];
    assert (asg + [best])[..i] == asg;
  }

  method AddToCluster(pts: seq<WeightedPoint>, ghost asg: seq<nat>, i: nat, best: nat, k: nat,
                      sumL: array<real>, sumA: array<real>, sumB: array<real>, sumW: array<real>)
    requires i < |pts| && best < k && Sums(pts[..i], asg, k, sumL, sumA, sumB, sumW)
    modifies sumL, sumA, sumB, sumW
    ensures Sums(pts[..i + 1], asg + [best], k, sumL, sumA, sumB, sumW)
  {
    hide ClusterBin;
    ClusterGrows(pts, asg, i, best);
    var p := pts[i];
    var w := p.weight;
    assert SumsAre(ClusterBin(pts[..i], asg, best), sumW[best], sumL[best], sumA[best], sumB[best]);
    sumL[best] := sumL[best] + w * p.l;
    sumA[best] := sumA[best] + w * p.a;
    sumB[best] := sumB[best] + w * p.b;
    sumW[best] := sumW[best] + w;
  }

  method NearestCentroid(p: WeightedPoint, centroids: array<WeightedPoint>, k: nat) returns (best: nat)
    requires 1 <= k <= centroids.Length
    ensures best < k && IsNearest(p, centroids[..k], best)
  {
    hide Dist;
    best := 0;
    var bestD2 := Dist(p, centroids[0]);
    for c := 1 to k
      invariant best < c && bestD2 == Dist(p, centroids[best])
      invariant forall j :: 0 <= j < c ==> bestD2 <= Dist(p, centroids[j])
      invariant forall j :: 0 <= j < best ==> bestD2 < Dist(p, centroids[j])
    {
      var d2 := Dist(p, centroids[c]);
      if d2 < bestD2 {
        bestD2, best := d2, c;
      }
    }
  }

  method RecentreAll(pts: seq<WeightedPoint>, ghost asg: seq<nat>, centroids: array<WeightedPoint>, k: nat,
                     sumL: array<real>, sumA: array<real>, sumB: array<real>, sumW: array<real>)
    requires k <= centroids.Length && Sums(pts, asg, k, sumL, sumA, sumB, sumW)
    modifies centroids
    ensures Recentred(pts, asg, old(centroids[..k]), centroids[..k], k)
  {
    hide ClusterBin;
    for c := 0 to k
      invariant Recentred(pts, asg, old(centroids[..k]), centroids[..k], c)
      invariant Sums(pts, asg, k, sumL, sumA, sumB, sumW)
    {
      assert SumsAre(ClusterBin(pts, asg, c), sumW[c], sumL[c], sumA[c], sumB[c]);
      if sumW[c] > 0.0 {
        var inv := 1.0 / sumW[c];
        centroids[c] := WeightedPoint(sumL[c] * inv, sumA[c] * inv, sumB[c] * inv, sumW[c]);
      } else {
        centroids[c] := centroids[c].(weight := 0.0);
      }
    }
  }

  /** Empty clusters are squeezed out in place. */
  method Compact(centroids: array<WeightedPoint>, k: nat) returns (valid: nat)
    requires k <= centroids.Length
    modifies centroids
    ensures valid <= k && centroids[..valid] == Occupied(old(centroids[..k]))
  {
    ghost var was := centroids[..k];
    valid := 0;
    for c := 0 to k
      invariant valid <= c
      invariant centroids[..valid] == Occupied(was[..c])
      invariant centroids[c..k] == was[c..]
    {
      assert was[..c + 1][..c] == was[..c];
      assert centroids[c] == centroids[c..k][0] == was[c];
      if centroids[c].weight > 0.0 {
        if valid != c {
          centroids[valid] := centroids[c];
        }
        valid := valid + 1;
        assert centroids[..valid] == centroids[..valid - 1] + [was[c]];
      }
      assert centroids[c + 1..k] == was[c + 1..];
    }
    assert was[..k] == was;
  }

  // ----- Seeding -----

  ghost predicate SamePlace(x: WeightedPoint, y: WeightedPoint) {
    x.l == y.l && x.a == y.a && x.b == y.b
  }

  ghost function DistSeq(pts: seq<WeightedPoint>, cs: seq<WeightedPoint>): (d2: seq<real>)
    requires cs != []
    ensures |d2| == |pts| && forall i :: 0 <= i < |pts| ==> d2[i] == NearestDist(pts[i], cs)
  {
    seq(|pts|, i requires 0 <= i < |pts| => NearestDist(pts[i], cs))
  }

  /** Seed j is the point drawn against the seeds before it. */
  ghost predicate DrawnAt(pts: seq<WeightedPoint>, cs: seq<WeightedPoint>, j: nat) {
    && 0 < j < |cs|
    && exists i :: 0 <= i < |pts| && cs[j] == pts[i] && IsDrawn(pts, DistSeq(pts, cs[..j]), j, i)
  }

  /** The whole seeding: the best first score, then one draw per further seed. */
  ghost predicate Seeding(pts: seq<WeightedPoint>, cs: seq<WeightedPoint>, sqrt: real -> real) {
    && |cs| > 0
    && (forall i :: 0 <= i < |pts| ==> FirstScore(pts[i], sqrt) <= FirstScore(cs[0], sqrt))
    && (forall j :: 0 < j < |cs| ==> DrawnAt(pts, cs, j))
  }

  /** Seeds are input points at pairwise different places. */
  ghost predicate Seeds(pts: seq<WeightedPoint>, cs: seq<WeightedPoint>) {
    && (forall j :: 0 <= j < |cs| ==> cs[j] in pts)
    && (forall i, j :: 0 <= i < j < |cs| ==> !SamePlace(cs[i], cs[j]))
  }

  ghost predicate Distances(pts: seq<WeightedPoint>, cs: seq<WeightedPoint>, minD2: array<real>)
    reads minD2
  {
    && cs != [] && |pts| <= minD2.Length
    && forall i :: 0 <= i < |pts| ==> minD2[i] == NearestDist(pts[i], cs)
  }

  /** Weighted squared distance of a point. */
  function Pull(p: WeightedPoint, d2: real): real {
    p.weight * d2
  }

  /** The running sum of weighted squared distances over the first n points. */
  function WeightedD2(pts: seq<WeightedPoint>, d2: seq<real>, n: nat): real
    requires n <= |pts| && n <= |d2|
  {
    if n == 0 then 0.0 else WeightedD2(pts, d2, n - 1) + Pull(pts[n - 1], d2[n - 1])
  }

  function Fraction(x: real): real {
    x - x.Floor as real
  }

  /** The quantile at which the k-th seed is drawn. */
  function Quantile(k: nat): real {
    Fraction((k as real + 0.5) * 0.61803398875)
  }

  lemma FloorIs(x: real, n: int)
    requires n as real <= x < (n + 1) as real
    ensures x.Floor == n
  {
  }

  lemma FractionTurns(x: real, d: real)
    requires 0.0 <= d < 1.0
    ensures 0.0 <= Fraction(x) < 1.0
    ensures Fraction(x + d) == if Fraction(x) + d < 1.0 then Fraction(x) + d else Fraction(x) + d - 1.0
  {
    FloorIs(x + d, if Fraction(x) + d < 1.0 then x.Floor else x.Floor + 1);
  }

  /** The quantiles turn round the unit interval by the golden ratio, from half a turn on. */
  lemma QuantileTurns(k: nat)
    ensures 0.0 <= Quantile(k) < 1.0 && Quantile(0) == 0.309016994375
    ensures Quantile(k + 1) ==
      (if Quantile(k) + 0.61803398875 < 1.0 then Quantile(k) + 0.61803398875 else Quantile(k) + 0.61803398875 - 1.0)
  {
    var x := (k as real + 0.5) * 0.61803398875;
    FractionTurns(x, 0.61803398875);
    FractionTurns(0.0, 0.309016994375);
    Distribute(k as real + 0.5, 1.0, 0.61803398875);
    hide Fraction;
  }

  /** Point i is where the running sum reaches the quantile at a point not yet covered. */
  ghost predicate Reaches(pts: seq<WeightedPoint>, d2: seq<real>, k: nat, i: nat)
    requires |d2| == |pts| && i < |pts|
  {
    WeightedD2(pts, d2, i + 1) >= Quantile(k) * WeightedD2(pts, d2, |pts|) && d2[i] > 0.0000000001
  }

  ghost predicate IsHeaviest(pts: seq<WeightedPoint>, d2: seq<real>, i: nat)
    requires |d2| == |pts| && i < |pts|
  {
    forall j :: 0 <= j < |pts| ==> Pull(pts[j], d2[j]) <= Pull(pts[i], d2[i])
  }

  /** The first point that reaches the quantile, or failing that the heaviest one. */
  ghost predicate IsDrawn(pts: seq<WeightedPoint>, d2: seq<real>, k: nat, i: nat)
    requires |d2| == |pts| && i < |pts|
  {
    || (Reaches(pts, d2, k, i) && forall j :: 0 <= j < i ==> !Reaches(pts, d2, k, j))
    || (IsHeaviest(pts, d2, i) && forall j :: 0 <= j < |pts| ==> !Reaches(pts, d2, k, j))
  }

  method Draw(pts: seq<WeightedPoint>, minD2: array<real>, k: nat) returns (found: bool, chosen: nat)
    requires 0 < |pts| <= minD2.Length && Positive(pts)
    requires forall i :: 0 <= i < |pts| ==> minD2[i] >= 0.0
    ensures found <==> WeightedD2(pts, minD2[..|pts|], |pts|) > 0.000000000001
    ensures found ==> chosen < |pts| && minD2[chosen] > 0.0 && IsDrawn(pts, minD2[..|pts|], k, chosen)
  {
    hide Quantile, IsHeaviest, Pull;
    ghost var d2 := minD2[..|pts|];
    var total, heaviest := Weigh(pts, minD2);
    if total <= 0.000000000001 {
      return false, 0;
    }
    var q := Quantile(k);
    var threshold := q * total;
    var accum := 0.0;
    found, chosen := true, heaviest;
    for i := 0 to |pts|
      invariant accum == WeightedD2(pts, d2, i)
      invariant forall j :: 0 <= j < i ==> !Reaches(pts, d2, k, j)
    {
      accum := accum + Pull(pts[i], minD2[i]);
      if accum >= threshold && minD2[i] > 0.0000000001 {
        chosen := i;
        return;
      }
    }
  }

  /** Total and heaviest weighted squared distance. */
  method Weigh(pts: seq<WeightedPoint>, minD2: array<real>) returns (total: real, heaviest: nat)
    requires 0 < |pts| <= minD2.Length && Positive(pts)
    requires forall i :: 0 <= i < |pts| ==> minD2[i] >= 0.0
    ensures total == WeightedD2(pts, minD2[..|pts|], |pts|)
    ensures heaviest < |pts| && IsHeaviest(pts, minD2[..|pts|], heaviest)
    ensures total > 0.0 ==> minD2[heaviest] > 0.0
  {
    hide Pull;
    ghost var d2 := minD2[..|pts|];
    total, heaviest := 0.0, 0;
    var maxWd2 := -1.0;
    for i := 0 to |pts|
      invariant total == WeightedD2(pts, d2, i)
      invariant i == 0 ==> maxWd2 == -1.0 && heaviest == 0
      invariant i > 0 ==> heaviest < i && maxWd2 == Pull(pts[heaviest], d2[heaviest])
      invariant forall j :: 0 <= j < i ==> Pull(pts[j], d2[j]) <= maxWd2
      invariant maxWd2 <= 0.0 ==> total <= 0.0
    {
      var wd2 := Pull(pts[i], minD2[i]);
      PullSign(pts[i], minD2[i]);
      total := total + wd2;
      if wd2 > maxWd2 {
        maxWd2, heaviest := wd2, i;
      }
    }
    PullSign(pts[heaviest], d2[heaviest]);
  }

  lemma PullSign(p: WeightedPoint, d2: real)
    requires p.weight > 0.0 && d2 >= 0.0
    ensures Pull(p, d2) >= 0.0
    ensures Pull(p, d2) > 0.0 ==> d2 > 0.0
  {
  }

  lemma NearestAppend(p: WeightedPoint, cs: seq<WeightedPoint>, c: WeightedPoint)
    requires cs != []
    ensures NearestDist(p, cs + [c]) == MinReal(NearestDist(p, cs), Dist(p, c))
  {
    assert (cs + [c])[..|cs|] == cs;
  }

  /** A point at positive distance from every seed is a new seed at a new place. */
  lemma SeedsGrow(pts: seq<WeightedPoint>, cs: seq<WeightedPoint>, i: nat)
    requires cs != [] && Seeds(pts, cs) && i < |pts| && NearestDist(pts[i], cs) > 0.0
    ensures Seeds(pts, cs + [pts[i]])
  {
    hide Dist, NearestDist;
    NearestDistIs(pts[i], cs);
    forall j | 0 <= j < |cs| ensures !SamePlace(cs[j], pts[i]) {
      if SamePlace(cs[j], pts[i]) {
        DistPositive(pts[i], cs[j]);
        assert false;
      }
    }
  }

  lemma {:induction false} CostIsWeightedD2(pts: seq<WeightedPoint>, cs: seq<WeightedPoint>, d2: seq<real>, n: nat)
    requires cs != [] && |d2| == |pts| && n <= |pts|
    requires forall i :: 0 <= i < |pts| ==> d2[i] == NearestDist(pts[i], cs)
    ensures WeightedD2(pts, d2, n) == Cost(pts[..n], cs)
  {
    hide NearestDist;
    if n > 0 {
      CostIsWeightedD2(pts, cs, d2, n - 1);
      assert pts[..n][..n - 1] == pts[..n - 1];
    }
  }

  /** Squared distance from the grey axis. */
  function ChromaSquared(p: WeightedPoint): real {
    p.a * p.a + p.b * p.b
  }

  /** The colourful-and-heavy score of a point; the square root is a parameter. */
  function FirstScore(p: WeightedPoint, sqrt: real -> real): real {
    p.weight * (1.0 + 4.0 * sqrt(ChromaSquared(p)))
  }

  method SeedCentroids(pts: seq<WeightedPoint>, centroids: array<WeightedPoint>, maxK: nat, sqrt: real -> real)
      returns (k: nat)
    requires 0 < |pts| <= MAX_BOXES && Positive(pts)
    requires 1 <= maxK <= KMEANS_K && maxK <= centroids.Length && forall x :: sqrt(x) >= 0.0
    modifies centroids
    ensures 1 <= k <= maxK && k <= |pts|
    ensures Seeds(pts, centroids[..k])
    ensures k < maxK && k < |pts| ==> Cost(pts, centroids[..k]) <= 0.000000000001
    ensures Seeding(pts, centroids[..k], sqrt)
  {
    hide Dist, NearestDist, FirstScore, Cost, IsDrawn;
    var target := if |pts| < maxK then |pts| else maxK;
    var first := FirstSeed(pts, sqrt);
    centroids[0] := pts[first];
    assert centroids[..1] == [pts[first]];
    var minD2 := new real[MAX_BOXES](_ => 0.0);
    for i := 0 to |pts|
      invariant centroids[..1] == [pts[first]] && centroids[0] == pts[first]
      invariant forall j :: 0 <= j < i ==> minD2[j] == Dist(pts[j], pts[first])
    {
      minD2[i] := Dist(pts[i], centroids[0]);
    }
    OneCentroid(pts, pts[first]);
    k := 1;
    while k < target
      invariant 1 <= k <= target && centroids[0] == pts[first]
      invariant Seeds(pts, centroids[..k])
      invariant Distances(pts, centroids[..k], minD2)
      invariant Seeding(pts, centroids[..k], sqrt)
    {
      AllDistances(pts, centroids[..k]);
      var found, chosen := Draw(pts, minD2, k);
      if !found {
        CostIsWeightedD2(pts, centroids[..k], minD2[..|pts|], |pts|);
        assert pts[..|pts|] == pts;
        break;
      }
      SeedsGrow(pts, centroids[..k], chosen);
      assert minD2[..|pts|] == DistSeq(pts, centroids[..k]);
      SeedingGrows(pts, centroids[..k], sqrt, chosen);
      AddSeed(pts, centroids, k, chosen, minD2);
      k := k + 1;
    }
  }

  lemma SeedingGrows(pts: seq<WeightedPoint>, cs: seq<WeightedPoint>, sqrt: real -> real, chosen: nat)
    requires Seeding(pts, cs, sqrt) && chosen < |pts| && IsDrawn(pts, DistSeq(pts, cs), |cs|, chosen)
    ensures Seeding(pts, cs + [pts[chosen]], sqrt)
  {
    hide IsDrawn, FirstScore, NearestDist;
    var t := cs + [pts[chosen]];
    forall j | 0 < j < |t| ensures DrawnAt(pts, t, j) {
      assert t[..j] == cs[..j];
      if j < |cs| {
        assert DrawnAt(pts, cs, j);
      } else {
        assert t[..j] == cs;
      }
    }
  }

  method AddSeed(pts: seq<WeightedPoint>, centroids: array<WeightedPoint>, k: nat, chosen: nat, minD2: array<real>)
    requires 1 <= k < centroids.Length && chosen < |pts| && Distances(pts, centroids[..k], minD2)
    modifies centroids, minD2
    ensures centroids[..k + 1] == old(centroids[..k]) + [pts[chosen]]
    ensures Distances(pts, centroids[..k + 1], minD2)
  {
    hide Dist, NearestDist;
    ghost var before := centroids[..k];
    centroids[k] := pts[chosen];
    ghost var after := centroids[..k + 1];
    assert after == before + [pts[chosen]];
    for i := 0 to |pts|
      invariant centroids[k] == pts[chosen] && centroids[..k + 1] == after
      invariant forall j :: 0 <= j < i ==> minD2[j] == NearestDist(pts[j], after)
      invariant forall j :: i <= j < |pts| ==> minD2[j] == NearestDist(pts[j], before)
    {
      NearestAppend(pts[i], before, pts[chosen]);
      var d2 := Dist(pts[i], centroids[k]);
      if d2 < minD2[i] {
        minD2[i] := d2;
      }
    }
  }

  lemma OneCentroid(pts: seq<WeightedPoint>, c: WeightedPoint)
    ensures forall i :: 0 <= i < |pts| ==> NearestDist(pts[i], [c]) == Dist(pts[i], c)
  {
  }

  lemma AllDistances(pts: seq<WeightedPoint>, cs: seq<WeightedPoint>)
    requires cs != []
    ensures forall i :: 0 <= i < |pts| ==> NearestDist(pts[i], cs) >= 0.0
  {
    forall i | 0 <= i < |pts| ensures NearestDist(pts[i], cs) >= 0.0 {
      NearestDistIs(pts[i], cs);
    }
  }

  /** With a true square root the first score is the weight and four times the weight for each
      unit of distance from the grey axis. */
  lemma FirstScoreIs(p: WeightedPoint, chroma: real, sqrt: real -> real)
    requires chroma >= 0.0 && chroma * chroma == p.a * p.a + p.b * p.b
    requires forall x :: x >= 0.0 ==> sqrt(x) >= 0.0 && sqrt(x) * sqrt(x) == x
    ensures FirstScore(p, sqrt) == p.weight + 4.0 * (p.weight * chroma)
  {
    OneRoot(sqrt(ChromaSquared(p)), chroma);
    hide ChromaSquared;
    WeighChroma(p.weight, chroma);
  }

  lemma WeighChroma(w: real, chroma: real)
    ensures w * (1.0 + 4.0 * chroma) == w + 4.0 * (w * chroma)
  {
    Spread(w, 1.0, 4.0 * chroma);
  }

  lemma FirstScorePositive(p: WeightedPoint, sqrt: real -> real)
    requires p.weight > 0.0 && forall x :: sqrt(x) >= 0.0
    ensures FirstScore(p, sqrt) >= 0.0
  {
    ScaleLe(p.weight, 0.0, 1.0 + 4.0 * sqrt(ChromaSquared(p)));
  }

  method FirstSeed(pts: seq<WeightedPoint>, sqrt: real -> real) returns (first: nat)
    requires pts != [] && Positive(pts) && forall x :: sqrt(x) >= 0.0
    ensures first < |pts|
    ensures forall i :: 0 <= i < |pts| ==> FirstScore(pts[i], sqrt) <= FirstScore(pts[first], sqrt)
  {
    hide FirstScore;
    first := 0;
    var best := -1.0;
    for i := 0 to |pts|
      invariant first < |pts| && best >= -1.0
      invariant best > -1.0 ==> best == FirstScore(pts[first], sqrt)
      invariant forall j :: 0 <= j < i ==> FirstScore(pts[j], sqrt) <= best
      invariant i > 0 ==> best > -1.0
    {
      FirstScorePositive(pts[i], sqrt);
      var s := FirstScore(pts[i], sqrt);
      if s > best {
        best, first := s, i;
      }
    }
  }

  /** Every point goes to a nearest centroid, and every cluster that has points to their mean. */
  ghost predicate RoundTaken(pts: seq<WeightedPoint>, before: seq<WeightedPoint>, after: seq<WeightedPoint>,
                             asg: seq<nat>) {
    NearestAssignment(pts, before, asg) && Recentred(pts, asg, before, after, |before|)
  }

  ghost predicate Round(pts: seq<WeightedPoint>, before: seq<WeightedPoint>, after: seq<WeightedPoint>) {
    exists asg :: RoundTaken(pts, before, after, asg)
  }

  /** One Lloyd round after another; each state's error bounds the next one's. */
  ghost predicate Descends(pts: seq<WeightedPoint>, trace: seq<seq<WeightedPoint>>) {
    && (forall j :: 0 <= j < |trace| ==> trace[j] != [])
    && forall j :: 0 <= j < |trace| - 1 ==>
         Round(pts, trace[j], trace[j + 1]) && Cost(pts, trace[j + 1]) <= Cost(pts, trace[j])
  }

  /** Seeds, rounds, compaction.  The trace lists the seeds and the centroids after every
      round; the compacted result is at least as good as the state before the last round. */
  method WeightedKMeans(pts: seq<WeightedPoint>, centroids: array<WeightedPoint>, maxK: nat, sqrt: real -> real)
      returns (k: nat, ghost trace: seq<seq<WeightedPoint>>)
    requires |pts| <= MAX_BOXES && Positive(pts)
    requires 1 <= maxK <= KMEANS_K && maxK <= centroids.Length && forall x :: sqrt(x) >= 0.0
    modifies centroids
    ensures pts == [] ==> k == 0
    ensures pts != [] ==> 1 <= k <= maxK && k <= |pts|
    ensures pts != [] ==> |trace| == KMEANS_ITERS + 1 && Descends(pts, trace)
    ensures pts != [] ==> Seeds(pts, trace[0]) && Seeding(pts, trace[0], sqrt)
    ensures pts != [] ==> centroids[..k] == Occupied(trace[KMEANS_ITERS])
    ensures pts != [] ==> Cost(pts, centroids[..k]) <= Cost(pts, trace[KMEANS_ITERS - 1])
    ensures pts != [] && |trace[0]| < maxK && |trace[0]| < |pts| ==> Cost(pts, trace[0]) <= 0.000000000001
    ensures WeightSum(centroids[..k]) == WeightSum(pts)
  {
    hide Cost, NearestAssignment, Recentred, Seeds, Seeding, Occupied, AssignedCost;
    trace := [];
    if pts == [] {
      return 0, [];
    }
    var target := SeedCentroids(pts, centroids, maxK, sqrt);
    trace := [centroids[..target]];
    ghost var asg := [];
    for iter := 0 to KMEANS_ITERS
      invariant |trace| == iter + 1 && Descends(pts, trace)
      invariant trace[iter] == centroids[..target]
      invariant Seeds(pts, trace[0]) && Seeding(pts, trace[0], sqrt) && |trace[0]| == target
      invariant target < maxK && target < |pts| ==> Cost(pts, trace[0]) <= 0.000000000001
      invariant iter > 0 ==> RoundTaken(pts, trace[iter - 1], trace[iter], asg)
    {
      ghost var before := centroids[..target];
      asg := LloydRound(pts, centroids, target);
      LloydImproves(pts, before, centroids[..target], asg);
      assert RoundTaken(pts, before, centroids[..target], asg);
      trace := trace + [centroids[..target]];
    }
    ghost var before, after := trace[KMEANS_ITERS - 1], trace[KMEANS_ITERS];
    LloydImproves(pts, before, after, asg);
    CompactionConserves(pts, before, after, asg);
    CompactionKeepsBound(pts, before, after, asg);
    OccupiedShorter(after);
    k := Compact(centroids, target);
  }

  lemma {:induction false} OccupiedShorter(cs: seq<WeightedPoint>)
    ensures |Occupied(cs)| <= |cs|
  {
    if cs != [] {
      OccupiedShorter(cs[..|cs| - 1]);
    }
  }
}
