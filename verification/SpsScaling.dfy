/** What the scaling-list walk computes, in terms of the sums of the deltas alone. */
module SpsScaling {
  import opened Bits
  import opened RbspBits
  import opened SpsParser

  /** The lists of Table 7-2 of ITU-T H.264: six of 4 x 4 scales, and of 8 x 8 scales two or, with
      three colour planes of full size, six. */
  lemma ListShapes(chroma: int)
    ensures ListCount(chroma) == 6 + if chroma == 3 then 6 else 2
    ensures forall j :: 0 <= j < ListCount(chroma) ==> ListSize(j) == if j < 6 then 4 * 4 else 8 * 8
  {
  }

  /** The next scale is the number of the right remainder nearest to zero on its side. */
  lemma NextScaleIs(last: int, delta: int)
    ensures var s := NextScale(last, delta);
      && (s - last - delta) % 256 == 0 && -256 < s < 256
      && (last + delta >= -256 ==> s >= 0) && (last + delta <= -256 ==> s <= 0)
  {
  }

  /** The deltas up to and with number k, added to the initial scale. */
  function SumTo(deltas: seq<int>, k: nat): int
    requires k <= |deltas|
  {
    if k == 0 then 8 else SumTo(deltas, k - 1) + deltas[k - 1]
  }

  /** The list ends with delta k: the sum has come back to zero. */
  ghost predicate EndsAt(deltas: seq<int>, k: nat) {
    0 < k <= |deltas| && SumTo(deltas, k) % 256 == 0
  }

  /** The number of deltas sent: up to the first end, or all. */
  ghost predicate Sent(deltas: seq<int>, n: nat) {
    n <= |deltas| && (forall k: nat :: k < n ==> !EndsAt(deltas, k)) && (n < |deltas| ==> EndsAt(deltas, n))
  }

  lemma OneCount(deltas: seq<int>, m: nat, n: nat)
    requires Sent(deltas, m) && Sent(deltas, n)
    ensures m == n
  {
  }

  /** The last scale is congruent to the sum so far, and the list has not ended. */
  ghost predicate Running(deltas: seq<int>, j: nat, last: int) {
    j <= |deltas| && (SumTo(deltas, j) - last) % 256 == 0 && -256 < last < 256 && last != 0
  }

  lemma ScaleStep(deltas: seq<int>, j: nat, last: int)
    requires j < |deltas| && Running(deltas, j, last)
    ensures var s := NextScale(last, deltas[j]);
      && (s == 0 <==> EndsAt(deltas, j + 1)) && (s != 0 ==> Running(deltas, j + 1, s))
  {
    hide NextScale;
    NextScaleIs(last, deltas[j]);
    Congruent(SumTo(deltas, j), last, deltas[j], NextScale(last, deltas[j]));
  }

  lemma Congruent(sum: int, last: int, delta: int, s: int)
    requires (sum - last) % 256 == 0 && (s - last - delta) % 256 == 0 && -256 < s < 256
    ensures (sum + delta - s) % 256 == 0 && (s == 0 <==> (sum + delta) % 256 == 0)
  {
  }

  lemma NothingMore(deltas: seq<int>, j: nat, last: int)
    requires j <= |deltas|
    ensures ScalingBits(deltas, j, last, 0) == []
    decreases |deltas| - j
  {
    if j < |deltas| { NothingMore(deltas, j + 1, last); }
  }

  lemma NotEnded(deltas: seq<int>, j: nat, last: int)
    requires Running(deltas, j, last)
    ensures !EndsAt(deltas, j)
  {
  }

  lemma {:induction false} TextFrom(deltas: seq<int>, j: nat, last: int, next: int, n: nat)
    requires j <= n && Sent(deltas, n) && Running(deltas, j, last) && next != 0
    ensures ScalingBits(deltas, j, last, next) == SeBits(deltas[j..n])
    decreases n - j
  {
    hide NextScale, Se, SumTo;
    if j == n {
      NotEnded(deltas, j, last);
      assert deltas[j..n] == [];
    } else {
      ScaleStep(deltas, j, last);
      var s := NextScale(last, deltas[j]);
      assert deltas[j..n] == [deltas[j]] + deltas[j + 1..n];
      if s == 0 {
        assert j + 1 == n;
        NothingMore(deltas, j + 1, last);
        assert deltas[j + 1..n] == [];
      } else {
        TextFrom(deltas, j + 1, s, s, n);
      }
    }
  }

  /** The text of a scaling list is that of its deltas up to the first at which 8 and their sum
      make a multiple of 256. */
  lemma TextOfList(deltas: seq<int>, n: nat)
    requires Sent(deltas, n)
    ensures ScalingBits(deltas, 0, 8, 8) == SeBits(deltas[..n])
  {
    assert deltas[0..n] == deltas[..n];
    TextFrom(deltas, 0, 8, 8, n);
  }

  /** The walk consumes exactly these deltas. */
  lemma SkipsSent(deltas: seq<int>, n: nat, rest: seq<bool>)
    requires Sent(deltas, n) && forall k :: 0 <= k < |deltas| ==> SeRange(deltas[k])
    ensures SkipScaling(SeBits(deltas[..n]) + rest, 0, |deltas|, 8, 8) == rest
  {
    TextOfList(deltas, n);
    SkipScalingBits(deltas, 0, 8, 8, rest);
  }

  /** A list that begins with -8 is that delta alone. */
  lemma UseDefault(deltas: seq<int>, rest: seq<bool>)
    requires deltas != [] && deltas[0] == -8 && forall k :: 0 <= k < |deltas| ==> SeRange(deltas[k])
    ensures ScalingBits(deltas, 0, 8, 8) == Se(-8)
    ensures SkipScaling(Se(-8) + rest, 0, |deltas|, 8, 8) == rest
  {
    assert SumTo(deltas, 0) == 8 && SumTo(deltas, 1) == 0;
    assert Sent(deltas, 1);
    TextOfList(deltas, 1);
    assert deltas[..1] == [-8] && [-8][1..] == [];
    assert SeBits([-8]) == Se(-8) + SeBits([]);
    assert Se(-8) + [] == Se(-8);
    SkipsSent(deltas, 1, rest);
  }

  // ----- Lists of scales -----

  /** The difference of two scales, as the standard sends it. */
  function Wrapped(x: int): int { if x < -128 then x + 256 else if x > 127 then x - 256 else x }

  function Differences(scales: seq<int>, last: int): seq<int> {
    if scales == [] then [] else [Wrapped(scales[0] - last)] + Differences(scales[1..], scales[0])
  }

  ghost predicate Scales(scales: seq<int>) {
    forall k :: 0 <= k < |scales| ==> 1 <= scales[k] <= 255
  }

  /** Every difference fits a signed byte and turns one scale into the next. */
  lemma {:induction false} DifferencesLead(scales: seq<int>, last: int, k: nat)
    requires Scales(scales) && 1 <= last <= 255 && k < |scales|
    ensures |Differences(scales, last)| == |scales|
    ensures -128 <= Differences(scales, last)[k] <= 127
    ensures NextScale(if k == 0 then last else scales[k - 1], Differences(scales, last)[k]) == scales[k]
  {
    if k > 0 {
      DifferencesLead(scales[1..], scales[0], k - 1);
    } else if |scales| > 1 {
      DifferencesLead(scales[1..], scales[0], 0);
    }
  }

  lemma {:induction false} SumOfDifferences(scales: seq<int>, k: nat)
    requires Scales(scales) && k <= |scales| == |Differences(scales, 8)|
    ensures (SumTo(Differences(scales, 8), k) - if k == 0 then 8 else scales[k - 1]) % 256 == 0
  {
    hide NextScale;
    if k > 0 {
      SumOfDifferences(scales, k - 1);
      DifferencesLead(scales, 8, k - 1);
      NextScaleIs(if k == 1 then 8 else scales[k - 2], Differences(scales, 8)[k - 1]);
      Congruent(SumTo(Differences(scales, 8), k - 1), if k == 1 then 8 else scales[k - 2],
                Differences(scales, 8)[k - 1], scales[k - 1]);
    }
  }

  /** A list given by its scales is sent whole, one difference each, and skipped whole. */
  lemma ScalesAreSent(scales: seq<int>, rest: seq<bool>)
    requires Scales(scales)
    ensures var d := Differences(scales, 8);
      && |d| == |scales| && Sent(d, |scales|)
      && ScalingBits(d, 0, 8, 8) == SeBits(d)
      && SkipScaling(SeBits(d) + rest, 0, |scales|, 8, 8) == rest
  {
    hide NextScale, ScalingBits, SkipScaling;
    var d := Differences(scales, 8);
    if scales != [] { DifferencesLead(scales, 8, 0); }
    forall k: nat | k < |scales| ensures !EndsAt(d, k) && -128 <= d[k] <= 127 {
      SumOfDifferences(scales, k);
      DifferencesLead(scales, 8, k);
    }
    TextOfList(d, |d|);
    assert d[..|d|] == d;
    SkipsSent(d, |d|, rest);
  }
}
