/** Sizes of duplicate-free sequences. */
module Counting {

  ghost predicate Distinct<T>(s: seq<T>) {
    forall i, j :: 0 <= i < j < |s| ==> s[i] != s[j]
  }

  lemma DistinctConcat<T>(s: seq<T>, t: seq<T>)
    requires Distinct(s) && Distinct(t) && forall x :: x in s ==> x !in t
    ensures Distinct(s + t)
  {
    forall i, j | 0 <= i < j < |s + t| ensures (s + t)[i] != (s + t)[j] {
      if i < |s| && |s| <= j {
        assert s[i] in s && t[j - |s|] in t;
      }
    }
  }

  /** A sequence without duplicates is as long as the set of its elements is large. */
  lemma {:induction false} DistinctCount<T>(list: seq<T>)
    requires Distinct(list)
    ensures |set x | x in list| == |list|
  {
    if list != [] {
      var m := |list| - 1;
      DistinctCount(list[..m]);
      assert (set x | x in list) == (set x | x in list[..m]) + {list[m]};
    }
  }

  lemma {:induction false} SetBelow(s: set<int>, n: nat)
    requires forall x :: x in s ==> 0 <= x < n
    ensures |s| <= n
    ensures (forall x :: 0 <= x < n ==> x in s) ==> |s| == n
  {
    if n == 0 {
      assert forall x :: x !in s;
    } else {
      SetBelow(s - {n - 1}, n - 1);
      if n - 1 in s {
        assert s == (s - {n - 1}) + {n - 1};
      } else {
        assert s == s - {n - 1};
      }
    }
  }

  /** Distinct numbers below n are at most n many, and exactly n when none is missing. */
  lemma DistinctBelow(list: seq<int>, n: nat)
    requires Distinct(list) && forall x :: x in list ==> 0 <= x < n
    ensures |list| <= n
    ensures (forall x :: 0 <= x < n ==> x in list) ==> |list| == n
  {
    DistinctCount(list);
    SetBelow((set x | x in list), n);
  }

  /** Distinct elements of a list are no more than the list is long. */
  lemma DistinctAmong<T>(some: seq<T>, list: seq<T>)
    requires Distinct(some) && Distinct(list) && forall x :: x in some ==> x in list
    ensures |some| <= |list|
  {
    DistinctCount(some);
    DistinctCount(list);
    var a, b := set x | x in some, set x | x in list;
    assert b == a + (b - a);
  }
}
