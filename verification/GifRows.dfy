/** The order in which the rows of a GIF image arrive (GIF89a, Appendix E). */
module GifRows {
  import opened Counting

  /** start, start + step, ... below h. */
  ghost function Rows(start: nat, step: nat, h: nat): seq<nat>
    requires step > 0
    decreases h - start
  {
    if start >= h then [] else [start] + Rows(start + step, step, h)
  }

  /** Every 8th row from 0, every 8th from 4, every 4th from 2, every 2nd from 1. */
  ghost function RowOrder(h: nat, interlace: bool): seq<nat> {
    if interlace then Rows(0, 8, h) + Rows(4, 8, h) + Rows(2, 4, h) + Rows(1, 2, h)
    else Rows(0, 1, h)
  }

  ghost predicate InRows(r: int, start: nat, step: nat, h: nat)
    requires step > 0
  {
    start <= r < h && (r - start) % step == 0
  }

  lemma {:induction false} RowsMembers(start: nat, step: nat, h: nat)
    requires step == 1 || step == 2 || step == 4 || step == 8
    ensures forall r: int :: r in Rows(start, step, h) <==> InRows(r, start, step, h)
    decreases h - start
  {
    if start < h {
      RowsMembers(start + step, step, h);
    }
  }

  lemma {:induction false} RowsIncrease(start: nat, step: nat, h: nat)
    requires step > 0
    ensures forall i, j :: 0 <= i < j < |Rows(start, step, h)| ==> Rows(start, step, h)[i] < Rows(start, step, h)[j]
    ensures forall i :: 0 <= i < |Rows(start, step, h)| ==> start <= Rows(start, step, h)[i] < h
    decreases h - start
  {
    if start < h {
      RowsIncrease(start + step, step, h);
    }
  }

  /** Every row belongs to exactly one of the four passes. */
  lemma OnePass(r: int, h: nat)
    ensures 0 <= r < h <==> InRows(r, 0, 8, h) || InRows(r, 4, 8, h) || InRows(r, 2, 4, h) || InRows(r, 1, 2, h)
    ensures InRows(r, 0, 8, h) ==> !InRows(r, 4, 8, h) && !InRows(r, 2, 4, h) && !InRows(r, 1, 2, h)
    ensures InRows(r, 4, 8, h) ==> !InRows(r, 2, 4, h) && !InRows(r, 1, 2, h)
    ensures InRows(r, 2, 4, h) ==> !InRows(r, 1, 2, h)
  {
  }

  /** The row order is a permutation of the rows: every row arrives exactly once. */
  lemma RowOrderPermutes(h: nat, interlace: bool)
    ensures |RowOrder(h, interlace)| == h
    ensures Distinct(RowOrder(h, interlace))
    ensures forall r: int :: r in RowOrder(h, interlace) <==> 0 <= r < h
  {
    hide Rows;
    if interlace {
      InterlacePermutes(h);
    } else {
      RowsMembers(0, 1, h);
      RowsIncrease(0, 1, h);
    }
    DistinctBelow(RowOrder(h, interlace), h);
  }

  lemma InterlacePermutes(h: nat)
    ensures Distinct(RowOrder(h, true))
    ensures forall r: int :: r in RowOrder(h, true) <==> 0 <= r < h
  {
    hide Rows, InRows;
    RowsMembers(0, 8, h);
    RowsMembers(4, 8, h);
    RowsMembers(2, 4, h);
    RowsMembers(1, 2, h);
    RowsIncrease(0, 8, h);
    RowsIncrease(4, 8, h);
    RowsIncrease(2, 4, h);
    RowsIncrease(1, 2, h);
    forall r: int ensures r in RowOrder(h, true) <==> 0 <= r < h {
      OnePass(r, h);
    }
    forall r | r in Rows(0, 8, h) || r in Rows(4, 8, h) || r in Rows(2, 4, h)
      ensures r in Rows(0, 8, h) ==> r !in Rows(4, 8, h)
      ensures r in Rows(0, 8, h) || r in Rows(4, 8, h) ==> r !in Rows(2, 4, h)
      ensures r !in Rows(1, 2, h)
    {
      OnePass(r, h);
    }
    DistinctConcat(Rows(0, 8, h), Rows(4, 8, h));
    DistinctConcat(Rows(0, 8, h) + Rows(4, 8, h), Rows(2, 4, h));
    DistinctConcat(Rows(0, 8, h) + Rows(4, 8, h) + Rows(2, 4, h), Rows(1, 2, h));
  }

  /** The pass a row arrives in, by its number alone. */
  function PassOf(r: nat): nat {
    if r % 8 == 0 then 0 else if r % 8 == 4 then 1 else if r % 4 == 2 then 2 else 3
  }

  /** Row r arrives earlier than row s: in an earlier pass, or above it in the same pass. */
  predicate Earlier(r: nat, s: nat) {
    PassOf(r) < PassOf(s) || (PassOf(r) == PassOf(s) && r < s)
  }

  ghost predicate InOrder(rows: seq<nat>) {
    forall i, j :: 0 <= i < j < |rows| ==> Earlier(rows[i], rows[j])
  }

  lemma PassInOrder(start: nat, step: nat, h: nat)
    requires (start, step) in {(0, 8), (4, 8), (2, 4), (1, 2)}
    ensures InOrder(Rows(start, step, h))
    ensures forall r :: r in Rows(start, step, h) ==> PassOf(r) == PassOf(start)
  {
    hide Rows, PassOf, InRows;
    RowsMembers(start, step, h);
    RowsIncrease(start, step, h);
    forall r | r in Rows(start, step, h) ensures PassOf(r) == PassOf(start) {
      assert InRows(r, start, step, h);
      PassIs(r, start, step, h);
    }
  }

  lemma PassIs(r: nat, start: nat, step: nat, h: nat)
    requires (start, step) in {(0, 8), (4, 8), (2, 4), (1, 2)} && InRows(r, start, step, h)
    ensures PassOf(r) == PassOf(start)
  {
    if step == 8 {
      Eighth(r, start);
    } else if step == 4 {
      Quarter(r);
    } else {
      Half(r);
    }
  }

  lemma Eighth(r: nat, start: nat)
    requires start <= r && start < 8 && (r - start) % 8 == 0
    ensures r % 8 == start
  {
    assert r == start + 8 * ((r - start) / 8);
  }

  lemma Quarter(r: nat)
    requires 2 <= r && (r - 2) % 4 == 0
    ensures r % 4 == 2 && r % 8 != 0 && r % 8 != 4
  {
    assert r == 2 + 4 * ((r - 2) / 4);
  }

  lemma Half(r: nat)
    requires 1 <= r && (r - 1) % 2 == 0
    ensures r % 4 != 2 && r % 8 != 0 && r % 8 != 4
  {
    assert r == 1 + 2 * ((r - 1) / 2);
  }

  lemma OrderConcat(a: seq<nat>, b: seq<nat>)
    requires InOrder(a) && InOrder(b) && forall r, s :: r in a && s in b ==> PassOf(r) < PassOf(s)
    ensures InOrder(a + b)
  {
    hide PassOf;
  }

  /** Interlaced rows arrive pass by pass, and from top to bottom within a pass. */
  lemma InterlacedInOrder(h: nat)
    ensures InOrder(RowOrder(h, true))
  {
    hide Rows, InOrder;
    PassInOrder(0, 8, h);
    PassInOrder(4, 8, h);
    PassInOrder(2, 4, h);
    PassInOrder(1, 2, h);
    OrderConcat(Rows(0, 8, h), Rows(4, 8, h));
    OrderConcat(Rows(0, 8, h) + Rows(4, 8, h), Rows(2, 4, h));
    OrderConcat(Rows(0, 8, h) + Rows(4, 8, h) + Rows(2, 4, h), Rows(1, 2, h));
  }

  lemma {:induction false} RowsFrom(start: nat, h: nat)
    requires start <= h
    ensures |Rows(start, 1, h)| == h - start
    ensures forall i :: 0 <= i < h - start ==> Rows(start, 1, h)[i] == start + i
    decreases h - start
  {
    if start < h { RowsFrom(start + 1, h); }
  }

  /** Without interlacing the rows arrive from top to bottom. */
  lemma PlainInOrder(h: nat)
    ensures |RowOrder(h, false)| == h && forall i :: 0 <= i < h ==> RowOrder(h, false)[i] == i
  {
    RowsFrom(0, h);
  }

  /** One pass: rows from start on, every step-th, appended to the map. */
  method MapPass(rowMap: array<nat>, cur: nat, start: nat, step: nat, h: nat, ghost rest: seq<nat>) returns (next: nat)
    requires step > 0 && cur + |Rows(start, step, h)| + |rest| == rowMap.Length
    modifies rowMap
    ensures next == cur + |Rows(start, step, h)|
    ensures rowMap[..next] == old(rowMap[..cur]) + Rows(start, step, h)
  {
    ghost var front := rowMap[..cur];
    next := cur;
    var r := start;
    while r < h
      invariant cur <= next && next + |Rows(r, step, h)| + |rest| == rowMap.Length
      invariant rowMap[..next] + Rows(r, step, h) == front + Rows(start, step, h)
      decreases h - r
    {
      rowMap[next] := r;
      assert rowMap[..next + 1] == rowMap[..next] + [r];
      next := next + 1;
      r := r + step;
    }
  }

  method BuildRowMap(h: nat, interlace: bool) returns (rowMap: array<nat>)
    ensures fresh(rowMap) && rowMap[..] == RowOrder(h, interlace)
  {
    hide Rows;
    RowOrderPermutes(h, interlace);
    rowMap := new nat[h];
    var cur;
    if !interlace {
      cur := MapPass(rowMap, 0, 0, 1, h, []);
    } else {
      cur := MapPass(rowMap, 0, 0, 8, h, Rows(4, 8, h) + Rows(2, 4, h) + Rows(1, 2, h));
      cur := MapPass(rowMap, cur, 4, 8, h, Rows(2, 4, h) + Rows(1, 2, h));
      cur := MapPass(rowMap, cur, 2, 4, h, Rows(1, 2, h));
      cur := MapPass(rowMap, cur, 1, 2, h, []);
    }
    assert rowMap[..cur] == rowMap[..];
  }
}
