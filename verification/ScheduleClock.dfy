/** The schedule on the wall clock: the program knows the time of day only, which falls back to
    zero at midnight, and in whole seconds.  When the cycle and the frames go on as announced. */
module ScheduleClock {
  import opened Options
  import opened RealArith
  import opened Schedule

  const DAY := 86400.0

  /** Midnights passed at w seconds after some midnight. */
  function Midnights(w: real): int { (w / DAY).Floor }

  function TimeOfDay(w: real): real { w - Cycles(Midnights(w), DAY) }

  ghost predicate InCycles(span: real, total: real) {
    exists k: int :: span == Cycles(k, total)
  }

  lemma TimeOfDayIs(w: real)
    ensures 0.0 <= TimeOfDay(w) < DAY
    ensures 0.0 <= w < DAY ==> TimeOfDay(w) == w && Midnights(w) == 0
  {
  }

  /** The clock d seconds later, in terms of the midnights in between. */
  lemma ClockLater(w: real, d: real)
    ensures TimeOfDay(w + d) == TimeOfDay(w) + d - Cycles(Midnights(w + d) - Midnights(w), DAY)
  {
    CyclesDiffer(Midnights(w + d), Midnights(w), DAY);
    hide Cycles, Midnights;
  }

  /** Two times have the same position exactly when whole cycles lie between them. */
  lemma SamePosition(x: real, y: real, total: real)
    requires total > 0.0
    ensures CyclePosition(x, total) == CyclePosition(y, total) <==> InCycles(x - y, total)
  {
    hide CyclePosition, Cycles;
    var j := CyclePositionIs(x, total);
    var k := CyclePositionIs(y, total);
    CyclesDiffer(j, k, total);
    if CyclePosition(x, total) == CyclePosition(y, total) {
      assert x - y == Cycles(j - k, total);
    } else if InCycles(x - y, total) {
      var n :| x - y == Cycles(n, total);
      CyclesDiffer(n, j - k, total);
      WholeCycles(n - (j - k), total, CyclePosition(x, total) - CyclePosition(y, total));
    }
  }

  /** As long as the cycle does not end, the position d seconds later is d further on exactly when
      the midnights in between make whole cycles. */
  lemma ClockMovesOn(w: real, start: real, d: real, total: real)
    requires total > 0.0 && d >= 0.0 && CyclePosition(TimeOfDay(w) - start, total) + d < total
    ensures CyclePosition(TimeOfDay(w + d) - start, total) == CyclePosition(TimeOfDay(w) - start, total) + d
       <==> InCycles(Cycles(Midnights(w + d) - Midnights(w), DAY), total)
  {
    hide CyclePosition, Cycles, TimeOfDay, Midnights, InCycles;
    var x, span := TimeOfDay(w) - start, Cycles(Midnights(w + d) - Midnights(w), DAY);
    ClockLater(w, d);
    CycleMovesOn(x, d, total);
    SamePosition(x + d, x + d - span, total);
    assert TimeOfDay(w + d) - start == x + d - span;
  }

  /** Spans of n days are whole cycles if one day is. */
  lemma DaysInCycles(n: int, total: real)
    requires InCycles(DAY, total) || n == 0
    ensures InCycles(Cycles(n, DAY), total)
  {
    if n == 0 {
      assert Cycles(0, DAY) == Cycles(0, total);
    } else {
      var k :| DAY == Cycles(k, total);
      assert (n as real) * ((k as real) * total) == ((n * k) as real) * total;
      assert Cycles(n, DAY) == Cycles(n * k, total);
    }
  }

  lemma FrontPosition(x: real, total: real)
    requires 0.0 <= x < total
    ensures CyclePosition(x, total) == x
  {
    hide CyclePosition, Cycles;
    var k := CyclePositionIs(x, total);
    WholeCycles(k, total, x - CyclePosition(x, total));
  }

  ghost predicate MovesOn(w: real, start: real, d: real, total: real)
    requires total > 0.0
  {
    var pos := CyclePosition(TimeOfDay(w) - start, total);
    0.0 <= start < DAY && d >= 0.0 && pos + d < total ==>
      CyclePosition(TimeOfDay(w + d) - start, total) == pos + d
  }

  /** The position always moves on with the clock exactly when a day is a whole number of cycles. */
  lemma AlwaysMovesOnIff(total: real)
    requires total > 0.0
    ensures (forall w, start, d :: MovesOn(w, start, d, total)) <==> InCycles(DAY, total)
  {
    hide CyclePosition, Cycles, TimeOfDay, Midnights, InCycles;
    if InCycles(DAY, total) {
      forall w, start, d ensures MovesOn(w, start, d, total) {
        if d >= 0.0 && CyclePosition(TimeOfDay(w) - start, total) + d < total {
          DaysInCycles(Midnights(w + d) - Midnights(w), total);
          ClockMovesOn(w, start, d, total);
        }
      }
    } else {
      var d := (if total < DAY then total else DAY) / 2.0;
      var w := DAY - d;
      TimeOfDayIs(w);
      FrontPosition(0.0, total);
      ClockMovesOn(w, w, d, total);
      OneMidnight();
      assert !MovesOn(w, w, d, total);
    }
  }

  lemma OneMidnight()
    ensures Midnights(DAY) == 1 && Cycles(1, DAY) == DAY && TimeOfDay(DAY) == 0.0
  {
  }

  // ----- Frames -----

  /** The frame shown at w by the wall clock. */
  ghost predicate ShownAt(entries: seq<Entry>, start: real, w: real, path: string)
    requires Sum(entries) > 0.0
  {
    Shows(entries, TimeOfDay(w) - start, path)
  }

  /** The announced change lies more than d seconds ahead. */
  ghost predicate NotYet(entries: seq<Entry>, start: real, w: real, d: real)
    requires Sum(entries) > 0.0
  {
    var pos := CyclePosition(TimeOfDay(w) - start, Sum(entries));
    exists i :: 0 <= i < |entries| && Within(entries[i], pos) && d < Remaining(entries[i], pos - entries[i].start)
  }

  lemma SameShown(entries: seq<Entry>, x: real, y: real)
    requires Sum(entries) > 0.0 && CyclePosition(x, Sum(entries)) == CyclePosition(y, Sum(entries))
    ensures forall path :: Shows(entries, x, path) <==> Shows(entries, y, path)
  {
    hide CyclePosition, Within, ShownIn;
  }

  /** Before the announced change the wall clock shows the same frame, unless it has passed
      midnights that do not make whole cycles. */
  lemma ConstantOnClock(entries: seq<Entry>, start: real, w: real, d: real)
    requires Laid(entries) && Sum(entries) > 0.0 && d >= 0.0 && NotYet(entries, start, w, d)
    requires InCycles(Cycles(Midnights(w + d) - Midnights(w), DAY), Sum(entries))
    ensures forall path :: ShownAt(entries, start, w + d, path) <==> ShownAt(entries, start, w, path)
  {
    hide Laid, Sum, CyclePosition, TimeOfDay, Midnights, InCycles, Cycles, Shows, Within, Remaining;
    var total, x := Sum(entries), TimeOfDay(w) - start;
    var pos := CyclePosition(x, total);
    var i :| 0 <= i < |entries| && Within(entries[i], pos) && d < Remaining(entries[i], pos - entries[i].start);
    ConstantUntilChange(entries, x, d, i);
    var k := CyclePositionIs(x + d, total);
    ClockMovesOn(w, start, d, total);
    SameShown(entries, TimeOfDay(w + d) - start, x + d);
  }

  ghost predicate Keeps(entries: seq<Entry>, start: real, w: real, d: real)
    requires Sum(entries) > 0.0
  {
    0.0 <= start < DAY && d >= 0.0 && NotYet(entries, start, w, d) ==>
      forall path :: ShownAt(entries, start, w + d, path) <==> ShownAt(entries, start, w, path)
  }

  // A short frame and a long one.
  function Pair(short: real, long: real): seq<Entry> {
    [Entry("a", "", short, 0.0, false), Entry("b", "", long, short, false)]
  }

  lemma PairLaid(short: real, long: real)
    requires 0.0 < short <= MAX_DURATION && 0.0 < long <= MAX_DURATION
    ensures Laid(Pair(short, long)) && Sum(Pair(short, long)) == short + long
  {
    var p := Pair(short, long);
    assert p[..0] == [] && p[..1] == [p[0]] && p[..1][..0] == [];
  }

  /** Which of the two frames is shown, by the position. */
  lemma PairShown(entries: seq<Entry>, short: real, long: real, x: real)
    requires Laid(entries) && Sum(entries) > 0.0 && Pair(short, long) <= entries && 0.0 < short
    requires 0.0 <= CyclePosition(x, Sum(entries)) < short + long
    ensures Shows(entries, x, "b") <==> CyclePosition(x, Sum(entries)) >= short
  {
    hide Laid, Sum, CyclePosition;
    var k := CyclePositionIs(x, Sum(entries));
    var pos := CyclePosition(x, Sum(entries));
    OneSegment(entries, pos);
    assert entries[0] == Pair(short, long)[0] && entries[1] == Pair(short, long)[1];
    if pos >= short { assert Within(entries[1], pos); } else { assert Within(entries[0], pos); }
  }

  // ----- Whole seconds -----

  /** The program's clock and start time count whole seconds. */
  ghost predicate KeepsSeconds(entries: seq<Entry>, start: int, w: int, d: int)
    requires Sum(entries) > 0.0
  {
    Keeps(entries, start as real, w as real, d as real)
  }

  /** Segments a manifest can hold. */
  ghost predicate Holdable(entries: seq<Entry>, total: real) {
    |entries| <= MAX_STEPS && Laid(entries) && Sum(entries) == total
  }

  lemma WholeMidnights(w: int)
    ensures Midnights(w as real) == w / 86400
  {
    var q, r := w / 86400, w % 86400;
    assert w == 86400 * q + r;
    assert w as real == 86400.0 * q as real + r as real;
    assert w as real / DAY == q as real + r as real / DAY;
    assert 0.0 <= r as real / DAY < 1.0;
  }

  /** It takes at least as many seconds as midnights to pass them. */
  lemma MidnightsTakeSeconds(w: int, d: int)
    requires d >= 0
    ensures 0 <= Midnights((w + d) as real) - Midnights(w as real) <= d
  {
    WholeMidnights(w);
    WholeMidnights(w + d);
  }

  /** What a day leaves over when it is cut into cycles. */
  lemma LeftOver(total: real) returns (k: int)
    requires total > 0.0
    ensures DAY == CyclePosition(DAY, total) + Cycles(k, total)
    ensures 0.0 <= CyclePosition(DAY, total) < total && CyclePosition(DAY, total) <= DAY
  {
    hide CyclePosition, Cycles;
    k := CyclePositionIs(DAY, total);
    CyclesApart(k, total);
  }

  /** The position after n midnights: each has set it back by what a day leaves over. */
  lemma SetBack(x: real, d: real, n: int, total: real)
    requires total > 0.0
    requires var p := CyclePosition(x, total) + d - Cycles(n, CyclePosition(DAY, total)); 0.0 <= p < total
    ensures CyclePosition(x + d - Cycles(n, DAY), total)
         == CyclePosition(x, total) + d - Cycles(n, CyclePosition(DAY, total))
  {
    var rest := CyclePosition(DAY, total);
    var p := CyclePosition(x, total) + d - Cycles(n, rest);
    hide CyclePosition, Cycles;
    var k := LeftOver(total);
    var j := CyclePositionIs(x, total);
    DaysSplit(n, rest, k, total);
    CyclesDiffer(j, n * k, total);
    assert x + d - Cycles(n, DAY) - p == Cycles(j - n * k, total);
    SamePosition(x + d - Cycles(n, DAY), p, total);
    FrontPosition(p, total);
  }

  lemma DaysSplit(n: int, rest: real, k: int, total: real)
    requires DAY == rest + Cycles(k, total)
    ensures Cycles(n, DAY) == Cycles(n, rest) + Cycles(n * k, total)
  {
    Spread(n as real, rest, (k as real) * total);
    assert (n as real) * ((k as real) * total) == ((n * k) as real) * total;
  }

  /** If a day leaves over at most a second, midnights never set the position back past where it
      was, so the frame stays. */
  lemma KeptBySlack(entries: seq<Entry>, start: int, w: int, d: int)
    requires Laid(entries) && Sum(entries) > 0.0 && CyclePosition(DAY, Sum(entries)) <= 1.0
    ensures KeepsSeconds(entries, start, w, d)
  {
    hide Laid, Sum, CyclePosition, TimeOfDay, Midnights, Cycles, Shows, Remaining, Within;
    var s, v, e := start as real, w as real, d as real;
    if 0.0 <= s < DAY && e >= 0.0 && NotYet(entries, s, v, e) {
      var total, x := Sum(entries), TimeOfDay(v) - s;
      var pos := CyclePosition(x, total);
      var i :| 0 <= i < |entries| && Within(entries[i], pos) && e < Remaining(entries[i], pos - entries[i].start);
      var n := Midnights(v + e) - Midnights(v);
      MidnightsTakeSeconds(w, d);
      assert (w + d) as real == v + e;
      var back := Cycles(n, CyclePosition(DAY, total));
      SlackIsSmall(n, d, total);
      InsideSegment(entries, i, pos, e);
      var k := CyclePositionIs(x, total);
      ClockLater(v, e);
      SetBack(x, e, n, total);
      SameFrame(entries, i, x, TimeOfDay(v + e) - s, e);
    }
  }

  lemma SlackIsSmall(n: int, d: int, total: real)
    requires total > 0.0 && CyclePosition(DAY, total) <= 1.0 && 0 <= n <= d
    ensures 0.0 <= Cycles(n, CyclePosition(DAY, total)) <= d as real
  {
    hide CyclePosition;
    hide Cycles;
    var k := LeftOver(total);
    CyclesOfFraction(n, CyclePosition(DAY, total));
    assert n as real <= d as real;
  }

  lemma CyclesOfFraction(n: int, r: real)
    requires 0 <= n && 0.0 <= r <= 1.0
    ensures 0.0 <= Cycles(n, r) <= n as real
  {
    LeTimes(0.0, r, n as real);
    LeTimes(r, 1.0, n as real);
    assert r * (n as real) == Cycles(n, r);
  }

  lemma InsideSegment(entries: seq<Entry>, i: nat, pos: real, d: real)
    requires Laid(entries) && i < |entries| && Within(entries[i], pos)
    requires 0.0 <= d < Remaining(entries[i], pos - entries[i].start)
    ensures pos + d < Sum(entries) && Within(entries[i], pos + d)
  {
    hide Laid, Sum;
    SegmentEnds(entries, i);
    LaidEntry(entries, i);
  }

  /** Two times whose positions lie in the same segment, not too far apart, show the same frame. */
  lemma SameFrame(entries: seq<Entry>, i: nat, x: real, y: real, d: real)
    requires Laid(entries) && i < |entries| && Sum(entries) > 0.0
    requires var pos := CyclePosition(x, Sum(entries));
      && Within(entries[i], pos) && d < Remaining(entries[i], pos - entries[i].start)
      && pos <= CyclePosition(y, Sum(entries)) <= pos + d
    ensures forall path :: Shows(entries, y, path) <==> Shows(entries, x, path)
  {
    hide Laid, Sum, CyclePosition;
    var pos, later := CyclePosition(x, Sum(entries)), CyclePosition(y, Sum(entries));
    var j := CyclePositionIs(x, Sum(entries));
    var k := CyclePositionIs(y, Sum(entries));
    assert Within(entries[i], later);
    OneSegment(entries, pos);
    OneSegment(entries, later);
    assert ShownIn(entries[i], later - entries[i].start) == ShownIn(entries[i], pos - entries[i].start);
  }

  // ----- A frame that changes at midnight -----

  /** One frame a of length f, then m frames b of length g. */
  lemma {:induction false} Row(f: real, g: real, m: nat) returns (entries: seq<Entry>)
    requires 0.0 < f <= MAX_DURATION && 0.0 < g <= MAX_DURATION
    ensures Laid(entries) && |entries| == m + 1 && Sum(entries) == f + Cycles(m, g)
    ensures entries[0] == Entry("a", "", f, 0.0, false)
    ensures forall k :: 0 < k <= m ==> entries[k].from == "b" && !entries[k].isTransition
    decreases m
  {
    hide Laid, Sum, Cycles;
    NothingLaid();
    CyclesGrow(m, g);
    if m == 0 {
      var t := Tag(false, Some(f), Some("a"), None);
      LayOne([], t);
      entries := [] + [EntryOf(t, 0.0)];
    } else {
      var t := Tag(false, Some(g), Some("b"), None);
      var before := Row(f, g, m - 1);
      LayOne(before, t);
      entries := before + [EntryOf(t, Sum(before))];
    }
  }

  lemma CyclesGrow(m: nat, g: real)
    ensures Cycles(0, g) == 0.0
    ensures m > 0 ==> Cycles(m, g) == Cycles(m - 1, g) + g
  {
  }

  /** In such a row the frame a is shown up to position f. */
  lemma RowShown(entries: seq<Entry>, f: real, x: real)
    requires Laid(entries) && entries != [] && Sum(entries) > 0.0 && entries[0] == Entry("a", "", f, 0.0, false)
    requires forall k :: 0 < k < |entries| ==> entries[k].from == "b" && !entries[k].isTransition
    ensures Shows(entries, x, "a") <==> CyclePosition(x, Sum(entries)) < f
  {
    hide Laid, Sum, CyclePosition;
    var k := CyclePositionIs(x, Sum(entries));
    var pos := CyclePosition(x, Sum(entries));
    OneSegment(entries, pos);
    if pos < f { assert Within(entries[0], pos); }
  }

  /** A first frame a little longer than a second, and a row of that total. */
  lemma RowOfTotal(total: real, rest: real) returns (entries: seq<Entry>, f: real)
    requires 1.0 < rest < total <= MAX_STEPS as real * MAX_DURATION && rest <= DAY
    ensures Holdable(entries, total) && entries != [] && entries[0] == Entry("a", "", f, 0.0, false)
    ensures forall k :: 0 < k < |entries| ==> entries[k].from == "b" && !entries[k].isTransition
    ensures 1.0 < f <= total + 1.0 - rest
  {
    hide Laid, Sum;
    if total <= MAX_DURATION {
      f := 1.0 + (total - rest) / 2.0;
      entries := Row(f, total - f, 1);
    } else {
      f := total / 64.0;
      entries := Row(f, f, 63);
    }
  }

  lemma BackOverStart(total: real, rest: real)
    requires total > 0.0 && rest == CyclePosition(DAY, total) && 1.0 < rest
    ensures CyclePosition(1.0 - DAY, total) == total + 1.0 - rest
  {
    hide CyclePosition, Cycles;
    var k := LeftOver(total);
    var p := total + 1.0 - rest;
    OneCycleLess(0, total);
    CyclesApart(0, total);
    CyclesDiffer(-1, k, total);
    CyclesDiffer(0, k, total);
    assert 1.0 - DAY - p == Cycles(-1 - k, total);
    SamePosition(1.0 - DAY, p, total);
    FrontPosition(p, total);
  }

  /** A manifest whose frame changes at midnight, ahead of time: the cycle starts one second
      before. */
  lemma Jumps(total: real) returns (entries: seq<Entry>)
    requires 0.0 < total <= MAX_STEPS as real * MAX_DURATION && CyclePosition(DAY, total) > 1.0
    ensures Holdable(entries, total) && !KeepsSeconds(entries, 86399, 86399, 1)
  {
    hide Laid, Sum, CyclePosition, TimeOfDay, Shows;
    var rest := CyclePosition(DAY, total);
    var k := LeftOver(total);
    var f;
    entries, f := RowOfTotal(total, rest);
    TimeOfDayIs(86399.0);
    OneMidnight();
    FrontPosition(0.0, total);
    BackOverStart(total, rest);
    RowShown(entries, f, 0.0);
    RowShown(entries, f, 1.0 - DAY);
    assert Within(entries[0], 0.0);
    assert NotYet(entries, 86399.0, 86399.0, 1.0);
    assert ShownAt(entries, 86399.0, 86399.0, "a") && !ShownAt(entries, 86399.0, 86400.0, "a");
  }

  /** All manifests of a total keep their frames until the announced change, by the program's
      clock, exactly when a day leaves over at most one second of the cycle. */
  lemma FramesKeptIff(total: real)
    requires 0.0 < total <= MAX_STEPS as real * MAX_DURATION
    ensures (forall entries, start: int, w: int, d: int ::
               Holdable(entries, total) ==> KeepsSeconds(entries, start, w, d))
       <==> CyclePosition(DAY, total) <= 1.0
  {
    hide Laid, Sum, KeepsSeconds, CyclePosition;
    if CyclePosition(DAY, total) <= 1.0 {
      forall entries, start: int, w: int, d: int | Holdable(entries, total)
        ensures KeepsSeconds(entries, start, w, d)
      {
        KeptBySlack(entries, start, w, d);
      }
    } else {
      var entries := Jumps(total);
    }
  }

  /** A day may leave over a second: a cycle one second shorter than a day keeps its frames. */
  lemma OneSecondShort()
    ensures CyclePosition(DAY, 86399.0) == 1.0 && !InCycles(DAY, 86399.0)
  {
    hide CyclePosition, Cycles;
    CyclesApart(1, 86399.0);
    assert Cycles(1, 86399.0) == 86399.0 by { OneCycle(86399.0); }
    assert DAY - 1.0 == Cycles(1, 86399.0);
    SamePosition(DAY, 1.0, 86399.0);
    FrontPosition(1.0, 86399.0);
    FrontPosition(0.0, 86399.0);
    SamePosition(DAY, 0.0, 86399.0);
  }

  lemma OneCycle(total: real)
    ensures Cycles(1, total) == total
  {
  }

  /** Two frames of 50000 seconds each: ten seconds before midnight the second is shown and
      13610 seconds are announced; ten seconds after midnight the first is shown. */
  lemma MidnightChangesFrame()
    ensures var es := Pair(50000.0, 50000.0);
      && Laid(es) && Sum(es) == 100000.0 && NotYet(es, 0.0, 86390.0, 20.0)
      && Remaining(es[1], 86390.0 - es[1].start) == 13610.0
      && ShownAt(es, 0.0, 86390.0, "b") && !ShownAt(es, 0.0, 86410.0, "b")
  {
    hide Laid, Sum, CyclePosition, Shows;
    var es := Pair(50000.0, 50000.0);
    PairLaid(50000.0, 50000.0);
    assert TimeOfDay(86390.0) == 86390.0 && TimeOfDay(86410.0) == 10.0;
    FrontPosition(86390.0, 100000.0);
    FrontPosition(10.0, 100000.0);
    assert Within(es[1], 86390.0);
    PairShown(es, 50000.0, 50000.0, 86390.0);
    PairShown(es, 50000.0, 50000.0, 10.0);
  }
}
