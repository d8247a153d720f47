/** Timed wallpapers: segments laid end to end by the manifest parser, and the frame that is
    shown at a point of their cycle.  Times are exact. */
module Schedule {
  import opened Options
  import opened RealArith

  const MAX_STEPS := 64
  const MAX_DURATION := 315360000.0

  /** One <static> or <transition> element: its duration, when that is a number, and its image
      paths, where they resolve.  A static frame has its file as from. */
  datatype Tag = Tag(isTransition: bool, duration: Option<real>, from: Option<string>, to: Option<string>)

  datatype Entry = Entry(from: string, to: string, duration: real, start: real, isTransition: bool)

  ghost predicate GoodTag(t: Tag) {
    && t.duration.Some? && 0.0 < t.duration.value <= MAX_DURATION
    && t.from.Some? && (t.isTransition ==> t.to.Some?)
  }

  function EntryOf(t: Tag, start: real): Entry
    requires t.duration.Some? && t.from.Some? && (t.isTransition ==> t.to.Some?)
  {
    Entry(t.from.value, if t.isTransition then t.to.value else "", t.duration.value, start, t.isTransition)
  }

  /** The total duration. */
  function Sum(entries: seq<Entry>): real {
    if entries == [] then 0.0 else Sum(entries[..|entries| - 1]) + entries[|entries| - 1].duration
  }

  /** Positive durations, and every segment starts where those before it end. */
  ghost predicate Laid(entries: seq<Entry>) {
    forall i :: 0 <= i < |entries| ==>
      && 0.0 < entries[i].duration <= MAX_DURATION
      && entries[i].start == Sum(entries[..i])
      && (!entries[i].isTransition ==> entries[i].to == "")
  }

  /** Each entry has the paths, the kind and the duration of its tag, and starts where the
      durations before it end. */
  ghost predicate MadeFrom(entries: seq<Entry>, tags: seq<Tag>) {
    |entries| == |tags| && MadeSoFar(entries, tags)
  }

  ghost predicate MadeSoFar(entries: seq<Entry>, tags: seq<Tag>) {
    && |entries| <= |tags|
    && forall i :: 0 <= i < |entries| ==>
         && tags[i].from == Some(entries[i].from) && tags[i].duration == Some(entries[i].duration)
         && entries[i].isTransition == tags[i].isTransition
         && (if tags[i].isTransition then tags[i].to == Some(entries[i].to) else entries[i].to == "")
         && entries[i].start == TagTime(tags, i)
  }

  /** The durations of the first n tags. */
  function TagTime(tags: seq<Tag>, n: nat): real
    requires n <= |tags|
  {
    if n == 0 then 0.0
    else TagTime(tags, n - 1) + if tags[n - 1].duration.Some? then tags[n - 1].duration.value else 0.0
  }

  class Manifest {
    const entries: array<Entry>
    var entryCount: nat
    var total: real

    ghost predicate Sized() {
      entries.Length == MAX_STEPS
    }

    /** What a successful parse leaves. */
    ghost predicate Valid()
      reads this, entries
    {
      && Sized() && 0 < entryCount <= MAX_STEPS
      && Laid(entries[..entryCount]) && total == Sum(entries[..entryCount]) && total > 0.0
    }

    constructor ()
      ensures Sized() && fresh(entries) && entryCount == 0
    {
      entries := new Entry[MAX_STEPS](_ => Entry("", "", 0.0, 0.0, false));
      entryCount := 0;
      total := 0.0;
    }

    /** The segment loop of the parser: it succeeds on one to 64 good elements and lays them
        end to end. */
    method Build(tags: seq<Tag>) returns (ok: bool)
      requires Sized() && entryCount == 0
      modifies this, entries
      ensures ok <==> 0 < |tags| <= MAX_STEPS && forall i :: 0 <= i < |tags| ==> GoodTag(tags[i])
      ensures ok ==> Valid() && entryCount == |tags|
      ensures ok ==> MadeFrom(entries[..entryCount], tags)
    {
      hide Sum, Laid, EntryOf, TagTime, MadeSoFar;
      var cumulative := 0.0;
      NothingLaid();
      NothingMade(tags);
      for k := 0 to |tags|
        invariant entryCount == k <= MAX_STEPS && Sized()
        invariant forall i :: 0 <= i < k ==> GoodTag(tags[i])
        invariant Laid(entries[..k]) && cumulative == Sum(entries[..k]) <= k as real * MAX_DURATION
        invariant cumulative == TagTime(tags, k) && MadeSoFar(entries[..k], tags)
      {
        if entryCount >= MAX_STEPS {
          return false;
        }
        var t := tags[k];
        if t.duration.None? {
          return false;
        }
        var dur := t.duration.value;
        if dur <= 0.0 || dur > MAX_DURATION || cumulative + dur > MAX_DURATION * (MAX_STEPS as real) {
          return false;
        }
        if t.from.None? || (t.isTransition && t.to.None?) {
          return false;
        }
        ghost var before := entries[..k];
        LayOne(before, t);
        OneMoreMade(before, tags);
        entries[entryCount] := EntryOf(t, cumulative);
        assert entries[..k + 1] == before + [EntryOf(t, cumulative)];
        cumulative := cumulative + dur;
        entryCount := entryCount + 1;
      }
      if entryCount > 0 {
        SomeTime(entries[..entryCount]);
      }
      if entryCount == 0 || cumulative <= 0.0 {
        return false;
      }
      total := cumulative;
      return true;
    }
  }

  lemma NothingMade(tags: seq<Tag>)
    ensures MadeSoFar([], tags) && TagTime(tags, 0) == 0.0
  {
  }

  lemma OneMoreMade(entries: seq<Entry>, tags: seq<Tag>)
    requires MadeSoFar(entries, tags) && |entries| < |tags| && GoodTag(tags[|entries|])
    ensures var k := |entries|;
      && MadeSoFar(entries + [EntryOf(tags[k], TagTime(tags, k))], tags)
      && TagTime(tags, k + 1) == TagTime(tags, k) + tags[k].duration.value
  {
    hide TagTime;
    TagTimeStep(tags, |entries|);
  }

  lemma TagTimeStep(tags: seq<Tag>, k: nat)
    requires k < |tags| && tags[k].duration.Some?
    ensures TagTime(tags, k + 1) == TagTime(tags, k) + tags[k].duration.value
  {
  }

  lemma NothingLaid()
    ensures Sum([]) == 0.0 && Laid([])
  {
  }

  lemma LayOne(before: seq<Entry>, t: Tag)
    requires Laid(before) && GoodTag(t)
    ensures Laid(before + [EntryOf(t, Sum(before))])
    ensures Sum(before + [EntryOf(t, Sum(before))]) == Sum(before) + t.duration.value
  {
    var after := before + [EntryOf(t, Sum(before))];
    assert after[..|before|] == before;
    forall i | 0 <= i < |after| ensures after[..i] == before[..i] {
    }
  }

  lemma {:induction false} SomeTime(entries: seq<Entry>)
    requires Laid(entries) && entries != []
    ensures Sum(entries) > 0.0
  {
    var m := |entries| - 1;
    PrefixMonotone(entries, 0, m);
    assert entries[..m + 1] == entries;
  }

  // ----- Position in the cycle -----

  /** The duration of n cycles. */
  function Cycles(n: int, total: real): real {
    (n as real) * total
  }

  // The C library's remainder: with the sign of x, and nearer to zero than y.
  function Fmod(x: real, y: real): real
    requires y > 0.0
  {
    x - (Truncate(x / y) as real) * y
  }

  function CyclePosition(x: real, total: real): real
    requires total > 0.0
  {
    var pos := Fmod(x, total);
    var pos := if pos < 0.0 then pos + total else pos;
    if pos < 0.0 || pos >= total then 0.0 else pos
  }

  /** The position lies in the cycle, a whole number of cycles away from x. */
  lemma CyclePositionIs(x: real, total: real) returns (k: int)
    requires total > 0.0
    ensures 0.0 <= CyclePosition(x, total) < total
    ensures x == CyclePosition(x, total) + Cycles(k, total)
  {
    hide Fmod, Cycles;
    FmodIs(x, total);
    var t := Truncate(x / total);
    k := if Fmod(x, total) < 0.0 then t - 1 else t;
    OneCycleLess(t, total);
  }

  lemma FmodIs(x: real, total: real)
    requires total > 0.0
    ensures -total < Fmod(x, total) < total
    ensures x == Fmod(x, total) + Cycles(Truncate(x / total), total)
  {
    hide Truncate;
    DivideBack(x, total);
    Fractional(x / total);
    NearMultiple(x, x / total, Truncate(x / total) as real, total);
  }

  lemma NearMultiple(x: real, q: real, t: real, total: real)
    requires total > 0.0 && x == q * total && -1.0 < q - t < 1.0
    ensures -total < x - t * total < total
  {
    BelowMultiple(x, q, t, total);
    AboveMultiple(x, q, t, total);
  }

  lemma BelowMultiple(x: real, q: real, t: real, total: real)
    requires total > 0.0 && x == q * total && q - t < 1.0
    ensures x - t * total < total
  {
    NearBy(q, t, t + 1.0, total);
  }

  lemma AboveMultiple(x: real, q: real, t: real, total: real)
    requires total > 0.0 && x == q * total && t - q < 1.0
    ensures -total < x - t * total
  {
    NearBy(t, q, q + 1.0, total);
  }

  lemma NearBy(q: real, t: real, u: real, total: real)
    requires total > 0.0 && q < u && u == t + 1.0
    ensures q * total - t * total < total
  {
    LessTimes(q, u, total);
    Distribute(t, 1.0, total);
  }

  lemma Fractional(q: real)
    ensures -1.0 < q - Truncate(q) as real < 1.0
  {
  }

  lemma OneCycleLess(t: int, total: real)
    ensures Cycles(t - 1, total) == Cycles(t, total) - total
  {
    assert (t - 1) as real == t as real - 1.0;
  }

  /** The clock moves the position on as long as the cycle does not end. */
  lemma CycleMovesOn(x: real, d: real, total: real)
    requires total > 0.0 && d >= 0.0 && CyclePosition(x, total) + d < total
    ensures CyclePosition(x + d, total) == CyclePosition(x, total) + d
  {
    hide CyclePosition, Cycles;
    var j := CyclePositionIs(x, total);
    var k := CyclePositionIs(x + d, total);
    var p, q := CyclePosition(x, total) + d, CyclePosition(x + d, total);
    CyclesDiffer(j, k, total);
    assert q - p == Cycles(j - k, total);
    WholeCycles(j - k, total, q - p);
  }

  lemma WholeCycles(n: int, total: real, diff: real)
    requires total > 0.0 && -total < diff < total && diff == Cycles(n, total)
    ensures n == 0 && diff == 0.0
  {
    hide Cycles;
    CyclesApart(n, total);
  }

  lemma CyclesDiffer(j: int, k: int, total: real)
    ensures Cycles(j, total) - Cycles(k, total) == Cycles(j - k, total)
  {
    assert (j - k) as real == j as real - k as real;
  }

  lemma CyclesApart(n: int, total: real)
    requires total > 0.0
    ensures n >= 1 ==> Cycles(n, total) >= total
    ensures n <= -1 ==> Cycles(n, total) <= -total
    ensures n == 0 ==> Cycles(n, total) == 0.0
  {
    if n >= 1 {
      LeTimes(1.0, n as real, total);
    } else if n <= -1 {
      LeTimes(n as real, -1.0, total);
    }
  }

  // ----- The segment at a position -----

  ghost predicate Within(e: Entry, pos: real) {
    e.start <= pos < e.start + e.duration
  }

  lemma {:induction false} PrefixMonotone(entries: seq<Entry>, i: nat, j: nat)
    requires Laid(entries) && i <= j < |entries|
    ensures Sum(entries[..i]) <= Sum(entries[..j]) < Sum(entries[..j + 1])
    decreases j
  {
    assert entries[..j + 1][..j] == entries[..j];
    assert entries[j].duration > 0.0;
    if i < j {
      PrefixMonotone(entries, i, j - 1);
    }
  }

  /** Every position of the cycle lies in exactly one segment. */
  lemma {:induction false} OneSegment(entries: seq<Entry>, pos: real)
    requires Laid(entries) && 0.0 <= pos < Sum(entries)
    ensures exists i :: 0 <= i < |entries| && Within(entries[i], pos)
    ensures forall i, j | 0 <= i < |entries| && 0 <= j < |entries| ::
              Within(entries[i], pos) && Within(entries[j], pos) ==> i == j
  {
    assert entries[..|entries|] == entries;
    SegmentAt(entries, |entries|, pos);
    forall i, j | 0 <= i < |entries| && 0 <= j < |entries| && Within(entries[i], pos) && Within(entries[j], pos)
      ensures i == j
    {
      if i < j {
        PrefixMonotone(entries, i + 1, j);
        SumStep(entries, i);
      } else if j < i {
        PrefixMonotone(entries, j + 1, i);
        SumStep(entries, j);
      }
    }
  }

  lemma SumStep(entries: seq<Entry>, i: nat)
    requires i < |entries|
    ensures Sum(entries[..i + 1]) == Sum(entries[..i]) + entries[i].duration
  {
    assert entries[..i + 1][..i] == entries[..i];
  }

  lemma {:induction false} SegmentAt(entries: seq<Entry>, n: nat, pos: real)
    requires Laid(entries) && n <= |entries| && 0.0 <= pos < Sum(entries[..n])
    ensures exists i :: 0 <= i < n && Within(entries[i], pos)
    decreases n
  {
    if n > 0 {
      SumStep(entries, n - 1);
      if pos < Sum(entries[..n - 1]) {
        SegmentAt(entries, n - 1, pos);
        var i :| 0 <= i < n - 1 && Within(entries[i], pos);
        assert Within(entries[i], pos);
      } else {
        assert Within(entries[n - 1], pos);
      }
    }
  }

  // ----- Resolution -----

  datatype Resolved = Resolved(primary: string, secondary: string, isTransition: bool, blend: real,
                               nextChange: int, activeIndex: nat)

  function Ceil(x: real): int {
    -((-x).Floor)
  }

  function ClampUnit(x: real): real {
    if x < 0.0 then 0.0 else if x > 1.0 then 1.0 else x
  }

  /** The image that counts as shown. */
  function EffectivePath(r: Resolved): string {
    if r.isTransition && r.blend >= 0.5 && r.secondary != "" then r.secondary else r.primary
  }

  /** The image a segment shows at a point into it: a transition changes over at its middle. */
  ghost function ShownIn(e: Entry, into: real): string {
    if e.isTransition && e.to != "" && into >= 0.5 * e.duration then e.to else e.from
  }

  /** The time until the image shown may change: to the middle of a transition, or to the end
      of the segment. */
  ghost function Remaining(e: Entry, into: real): real {
    if e.isTransition && e.to != "" && into < 0.5 * e.duration then 0.5 * e.duration - into else e.duration - into
  }

  /** The image shown x seconds after the start of the schedule. */
  ghost predicate Shows(entries: seq<Entry>, x: real, path: string)
    requires Sum(entries) > 0.0
  {
    var pos := CyclePosition(x, Sum(entries));
    exists i :: 0 <= i < |entries| && Within(entries[i], pos) && path == ShownIn(entries[i], pos - entries[i].start)
  }

  /** The frame at a time of day, and when to look again. */
  method Resolve(m: Manifest, nowTod: real, startTod: real) returns (r: Option<Resolved>)
    requires m.Valid()
    ensures r.Some?
    ensures var es, pos := m.entries[..m.entryCount], CyclePosition(nowTod - startTod, m.total);
      var i := r.value.activeIndex;
      && i < |es| && Within(es[i], pos)
      && EffectivePath(r.value) == ShownIn(es[i], pos - es[i].start)
      && Remaining(es[i], pos - es[i].start) <= r.value.nextChange as real < Remaining(es[i], pos - es[i].start) + 1.0
      && 1 <= r.value.nextChange
      && r.value.primary == es[i].from && r.value.isTransition == (es[i].isTransition && es[i].to != "")
      && (r.value.isTransition ==> r.value.secondary == es[i].to && r.value.blend * es[i].duration == pos - es[i].start)
      && (!r.value.isTransition ==> r.value.secondary == "" && r.value.blend == 0.0)
    ensures Shows(m.entries[..m.entryCount], nowTod - startTod, EffectivePath(r.value))
  {
    hide Laid, Sum, CyclePosition, Remaining, ShownIn, EffectivePath, Describe;
    ghost var es := m.entries[..m.entryCount];
    SomeTime(es);
    if m.total <= 0.0 {
      return None;
    }
    var pos := CyclePosition(nowTod - startTod, m.total);
    ghost var k := CyclePositionIs(nowTod - startTod, m.total);
    OneSegment(es, pos);
    var chosen := m.entryCount - 1;
    for i := 0 to m.entryCount
      invariant chosen == m.entryCount - 1
      invariant forall j :: 0 <= j < i ==> !Within(es[j], pos)
    {
      if pos >= m.entries[i].start && pos < m.entries[i].start + m.entries[i].duration {
        chosen := i;
        break;
      }
    }
    LaidEntry(es, chosen);
    r := Some(Describe(m.entries[chosen], chosen, pos));
  }

  lemma LaidEntry(entries: seq<Entry>, i: nat)
    requires Laid(entries) && i < |entries|
    ensures 0.0 < entries[i].duration <= MAX_DURATION
  {
    hide Sum;
  }

  /** The description of the chosen segment, with the wake-up time rounded up to whole seconds. */
  function Describe(active: Entry, chosen: nat, pos: real): (r: Resolved)
    requires 0.0 < active.duration <= MAX_DURATION && Within(active, pos)
    ensures r.activeIndex == chosen && 1 <= r.nextChange
    ensures r.primary == active.from && r.isTransition == (active.isTransition && active.to != "")
    ensures r.isTransition ==> r.secondary == active.to && r.blend * active.duration == pos - active.start
    ensures !r.isTransition ==> r.secondary == "" && r.blend == 0.0
    ensures EffectivePath(r) == ShownIn(active, pos - active.start)
    ensures Remaining(active, pos - active.start) <= r.nextChange as real < Remaining(active, pos - active.start) + 1.0
  {
    var into := if pos - active.start < 0.0 then 0.0 else pos - active.start;
    if active.isTransition && active.to != "" && active.duration > 0.0 then
      Resolved(active.from, active.to, true, Blend(into, active.duration), WakeUp(active, into), chosen)
    else
      Resolved(active.from, "", false, 0.0, WakeUp(active, into), chosen)
  }

  function Blend(into: real, duration: real): (b: real)
    requires 0.0 <= into < duration
    ensures b >= 0.5 <==> into >= 0.5 * duration
    ensures b * duration == into
  {
    HalfWay(into, duration);
    NoClamp(into, duration);
    ClampUnit(into / duration)
  }

  function WakeUp(active: Entry, into: real): (n: int)
    requires 0.0 <= into < active.duration <= MAX_DURATION
    ensures 1 <= n && Remaining(active, into) <= n as real < Remaining(active, into) + 1.0
  {
    var rem := active.duration - into;
    var rem := if active.isTransition && active.to != "" && active.duration > 0.0 && into < 0.5 * active.duration
               then 0.5 * active.duration - into else rem;
    var rem := if rem < 1.0 then 1.0 else rem;
    var rem := if rem > MAX_DURATION then MAX_DURATION else rem;
    Ceil(rem)
  }

  lemma HalfWay(into: real, duration: real)
    requires duration > 0.0
    ensures ClampUnit(into / duration) >= 0.5 <==> into >= 0.5 * duration
  {
    DivideBack(into, duration);
    HalfBy(into / duration, into, duration);
  }

  lemma NoClamp(into: real, duration: real)
    requires 0.0 <= into < duration
    ensures ClampUnit(into / duration) * duration == into
  {
    DivideBack(into, duration);
    NoClampBy(into / duration, into, duration);
  }

  lemma NoClampBy(q: real, into: real, duration: real)
    requires 0.0 <= into < duration && into == q * duration
    ensures 0.0 <= q <= 1.0
  {
    if q < 0.0 {
      LessTimes(q, 0.0, duration);
    } else if q > 1.0 {
      LessTimes(1.0, q, duration);
    }
  }

  lemma HalfBy(q: real, into: real, duration: real)
    requires duration > 0.0 && into == q * duration
    ensures q >= 0.5 <==> into >= 0.5 * duration
  {
    if q >= 0.5 {
      LeTimes(0.5, q, duration);
    } else {
      LessTimes(q, 0.5, duration);
    }
  }

  /** The image shown stays the same until the remaining time has run down, as long as time
      itself runs on. */
  lemma ConstantUntilChange(entries: seq<Entry>, x: real, d: real, i: nat)
    requires Laid(entries) && i < |entries| && Sum(entries) > 0.0
    requires Within(entries[i], CyclePosition(x, Sum(entries)))
    requires 0.0 <= d < Remaining(entries[i], CyclePosition(x, Sum(entries)) - entries[i].start)
    ensures CyclePosition(x + d, Sum(entries)) == CyclePosition(x, Sum(entries)) + d
    ensures forall path :: Shows(entries, x + d, path) <==> Shows(entries, x, path)
    ensures Shows(entries, x, ShownIn(entries[i], CyclePosition(x, Sum(entries)) - entries[i].start))
  {
    hide Sum, CyclePosition, Laid;
    var total := Sum(entries);
    var pos := CyclePosition(x, total);
    SegmentEnds(entries, i);
    CycleMovesOn(x, d, total);
    assert Within(entries[i], pos + d);
    var k := CyclePositionIs(x, total);
    OneSegment(entries, pos);
    OneSegment(entries, pos + d);
    assert ShownIn(entries[i], pos + d - entries[i].start) == ShownIn(entries[i], pos - entries[i].start);
  }

  lemma SegmentEnds(entries: seq<Entry>, i: nat)
    requires Laid(entries) && i < |entries|
    ensures 0.0 <= entries[i].start && entries[i].start + entries[i].duration <= Sum(entries)
  {
    hide Sum;
    NothingLaid();
    assert entries[..0] == [];
    SumStep(entries, i);
    PrefixMonotone(entries, 0, i);
    assert entries[..|entries|] == entries;
    if i + 1 < |entries| {
      PrefixMonotone(entries, i + 1, |entries| - 1);
    }
  }

  // ----- What the tags say -----

  /** The frame of a tag at a point into it: a transition to an image changes over at its middle. */
  ghost function TagFrame(t: Tag, into: real): string
    requires t.from.Some? && t.duration.Some?
  {
    if t.isTransition && t.to.Some? && t.to.value != "" && into + into >= t.duration.value then t.to.value
    else t.from.value
  }

  /** The frame at a position, by the tags alone. */
  ghost predicate TagsShow(tags: seq<Tag>, pos: real, path: string) {
    exists i :: 0 <= i < |tags| && GoodTag(tags[i]) && TagTime(tags, i) <= pos < TagTime(tags, i + 1)
                && path == TagFrame(tags[i], pos - TagTime(tags, i))
  }

  lemma {:induction false} TotalOfTags(entries: seq<Entry>, tags: seq<Tag>, n: nat)
    requires MadeFrom(entries, tags) && n <= |tags|
    ensures Sum(entries[..n]) == TagTime(tags, n)
  {
    hide Sum, TagTime;
    if n == 0 {
      NothingTotal(entries, tags);
    } else {
      TotalOfTags(entries, tags, n - 1);
      SumStep(entries, n - 1);
      TagTimeIs(entries, tags, n - 1);
    }
  }

  lemma NothingTotal(entries: seq<Entry>, tags: seq<Tag>)
    ensures Sum(entries[..0]) == TagTime(tags, 0)
  {
  }

  lemma TagTimeIs(entries: seq<Entry>, tags: seq<Tag>, n: nat)
    requires MadeFrom(entries, tags) && n < |tags|
    ensures TagTime(tags, n + 1) == TagTime(tags, n) + entries[n].duration
  {
  }

  lemma SegmentOfTag(entries: seq<Entry>, tags: seq<Tag>, i: nat, pos: real)
    requires MadeFrom(entries, tags) && i < |tags| && forall i :: 0 <= i < |tags| ==> GoodTag(tags[i])
    ensures Within(entries[i], pos) <==> TagTime(tags, i) <= pos < TagTime(tags, i + 1)
    ensures ShownIn(entries[i], pos - entries[i].start) == TagFrame(tags[i], pos - TagTime(tags, i))
  {
  }

  /** On a manifest built from tags, the frame shown is the one the tags say. */
  lemma ShowsTags(entries: seq<Entry>, tags: seq<Tag>, x: real, path: string)
    requires MadeFrom(entries, tags) && Sum(entries) > 0.0 && forall i :: 0 <= i < |tags| ==> GoodTag(tags[i])
    ensures Sum(entries) == TagTime(tags, |tags|)
    ensures Shows(entries, x, path) <==> TagsShow(tags, CyclePosition(x, TagTime(tags, |tags|)), path)
  {
    hide Sum, CyclePosition, TagTime, Within, ShownIn, TagFrame, GoodTag;
    TotalOfTags(entries, tags, |tags|);
    assert entries[..|tags|] == entries;
    var pos := CyclePosition(x, Sum(entries));
    forall i: nat | i < |tags|
      ensures Within(entries[i], pos) <==> TagTime(tags, i) <= pos < TagTime(tags, i + 1)
      ensures ShownIn(entries[i], pos - entries[i].start) == TagFrame(tags[i], pos - TagTime(tags, i))
    {
      SegmentOfTag(entries, tags, i, pos);
    }
  }
}
