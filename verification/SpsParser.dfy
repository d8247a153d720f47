/** The walk over a sequence parameter set (ITU-T H.264, 7.3.2.1.1) up to its number of
    reference frames. */
module SpsParser {
  import opened Bits
  import opened Options
  import opened RbspBits
  import opened SpsReader

  // ----- Syntax -----

  /** The syntax elements that only some profiles carry. */
  datatype High = High(chroma: nat, separate: bool, depthLuma: nat, depthChroma: nat, bypass: bool,
                       matrix: Option<seq<Option<seq<int>>>>)

  datatype Poc =
    | Poc0(log2MaxLsb: nat)
    | Poc1(alwaysZero: bool, nonRef: int, topToBottom: int, cycle: seq<int>)
    | Poc2

  datatype Sps = Sps(profile: byte, constraints: byte, level: byte, id: nat, high: High, log2MaxFrameNum: nat,
                     poc: Poc, maxRefFrames: nat)

  /** The profiles that carry the elements of High. */
  predicate HighProfile(p: nat) {
    p in {100, 110, 122, 244, 44, 83, 86, 118, 128, 138, 139, 134, 135}
  }

  /** The profiles the program takes to carry them. */
  predicate KnownHigh(p: nat) {
    || p == 100 || p == 110 || p == 122 || p == 244 || p == 44 || p == 83 || p == 86 || p == 118
    || p == 128 || p == 138 || p == 139 || p == 134
  }

  ghost predicate UeRange(v: nat) { v <= UE_MAX }

  ghost predicate SeRange(x: int) { -SE_MAX <= x <= SE_MAX }

  function ListCount(chroma: int): nat { if chroma != 3 then 8 else 12 }

  function ListSize(j: nat): nat { if j < 6 then 16 else 64 }

  // Remainder as the program's language takes it: with the sign of the dividend.
  function Rem256(x: int): int {
    if x >= 0 then x % 256 else -((-x) % 256)
  }

  function NextScale(last: int, delta: int): int {
    Rem256(last + delta + 256)
  }

  /** The deltas of one scaling list: one per coefficient until a scale becomes zero. */
  function ScalingBits(deltas: seq<int>, j: nat, last: int, next: int): seq<bool>
    decreases |deltas| - j
  {
    if j >= |deltas| then []
    else if next == 0 then ScalingBits(deltas, j + 1, last, next)
    else
      var scale := NextScale(last, deltas[j]);
      Se(deltas[j]) + ScalingBits(deltas, j + 1, if scale == 0 then last else scale, scale)
  }

  function ListBits(lists: seq<Option<seq<int>>>): seq<bool> {
    if lists == [] then []
    else (if lists[0].None? then [false] else [true] + ScalingBits(lists[0].value, 0, 8, 8)) + ListBits(lists[1..])
  }

  function HighBits(h: High): seq<bool> {
    Ue(h.chroma) + ((if h.chroma == 3 then [h.separate] else []) +
        (Ue(h.depthLuma) + (Ue(h.depthChroma) + FlagBits(h))))
  }

  function FlagBits(h: High): seq<bool> {
    [h.bypass] + if h.matrix.None? then [false] else [true] + ListBits(h.matrix.value)
  }

  function SeBits(xs: seq<int>): seq<bool> {
    if xs == [] then [] else Se(xs[0]) + SeBits(xs[1..])
  }

  function PocBits(p: Poc): seq<bool> {
    match p
    case Poc0(n) => Ue(0) + Ue(n)
    case Poc1(zero, nonRef, top, cycle) => Ue(1) + [zero] + Se(nonRef) + Se(top) + Ue(|cycle|) + SeBits(cycle)
    case Poc2 => Ue(2)
  }

  /** The serialised parameter set up to and with the number of reference frames. */
  function SpsBits(s: Sps): seq<bool> {
    MsbOf(s.profile, 8) + (MsbOf(s.constraints, 8) + (MsbOf(s.level, 8) + (Ue(s.id)
    + ((if HighProfile(s.profile) then HighBits(s.high) else [])
    + (Ue(s.log2MaxFrameNum) + (PocBits(s.poc) + Ue(s.maxRefFrames)))))))
  }

  /** Every element lies in its range, and the lists have their sizes. */
  ghost predicate WellFormed(s: Sps) {
    && UeRange(s.id) && UeRange(s.log2MaxFrameNum) && UeRange(s.maxRefFrames)
    && (HighProfile(s.profile) ==> GoodHigh(s.high))
    && GoodPoc(s.poc)
  }

  ghost predicate GoodPoc(p: Poc) {
    match p
    case Poc0(n) => UeRange(n)
    case Poc1(_, nonRef, top, cycle) =>
      SeRange(nonRef) && SeRange(top) && |cycle| <= 255 && forall i :: 0 <= i < |cycle| ==> SeRange(cycle[i])
    case Poc2 => true
  }

  ghost predicate GoodHigh(h: High) {
    && UeRange(h.chroma) && UeRange(h.depthLuma) && UeRange(h.depthChroma)
    && (h.matrix.Some? ==> |h.matrix.value| == ListCount(h.chroma) && GoodLists(h.matrix.value, 0))
  }

  ghost predicate GoodLists(lists: seq<Option<seq<int>>>, j: nat) {
    forall i :: 0 <= i < |lists| && lists[i].Some? ==>
      |lists[i].value| == ListSize(j + i) && forall k :: 0 <= k < |lists[i].value| ==> SeRange(lists[i].value[k])
  }

  // ----- The walk, on a bit string -----

  function SkipScaling(bits: seq<bool>, j: nat, size: nat, last: int, next: int): seq<bool>
    decreases size - j
  {
    if j >= size then bits
    else if next == 0 then SkipScaling(bits, j + 1, size, last, next)
    else
      var d := GetSe(bits);
      var scale := NextScale(last, d.v);
      SkipScaling(d.rest, j + 1, size, if scale == 0 then last else scale, scale)
  }

  function SkipLists(bits: seq<bool>, j: nat, count: nat): seq<bool>
    decreases count - j
  {
    if j >= count then bits
    else
      var flag := GetBit(bits);
      SkipLists(if flag.v == 0 then flag.rest else SkipScaling(flag.rest, 0, ListSize(j), 8, 8), j + 1, count)
  }

  function SkipHigh(bits: seq<bool>): seq<bool> {
    var chroma := GetUe(bits);
    var b := if chroma.v == 3 then GetBit(chroma.rest).rest else chroma.rest;
    SkipFlags(GetUe(GetUe(b).rest).rest, chroma.v)
  }

  function SkipFlags(bits: seq<bool>, chroma: int): seq<bool> {
    var matrix := GetBit(GetBit(bits).rest);
    if matrix.v == 0 then matrix.rest else SkipLists(matrix.rest, 0, ListCount(chroma))
  }

  function SkipSe(bits: seq<bool>, n: nat): seq<bool>
    decreases n
  {
    if n == 0 then bits else SkipSe(GetSe(bits).rest, n - 1)
  }

  function SkipPoc(bits: seq<bool>): seq<bool> {
    var t := GetUe(bits);
    if t.v == 0 then GetUe(t.rest).rest
    else if t.v == 1 then
      var n := GetUe(GetSe(GetSe(GetBit(t.rest).rest).rest).rest);
      SkipSe(n.rest, if n.v < 256 then n.v else 256)
    else t.rest
  }

  function ParseSps(bits: seq<bool>): int {
    var profile := GetBits(bits, 8);
    var id := GetUe(GetBits(GetBits(profile.rest, 8).rest, 8).rest);
    var b := if KnownHigh(profile.v) then SkipHigh(id.rest) else id.rest;
    GetUe(SkipPoc(GetUe(b).rest)).v
  }

  // ----- The walk undoes the serialisation -----

  lemma {:induction false} SkipScalingBits(deltas: seq<int>, j: nat, last: int, next: int, rest: seq<bool>)
    requires j <= |deltas| && forall k :: 0 <= k < |deltas| ==> SeRange(deltas[k])
    ensures SkipScaling(ScalingBits(deltas, j, last, next) + rest, j, |deltas|, last, next) == rest
    decreases |deltas| - j
  {
    hide GetSe, Se, NextScale;
    if j == |deltas| {
      assert ScalingBits(deltas, j, last, next) + rest == rest;
    } else if next == 0 {
      SkipScalingBits(deltas, j + 1, last, next, rest);
    } else {
      var scale := NextScale(last, deltas[j]);
      var last' := if scale == 0 then last else scale;
      var tail := ScalingBits(deltas, j + 1, last', scale);
      assert ScalingBits(deltas, j, last, next) + rest == Se(deltas[j]) + (tail + rest);
      GetSeSe(deltas[j], tail + rest);
      SkipScalingBits(deltas, j + 1, last', scale, rest);
    }
  }

  lemma GoodTail(lists: seq<Option<seq<int>>>, j: nat)
    requires GoodLists(lists, j) && lists != []
    ensures GoodLists(lists[1..], j + 1)
    ensures lists[0].Some? ==>
              |lists[0].value| == ListSize(j) && forall k :: 0 <= k < |lists[0].value| ==> SeRange(lists[0].value[k])
  {
    forall i | 0 <= i < |lists[1..]| ensures lists[1..][i] == lists[i + 1] {
    }
  }

  lemma {:induction false} SkipListBits(lists: seq<Option<seq<int>>>, j: nat, rest: seq<bool>)
    requires GoodLists(lists, j)
    ensures SkipLists(ListBits(lists) + rest, j, j + |lists|) == rest
    decreases |lists|
  {
    hide SkipScaling, ScalingBits, GoodLists;
    if lists == [] {
      assert ListBits(lists) + rest == rest;
    } else {
      var tail := ListBits(lists[1..]) + rest;
      GoodTail(lists, j);
      if lists[0].None? {
        assert ListBits(lists) + rest == [false] + tail;
      } else {
        var body := ScalingBits(lists[0].value, 0, 8, 8);
        assert ListBits(lists) + rest == [true] + (body + tail);
        SkipScalingBits(lists[0].value, 0, 8, 8, tail);
      }
      SkipListBits(lists[1..], j + 1, rest);
    }
  }

  lemma SkipHighBits(h: High, rest: seq<bool>)
    requires GoodHigh(h)
    ensures SkipHigh(HighBits(h) + rest) == rest
  {
    hide GetUe, Ue, SkipFlags, FlagBits, GoodLists;
    var flags := FlagBits(h) + rest;
    var depths := Ue(h.depthLuma) + (Ue(h.depthChroma) + flags);
    var plane := if h.chroma == 3 then [h.separate] else [];
    Reassociate(Ue(h.chroma), plane, Ue(h.depthLuma), Ue(h.depthChroma), FlagBits(h), rest);
    GetUeUe(h.chroma, plane + depths);
    assert (plane + depths)[|plane|..] == depths;
    GetUeUe(h.depthLuma, Ue(h.depthChroma) + flags);
    GetUeUe(h.depthChroma, flags);
    SkipFlagBits(h, rest);
  }

  lemma Reassociate(a: seq<bool>, b: seq<bool>, c: seq<bool>, d: seq<bool>, e: seq<bool>, rest: seq<bool>)
    ensures a + (b + (c + (d + e))) + rest == a + (b + (c + (d + (e + rest))))
  {
    assert d + e + rest == d + (e + rest);
    assert c + (d + e) + rest == c + (d + (e + rest));
    assert b + (c + (d + e)) + rest == b + (c + (d + (e + rest)));
  }

  lemma SkipFlagBits(h: High, rest: seq<bool>)
    requires h.matrix.Some? ==> |h.matrix.value| == ListCount(h.chroma) && GoodLists(h.matrix.value, 0)
    ensures SkipFlags(FlagBits(h) + rest, h.chroma) == rest
  {
    hide SkipLists, ListBits, GoodLists;
    var flags := FlagBits(h) + rest;
    if h.matrix.None? {
      assert flags[2..] == rest;
    } else {
      assert flags[2..] == ListBits(h.matrix.value) + rest;
      SkipListBits(h.matrix.value, 0, rest);
    }
  }

  lemma {:induction false} SkipSeBits(xs: seq<int>, rest: seq<bool>)
    requires forall i :: 0 <= i < |xs| ==> SeRange(xs[i])
    ensures SkipSe(SeBits(xs) + rest, |xs|) == rest
    decreases |xs|
  {
    hide GetSe, Se;
    if xs == [] {
      assert SeBits(xs) + rest == rest;
    } else {
      assert SeBits(xs) + rest == Se(xs[0]) + (SeBits(xs[1..]) + rest);
      GetSeSe(xs[0], SeBits(xs[1..]) + rest);
      SkipSeBits(xs[1..], rest);
    }
  }

  lemma SkipPocBits(p: Poc, rest: seq<bool>)
    requires GoodPoc(p)
    ensures SkipPoc(PocBits(p) + rest) == rest
  {
    hide GetUe, Ue, GetSe, Se, SkipSe, SeBits;
    match p {
      case Poc0(n) =>
        assert PocBits(p) + rest == Ue(0) + (Ue(n) + rest);
        GetUeUe(0, Ue(n) + rest);
        GetUeUe(n, rest);
      case Poc1(zero, nonRef, top, cycle) =>
        var tail := Ue(|cycle|) + (SeBits(cycle) + rest);
        assert PocBits(p) + rest == Ue(1) + ([zero] + (Se(nonRef) + (Se(top) + tail)));
        GetUeUe(1, [zero] + (Se(nonRef) + (Se(top) + tail)));
        assert ([zero] + (Se(nonRef) + (Se(top) + tail)))[1..] == Se(nonRef) + (Se(top) + tail);
        GetSeSe(nonRef, Se(top) + tail);
        GetSeSe(top, tail);
        GetUeUe(|cycle|, SeBits(cycle) + rest);
        SkipSeBits(cycle, rest);
      case Poc2 =>
        GetUeUe(2, rest);
    }
  }

  /** The walk finds the number of reference frames of every well-formed parameter set whose
      profile it knows, whatever follows. */
  lemma ParseSpsBits(s: Sps, rest: seq<bool>)
    requires WellFormed(s) && s.profile != 135
    ensures ParseSps(SpsBits(s) + rest) == s.maxRefFrames
  {
    hide GetUe, Ue, GetBits, MsbOf, SkipHigh, HighBits, SkipPoc, PocBits, GoodHigh;
    var r5 := Ue(s.maxRefFrames) + rest;
    var r4 := PocBits(s.poc) + r5;
    var r3 := Ue(s.log2MaxFrameNum) + r4;
    var high := if HighProfile(s.profile) then HighBits(s.high) else [];
    var r2 := high + r3;
    var r1 := Ue(s.id) + r2;
    SpsPieces(s, rest);
    assert Pow2(8) == 256;
    GetBitsMsb(s.profile, 8, MsbOf(s.constraints, 8) + (MsbOf(s.level, 8) + r1));
    GetBitsMsb(s.constraints, 8, MsbOf(s.level, 8) + r1);
    GetBitsMsb(s.level, 8, r1);
    GetUeUe(s.id, r2);
    if HighProfile(s.profile) {
      SkipHighBits(s.high, r3);
    } else {
      assert r2 == r3;
    }
    GetUeUe(s.log2MaxFrameNum, r4);
    SkipPocBits(s.poc, r5);
    GetUeUe(s.maxRefFrames, rest);
  }

  lemma SpsPieces(s: Sps, rest: seq<bool>)
    ensures SpsBits(s) + rest ==
            MsbOf(s.profile, 8) + (MsbOf(s.constraints, 8) + (MsbOf(s.level, 8) + (Ue(s.id)
            + ((if HighProfile(s.profile) then HighBits(s.high) else [])
            + (Ue(s.log2MaxFrameNum) + (PocBits(s.poc) + (Ue(s.maxRefFrames) + rest)))))))
  {
    hide MsbOf, Ue, HighBits, PocBits;
    var a, b, c, d := MsbOf(s.profile, 8), MsbOf(s.constraints, 8), MsbOf(s.level, 8), Ue(s.id);
    var h := if HighProfile(s.profile) then HighBits(s.high) else [];
    var l, p, m := Ue(s.log2MaxFrameNum), PocBits(s.poc), Ue(s.maxRefFrames);
    assert p + m + rest == p + (m + rest);
    assert l + (p + m) + rest == l + (p + (m + rest));
    assert h + (l + (p + m)) + rest == h + (l + (p + (m + rest)));
    assert d + (h + (l + (p + m))) + rest == d + (h + (l + (p + (m + rest))));
    assert c + (d + (h + (l + (p + m)))) + rest == c + (d + (h + (l + (p + (m + rest)))));
    assert b + (c + (d + (h + (l + (p + m))))) + rest == b + (c + (d + (h + (l + (p + (m + rest))))));
  }

  /** A parameter set of profile 135, which carries the elements of High, though the program
      takes it not to. */
  function Depth(): Sps {
    Sps(135, 0, 40, 0, High(0, false, 0, 0, false, None), 0, Poc2, 5)
  }

  lemma PrefixIs(v: nat, k: nat)
    requires Pow2(k) <= v + 1 < 2 * Pow2(k)
    ensures Prefix(v) == k
  {
    hide Prefix;
    var p := Prefix(v);
    if p < k {
      Pow2Mono(p + 1, k);
    } else if p > k {
      Pow2Mono(k + 1, p);
    }
  }

  lemma SmallMsb()
    ensures MsbOf(0, 0) == [] && MsbOf(1, 1) == [true] && MsbOf(1, 2) == [false, true]
  {
    assert MsbOf(0, 1) == MsbOf(0, 0) + [false];
    assert MsbOf(1, 1) == MsbOf(0, 0) + [true];
    assert MsbOf(1, 2) == MsbOf(0, 1) + [true];
  }

  lemma SmallCodes()
    ensures Ue(0) == [true] && Ue(2) == [false, true, true] && Ue(4) == [false, false, true, false, true]
  {
    hide Prefix, MsbOf;
    SmallMsb();
    assert Pow2(0) == 1 && Pow2(1) == 2 && Pow2(2) == 4;
    PrefixIs(0, 0);
    PrefixIs(2, 1);
    PrefixIs(4, 2);
  }

  /** What follows the identifier looks like three zeros and a four. */
  lemma OutOfStep(rest: seq<bool>)
    ensures HighBits(Depth().high) + (Ue(0) + (PocBits(Poc2) + (Ue(5) + rest))) ==
            Ue(0) + (Ue(0) + (Ue(0) + (Ue(4) + ([true] + (Ue(5) + rest)))))
  {
    hide Ue;
    SmallCodes();
    var tail := Ue(5) + rest;
    assert HighBits(Depth().high) == [true, true, true, false, false];
  }

  /** The walk reads that parameter set out of step and reports 4 instead of 5. */
  lemma DepthMisread(rest: seq<bool>)
    ensures WellFormed(Depth())
    ensures ParseSps(SpsBits(Depth()) + rest) == 4 != Depth().maxRefFrames
  {
    hide GetUe, GetBits, MsbOf, HighBits, PocBits, Ue;
    SpsPieces(Depth(), rest);
    var tail := [true] + (Ue(5) + rest);
    var r1 := Ue(0) + (Ue(0) + (Ue(0) + (Ue(4) + tail)));
    OutOfStep(rest);
    assert Pow2(8) == 256;
    GetBitsMsb(135, 8, MsbOf(0, 8) + (MsbOf(40, 8) + (Ue(0) + r1)));
    GetBitsMsb(0, 8, MsbOf(40, 8) + (Ue(0) + r1));
    GetBitsMsb(40, 8, Ue(0) + r1);
    GetUeUe(0, r1);
    GetUeUe(0, Ue(0) + (Ue(0) + (Ue(4) + tail)));
    GetUeUe(0, Ue(0) + (Ue(4) + tail));
    GetUeUe(0, Ue(4) + tail);
    GetUeUe(4, tail);
  }

  /** So the walk is right on all parameter sets of a profile exactly when that is not 135. */
  lemma ProfileIsReadRight(p: byte)
    ensures (forall s: Sps, rest: seq<bool> :: s.profile == p && WellFormed(s) ==>
              ParseSps(SpsBits(s) + rest) == s.maxRefFrames)
            <==> p != 135
  {
    hide ParseSps, SpsBits;
    if p != 135 {
      forall s: Sps, rest: seq<bool> | s.profile == p && WellFormed(s)
        ensures ParseSps(SpsBits(s) + rest) == s.maxRefFrames
      {
        ParseSpsBits(s, rest);
      }
    } else {
      DepthMisread([]);
    }
  }

  // ----- The program -----

  method SkipScalingList(r: Reader, size: nat)
    requires r.Valid()
    modifies r
    ensures r.Valid() && r.Remaining() == SkipScaling(old(r.Remaining()), 0, size, 8, 8)
  {
    hide Reader.Valid, Reader.Remaining, GetSe, NextScale;
    ghost var start := r.Remaining();
    var last: int, next: int := 8, 8;
    for j := 0 to size
      invariant r.Valid() && SkipScaling(r.Remaining(), j, size, last, next) == SkipScaling(start, 0, size, 8, 8)
    {
      if next != 0 {
        var delta := r.NextSe();
        next := NextScale(last, delta);
      }
      last := if next == 0 then last else next;
    }
  }

  method SkipMatrix(r: Reader, count: nat)
    requires r.Valid()
    modifies r
    ensures r.Valid() && r.Remaining() == SkipLists(old(r.Remaining()), 0, count)
  {
    hide Reader.Valid, Reader.Remaining, SkipScaling;
    ghost var start := r.Remaining();
    for j := 0 to count
      invariant r.Valid() && SkipLists(r.Remaining(), j, count) == SkipLists(start, 0, count)
    {
      var flag := r.NextBit();
      if flag != 0 {
        SkipScalingList(r, if j < 6 then 16 else 64);
      }
    }
  }

  method SkipHighElements(r: Reader)
    requires r.Valid()
    modifies r
    ensures r.Valid() && r.Remaining() == SkipHigh(old(r.Remaining()))
  {
    hide Reader.Valid, Reader.Remaining, SkipLists, GetUe;
    var chroma := r.NextUe();
    if chroma == 3 {
      var separate := r.NextBit();
    }
    var depthLuma := r.NextUe();
    var depthChroma := r.NextUe();
    var bypass := r.NextBit();
    var matrix := r.NextBit();
    if matrix != 0 {
      SkipMatrix(r, if chroma != 3 then 8 else 12);
    }
  }

  method SkipOrderCount(r: Reader)
    requires r.Valid()
    modifies r
    ensures r.Valid() && r.Remaining() == SkipPoc(old(r.Remaining()))
  {
    hide Reader.Valid, Reader.Remaining, GetUe, GetSe;
    var pocType := r.NextUe();
    if pocType == 0 {
      var log2MaxLsb := r.NextUe();
    } else if pocType == 1 {
      var zero := r.NextBit();
      var nonRef := r.NextSe();
      var topToBottom := r.NextSe();
      var n := r.NextUe();
      ghost var start := r.Remaining();
      ghost var total := if n < 256 then n else 256;
      var j := 0;
      while j < n && j < 256
        invariant j <= total && r.Valid()
        invariant SkipSe(r.Remaining(), total - j) == SkipSe(start, total)
        decreases total - j
      {
        var offset := r.NextSe();
        j := j + 1;
      }
    }
  }

  /** The number of reference frames an avcC record announces: that of its first parameter set,
      or 16 when the record holds none that is long enough. */
  function AvccRefFrames(avcc: seq<byte>): int {
    if |avcc| < 8 || avcc[5] % 32 == 0 then 16
    else
      var len := avcc[6] as int * 256 + avcc[7];
      if 8 + len > |avcc| || len < 4 then 16
      else ParseSps(MsbBits(Unescape(avcc[9..8 + len])))
  }

  method ParseAvccNumRefFrames(avcc: seq<byte>) returns (n: int)
    ensures n == AvccRefFrames(avcc)
  {
    hide Reader.Valid, Reader.Remaining, SkipHigh, SkipPoc, GetUe, GetBits, Unescape, MsbBits;
    if |avcc| < 8 {
      return 16;
    }
    var numSps := avcc[5] % 32;
    var pos := 6;
    for i := 0 to numSps
      invariant i == 0 && pos == 6
    {
      if pos + 2 > |avcc| {
        break;
      }
      var spsLen := avcc[pos] as int * 256 + avcc[pos + 1];
      pos := pos + 2;
      if pos + spsLen > |avcc| || spsLen < 4 {
        break;
      }
      var r := new Reader(avcc[pos + 1..pos + spsLen]);
      var profile := r.NextBits(8);
      var constraints := r.NextBits(8);
      var level := r.NextBits(8);
      var id := r.NextUe();
      if KnownHigh(profile) {
        SkipHighElements(r);
      }
      var log2MaxFrameNum := r.NextUe();
      SkipOrderCount(r);
      n := r.NextUe();
      return;
    }
    return 16;
  }

  // ----- From the fields to the record and back -----

  lemma {:induction false} EscapeLonger(payload: seq<byte>, zeros: nat)
    ensures |Escape(payload, zeros)| >= |payload|
  {
    if payload != [] {
      EscapeLonger(payload[1..], if zeros >= 2 && payload[0] <= 3 then (if payload[0] == 0 then 1 else 0)
                                 else if payload[0] == 0 then zeros + 1 else 0);
    }
  }

  lemma {:induction false} MsbBitsLength(bytes: seq<byte>)
    ensures |MsbBits(bytes)| == 8 * |bytes|
  {
    if bytes != [] {
      MsbBitsLength(bytes[1..]);
    }
  }

  /** A record whose first parameter set is any well-formed one of a known profile, followed by
      anything, escaped and length-prefixed, announces that set's number of reference frames. */
  lemma AvccPieces(head: seq<byte>, count: byte, high: byte, low: byte, nal: seq<byte>, back: seq<byte>)
    requires |head| == 5 && nal != []
    ensures var avcc := head + [count] + [high, low] + nal + back;
      && |avcc| == 8 + |nal| + |back|
      && avcc[5] == count && avcc[6] == high && avcc[7] == low && avcc[9..8 + |nal|] == nal[1..]
  {
  }

  lemma AvccRoundTrip(s: Sps, payload: seq<byte>, rest: seq<bool>, head: seq<byte>, count: byte, header: byte,
                      back: seq<byte>)
    requires WellFormed(s) && s.profile != 135 && MsbBits(payload) == SpsBits(s) + rest
    requires |head| == 5 && count % 32 >= 1 && |Escape(payload, 0)| < 65535
    ensures var nal := [header] + Escape(payload, 0);
      AvccRefFrames(head + [count] + [|nal| / 256, |nal| % 256] + nal + back) == s.maxRefFrames
  {
    hide Escape, Unescape, MsbBits, ParseSps, WellFormed;
    var nal := [header] + Escape(payload, 0);
    var avcc := head + [count] + [|nal| / 256, |nal| % 256] + nal + back;
    AvccPieces(head, count, |nal| / 256, |nal| % 256, nal, back);
    MsbBitsLength(payload);
    EscapeLonger(payload, 0);
    assert |payload| >= 3;
    assert nal[1..] == Escape(payload, 0);
    UnescapeEscape(payload);
    ParseSpsBits(s, rest);
  }
}
