/** The prefix/suffix/stack decoder and its refinement of the table of strings. */
module GifDecoder {
  import opened Bits
  import opened GifBits
  import opened GifLzw
  import opened GifRaster

  type u16 = x: int | 0 <= x < 65536

  function Reverse(s: seq<byte>): (r: seq<byte>)
    ensures |r| == |s|
  {
    if s == [] then [] else Reverse(s[1..]) + [s[0]]
  }

  lemma {:induction false} ReverseAppend(s: seq<byte>, b: byte)
    ensures Reverse(s + [b]) == [b] + Reverse(s)
  {
    if s != [] {
      assert (s + [b])[1..] == s[1..] + [b];
      ReverseAppend(s[1..], b);
    }
  }

  /** The linked entries represent the table: a root stands for itself, any other code for the
      string of its prefix and one more byte. */
  ghost predicate Rep(min: nat, prefix: seq<u16>, suffix: seq<byte>, table: seq<Str>) {
    && |prefix| == |suffix| == MAX_TABLE && EndCode(min) < |table| <= MAX_TABLE
    && (forall c :: 0 <= c < ClearCode(min) ==> table[c] == [c % 256])
    && (forall c :: EndCode(min) < c < |table| ==>
          && prefix[c] < c && IsString(min, table, prefix[c])
          && table[c] == table[prefix[c]] + [suffix[c]])
  }

  /** Strings are short: the chain of a code has at most as many links as there are codes. */
  lemma {:induction false} StringLength(min: nat, prefix: seq<u16>, suffix: seq<byte>, table: seq<Str>, c: nat)
    requires Rep(min, prefix, suffix, table) && IsString(min, table, c)
    ensures 1 <= |table[c]| <= if c < ClearCode(min) then 1 else c - ClearCode(min)
    decreases c
  {
    if c >= ClearCode(min) {
      StringLength(min, prefix, suffix, table, prefix[c]);
    }
  }

  class Dictionary {
    const min: nat
    const prefix: array<u16>
    const suffix: array<byte>
    const stack: array<byte>
    var nextCode: nat
    var codeSize: nat
    var maxCode: nat
    var oldCode: int
    var stackPtr: nat

    /** Holds on every code stream, well formed or not. */
    ghost predicate Shape()
      reads this
    {
      && 2 <= min <= 11
      && prefix.Length == suffix.Length == stack.Length == MAX_TABLE && suffix != stack
      && EndCode(min) < nextCode <= MAX_TABLE
      && codeSize == WidthFrom(min + 1, nextCode) <= MAX_WIDTH && maxCode == Pow2(codeSize)
      && -1 <= oldCode < MAX_TABLE
      && stackPtr <= MAX_TABLE
    }

    /** The dictionary represents the state of the table decoder. */
    ghost predicate Represents(st: Lzw)
      reads this, prefix, suffix
    {
      && Shape() && Good(min, st)
      && |st.table| == nextCode && st.prev == oldCode
      && Rep(min, prefix[..], suffix[..], st.table)
    }

    constructor (min: nat)
      requires 2 <= min <= 11
      ensures Represents(Start(min)) && this.min == min && stackPtr == 0
      ensures fresh(prefix) && fresh(suffix) && fresh(stack)
    {
      hide InitTable, WidthFrom;
      this.min := min;
      prefix := new u16[MAX_TABLE];
      suffix := new byte[MAX_TABLE];
      stack := new byte[MAX_TABLE];
      stackPtr := 0;
      codeSize := min + 1;
      maxCode := Pow2(min + 1);
      nextCode := Pow2(min) + 2;
      oldCode := -1;
      new;
      MinFits(min);
      StartWidth(min);
      StartGood(min);
      for i := 0 to Pow2(min)
        invariant Shape() && nextCode == |InitTable(min)| && oldCode == -1 && this.min == min && stackPtr == 0
      {
        prefix[i] := 4096;
        suffix[i] := i % 256;
      }
    }

    /** A clear code: back to the roots. */
    method Clear()
      requires Shape()
      modifies `codeSize, `maxCode, `nextCode, `oldCode
      ensures Represents(Start(min))
    {
      hide InitTable, WidthFrom;
      MinFits(min);
      StartWidth(min);
      StartGood(min);
      codeSize := min + 1;
      maxCode := Pow2(codeSize);
      nextCode := EndCode(min) + 1;
      oldCode := -1;
    }

    /** The first code after a clear stands for itself. */
    method First(code: nat)
      requires Shape() && code < MAX_TABLE
      modifies `oldCode
      ensures Shape() && oldCode == code
    {
      oldCode := code;
    }

    method Push(b: byte)
      requires Shape() && stackPtr < MAX_TABLE
      modifies `stackPtr, stack
      ensures Shape() && stackPtr == old(stackPtr) + 1
      ensures stack[..stackPtr] == old(stack[..stackPtr]) + [b]
    {
      hide WidthFrom, Pow2;
      stack[stackPtr] := b;
      stackPtr := stackPtr + 1;
    }

    method Pop() returns (b: byte)
      requires Shape() && stackPtr > 0
      modifies `stackPtr
      ensures Shape() && stackPtr == old(stackPtr) - 1
      ensures old(stack[..stackPtr]) == stack[..stackPtr] + [b]
    {
      hide WidthFrom, Pow2;
      stackPtr := stackPtr - 1;
      b := stack[stackPtr];
    }

    /** Walks the chain of a code down to its root and stacks the bytes met.  The walk always
        ends and never leaves the stack; on a represented table it meets no error and leaves
        the reverse of the string. */
    method Walk(code: int, ghost table: seq<Str>) returns (ok: bool, root: int, ghost links: seq<byte>)
      requires Shape() && 0 <= code <= MAX_TABLE && stackPtr <= 1
      modifies `stackPtr, stack
      ensures Shape() && stack[..stackPtr] == old(stack[..stackPtr]) + links
      ensures ok ==> 0 <= root < ClearCode(min)
      ensures Rep(min, prefix[..], suffix[..], table) && IsString(min, table, code) ==>
                ok && Reverse(links) == table[code] && table[code] != [] && table[code][0] == root % 256
    {
      hide WidthFrom, Pow2, Rep, Shape, Reverse;
      ShapeFacts();
      ghost var bottom := stack[..stackPtr];
      ghost var good := Rep(min, prefix[..], suffix[..], table) && IsString(min, table, code);
      links := [];
      NoLinks();
      var clear := Pow2(min);
      var cur := code;
      while cur >= clear
        invariant Shape() && stackPtr <= 4095 && 0 <= cur <= MAX_TABLE
        invariant stack[..stackPtr] == bottom + links && |bottom| <= 1
        invariant good ==> IsString(min, table, cur) && table[code] == table[cur] + Reverse(links)
        decreases cur
      {
        ShapeFacts();
        if good {
          ChainStep(min, prefix[..], suffix[..], table, code, cur, links);
        }
        if cur >= 4096 || stackPtr >= 4095 || prefix[cur] >= cur {
          return false, 0, links;
        }
        Push(suffix[cur]);
        links := links + [suffix[cur]];
        cur := prefix[cur];
      }
      ShapeFacts();
      if good {
        RootOf(min, prefix[..], suffix[..], table, cur, links);
      }
      Push(cur % 256);
      links := links + [cur % 256];
      return true, cur, links;
    }

    /** Stacks the bytes of one code, the code that is just being defined included. */
    method Spell(code: nat, ghost st: Lzw) returns (ok: bool, first: int)
      requires Shape() && oldCode >= 0 && code < MAX_TABLE
      modifies `stackPtr, stack
      ensures Shape()
      ensures ok ==> 0 <= first < ClearCode(min)
      ensures Represents(st) && Admissible(min, st, code) && code != ClearCode(min) ==>
                ok && Reverse(stack[..stackPtr]) == Emitted(min, st, code) != []
                && Emitted(min, st, code)[0] == first % 256
    {
      hide WidthFrom, Pow2, Rep, Shape, Reverse, Good;
      ShapeFacts();
      ghost var links;
      ghost var good := Represents(st) && Admissible(min, st, code) && code != ClearCode(min);
      if good {
        StringsOf(st, code);
      }
      SetEmpty();
      if code == nextCode {
        Push(0);
        ok, first, links := Walk(oldCode, st.table);
        if !ok {
          return;
        }
        ShapeFacts();
        if good {
          Repeated(links, st.table[oldCode], first % 256);
        }
        stack[0] := first % 256;
        assert stack[..stackPtr] == [first % 256] + links;
      } else if code < nextCode {
        ok, first, links := Walk(code, st.table);
        ShapeFacts();
        assert stack[..stackPtr] == links;
      } else {
        ok, first := false, 0;
      }
    }

    /** What an admissible code asks the represented table for. */
    lemma StringsOf(st: Lzw, code: nat)
      requires Represents(st) && Admissible(min, st, code) && code != ClearCode(min) && oldCode >= 0
      ensures Rep(min, prefix[..], suffix[..], st.table) && |st.table| == nextCode && st.prev == oldCode
      ensures IsString(min, st.table, oldCode) && st.table[oldCode] != []
      ensures code < nextCode ==> IsString(min, st.table, code) && Emitted(min, st, code) == st.table[code]
      ensures code >= nextCode ==>
                code == nextCode && Emitted(min, st, code) == st.table[oldCode] + [st.table[oldCode][0]]
    {
      hide WidthFrom, Pow2, Rep;
    }

    method SetEmpty()
      requires Shape()
      modifies `stackPtr
      ensures Shape() && stackPtr == 0
    {
      stackPtr := 0;
    }

    /** Defines the next code as the old one and one more byte, unless the table is full. */
    method Learn(first: int, code: nat, ghost st: Lzw)
      requires Shape() && oldCode >= 0 && code < MAX_TABLE && first >= 0
      modifies `nextCode, `codeSize, `maxCode, `oldCode, prefix, suffix
      ensures Shape() && oldCode == code
      ensures old(Represents(st)) && Admissible(min, st, code) && code != ClearCode(min) && st.prev != -1
              && Emitted(min, st, code) != [] && Emitted(min, st, code)[0] == first % 256
              ==> Represents(Next(min, st, code))
    {
      hide WidthFrom, Pow2, Rep, Reverse;
      ghost var good := Represents(st) && Admissible(min, st, code) && code != ClearCode(min)
                        && Emitted(min, st, code) != [] && Emitted(min, st, code)[0] == first % 256;
      if good {
        MinFits(min);
        NextGood(min, st, code);
        RepExtends(min, prefix[..], suffix[..], st.table, st.prev, first % 256);
      }
      if nextCode < MAX_TABLE {
        WidthStep(min, nextCode);
        prefix[nextCode] := oldCode;
        suffix[nextCode] := first % 256;
        nextCode := nextCode + 1;
        if nextCode >= maxCode && codeSize < MAX_WIDTH {
          codeSize := codeSize + 1;
          maxCode := Pow2(codeSize);
        }
      }
      oldCode := code;
    }

    /** Pops the stack into the raster until either is done. */
    method Drain(raster: Raster, total: nat)
      requires Shape() && raster.Valid() && total == Area(raster.frame.w, raster.frame.h)
      requires stack != raster.canvas as object && |raster.indices| <= total
      modifies `stackPtr, raster, raster.canvas
      ensures Shape() && raster.Valid()
      ensures raster.indices == Take(old(raster.indices) + Reverse(old(stack[..stackPtr])), total)
    {
      hide WidthFrom, Pow2, Shape, Reverse, Area;
      ShapeFacts();
      ghost var all := raster.indices + Reverse(stack[..stackPtr]);
      while stackPtr > 0 && raster.written < total
        invariant Shape() && raster.Valid() && stackPtr <= MAX_TABLE == stack.Length
        invariant |raster.indices| == raster.written <= total
        invariant raster.indices + Reverse(stack[..stackPtr]) == all
      {
        var c := Pop();
        ReverseAppend(stack[..stackPtr], c);
        raster.Put(c);
      }
    }

    lemma ShapeFacts()
      requires Shape()
      ensures prefix.Length == suffix.Length == stack.Length == MAX_TABLE && suffix != stack && stackPtr <= MAX_TABLE
      ensures 2 <= min <= 11 && 4 <= ClearCode(min) <= 2048 && ClearCode(min) == Pow2(min)
    {
      MinFits(min);
    }
  }

  /** The first n bytes, or all of them. */
  function Take(s: seq<byte>, n: nat): seq<byte> {
    if |s| <= n then s else s[..n]
  }

  lemma NoLinks()
    ensures Reverse([]) == []
  {
  }

  /** One link of a represented chain: no error can fire, and the string is as before. */
  lemma ChainStep(min: nat, prefix: seq<u16>, suffix: seq<byte>, table: seq<Str>, code: int, cur: int, links: seq<byte>)
    requires 2 <= min <= 11 && Rep(min, prefix, suffix, table) && IsString(min, table, code)
              && IsString(min, table, cur)
    requires cur >= ClearCode(min) && table[code] == table[cur] + Reverse(links)
    ensures cur < |prefix| == |suffix| && prefix[cur] < cur && |links| + 1 < 4095
    ensures IsString(min, table, prefix[cur])
    ensures table[code] == table[prefix[cur]] + Reverse(links + [suffix[cur]])
  {
    hide Pow2, Reverse, Rep, ClearCode, EndCode;
    ChainBound(min, prefix, suffix, table, code, cur, |links|);
    LinkOf(min, prefix, suffix, table, cur);
    ReverseAppend(links, suffix[cur]);
    Regroup(table[prefix[cur]], suffix[cur], Reverse(links));
  }

  lemma Regroup(head: Str, b: byte, tail: Str)
    ensures head + [b] + tail == head + ([b] + tail)
  {
  }

  lemma ChainBound(min: nat, prefix: seq<u16>, suffix: seq<byte>, table: seq<Str>, code: int, cur: int, n: nat)
    requires 2 <= min <= 11 && Rep(min, prefix, suffix, table) && IsString(min, table, code)
              && IsString(min, table, cur)
    requires |table[code]| == |table[cur]| + n
    ensures n + 1 < 4095
  {
    hide Pow2;
    MinFits(min);
    StringLength(min, prefix, suffix, table, cur);
    StringLength(min, prefix, suffix, table, code);
  }

  lemma LinkOf(min: nat, prefix: seq<u16>, suffix: seq<byte>, table: seq<Str>, c: int)
    requires Rep(min, prefix, suffix, table) && IsString(min, table, c) && c >= ClearCode(min)
    ensures c < |table| <= MAX_TABLE == |prefix| == |suffix|
    ensures prefix[c] < c && IsString(min, table, prefix[c]) && table[c] == table[prefix[c]] + [suffix[c]]
  {
  }

  lemma RootOf(min: nat, prefix: seq<u16>, suffix: seq<byte>, table: seq<Str>, cur: int, links: seq<byte>)
    requires Rep(min, prefix, suffix, table) && IsString(min, table, cur) && cur < ClearCode(min)
    ensures table[cur] + Reverse(links) == Reverse(links + [cur % 256])
    ensures (table[cur] + Reverse(links))[0] == cur % 256
  {
    ReverseAppend(links, cur % 256);
  }

  lemma StartWidth(min: nat)
    requires 2 <= min <= 11
    ensures WidthFrom(min + 1, EndCode(min) + 1) == min + 1
  {
    MinFits(min);
  }

  lemma Repeated(links: seq<byte>, str: Str, b: byte)
    requires Reverse(links) == str
    ensures Reverse([b] + links) == str + [b]
  {
    assert ([b] + links)[1..] == links;
  }

  lemma RepExtends(min: nat, prefix: seq<u16>, suffix: seq<byte>, table: seq<Str>, prev: int, b: byte)
    requires Rep(min, prefix, suffix, table) && IsString(min, table, prev)
    ensures |table| < MAX_TABLE ==>
              Rep(min, prefix[|table| := prev], suffix[|table| := b], table + [table[prev] + [b]])
  {
  }

  /** The width grows exactly when the table size reaches the next power of two. */
  lemma WidthStep(min: nat, n: nat)
    requires 2 <= min <= 11 && EndCode(min) < n < MAX_TABLE
    ensures WidthFrom(min + 1, n + 1) ==
            if n + 1 >= Pow2(WidthFrom(min + 1, n)) && WidthFrom(min + 1, n) < MAX_WIDTH
            then WidthFrom(min + 1, n) + 1 else WidthFrom(min + 1, n)
  {
    hide Pow2, WidthFrom;
    WidthStepFrom(min + 1, n);
  }

  lemma {:induction false} WidthStepFrom(w: nat, n: nat)
    requires w <= MAX_WIDTH && n > 0
    ensures WidthFrom(w, n + 1) ==
            if n + 1 >= Pow2(WidthFrom(w, n)) && WidthFrom(w, n) < MAX_WIDTH
            then WidthFrom(w, n) + 1 else WidthFrom(w, n)
    decreases MAX_WIDTH - w
  {
    if w < MAX_WIDTH && n >= Pow2(w) {
      WidthStepFrom(w + 1, n);
    } else if w < MAX_WIDTH {
      assert Pow2(w + 1) == 2 * Pow2(w);
    }
  }

  // ----- The decoding loop against the table of strings -----

  /** Where the two decoders stand: still together, with the pixels done so far, or parted by a
      code that cannot come next. */
  datatype Progress = Together(st: Lzw, done: seq<byte>) | Parted

  ghost predicate Follows(whole: Outcome, done: seq<byte>, rest: Outcome) {
    whole.pixels == done + rest.pixels && whole.ok == rest.ok
  }

  /** The indices in the raster are the specified pixels, or at least begin with those before
      the first code that cannot come next. */
  ghost predicate Agrees(whole: Outcome, indices: seq<byte>, total: nat) {
    && (whole.ok ==> indices == Take(whole.pixels, total))
    && Take(whole.pixels, total) <= indices
  }

  ghost predicate Tracks(p: Progress, d: Dictionary, indices: seq<byte>, whole: Outcome, bits: seq<bool>, total: nat)
    reads d, d.prefix, d.suffix
  {
    && d.Shape()
    && if p.Together? then
         && d.Represents(p.st) && indices == Take(p.done, total)
         && Follows(whole, p.done, Decode(d.min, p.st, bits))
       else !whole.ok && Take(whole.pixels, total) <= indices
  }

  /** One more code of the specification. */
  lemma Advance(min: nat, st: Lzw, bits: seq<bool>, whole: Outcome, done: seq<byte>)
    requires 2 <= min <= 11 && Good(min, st) && Follows(whole, done, Decode(min, st, bits))
    ensures |bits| < Width(min, st) || Val(bits[..Width(min, st)]) == EndCode(min) ==> whole == Outcome(done, true)
    ensures |bits| >= Width(min, st) && Val(bits[..Width(min, st)]) != EndCode(min) ==>
              var code := Val(bits[..Width(min, st)]);
              if Admissible(min, st, code)
              then Good(min, Next(min, st, code))
                   && Follows(whole, done + Emitted(min, st, code),
                       Decode(min, Next(min, st, code), bits[Width(min, st)..]))
              else whole == Outcome(done, false)
  {
    hide Pow2, Good, WidthFrom, Emitted, Next;
    MinFits(min);
    if |bits| >= Width(min, st) && Val(bits[..Width(min, st)]) != EndCode(min) {
      var code := Val(bits[..Width(min, st)]);
      if Admissible(min, st, code) {
        NextGood(min, st, code);
        var e, r := Emitted(min, st, code), Decode(min, Next(min, st, code), bits[Width(min, st)..]).pixels;
        assert done + (e + r) == done + e + r;
      }
    }
  }

  lemma TakeMore(s: seq<byte>, t: seq<byte>, n: nat)
    ensures Take(Take(s, n) + t, n) == Take(s + t, n)
    ensures |Take(s, n)| <= n
    ensures Take(s, n) <= Take(s + t, n)
  {
  }

  /** Read fails or the end code comes: the specification ends here as well. */
  lemma Ends(p: Progress, d: Dictionary, indices: seq<byte>, whole: Outcome, bits: seq<bool>, total: nat)
    requires Tracks(p, d, indices, whole, bits, total)
    requires |bits| < d.codeSize || Val(bits[..d.codeSize]) == EndCode(d.min)
    ensures Agrees(whole, indices, total)
  {
    hide Pow2, Good, WidthFrom, Rep, Decode;
    match p {
      case Together(st, done) => Advance(d.min, st, bits, whole, done);
      case Parted =>
    }
  }

  /** A code that breaks off the decoding: the specification has failed already. */
  lemma Breaks(p: Progress, d: Dictionary, indices: seq<byte>, whole: Outcome, bits: seq<bool>, total: nat)
    requires Tracks(p, d, indices, whole, bits, total)
    requires |bits| >= d.codeSize && Val(bits[..d.codeSize]) != EndCode(d.min)
    requires p.Together? ==> !Admissible(d.min, p.st, Val(bits[..d.codeSize]))
    ensures Agrees(whole, indices, total) && !whole.ok
  {
    hide Pow2, Good, WidthFrom, Rep, Decode;
    match p {
      case Together(st, done) => Advance(d.min, st, bits, whole, done);
      case Parted =>
    }
  }

  /** The progress after a code. */
  ghost function Proceed(p: Progress, min: nat, code: nat): Progress {
    match p
    case Together(st, done) =>
      if Good(min, st) && Admissible(min, st, code) then Together(Next(min, st, code), done + Emitted(min, st, code))
      else Parted
    case Parted => Parted
  }

  /** Whatever a code made the raster append, tracking goes on from the progress after it, as
      long as an admissible code appended what it spells and the dictionary followed. */
  lemma Goes(p: Progress, d: Dictionary, before: seq<byte>, whole: Outcome, bits: seq<bool>, total: nat, w: nat,
             code: nat,
             added: seq<byte>, indices: seq<byte>)
    requires d.Shape() && w <= |bits| && code == Val(bits[..w]) != EndCode(d.min)
    requires indices == Take(before + added, total) && |before| <= total
    requires p.Together? ==>
               && Good(d.min, p.st) && w == Width(d.min, p.st) && before == Take(p.done, total)
               && Follows(whole, p.done, Decode(d.min, p.st, bits))
               && (Admissible(d.min, p.st, code) ==>
                   d.Represents(Next(d.min, p.st, code)) && added == Emitted(d.min, p.st, code))
    requires p.Parted? ==> !whole.ok && Take(whole.pixels, total) <= before
    ensures Tracks(Proceed(p, d.min, code), d, indices, whole, bits[w..], total)
  {
    hide Pow2, Good, WidthFrom, Rep, Decode, Next, Emitted;
    match p {
      case Together(st, done) =>
        Advance(d.min, st, bits, whole, done);
        TakeMore(done, added, total);
      case Parted =>
        assert before == (before + added)[..|before|];
        assert before <= indices;
    }
  }

  /** The dictionary and the raster share no memory. */
  ghost predicate Separate(d: Dictionary, raster: Raster) {
    && d.prefix as object != raster.canvas && d.suffix as object != raster.canvas && d.stack as object != raster.canvas
    && d.prefix as object != raster.rowMap && d.suffix as object != raster.rowMap && d.stack as object != raster.rowMap
    && d.prefix as object != d.suffix && d.prefix as object != d.stack && d.suffix != d.stack
  }

  /** A code after the first: spell it, learn the next entry, drain the stack. */
  method HandleString(d: Dictionary, raster: Raster, total: nat, code: nat,
                      ghost p: Progress, ghost whole: Outcome, ghost bits: seq<bool>) returns (more: bool)
    requires Separate(d, raster) && raster.Valid() && total == Area(raster.frame.w, raster.frame.h)
    requires |raster.indices| <= total && Tracks(p, d, raster.indices, whole, bits, total)
    requires d.codeSize <= |bits| && code == Val(bits[..d.codeSize]) < MAX_TABLE
    requires code != EndCode(d.min) && code != ClearCode(d.min) && d.oldCode >= 0
    modifies d, d.prefix, d.suffix, d.stack, raster, raster.canvas
    ensures raster.Valid() && d.Shape() && |raster.indices| <= total
    ensures more ==> Tracks(Proceed(p, d.min, code), d, raster.indices, whole, bits[old(d.codeSize)..], total)
    ensures !more ==> Agrees(whole, raster.indices, total)
  {
    hide Pow2, WidthFrom, Rep, Decode, Emitted, Next, Area, Reverse;
    ghost var w := d.codeSize;
    ghost var before := raster.indices;
    ghost var st := if p.Together? then p.st else Start(d.min);
    ghost var fine := p.Together? && Admissible(d.min, st, code);
    var ok, first := d.Spell(code, st);
    if !ok {
      Breaks(p, d, raster.indices, whole, bits, total);
      return false;
    }
    ghost var added := Reverse(d.stack[..d.stackPtr]);
    d.Learn(first, code, st);
    d.Drain(raster, total);
    Goes(p, d, before, whole, bits, total, w, code, added, raster.indices);
    TakeMore(before + added, [], total);
    return true;
  }

  /** The first code after a clear: a single pixel, its own code cut to a byte. */
  method HandleFirst(d: Dictionary, raster: Raster, total: nat, code: nat,
                     ghost p: Progress, ghost whole: Outcome, ghost bits: seq<bool>) returns (more: bool)
    requires Separate(d, raster) && raster.Valid() && total == Area(raster.frame.w, raster.frame.h)
    requires |raster.indices| < total && Tracks(p, d, raster.indices, whole, bits, total)
    requires d.codeSize <= |bits| && code == Val(bits[..d.codeSize]) < MAX_TABLE
    requires code != EndCode(d.min) && code != ClearCode(d.min) && d.oldCode == -1
    modifies d, raster, raster.canvas
    ensures raster.Valid() && d.Shape() && |raster.indices| <= total
    ensures more ==> Tracks(Proceed(p, d.min, code), d, raster.indices, whole, bits[old(d.codeSize)..], total)
    ensures !more ==> Agrees(whole, raster.indices, total)
  {
    hide Pow2, WidthFrom, Rep, Decode, Area, Reverse;
    ghost var w := d.codeSize;
    ghost var before := raster.indices;
    if code >= 4096 {
      return false;
    }
    d.First(code);
    raster.Put(code % 256);
    TakeMore(before, [code % 256], total);
    Goes(p, d, before, whole, bits, total, w, code, [code % 256], raster.indices);
    return true;
  }

  lemma CodeBound(bits: seq<bool>, w: nat)
    requires w <= |bits| && w <= MAX_WIDTH
    ensures Val(bits[..w]) < MAX_TABLE
  {
    BitsOfVal(bits[..w]);
    Pow2Mono(w, 12);
    assert Pow2(12) == 4096;
  }

  /** The decoding loop of one image: codes of growing width are read until the image is full,
      the end code comes, the data end or a code is impossible.  On every bit stream whose
      codes can all come, the raster receives exactly the pixels the table of strings spells,
      cut to the image; on any other stream it still begins with those before the bad code. */
  method DecodeImage(br: BitReader, min: nat, raster: Raster)
    requires 2 <= min <= 11 && br.Valid() && raster.Valid() && raster.indices == []
    requires Good(min, Start(min))
    modifies br, raster, raster.canvas
    ensures raster.Valid()
    ensures Agrees(Decode(min, Start(min), old(br.Pending())), raster.indices, Area(raster.frame.w, raster.frame.h))
  {
    hide Pow2, WidthFrom, Rep, Decode, Area, Good, InitTable, Agrees, BitReader.Pending;
    var d := new Dictionary(min);
    var total := Area(raster.frame.w, raster.frame.h);
    ghost var whole := Decode(min, Start(min), br.Pending());
    ghost var p := Together(Start(min), []);
    while raster.written < total
      invariant br.Valid() && raster.Valid() && d.min == min && Separate(d, raster)
      invariant fresh(d) && fresh(d.prefix) && fresh(d.suffix) && fresh(d.stack)
      invariant |raster.indices| <= total
      invariant Tracks(p, d, raster.indices, whole, br.Pending(), total)
      decreases |br.Pending()|
    {
      ghost var bits := br.Pending();
      ghost var w := d.codeSize;
      var code := br.ReadBits(d.codeSize);
      if code < 0 || code == EndCode(min) {
        Ends(p, d, raster.indices, whole, bits, total);
        return;
      }
      CodeBound(bits, w);
      if code == ClearCode(min) {
        d.Clear();
        TakeMore(raster.indices, [], total);
        Goes(p, d, raster.indices, whole, bits, total, w, code, [], raster.indices);
      } else {
        var more;
        if d.oldCode == -1 {
          more := HandleFirst(d, raster, total, code, p, whole, bits);
        } else {
          more := HandleString(d, raster, total, code, p, whole, bits);
        }
        if !more {
          return;
        }
      }
      p := Proceed(p, min, code);
    }
    Filled(p, d, raster.indices, whole, br.Pending(), total);
  }

  /** A full image holds all the pixels that fit. */
  lemma Filled(p: Progress, d: Dictionary, indices: seq<byte>, whole: Outcome, bits: seq<bool>, total: nat)
    requires Tracks(p, d, indices, whole, bits, total) && |indices| == total
    ensures Agrees(whole, indices, total)
  {
    hide Pow2, WidthFrom, Rep, Decode;
    if p.Together? {
      TakeMore(p.done, Decode(d.min, p.st, bits).pixels, total);
    }
  }
}
