/** The LZW code stream of a GIF image, as a table of strings (GIF89a, Appendix F). */
module GifLzw {
  import opened Bits

  const MAX_TABLE := 4096
  const MAX_WIDTH := 12

  type Str = seq<byte>

  /** The decoder's state: the string of every code assigned so far, and the code before, -1
      at the start and after a clear code. */
  datatype Lzw = Lzw(table: seq<Str>, prev: int)

  function ClearCode(min: nat): nat { Pow2(min) }

  function EndCode(min: nat): nat { Pow2(min) + 1 }

  /** One root string per pixel value, and two codes that spell nothing. */
  function InitTable(min: nat): (t: seq<Str>)
    ensures |t| == EndCode(min) + 1
    ensures forall c :: 0 <= c < ClearCode(min) ==> t[c] == [c % 256]
  {
    seq(EndCode(min) + 1, c requires 0 <= c <= EndCode(min) => if c < ClearCode(min) then [c % 256] else [])
  }

  function Start(min: nat): Lzw {
    Lzw(InitTable(min), -1)
  }

  /** The least width from w on that can spell n, twelve at most. */
  function WidthFrom(w: nat, n: nat): (r: nat)
    ensures w <= r && (r <= MAX_WIDTH || r == w)
    ensures r < MAX_WIDTH ==> n < Pow2(r)
    ensures w < r ==> Pow2(r - 1) <= n
    decreases MAX_WIDTH - w
  {
    if w >= MAX_WIDTH || n < Pow2(w) then w else WidthFrom(w + 1, n)
  }

  /** The width of the next code: wide enough for the next free code number. */
  function Width(min: nat, st: Lzw): nat {
    WidthFrom(min + 1, |st.table|)
  }

  /** The codes that may come next. */
  predicate Admissible(min: nat, st: Lzw, code: nat) {
    || code == ClearCode(min)
    || (st.prev == -1 && code < ClearCode(min))
    || (st.prev != -1 && code <= |st.table| && code < MAX_TABLE && code != ClearCode(min) && code != EndCode(min))
  }

  ghost predicate IsString(min: nat, t: seq<Str>, code: int) {
    0 <= code < |t| && code != ClearCode(min) && code != EndCode(min)
  }

  ghost predicate Good(min: nat, st: Lzw) {
    && EndCode(min) < |st.table| <= MAX_TABLE
    && (forall c :: 0 <= c < ClearCode(min) ==> st.table[c] == [c % 256])
    && (forall c :: IsString(min, st.table, c) ==> st.table[c] != [])
    && (st.prev == -1 || IsString(min, st.table, st.prev))
  }

  /** The string a code spells.  A code not yet in the table spells the string of the code
      before, repeated to its own first byte. */
  function Emitted(min: nat, st: Lzw, code: nat): Str
    requires Good(min, st) && Admissible(min, st, code)
  {
    if code == ClearCode(min) then []
    else if code < |st.table| then st.table[code]
    else st.table[st.prev] + [st.table[st.prev][0]]
  }

  function Next(min: nat, st: Lzw, code: nat): Lzw
    requires Good(min, st) && Admissible(min, st, code)
  {
    if code == ClearCode(min) then Start(min)
    else if st.prev == -1 || |st.table| == MAX_TABLE then Lzw(st.table, code)
    else
      assert Emitted(min, st, code) != [];
      Lzw(st.table + [st.table[st.prev] + [Emitted(min, st, code)[0]]], code)
  }

  lemma NextGood(min: nat, st: Lzw, code: nat)
    requires Good(min, st) && Admissible(min, st, code) && EndCode(min) < MAX_TABLE
    ensures Good(min, Next(min, st, code))
  {
  }

  lemma StartGood(min: nat)
    requires EndCode(min) < MAX_TABLE
    ensures Good(min, Start(min))
  {
  }

  /** The pixels a code sequence spells, up to the end code or the first code that cannot come
      next; ok says that no such code was met. */
  datatype Outcome = Outcome(pixels: seq<byte>, ok: bool)

  function Decode(min: nat, st: Lzw, bits: seq<bool>): Outcome
    requires 2 <= min <= 11 && Good(min, st)
    decreases |bits|
  {
    var w := Width(min, st);
    if |bits| < w then Outcome([], true)
    else
      var code := Val(bits[..w]);
      if code == EndCode(min) then Outcome([], true)
      else if !Admissible(min, st, code) then Outcome([], false)
      else
        MinFits(min);
        NextGood(min, st, code);
        var rest := Decode(min, Next(min, st, code), bits[w..]);
        Outcome(Emitted(min, st, code) + rest.pixels, rest.ok)
  }

  lemma MinFits(min: nat)
    requires 2 <= min <= 11
    ensures 4 <= ClearCode(min) <= 2048
  {
    Pow2Mono(2, min);
    Pow2Mono(min, 11);
    assert Pow2(11) == 2048 && Pow2(2) == 4;
  }
}
