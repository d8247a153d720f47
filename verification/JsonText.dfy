/** JSON strings: the escaper, the string lexer, and their being inverse. */
module JsonText {
  import opened Bits

  const QUOTE: byte := 0x22
  const BACKSLASH: byte := 0x5C

  // ----- The escaper -----

  function HexDigit(d: nat): byte
    requires d < 16
  {
    if d < 10 then 0x30 + d else 0x61 + d - 10
  }

  /** How one byte is written inside a JSON string. */
  function EscapeByte(c: byte): (s: seq<byte>)
    ensures 1 <= |s| <= 6
  {
    if c == QUOTE || c == BACKSLASH then [BACKSLASH, c]
    else if c == 0x0A then [BACKSLASH, 0x6E]
    else if c == 0x0D then [BACKSLASH, 0x72]
    else if c == 0x09 then [BACKSLASH, 0x74]
    else if c == 0x08 then [BACKSLASH, 0x62]
    else if c == 0x0C then [BACKSLASH, 0x66]
    else if c < 0x20 then [BACKSLASH, 0x75, 0x30, 0x30, HexDigit(c / 16), HexDigit(c % 16)]
    else [c]
  }

  function EscapeAll(s: seq<byte>): seq<byte> {
    if s == [] then [] else EscapeByte(s[0]) + EscapeAll(s[1..])
  }

  lemma {:induction false} EscapeAppend(s: seq<byte>, c: byte)
    ensures EscapeAll(s + [c]) == EscapeAll(s) + EscapeByte(c)
  {
    hide EscapeByte;
    if s == [] {
      assert EscapeAll([c]) == EscapeByte(c) + EscapeAll([]);
    } else {
      EscapeAppend(s[1..], c);
      assert (s + [c])[1..] == s[1..] + [c];
    }
  }

  /** Writes the escaped text and a terminating zero.  When the buffer is too small, the text
      is that of the longest front of the source that fits: an escape is never broken off. */
  method EscapeJsonStr(src: seq<byte>, dst: array<byte>) returns (ghost k: nat, ghost w: nat)
    modifies dst
    ensures dst.Length == 0 ==> k == w == 0
    ensures dst.Length > 0 ==>
              && k <= |src| && w < dst.Length && dst[..w] == EscapeAll(src[..k]) && dst[w] == 0
              && (k < |src| ==> |EscapeAll(src[..k + 1])| >= dst.Length)
  {
    hide EscapeByte, EscapeAll;
    k, w := 0, 0;
    if dst.Length == 0 {
      return;
    }
    var p: nat, n: nat := 0, 0;
    EscapeNothing();
    while p < |src|
      invariant p <= |src| && n < dst.Length
      invariant dst[..n] == EscapeAll(src[..p])
    {
      var piece := EscapeByte(src[p]);
      assert src[..p + 1] == src[..p] + [src[p]];
      EscapeAppend(src[..p], src[p]);
      if n + |piece| >= dst.Length {
        break;
      }
      Store(dst, n, piece);
      n := n + |piece|;
      p := p + 1;
    }
    dst[n] := 0;
    k, w := p, n;
  }

  method Store(dst: array<byte>, at: nat, piece: seq<byte>)
    requires at + |piece| <= dst.Length
    modifies dst
    ensures dst[..at] == old(dst[..at]) && dst[at..at + |piece|] == piece
    ensures dst[..at + |piece|] == old(dst[..at]) + piece
  {
    for i := 0 to |piece|
      invariant dst[..at] == old(dst[..at]) && dst[at..at + i] == piece[..i]
    {
      dst[at + i] := piece[i];
    }
  }

  lemma EscapeNothing()
    ensures EscapeAll([]) == []
  {
  }

  // ----- The string lexer -----

  predicate IsHex(c: byte) {
    0x30 <= c <= 0x39 || 0x41 <= c <= 0x46 || 0x61 <= c <= 0x66
  }

  function HexValue(c: byte): nat
    requires IsHex(c)
  {
    if c <= 0x39 then c - 0x30 else if c <= 0x46 then c - 0x41 + 10 else c - 0x61 + 10
  }

  predicate FourHex(t: seq<byte>) {
    |t| >= 4 && IsHex(t[0]) && IsHex(t[1]) && IsHex(t[2]) && IsHex(t[3])
  }

  function Hex4(t: seq<byte>): (v: nat)
    requires FourHex(t)
    ensures v < 0x10000
  {
    ((HexValue(t[0]) * 16 + HexValue(t[1])) * 16 + HexValue(t[2])) * 16 + HexValue(t[3])
  }

  /** A code point as UTF-8; zero becomes a space. */
  function Utf8(cp: nat): (s: seq<byte>)
    ensures 1 <= |s| <= 4
  {
    if cp == 0 then [0x20]
    else if cp < 0x80 then [cp]
    else if cp < 0x800 then [0xC0 + cp / 64, 0x80 + cp % 64]
    else if cp < 0x10000 then [0xE0 + cp / 4096, 0x80 + cp / 64 % 64, 0x80 + cp % 64]
    else if cp <= 0x10FFFF then [0xF0 + cp / 262144, 0x80 + cp / 4096 % 64, 0x80 + cp / 64 % 64, 0x80 + cp % 64]
    else [0x3F]
  }

  /** Bytes a piece of text stands for, and how much of the text it takes. */
  datatype Piece = Piece(bytes: seq<byte>, used: nat)

  /** After a backslash and a u: four hexadecimal digits, with a low surrogate escape if they
      are a high surrogate; a lone surrogate is replaced. */
  function UnicodeEscape(t: seq<byte>): (p: Piece)
    requires FourHex(t)
    ensures 4 <= p.used <= |t| && 1 <= |p.bytes| <= 4
  {
    var cp := Hex4(t);
    if 0xD800 <= cp <= 0xDBFF && |t| >= 10 && t[4] == BACKSLASH && t[5] == 0x75 && FourHex(t[6..])
       && 0xDC00 <= Hex4(t[6..]) <= 0xDFFF then
      Piece(Utf8(0x10000 + (cp - 0xD800) * 1024 + (Hex4(t[6..]) - 0xDC00)), 10)
    else
      Piece(Utf8(if 0xD800 <= cp <= 0xDFFF then 0xFFFD else cp), 4)
  }

  /** What follows a backslash. */
  function Unescaped(t: seq<byte>): (p: Piece)
    requires t != []
    ensures 1 <= p.used <= |t| && 1 <= |p.bytes| <= 4
  {
    var e := t[0];
    if e == 0x62 then Piece([0x08], 1)
    else if e == 0x66 then Piece([0x0C], 1)
    else if e == 0x6E then Piece([0x0A], 1)
    else if e == 0x72 then Piece([0x0D], 1)
    else if e == 0x74 then Piece([0x09], 1)
    else if e == 0x75 then
      if FourHex(t[1..]) then
        var u := UnicodeEscape(t[1..]);
        Piece(u.bytes, 1 + u.used)
      else Piece([0x3F], 1)
    else Piece([e], 1)
  }

  /** One element of a string's text that is not the closing quote. */
  function Element(t: seq<byte>): (p: Piece)
    requires t != []
    ensures 1 <= p.used <= |t| && 1 <= |p.bytes| <= 4
  {
    if t[0] == BACKSLASH && |t| > 1 then
      var u := Unescaped(t[1..]);
      Piece(u.bytes, 1 + u.used)
    else Piece([t[0]], 1)
  }

  datatype Lexed = NoString | Str(str: seq<byte>, used: nat)

  /** The text after an opening quote, up to and with the closing one. */
  function StringBody(t: seq<byte>): (r: Lexed)
    ensures r.Str? ==> 1 <= r.used <= |t|
    decreases |t|
  {
    if t == [] then NoString
    else if t[0] == QUOTE then Str([], 1)
    else
      var p := Element(t);
      var rest := StringBody(t[p.used..]);
      if rest.NoString? then NoString else Str(p.bytes + rest.str, p.used + rest.used)
  }

  /** The lexer reads back what the escaper wrote for one byte. */
  lemma ElementOfEscape(c: byte, back: seq<byte>)
    requires c != 0
    ensures EscapeByte(c)[0] != QUOTE
    ensures Element(EscapeByte(c) + back) == Piece([c], |EscapeByte(c)|)
  {
    hide FourHex, Hex4;
    var t := EscapeByte(c) + back;
    if c < 0x20 && c != 0x0A && c != 0x0D && c != 0x09 && c != 0x08 && c != 0x0C {
      ControlEscape(c, back);
      assert t[1..][1..] == [0x30, 0x30, HexDigit(c / 16), HexDigit(c % 16)] + back;
    }
  }

  lemma ControlEscape(c: byte, back: seq<byte>)
    requires 0 < c < 0x20
    ensures var t := [0x30, 0x30, HexDigit(c / 16), HexDigit(c % 16)] + back;
      FourHex(t) && UnicodeEscape(t) == Piece([c], 4)
  {
    HexRoundTrip(c / 16);
    HexRoundTrip(c % 16);
  }

  lemma HexRoundTrip(d: nat)
    requires d < 16
    ensures IsHex(HexDigit(d)) && HexValue(HexDigit(d)) == d
  {
  }

  ghost predicate NulFree(s: seq<byte>) {
    forall i :: 0 <= i < |s| ==> s[i] != 0
  }

  /** Lexing undoes escaping, whatever follows the closing quote. */
  lemma {:induction false} BodyOfEscape(s: seq<byte>, back: seq<byte>)
    requires NulFree(s)
    ensures StringBody(EscapeAll(s) + [QUOTE] + back) == Str(s, |EscapeAll(s)| + 1)
    decreases |s|
  {
    hide EscapeByte, Element;
    if s == [] {
      assert EscapeAll(s) + [QUOTE] + back == [QUOTE] + back;
    } else {
      var tail := EscapeAll(s[1..]) + [QUOTE] + back;
      var t := EscapeAll(s) + [QUOTE] + back;
      assert t == EscapeByte(s[0]) + tail;
      ElementOfEscape(s[0], tail);
      assert t[|EscapeByte(s[0])|..] == tail;
      BodyOfEscape(s[1..], back);
      assert [s[0]] + s[1..] == s;
    }
  }
}
