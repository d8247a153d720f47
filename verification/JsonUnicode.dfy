/** Unicode escapes of JSON strings: what they are read as, checked by a decoder of UTF-8
    (RFC 3629, section 3). */
module JsonUnicode {
  import opened Bits
  import opened JsonText
  import opened Options

  // ----- UTF-8 -----

  predicate Scalar(cp: nat) { cp <= 0x10FFFF && !(0xD800 <= cp <= 0xDFFF) }

  predicate Continues(c: byte) { 0x80 <= c <= 0xBF }

  /** The bits of a byte below its mark. */
  function Low(c: byte, mark: nat): nat
    requires mark <= c
  {
    c - mark
  }

  datatype Point = Point(cp: nat, used: nat)

  /** The code point at the front of the bytes: 0xxxxxxx, or a leading byte 110xxxxx, 1110xxxx or
      11110xxx and one to three bytes 10xxxxxx, in the shortest form. */
  function FirstPoint(s: seq<byte>): Option<Point> {
    if s == [] then None
    else if s[0] <= 0x7F then Some(Point(s[0], 1))
    else if 0xC0 <= s[0] <= 0xDF && |s| >= 2 && Continues(s[1]) then
      InForm(Low(s[0], 0xC0) * 0x40 + Low(s[1], 0x80), 2, 0x80)
    else if 0xE0 <= s[0] <= 0xEF && |s| >= 3 && Continues(s[1]) && Continues(s[2]) then
      InForm(Low(s[0], 0xE0) * 0x1000 + Low(s[1], 0x80) * 0x40 + Low(s[2], 0x80), 3, 0x800)
    else if 0xF0 <= s[0] <= 0xF7 && |s| >= 4 && Continues(s[1]) && Continues(s[2]) && Continues(s[3]) then
      InForm(Low(s[0], 0xF0) * 0x40000 + Low(s[1], 0x80) * 0x1000 + Low(s[2], 0x80) * 0x40 + Low(s[3], 0x80), 4,
             0x10000)
    else None
  }

  function InForm(cp: nat, used: nat, least: nat): Option<Point> {
    if cp >= least && Scalar(cp) then Some(Point(cp, used)) else None
  }

  /** The code points of a byte string, if it is UTF-8. */
  function Points(s: seq<byte>): Option<seq<nat>> {
    if s == [] then Some([])
    else
      var p := FirstPoint(s);
      if p.None? || p.value.used > |s| || p.value.used == 0 then None
      else
        var rest := Points(s[p.value.used..]);
        if rest.None? then None else Some([p.value.cp] + rest.value)
  }

  lemma SixBits(cp: nat)
    ensures cp == cp / 64 * 64 + cp % 64
    ensures cp / 4096 == cp / 64 / 64 && cp / 262144 == cp / 64 / 64 / 64
  {
  }

  /** The encoder's bytes decode to the code point, whatever follows them. */
  lemma Utf8Decodes(cp: nat, back: seq<byte>)
    requires Scalar(cp) && cp != 0
    ensures FirstPoint(Utf8(cp) + back) == Some(Point(cp, |Utf8(cp)|))
  {
    SixBits(cp);
    SixBits(cp / 64);
    SixBits(cp / 64 / 64);
    var s := Utf8(cp) + back;
    assert forall i :: 0 <= i < |Utf8(cp)| ==> s[i] == Utf8(cp)[i];
  }

  function EncodeAll(cps: seq<nat>): seq<byte> {
    if cps == [] then [] else Utf8(cps[0]) + EncodeAll(cps[1..])
  }

  ghost predicate AllScalar(cps: seq<nat>) {
    forall i :: 0 <= i < |cps| ==> Scalar(cps[i]) && cps[i] != 0
  }

  lemma {:induction false} EncodedDecodes(cps: seq<nat>)
    requires AllScalar(cps)
    ensures Points(EncodeAll(cps)) == Some(cps)
  {
    hide Utf8, FirstPoint, Scalar;
    if cps != [] {
      var rest := EncodeAll(cps[1..]);
      Utf8Decodes(cps[0], rest);
      EncodedDecodes(cps[1..]);
      assert (Utf8(cps[0]) + rest)[|Utf8(cps[0])|..] == rest;
      assert [cps[0]] + cps[1..] == cps;
    }
  }

  // ----- Escapes -----

  /** A hexadecimal digit in either case. */
  function Digit(d: nat, upper: bool): byte
    requires d < 16
  {
    if d >= 10 && upper then 0x41 + d - 10 else HexDigit(d)
  }

  function Unit(u: nat, upper: bool): (t: seq<byte>)
    requires u < 0x10000
    ensures |t| == 4
  {
    [Digit(u / 4096, upper), Digit(u / 256 % 16, upper), Digit(u / 16 % 16, upper), Digit(u % 16, upper)]
  }

  /** The escape of a code point: one unit, or a pair of surrogates (RFC 8259, section 7). */
  function PointText(cp: nat, upper: bool): seq<byte>
    requires cp <= 0x10FFFF
  {
    if cp < 0x10000 then [BACKSLASH, 0x75] + Unit(cp, upper)
    else
      [BACKSLASH, 0x75] + Unit(0xD800 + (cp - 0x10000) / 1024, upper)
      + [BACKSLASH, 0x75] + Unit(0xDC00 + (cp - 0x10000) % 1024, upper)
  }

  lemma DigitReads(d: nat, upper: bool)
    requires d < 16
    ensures IsHex(Digit(d, upper)) && HexValue(Digit(d, upper)) == d
  {
  }

  lemma UnitReads(u: nat, upper: bool, back: seq<byte>)
    requires u < 0x10000
    ensures var t := Unit(u, upper) + back; FourHex(t) && Hex4(t) == u
  {
    hide Digit, IsHex, HexValue;
    DigitReads(u / 4096, upper);
    DigitReads(u / 256 % 16, upper);
    DigitReads(u / 16 % 16, upper);
    DigitReads(u % 16, upper);
    Nibbles(u);
  }

  lemma Nibbles(u: nat)
    requires u < 0x10000
    ensures ((u / 4096 * 16 + u / 256 % 16) * 16 + u / 16 % 16) * 16 + u % 16 == u
  {
  }

  /** The escape of a scalar value is read as its encoding. */
  lemma EscapeReads(cp: nat, upper: bool, back: seq<byte>)
    requires Scalar(cp)
    ensures Element(PointText(cp, upper) + back) == Piece(Utf8(cp), |PointText(cp, upper)|)
    ensures PointText(cp, upper)[0] != QUOTE
  {
    hide Unit, FourHex, Hex4, Utf8;
    var t := PointText(cp, upper) + back;
    if cp < 0x10000 {
      UnitReads(cp, upper, back);
      assert t[1..][1..] == Unit(cp, upper) + back;
    } else {
      var v := cp - 0x10000;
      var low := [BACKSLASH, 0x75] + Unit(0xDC00 + v % 1024, upper) + back;
      UnitReads(0xD800 + v / 1024, upper, low);
      UnitReads(0xDC00 + v % 1024, upper, back);
      var u := t[1..][1..];
      assert u == Unit(0xD800 + v / 1024, upper) + low;
      assert u[6..] == Unit(0xDC00 + v % 1024, upper) + back;
      assert u[4] == BACKSLASH && u[5] == 0x75;
      assert 0x10000 + v / 1024 * 1024 + v % 1024 == cp;
    }
  }

  function PointsText(cps: seq<nat>, upper: bool): seq<byte>
    requires AllScalar(cps)
  {
    if cps == [] then [] else PointText(cps[0], upper) + PointsText(cps[1..], upper)
  }

  /** A string written in escapes is read as bytes that decode to its code points. */
  lemma {:induction false} EscapedStringReads(cps: seq<nat>, upper: bool, back: seq<byte>)
    requires AllScalar(cps)
    ensures StringBody(PointsText(cps, upper) + [QUOTE] + back) == Str(EncodeAll(cps), |PointsText(cps, upper)| + 1)
    ensures Points(EncodeAll(cps)) == Some(cps)
  {
    hide Element, Utf8, Points, PointText;
    EncodedDecodes(cps);
    if cps == [] {
      assert [] + [QUOTE] + back == [QUOTE] + back;
    } else {
      var tail := PointsText(cps[1..], upper) + [QUOTE] + back;
      var t := PointsText(cps, upper) + [QUOTE] + back;
      assert t == PointText(cps[0], upper) + tail;
      EscapeReads(cps[0], upper, tail);
      assert t[|PointText(cps[0], upper)|..] == tail;
      EscapedStringReads(cps[1..], upper, back);
    }
  }

  /** The escape of zero is read as a space. */
  lemma ZeroReads(upper: bool, back: seq<byte>)
    ensures Element(PointText(0, upper) + back) == Piece([0x20], 6)
  {
    EscapeReads(0, upper, back);
  }

  /** The text does not go on with the escape of a low surrogate. */
  predicate NoLowSurrogate(t: seq<byte>) {
    !(|t| >= 6 && t[0] == BACKSLASH && t[1] == 0x75 && FourHex(t[2..]) && 0xDC00 <= Hex4(t[2..]) <= 0xDFFF)
  }

  /** A surrogate that is no part of a pair is read as U+FFFD. */
  lemma LoneSurrogateReads(u: nat, upper: bool, back: seq<byte>)
    requires 0xD800 <= u <= 0xDFFF && (u <= 0xDBFF ==> NoLowSurrogate(back))
    ensures Element(PointText(u, upper) + back) == Piece([0xEF, 0xBF, 0xBD], 6)
    ensures FirstPoint([0xEF, 0xBF, 0xBD]) == Some(Point(0xFFFD, 3))
  {
    hide Unit, FourHex, Hex4;
    UnitReads(u, upper, back);
    var t := (PointText(u, upper) + back)[1..][1..];
    assert t == Unit(u, upper) + back;
    assert t[4..] == back;
    if |t| >= 10 {
      assert t[6..] == back[2..] && t[4] == back[0] && t[5] == back[1];
    }
  }

  // ----- The other escapes -----

  /** The two-character escapes of section 7 of RFC 8259, by letter and meaning. */
  const SHORT: seq<(byte, byte)> :=
    [(0x22, 0x22), (0x5C, 0x5C), (0x2F, 0x2F), (0x62, 0x08), (0x66, 0x0C), (0x6E, 0x0A), (0x72, 0x0D), (0x74, 0x09)]

  lemma ShortReads(k: nat, back: seq<byte>)
    requires k < |SHORT|
    ensures Element([BACKSLASH, SHORT[k].0] + back) == Piece([SHORT[k].1], 2)
  {
    var t := [BACKSLASH, SHORT[k].0] + back;
    assert t[1..][0] == SHORT[k].0;
  }

  /** Any other character but u stands for itself. */
  lemma OtherReads(c: byte, back: seq<byte>)
    requires c != 0x75 && forall k :: 0 <= k < |SHORT| ==> SHORT[k].0 != c
    ensures Element([BACKSLASH, c] + back) == Piece([c], 2)
  {
    var t := [BACKSLASH, c] + back;
    assert t[1..][0] == c;
    assert SHORT[3].0 != c && SHORT[4].0 != c && SHORT[5].0 != c && SHORT[6].0 != c && SHORT[7].0 != c;
  }

  /** The digits 0 to 9, A to F and a to f. */
  const HEX: seq<byte> := [0x30, 0x31, 0x32, 0x33, 0x34, 0x35, 0x36, 0x37, 0x38, 0x39,
                           0x41, 0x42, 0x43, 0x44, 0x45, 0x46, 0x61, 0x62, 0x63, 0x64, 0x65, 0x66]

  /** A u without four digits behind it stands for a question mark and takes none of them. */
  lemma BadUnicodeReads(back: seq<byte>)
    requires |back| < 4 || back[0] !in HEX || back[1] !in HEX || back[2] !in HEX || back[3] !in HEX
    ensures Element([BACKSLASH, 0x75] + back) == Piece([0x3F], 2)
  {
    hide IsHex;
    var t := [BACKSLASH, 0x75] + back;
    assert t[1..][1..] == back;
    forall c: byte ensures IsHex(c) <==> c in HEX { HexIs(c); }
  }

  lemma HexIs(c: byte)
    ensures IsHex(c) <==> c in HEX
  {
  }

  /** A backslash that ends the text is read as itself. */
  lemma LastBackslashReads()
    ensures Element([BACKSLASH]) == Piece([BACKSLASH], 1)
  {
  }
}
