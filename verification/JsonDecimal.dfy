/** Natural numbers in decimal: a printer and a scanner for which the JSON round trip holds of every
    tree whose numbers fit the parser's window. */
module JsonDecimal {
  import opened Bits
  import opened JsonText
  import opened JsonValue
  import opened JsonLayout

  predicate IsDigit(c: byte) { 0x30 <= c <= 0x39 }

  predicate AllDigits(t: seq<byte>) { forall i :: 0 <= i < |t| ==> IsDigit(t[i]) }

  /** The number of digits the text starts with. */
  function DigitsAhead(t: seq<byte>): (n: nat)
    ensures n <= |t| && AllDigits(t[..n])
  {
    if t == [] || !IsDigit(t[0]) then 0 else
      assert t[..1 + DigitsAhead(t[1..])] == [t[0]] + t[1..][..DigitsAhead(t[1..])];
      1 + DigitsAhead(t[1..])
  }

  function ValueOfDigits(t: seq<byte>): nat
    requires AllDigits(t)
  {
    if t == [] then 0 else 10 * ValueOfDigits(t[..|t| - 1]) + (t[|t| - 1] - 0x30)
  }

  function DigitsOf(n: nat): (t: seq<byte>)
    ensures t != [] && AllDigits(t)
  {
    if n < 10 then [0x30 + n] else DigitsOf(n / 10) + [0x30 + n % 10]
  }

  function ScanDecimal(t: seq<byte>): Scan {
    if DigitsAhead(t) == 0 then NoNumber
    else Number(ValueOfDigits(t[..DigitsAhead(t)]) as real, DigitsAhead(t))
  }

  predicate IsNatural(x: real) { x >= 0.0 && x == x.Floor as real }

  function PrintDecimal(x: real): seq<byte> {
    if IsNatural(x) then DigitsOf(x.Floor) else []
  }

  lemma {:induction false} DigitsSpell(n: nat)
    ensures ValueOfDigits(DigitsOf(n)) == n
  {
    if n >= 10 {
      DigitsSpell(n / 10);
      assert DigitsOf(n)[..|DigitsOf(n)| - 1] == DigitsOf(n / 10);
    }
  }

  /** Digits are read to their end. */
  lemma {:induction false} DigitsEnd(t: seq<byte>, back: seq<byte>)
    requires AllDigits(t) && (back == [] || !IsDigit(back[0]))
    ensures DigitsAhead(t + back) == |t|
  {
    if t != [] {
      DigitsEnd(t[1..], back);
      assert (t + back)[1..] == t[1..] + back;
    } else {
      assert t + back == back;
    }
  }

  lemma DecimalIsScanner()
    ensures IsScanner(ScanDecimal)
  {
  }

  lemma DecimalInWindow(n: nat, back: seq<byte>)
    requires |DigitsOf(n)| <= NUMBER_WINDOW && Delimited(back)
    ensures ScanDecimal(Window(DigitsOf(n) + back)) == Number(n as real, |DigitsOf(n)|)
  {
    hide DigitsOf, ValueOfDigits, DigitsAhead;
    var t := DigitsOf(n);
    var w := Window(t + back);
    assert w == t + w[|t|..];
    DigitsEnd(t, w[|t|..]);
    assert w[..|t|] == t;
    DigitsSpell(n);
  }

  /** A natural number is readable exactly when its digits fit the window. */
  lemma NaturalReadableIff(n: nat)
    ensures Readable(n as real, PrintDecimal, ScanDecimal) <==> |DigitsOf(n)| <= NUMBER_WINDOW
  {
    hide DigitsOf, ScanDecimal;
    var x := n as real;
    assert IsNatural(x) && PrintDecimal(x) == DigitsOf(n);
    assert IsDigit(DigitsOf(n)[0]);
    if |DigitsOf(n)| <= NUMBER_WINDOW {
      forall back | Delimited(back)
        ensures ScanDecimal(Window(PrintDecimal(x) + back)) == Number(x, |PrintDecimal(x)|)
      {
        DecimalInWindow(n, back);
      }
    } else {
      var t := PrintDecimal(x) + [];
      assert Delimited([]) && |Window(t)| < |PrintDecimal(x)|;
      DecimalIsScanner();
      assert ScanDecimal(Window(t)) != Number(x, |PrintDecimal(x)|);
    }
  }

  /** The numbers of the tree are natural and no longer than the window. */
  ghost predicate DecimalTree(v: Json)
    decreases v
  {
    match v
    case JNum(x) => IsNatural(x) && |DigitsOf(x.Floor)| <= NUMBER_WINDOW
    case JStr(s) => NulFree(s)
    case JArr(items) => forall i :: 0 <= i < |items| ==> DecimalTree(items[i])
    case JObj(entries) => forall i :: 0 <= i < |entries| ==> NulFree(entries[i].key) && DecimalTree(entries[i].val)
    case _ => true
  }

  lemma {:induction false} DecimalTreePrintable(v: Json)
    requires DecimalTree(v)
    ensures Printable(v, PrintDecimal, ScanDecimal)
    decreases v
  {
    match v
    case JNum(x) => NaturalReadableIff(x.Floor);
    case JArr(items) =>
      forall i | 0 <= i < |items| ensures Printable(items[i], PrintDecimal, ScanDecimal) {
        DecimalTreePrintable(items[i]);
      }
    case JObj(entries) =>
      forall i | 0 <= i < |entries| ensures Printable(entries[i].val, PrintDecimal, ScanDecimal) {
        DecimalTreePrintable(entries[i].val);
      }
    case _ =>
  }

  /** Every such tree comes back from its text exactly when no node is deeper than 64. */
  lemma DecimalTreeReturns(v: Json)
    requires DecimalTree(v)
    ensures IsScanner(ScanDecimal)
    ensures Root(Print(v, PrintDecimal), ScanDecimal)
         == if Height(v) <= MAX_DEPTH then Ok(v, |Print(v, PrintDecimal)|) else Fail
  {
    hide Root, Print, Height, Printable, ScanDecimal, PrintDecimal;
    DecimalIsScanner();
    DecimalTreePrintable(v);
    RootOfPrint(v, PrintDecimal, ScanDecimal);
  }

  /** So does every other text of such a tree, whatever its gaps and commas and whatever follows. */
  lemma DecimalTextReturns(marked: bool, lead: Gap, d: Doc, more: seq<byte>)
    requires GoodGap(lead) && LaidOut(d) && DecimalTree(Tree(d)) && (Tree(d).JNum? ==> Delimited(more))
    ensures IsScanner(ScanDecimal)
    ensures var t := GapText(lead) + TextThen(d, PrintDecimal, more);
      |more| <= |t| && Root(if marked then MARK + t else t, ScanDecimal)
      == if Height(Tree(d)) <= MAX_DEPTH then Ok(Tree(d), |t| - |more|) else Fail
  {
    hide Root, TextThen, Height, Printable, ScanDecimal, PrintDecimal, Tree, LaidOut;
    DecimalIsScanner();
    DecimalTreePrintable(Tree(d));
    RootOfText(marked, lead, d, more, PrintDecimal, ScanDecimal);
  }

  /** Such trees hold numbers, strings and both kinds of container. */
  lemma DecimalTreeExample()
    ensures DecimalTree(JArr([JNum(64.0), JObj([Entry([0x6B], JNum(0.0))]), JStr([0x6B]), JNull]))
  {
    assert DigitsOf(64) == [0x36, 0x34];
    assert DecimalTree(JObj([Entry([0x6B], JNum(0.0))]));
  }
}
