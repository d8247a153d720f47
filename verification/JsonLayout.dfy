/** Texts of a tree with white space, comments and commas as a writer may place them, and their
    being parsed back. */
module JsonLayout {
  import opened Bits
  import opened Options
  import opened JsonText
  import opened JsonValue

  // ----- Gaps -----

  /** A white-space character, a comment to the end of its line, or a bracketed comment. */
  datatype Blank = Char(c: byte) | Line(text: seq<byte>) | Block(text: seq<byte>)

  type Gap = seq<Blank>

  ghost predicate GoodBlank(b: Blank) {
    match b
    case Char(c) => c in [0x20, 0x09, 0x0D, 0x0A]
    case Line(text) => 0x0A !in text
    case Block(text) => forall i, j :: 0 <= i && j == i + 1 && j < |text| && text[i] == 0x2A ==> text[j] != 0x2F
  }

  ghost predicate GoodGap(g: Gap) { forall i :: 0 <= i < |g| ==> GoodBlank(g[i]) }

  function BlankText(b: Blank): seq<byte> {
    match b
    case Char(c) => [c]
    case Line(text) => [0x2F, 0x2F] + (text + [0x0A])
    case Block(text) => [0x2F, 0x2A] + (text + [0x2A, 0x2F])
  }

  function GapText(g: Gap): seq<byte> {
    if g == [] then [] else BlankText(g[0]) + GapText(g[1..])
  }

  lemma {:induction false} LineSkips(text: seq<byte>, rest: seq<byte>)
    requires 0x0A !in text
    ensures LineLength(text + [0x0A] + rest) == |text|
  {
    if text != [] {
      LineSkips(text[1..], rest);
      assert (text + [0x0A] + rest)[1..] == text[1..] + [0x0A] + rest;
    }
  }

  lemma {:induction false} BlockSkips(text: seq<byte>, rest: seq<byte>)
    requires GoodBlank(Block(text))
    ensures CommentLength(text + [0x2A, 0x2F] + rest) == |text| + 2
  {
    if text != [] {
      BlockTail(text);
      BlockSkips(text[1..], rest);
      assert (text + [0x2A, 0x2F] + rest)[1..] == text[1..] + [0x2A, 0x2F] + rest;
    }
  }

  lemma BlockTail(text: seq<byte>)
    requires text != [] && GoodBlank(Block(text))
    ensures GoodBlank(Block(text[1..])) && (|text| > 1 && text[0] == 0x2A ==> text[1] != 0x2F)
  {
    forall i, j | 0 <= i && j == i + 1 && j < |text[1..]| && text[1..][i] == 0x2A ensures text[1..][j] != 0x2F {
      assert text[i + 1] == 0x2A && text[j + 1] == text[1..][j];
    }
  }

  lemma LineIsSkipped(text: seq<byte>, rest: seq<byte>)
    requires 0x0A !in text
    ensures WsLength(BlankText(Line(text)) + rest) == 2 + |text| + 1 + WsLength(rest)
  {
    hide LineLength;
    var t := BlankText(Line(text)) + rest;
    LineSkips(text, rest);
    assert t[2..] == text + [0x0A] + rest;
    assert t[2 + |text|..] == [0x0A] + rest && ([0x0A] + rest)[1..] == rest;
  }

  lemma BlockIsSkipped(text: seq<byte>, rest: seq<byte>)
    requires GoodBlank(Block(text))
    ensures WsLength(BlankText(Block(text)) + rest) == 2 + |text| + 2 + WsLength(rest)
  {
    hide CommentLength, GoodBlank;
    var t := BlankText(Block(text)) + rest;
    BlockSkips(text, rest);
    assert t[2..] == text + [0x2A, 0x2F] + rest;
    assert t[2 + |text| + 2..] == rest;
  }

  lemma BlankSkips(b: Blank, rest: seq<byte>)
    requires GoodBlank(b)
    ensures WsLength(BlankText(b) + rest) == |BlankText(b)| + WsLength(rest)
  {
    match b
    case Char(c) => assert ([c] + rest)[1..] == rest;
    case Line(text) => LineIsSkipped(text, rest);
    case Block(text) => BlockIsSkipped(text, rest);
  }

  /** White space and comments are skipped whole, whatever follows. */
  lemma {:induction false} GapSkips(g: Gap, rest: seq<byte>)
    requires GoodGap(g)
    ensures WsLength(GapText(g) + rest) == |GapText(g)| + WsLength(rest)
  {
    hide BlankText, GoodBlank, WsLength;
    if g == [] {
      assert [] + rest == rest;
    } else {
      GapSkips(g[1..], rest);
      BlankSkips(g[0], GapText(g[1..]) + rest);
      assert GapText(g) + rest == BlankText(g[0]) + (GapText(g[1..]) + rest);
    }
  }

  /** A comment that nothing closes. */
  ghost predicate OpenComment(t: seq<byte>) {
    |t| >= 2 && t[0] == 0x2F && (if t[1] == 0x2F then 0x0A !in t[2..] else t[1] == 0x2A && GoodBlank(Block(t[2..])))
  }

  /** What is skipped at the front of a text: a gap, and perhaps an open comment to the end. */
  ghost predicate Skipped(t: seq<byte>, g: Gap) {
    && GoodGap(g) && |GapText(g)| <= WsLength(t) && t[..|GapText(g)|] == GapText(g)
    && (|GapText(g)| < WsLength(t) ==> WsLength(t) == |t| && OpenComment(t[|GapText(g)|..]))
  }

  lemma {:induction false} LineAhead(t: seq<byte>)
    ensures var n := LineLength(t); 0x0A !in t[..n] && (n < |t| ==> t[n] == 0x0A)
  {
    if t != [] && t[0] != 0x0A {
      LineAhead(t[1..]);
      assert t[..LineLength(t)] == [t[0]] + t[1..][..LineLength(t[1..])];
    }
  }

  /** A bracketed comment ends at its first end, or with the text. */
  ghost predicate BlockEnds(t: seq<byte>, n: nat) {
    n <= |t| &&
    if n >= 2 && t[n - 2] == 0x2A && t[n - 1] == 0x2F
    then GoodBlank(Block(t[..n - 2])) || (n == |t| && GoodBlank(Block(t)))
    else n == |t| && GoodBlank(Block(t))
  }

  lemma {:induction false} BlockAhead(t: seq<byte>)
    ensures BlockEnds(t, CommentLength(t))
  {
    if |t| >= 2 && !(t[0] == 0x2A && t[1] == 0x2F) {
      BlockAhead(t[1..]);
      BlockMore(t, CommentLength(t));
    }
  }

  lemma BlockMore(t: seq<byte>, n: nat)
    requires 2 <= |t| && !(t[0] == 0x2A && t[1] == 0x2F) && 1 <= n && BlockEnds(t[1..], n - 1)
    ensures BlockEnds(t, n)
  {
    if n >= 3 { assert t[..n - 2] == [t[0]] + t[1..][..n - 3]; }
  }

  lemma GapGrows(b: Blank, t: seq<byte>, g: Gap)
    requires GoodBlank(b) && Skipped(t, g)
    ensures Skipped(BlankText(b) + t, [b] + g)
  {
    hide WsLength, BlankText, GoodBlank, OpenComment;
    BlankSkips(b, t);
    var u, h := BlankText(b) + t, [b] + g;
    assert h[1..] == g;
    assert GapText(h) == BlankText(b) + GapText(g);
    assert u[..|GapText(h)|] == BlankText(b) + t[..|GapText(g)|];
    assert u[|GapText(h)|..] == t[|GapText(g)|..];
  }

  /** Nothing but white space and comments is skipped, the last comment perhaps open. */
  lemma {:induction false} SkippedIsGap(t: seq<byte>) returns (g: Gap)
    ensures Skipped(t, g)
    decreases |t|
  {
    hide Skipped, GoodBlank;
    g := [];
    if t != [] && IsWs(t[0]) {
      g := SkippedIsGap(t[1..]);
      CharAhead(t);
      GapGrows(Char(t[0]), t[1..], g);
      g := [Char(t[0])] + g;
    } else if |t| > 1 && t[0] == 0x2F && t[1] == 0x2F && 2 + LineLength(t[2..]) < |t| {
      var n := LineLength(t[2..]);
      LineAhead(t[2..]);
      LineSplit(t, n);
      g := SkippedIsGap(t[3 + n..]);
      GapGrows(Line(t[2..2 + n]), t[3 + n..], g);
      g := [Line(t[2..2 + n])] + g;
    } else if |t| > 1 && t[0] == 0x2F && t[1] == 0x2A && !GoodBlank(Block(t[2..])) {
      var n := CommentLength(t[2..]);
      BlockAhead(t[2..]);
      BlockSplit(t, n);
      g := SkippedIsGap(t[2 + n..]);
      GapGrows(Block(t[2..n]), t[2 + n..], g);
      g := [Block(t[2..n])] + g;
    } else {
      NoGap(t);
    }
  }

  lemma CharAhead(t: seq<byte>)
    requires t != [] && IsWs(t[0])
    ensures GoodBlank(Char(t[0])) && t == BlankText(Char(t[0])) + t[1..]
  {
  }

  lemma LineSplit(t: seq<byte>, n: nat)
    requires 2 + n < |t| && t[0] == 0x2F && t[1] == 0x2F && 0x0A !in t[2..][..n] && t[2..][n] == 0x0A
    ensures GoodBlank(Line(t[2..2 + n])) && t == BlankText(Line(t[2..2 + n])) + t[3 + n..]
  {
    assert t[2..2 + n] == t[2..][..n];
  }

  lemma BlockSplit(t: seq<byte>, n: nat)
    requires 2 <= |t| && t[0] == 0x2F && t[1] == 0x2A && BlockEnds(t[2..], n) && !GoodBlank(Block(t[2..]))
    ensures 2 <= n <= |t| - 2 && GoodBlank(Block(t[2..n])) && t == BlankText(Block(t[2..n])) + t[2 + n..]
  {
    hide GoodBlank;
    assert t[2..n] == t[2..][..n - 2];
    assert t[n] == t[2..][n - 2] && t[n + 1] == t[2..][n - 1];
  }

  /** Where no gap ends, nothing is skipped or an open comment to the end. */
  lemma NoGap(t: seq<byte>)
    requires t == [] || !IsWs(t[0])
    requires |t| > 1 && t[0] == 0x2F && t[1] == 0x2F ==> 2 + LineLength(t[2..]) == |t|
    requires |t| > 1 && t[0] == 0x2F && t[1] == 0x2A ==> GoodBlank(Block(t[2..]))
    ensures Skipped(t, [])
  {
    if |t| > 1 && t[0] == 0x2F && t[1] == 0x2F {
      LineAhead(t[2..]);
      assert t[2..][..|t| - 2] == t[2..] && t[|t|..] == [];
    } else if |t| > 1 && t[0] == 0x2F && t[1] == 0x2A {
      OpenRuns(t[2..]);
      assert t[|t|..] == [];
    }
    hide GoodBlank, LineLength, CommentLength;
    assert t[0..] == t;
  }

  lemma {:induction false} OpenRuns(t: seq<byte>)
    requires GoodBlank(Block(t))
    ensures CommentLength(t) == |t|
  {
    if |t| >= 2 {
      BlockTail(t);
      OpenRuns(t[1..]);
    }
  }

  // ----- Texts of a tree -----

  type Printer = real -> seq<byte>

  /** A tree with the gaps and commas of one of its texts. */
  datatype Doc =
    | Leaf(v: Json)
    | Arr(parts: seq<Part>, last: Gap)
    | Obj(fields: seq<Field>, last: Gap)

  /** A value, with the gap before it and perhaps a gap and a comma after it. */
  datatype Part = Part(before: Gap, doc: Doc, comma: Option<Gap>)

  /** A key with the gaps before it and its colon, and the value. */
  datatype Field = Field(start: Gap, key: seq<byte>, colon: Gap, part: Part)

  function Tree(d: Doc): Json
    decreases d, 0
  {
    match d
    case Leaf(v) => v
    case Arr(parts, _) => JArr(TreeItems(parts))
    case Obj(fields, _) => JObj(TreeEntries(fields))
  }

  function TreeItems(parts: seq<Part>): (items: seq<Json>)
    ensures |items| == |parts|
    decreases parts, 1
  {
    if parts == [] then [] else [Tree(parts[0].doc)] + TreeItems(parts[1..])
  }

  function TreeEntries(fields: seq<Field>): (entries: seq<Entry>)
    ensures |entries| == |fields|
    decreases fields, 1
  {
    if fields == [] then [] else [Entry(fields[0].key, Tree(fields[0].part.doc))] + TreeEntries(fields[1..])
  }

  function Quoted(s: seq<byte>): seq<byte> {
    [QUOTE] + (EscapeAll(s) + [QUOTE])
  }

  function LeafText(v: Json, number: Printer): seq<byte> {
    match v
    case JNull => NULL_TEXT
    case JBool(b) => if b then TRUE_TEXT else FALSE_TEXT
    case JNum(x) => number(x)
    case JStr(s) => Quoted(s)
    case _ => []
  }

  /** The text of a tree, followed by more. */
  function TextThen(d: Doc, number: Printer, more: seq<byte>): seq<byte>
    decreases d, 0
  {
    match d
    case Leaf(v) => LeafText(v, number) + more
    case Arr(parts, last) => [0x5B] + PartsThen(parts, number, Closing(last, 0x5D, more))
    case Obj(fields, last) => [0x7B] + FieldsThen(fields, number, Closing(last, 0x7D, more))
  }

  function Closing(last: Gap, bracket: byte, more: seq<byte>): seq<byte> {
    GapText(last) + ([bracket] + more)
  }

  function CommaThen(comma: Option<Gap>, more: seq<byte>): seq<byte> {
    if comma.None? then more else GapText(comma.value) + ([0x2C] + more)
  }

  function PartThen(p: Part, number: Printer, more: seq<byte>): seq<byte>
    decreases p, 1
  {
    GapText(p.before) + TextThen(p.doc, number, CommaThen(p.comma, more))
  }

  function PartsThen(parts: seq<Part>, number: Printer, end: seq<byte>): seq<byte>
    decreases parts, 2
  {
    if parts == [] then end else PartThen(parts[0], number, PartsThen(parts[1..], number, end))
  }

  function FieldThen(f: Field, number: Printer, more: seq<byte>): seq<byte>
    decreases f, 2
  {
    GapText(f.start) + (Quoted(f.key) + (GapText(f.colon) + ([0x3A] + PartThen(f.part, number, more))))
  }

  function FieldsThen(fields: seq<Field>, number: Printer, end: seq<byte>): seq<byte>
    decreases fields, 3
  {
    if fields == [] then end else FieldThen(fields[0], number, FieldsThen(fields[1..], number, end))
  }

  ghost predicate GoodComma(comma: Option<Gap>) { comma.Some? ==> GoodGap(comma.value) }

  /** Gaps are gaps, and a number without a comma is set apart from what comes next. */
  ghost predicate LaidOut(d: Doc)
    decreases d, 0
  {
    match d
    case Leaf(v) => !v.JArr? && !v.JObj?
    case Arr(parts, last) => GoodGap(last) && LaidParts(parts)
    case Obj(fields, last) => GoodGap(last) && LaidFields(fields)
  }

  ghost predicate LaidPart(p: Part)
    decreases p, 1
  {
    GoodGap(p.before) && LaidOut(p.doc) && GoodComma(p.comma)
  }

  ghost predicate LaidField(f: Field)
    decreases f, 2
  {
    GoodGap(f.start) && GoodGap(f.colon) && LaidPart(f.part)
  }

  ghost predicate LaidParts(parts: seq<Part>)
    decreases parts, 2
  {
    parts == [] ||
    (LaidPart(parts[0]) && LaidParts(parts[1..])
     && (Tree(parts[0].doc).JNum? && parts[0].comma.None? && |parts| > 1 ==> parts[1].before != []))
  }

  ghost predicate LaidFields(fields: seq<Field>)
    decreases fields, 3
  {
    fields == [] ||
    (LaidField(fields[0]) && LaidFields(fields[1..])
     && (Tree(fields[0].part.doc).JNum? && fields[0].part.comma.None? && |fields| > 1 ==> fields[1].start != []))
  }

  /** What may follow a number. */
  predicate Delimited(back: seq<byte>) {
    back == [] || IsWs(back[0]) || back[0] in [0x2F, 0x2C, 0x5D, 0x7D]
  }

  /** The printer writes x as the scanner reads it: in front of any delimiter the scanner stops at
      the end of the printed text and finds x.  The scanner sees 63 bytes only, so a number with a
      longer text is not readable. */
  ghost predicate Readable(x: real, number: Printer, strtod: Scanner) {
    && number(x) != [] && StartsNumber(number(x)[0])
    && forall back {:trigger number(x) + back} :: Delimited(back) ==>
         strtod(Window(number(x) + back)) == Number(x, |number(x)|)
  }

  /** The tree's numbers are readable; its strings and keys hold no zero byte, as strings of the
      program's language cannot. */
  ghost predicate Printable(v: Json, number: Printer, strtod: Scanner)
    decreases v
  {
    match v
    case JNum(x) => Readable(x, number, strtod)
    case JStr(s) => NulFree(s)
    case JArr(items) => forall i :: 0 <= i < |items| ==> Printable(items[i], number, strtod)
    case JObj(entries) =>
      forall i :: 0 <= i < |entries| ==> NulFree(entries[i].key) && Printable(entries[i].val, number, strtod)
    case _ => true
  }

  // ----- What a parser leaves -----

  /** A value and how many bytes are left behind its text. */
  datatype Left<+T> = Refused | Left(value: T, left: nat)

  function Leaves<T>(r: Parsed<T>, t: seq<byte>): Left<T>
    requires r.Ok? ==> r.used <= |t|
  {
    if r.Fail? then Refused else Left(r.value, |t| - r.used)
  }

  predicate EndsWith(t: seq<byte>, more: seq<byte>) {
    |more| <= |t| && t[|t| - |more|..] == more
  }

  lemma EndsLater(a: seq<byte>, t: seq<byte>, more: seq<byte>)
    requires EndsWith(t, more)
    ensures EndsWith(a + t, more)
  {
    assert (a + t)[|a + t| - |more|..] == t[|t| - |more|..];
  }

  lemma EndsThrough(t: seq<byte>, u: seq<byte>, more: seq<byte>)
    requires EndsWith(t, u) && EndsWith(u, more)
    ensures EndsWith(t, more)
  {
    assert t[|t| - |more|..] == t[|t| - |u|..][|u| - |more|..];
  }

  lemma CommaEnds(comma: Option<Gap>, more: seq<byte>)
    ensures EndsWith(CommaThen(comma, more), more)
  {
    assert EndsWith(more, more);
    if comma.Some? {
      EndsLater([0x2C], more, more);
      EndsLater(GapText(comma.value), [0x2C] + more, more);
    }
  }

  lemma ClosingEnds(last: Gap, bracket: byte, more: seq<byte>)
    ensures EndsWith(Closing(last, bracket, more), more)
  {
    assert EndsWith(more, more);
    EndsLater([bracket], more, more);
    EndsLater(GapText(last), [bracket] + more, more);
  }

  lemma {:induction false} TextEnds(d: Doc, number: Printer, more: seq<byte>)
    ensures EndsWith(TextThen(d, number, more), more)
    decreases d, 0
  {
    hide EndsWith, Closing;
    match d
    case Leaf(v) =>
      SelfEnds(more);
      EndsLater(LeafText(v, number), more, more);
    case Arr(parts, last) =>
      var end := Closing(last, 0x5D, more);
      ClosingEnds(last, 0x5D, more);
      PartsEnd(parts, number, end);
      EndsThrough(PartsThen(parts, number, end), end, more);
      EndsLater([0x5B], PartsThen(parts, number, end), more);
    case Obj(fields, last) =>
      var end := Closing(last, 0x7D, more);
      ClosingEnds(last, 0x7D, more);
      FieldsEnd(fields, number, end);
      EndsThrough(FieldsThen(fields, number, end), end, more);
      EndsLater([0x7B], FieldsThen(fields, number, end), more);
  }

  lemma SelfEnds(more: seq<byte>)
    ensures EndsWith(more, more)
  {
  }

  lemma {:induction false} PartEnds(p: Part, number: Printer, more: seq<byte>)
    ensures EndsWith(PartThen(p, number, more), more)
    decreases p, 1
  {
    hide EndsWith, TextThen, CommaThen, GapText;
    var behind := CommaThen(p.comma, more);
    TextEnds(p.doc, number, behind);
    CommaEnds(p.comma, more);
    EndsThrough(TextThen(p.doc, number, behind), behind, more);
    EndsLater(GapText(p.before), TextThen(p.doc, number, behind), more);
  }

  lemma {:induction false} PartsEnd(parts: seq<Part>, number: Printer, end: seq<byte>)
    ensures EndsWith(PartsThen(parts, number, end), end)
    decreases parts, 2
  {
    hide EndsWith, PartThen;
    SelfEnds(end);
    if parts != [] {
      var rest := PartsThen(parts[1..], number, end);
      PartsEnd(parts[1..], number, end);
      PartEnds(parts[0], number, rest);
      EndsThrough(PartThen(parts[0], number, rest), rest, end);
    }
  }

  lemma {:induction false} FieldEnds(f: Field, number: Printer, more: seq<byte>)
    ensures EndsWith(FieldThen(f, number, more), more)
    decreases f, 2
  {
    hide EndsWith, PartThen, GapText, Quoted;
    var t := PartThen(f.part, number, more);
    PartEnds(f.part, number, more);
    EndsLater([0x3A], t, more);
    EndsLater(GapText(f.colon), [0x3A] + t, more);
    EndsLater(Quoted(f.key), GapText(f.colon) + ([0x3A] + t), more);
    EndsLater(GapText(f.start), Quoted(f.key) + (GapText(f.colon) + ([0x3A] + t)), more);
  }

  lemma {:induction false} FieldsEnd(fields: seq<Field>, number: Printer, end: seq<byte>)
    ensures EndsWith(FieldsThen(fields, number, end), end)
    decreases fields, 3
  {
    hide EndsWith, FieldThen;
    SelfEnds(end);
    if fields != [] {
      var rest := FieldsThen(fields[1..], number, end);
      FieldsEnd(fields[1..], number, end);
      FieldEnds(fields[0], number, rest);
      EndsThrough(FieldThen(fields[0], number, rest), rest, end);
    }
  }

  // ----- One step of the parser -----

  lemma NoWs(t: seq<byte>)
    requires t == [] || (!IsWs(t[0]) && t[0] != 0x2F)
    ensures WsLength(t) == 0
  {
  }

  /** Neither white space, comment, comma nor closing bracket stands first. */
  predicate Solid(t: seq<byte>) {
    t != [] && !IsWs(t[0]) && t[0] !in [0x2F, 0x2C, 0x5D, 0x7D]
  }

  lemma ValueAfterGap(g: Gap, u: seq<byte>, depth: nat, strtod: Scanner)
    requires IsScanner(strtod) && GoodGap(g)
    ensures Leaves(Value(GapText(g) + u, depth, strtod), GapText(g) + u) == Leaves(Value(u, depth, strtod), u)
  {
    hide WsLength, GapText, Items, Entries, Scalar, RawString;
    GapSkips(g, u);
    var t := GapText(g) + u;
    assert t[WsLength(t)..] == u[WsLength(u)..];
  }

  lemma ItemsAfterGap(g: Gap, u: seq<byte>, depth: nat, done: seq<Json>, strtod: Scanner)
    requires IsScanner(strtod) && GoodGap(g)
    ensures Leaves(Items(GapText(g) + u, depth, done, strtod), GapText(g) + u)
         == Leaves(Items(u, depth, done, strtod), u)
  {
    hide WsLength, GapText, Value;
    GapSkips(g, u);
    var t := GapText(g) + u;
    assert t[WsLength(t)..] == u[WsLength(u)..];
    if u == [] { NothingAhead(depth + 1, strtod); }
  }

  lemma EntriesAfterGap(g: Gap, u: seq<byte>, depth: nat, done: seq<Entry>, strtod: Scanner)
    requires IsScanner(strtod) && GoodGap(g)
    ensures Leaves(Entries(GapText(g) + u, depth, done, strtod), GapText(g) + u)
         == Leaves(Entries(u, depth, done, strtod), u)
  {
    hide WsLength, GapText, Value;
    GapSkips(g, u);
    var t := GapText(g) + u;
    assert t[WsLength(t)..] == u[WsLength(u)..];
    if u == [] { NothingAhead(depth + 1, strtod); }
  }

  lemma NothingAhead(depth: nat, strtod: Scanner)
    requires IsScanner(strtod)
    ensures ItemAhead([], depth, strtod) == Fail && EntryAhead([], depth, strtod) == Fail
    ensures WsLength([]) == 0
  {
  }

  lemma ItemsEnd(more: seq<byte>, depth: nat, done: seq<Json>, strtod: Scanner)
    requires IsScanner(strtod)
    ensures Leaves(Items([0x5D] + more, depth, done, strtod), [0x5D] + more) == Left(done, |more|)
  {
    NoWs([0x5D] + more);
  }

  lemma EntriesEnd(more: seq<byte>, depth: nat, done: seq<Entry>, strtod: Scanner)
    requires IsScanner(strtod)
    ensures Leaves(Entries([0x7D] + more, depth, done, strtod), [0x7D] + more) == Left(done, |more|)
  {
    NoWs([0x7D] + more);
  }

  lemma ItemsStep(t: seq<byte>, depth: nat, done: seq<Json>, strtod: Scanner)
    requires IsScanner(strtod) && Solid(t)
    ensures var e := ItemAhead(t, depth + 1, strtod);
      Leaves(Items(t, depth, done, strtod), t) ==
      if e.Fail? then Refused
      else Leaves(Items(t[e.used..], depth, done + [e.value], strtod), t[e.used..])
  {
    hide ItemAhead;
    NoWs(t);
    assert t[0..] == t;
  }

  lemma EntriesStep(t: seq<byte>, depth: nat, done: seq<Entry>, strtod: Scanner)
    requires IsScanner(strtod) && Solid(t)
    ensures var e := EntryAhead(t, depth + 1, strtod);
      Leaves(Entries(t, depth, done, strtod), t) ==
      if e.Fail? then Refused
      else Leaves(Entries(t[e.used..], depth, done + [e.value], strtod), t[e.used..])
  {
    hide EntryAhead;
    NoWs(t);
    assert t[0..] == t;
  }

  /** A value read with more behind it, and the comma there. */
  lemma ItemAheadOf(t: seq<byte>, v: Left<Json>, more: seq<byte>, depth: nat, strtod: Scanner)
    requires IsScanner(strtod) && EndsWith(t, more)
    requires Leaves(Value(t, depth, strtod), t) == v && (v.Refused? || v.left == |more|)
    ensures var e := ItemAhead(t, depth, strtod);
      if v.Refused? then e == Fail
      else e == Ok(v.value, |t| - |more| + CommaLength(more)) && t[e.used..] == more[CommaLength(more)..]
  {
    hide Value, CommaLength;
    if v.Left? {
      var n := |t| - |more| + CommaLength(more);
      assert t[n..] == t[|t| - |more|..][CommaLength(more)..];
    }
  }

  /** Behind an element, a comma or the gap before the next token is taken off. */
  lemma CommaTaken(comma: Option<Gap>, g: Gap, u: seq<byte>)
    requires GoodComma(comma) && GoodGap(g) && u != [] && WsLength(u) == 0 && u[0] != 0x2C
    ensures var more := CommaThen(comma, GapText(g) + u);
      more[CommaLength(more)..] == if comma.None? then u else GapText(g) + u
  {
    hide WsLength, GapText, GoodGap;
    var more := CommaThen(comma, GapText(g) + u);
    if comma.None? {
      GapSkips(g, u);
    } else {
      var rest := [0x2C] + (GapText(g) + u);
      GapSkips(comma.value, rest);
      NoWs(rest);
      var w := |GapText(comma.value)|;
      assert more[w] == rest[0] && more[w + 1..] == rest[1..];
    }
  }

  lemma QuotedString(s: seq<byte>, more: seq<byte>)
    requires NulFree(s)
    ensures RawString(Quoted(s) + more) == Str(s, |Quoted(s)|)
  {
    hide StringBody, EscapeAll;
    var t := Quoted(s) + more;
    NoWs(t);
    assert t[1..] == EscapeAll(s) + [QUOTE] + more;
    BodyOfEscape(s, more);
  }

  /** A key, a gap and a colon are read as the key. */
  lemma KeyBeforeColon(s: seq<byte>, g: Gap, more: seq<byte>)
    requires NulFree(s) && GoodGap(g)
    ensures var t := Quoted(s) + (GapText(g) + ([0x3A] + more));
      && KeyAhead(t) == Str(s, |Quoted(s)| + |GapText(g)| + 1)
      && t[|Quoted(s)| + |GapText(g)| + 1..] == more
  {
    hide RawString, Quoted, GapText, WsLength, GoodGap;
    var rest := GapText(g) + ([0x3A] + more);
    var t := Quoted(s) + rest;
    QuotedString(s, rest);
    GapSkips(g, [0x3A] + more);
    NoWs([0x3A] + more);
    assert t[|Quoted(s)|..] == rest;
    assert t[|Quoted(s)| + |GapText(g)|] == 0x3A;
  }

  /** Words, numbers and strings. */
  lemma LeafAhead(v: Json, more: seq<byte>, depth: nat, number: Printer, strtod: Scanner)
    requires IsScanner(strtod) && Printable(v, number, strtod) && !v.JArr? && !v.JObj? && depth <= MAX_DEPTH
    requires v.JNum? ==> Delimited(more)
    ensures Value(LeafText(v, number) + more, depth, strtod) == Ok(v, |LeafText(v, number)|)
  {
    hide Items, Entries, Scalar, RawString, Quoted, LeafText;
    var t := LeafText(v, number) + more;
    LeafSolid(v, number, strtod);
    NoWs(t);
    assert t[0..] == t;
    if v.JStr? {
      assert LeafText(v, number) == Quoted(v.str) && Quoted(v.str)[0] == QUOTE by { QuotedStart(v, number); }
      QuotedString(v.str, more);
    } else {
      ScalarAhead(v, more, number, strtod);
    }
  }

  lemma QuotedStart(v: Json, number: Printer)
    requires v.JStr?
    ensures LeafText(v, number) == Quoted(v.str) && Quoted(v.str) != [] && Quoted(v.str)[0] == QUOTE
  {
  }

  lemma LeafSolid(v: Json, number: Printer, strtod: Scanner)
    requires Printable(v, number, strtod) && !v.JArr? && !v.JObj?
    ensures Solid(LeafText(v, number)) && LeafText(v, number)[0] != 0xEF
  {
  }

  lemma ScalarAhead(v: Json, more: seq<byte>, number: Printer, strtod: Scanner)
    requires IsScanner(strtod) && Printable(v, number, strtod) && (v.JNum? ==> Delimited(more))
    requires v.JNull? || v.JBool? || v.JNum?
    ensures LeafText(v, number) != [] && LeafText(v, number)[0] !in [0x7B, 0x5B, QUOTE]
    ensures Scalar(LeafText(v, number) + more, strtod) == Ok(v, |LeafText(v, number)|)
  {
    hide Delimited, Window;
    var t := LeafText(v, number) + more;
    if v.JNum? {
      assert Readable(v.num, number, strtod) && number(v.num) + more == t;
      assert t[0] == number(v.num)[0];
      assert strtod(Window(t)) == Number(v.num, |number(v.num)|);
    } else {
      assert t[..|LeafText(v, number)|] == LeafText(v, number);
    }
  }

  /** The characters a number may begin with: a sign, a digit or a point. */
  const NUMBER_STARTS: seq<byte> := [0x2B, 0x2D, 0x2E, 0x30, 0x31, 0x32, 0x33, 0x34, 0x35, 0x36, 0x37, 0x38, 0x39]

  /** What begins neither a gap, a container, a string nor a word is a number of the scanner's, if
      its first character allows, or refused. */
  lemma OtherAhead(t: seq<byte>, depth: nat, strtod: Scanner)
    requires IsScanner(strtod) && depth <= MAX_DEPTH && t != []
    requires t[0] !in [0x20, 0x09, 0x0D, 0x0A, 0x2F, 0x5B, 0x7B, QUOTE, 0x74, 0x66, 0x6E]
    ensures Leaves(Value(t, depth, strtod), t) ==
      var w := if |t| < 63 then t else t[..63];
      if t[0] in NUMBER_STARTS && strtod(w).Number? && strtod(w).used <= |w|
      then Left(JNum(strtod(w).value), |t| - strtod(w).used) else Refused
  {
    hide StartsNumber, Begins, Items, Entries, RawString;
    NoWs(t);
    assert t[0..] == t;
    StartIs(t[0]);
    NotWord(t, TRUE_TEXT);
    NotWord(t, FALSE_TEXT);
    NotWord(t, NULL_TEXT);
  }

  lemma StartIs(c: byte)
    ensures StartsNumber(c) <==> c in NUMBER_STARTS
  {
  }

  lemma NotWord(t: seq<byte>, word: seq<byte>)
    requires t != [] && word != [] && t[0] != word[0]
    ensures !Begins(t, word)
  {
    if |t| >= |word| { assert t[..|word|][0] == t[0]; }
  }

  /** No value's text begins like a gap, a comma or the end of a list. */
  lemma TextSolid(d: Doc, more: seq<byte>, number: Printer, strtod: Scanner)
    requires LaidOut(d) && Printable(Tree(d), number, strtod)
    ensures Solid(TextThen(d, number, more)) && TextThen(d, number, more)[0] != 0xEF
  {
    hide LeafText, PartsThen, FieldsThen, Printable;
    if d.Leaf? { LeafSolid(d.v, number, strtod); }
  }

  lemma GapStart(g: Gap, more: seq<byte>)
    requires GoodGap(g) && g != []
    ensures Delimited(GapText(g) + more)
  {
    assert GoodBlank(g[0]);
  }

  /** A number is followed by a comma, a gap or a bracket. */
  lemma SetApart(comma: Option<Gap>, g: Gap, u: seq<byte>)
    requires GoodComma(comma) && GoodGap(g) && (comma.Some? || g != [] || Delimited(u))
    ensures Delimited(CommaThen(comma, GapText(g) + u))
  {
    hide GoodGap;
    if comma.Some? {
      if comma.value == [] {
        assert GapText([]) + ([0x2C] + (GapText(g) + u)) == [0x2C] + (GapText(g) + u);
      } else {
        GapStart(comma.value, [0x2C] + (GapText(g) + u));
      }
    } else if g != [] {
      GapStart(g, u);
    } else {
      assert [] + u == u;
    }
  }

  /** An element whose value joins the list, or refuses the whole. */
  lemma ItemsThrough(x: seq<byte>, ok: bool, v: Json, comma: Option<Gap>, g: Gap, u: seq<byte>, depth: nat,
                     done: seq<Json>, strtod: Scanner)
    requires IsScanner(strtod) && Solid(x) && GoodComma(comma) && GoodGap(g)
    requires u != [] && WsLength(u) == 0 && u[0] != 0x2C
    requires var more := CommaThen(comma, GapText(g) + u);
      EndsWith(x, more) && Leaves(Value(x, depth + 1, strtod), x) == if ok then Left(v, |more|) else Refused
    ensures Leaves(Items(x, depth, done, strtod), x) ==
      if ok then Leaves(Items(GapText(g) + u, depth, done + [v], strtod), GapText(g) + u) else Refused
  {
    hide *;
    var more := CommaThen(comma, GapText(g) + u);
    ItemsStep(x, depth, done, strtod);
    ItemAheadOf(x, if ok then Left(v, |more|) else Refused, more, depth + 1, strtod);
    CommaTaken(comma, g, u);
    ItemsAfterGap(g, u, depth, done + [v], strtod);
  }

  /** One element of an array with what stands around it. */
  lemma PartStep(p: Part, g: Gap, u: seq<byte>, depth: nat, done: seq<Json>, number: Printer, strtod: Scanner)
    requires IsScanner(strtod) && LaidPart(p) && Printable(Tree(p.doc), number, strtod) && GoodGap(g)
    requires u != [] && WsLength(u) == 0 && u[0] != 0x2C
    requires var more := CommaThen(p.comma, GapText(g) + u);
      Leaves(Value(TextThen(p.doc, number, more), depth + 1, strtod), TextThen(p.doc, number, more))
      == if depth + 1 + Height(Tree(p.doc)) <= MAX_DEPTH then Left(Tree(p.doc), |more|) else Refused
    ensures var t := PartThen(p, number, GapText(g) + u);
      Leaves(Items(t, depth, done, strtod), t) ==
      if depth + 1 + Height(Tree(p.doc)) <= MAX_DEPTH
      then Leaves(Items(GapText(g) + u, depth, done + [Tree(p.doc)], strtod), GapText(g) + u) else Refused
  {
    var more := CommaThen(p.comma, GapText(g) + u);
    var x := TextThen(p.doc, number, more);
    assert PartThen(p, number, GapText(g) + u) == GapText(p.before) + x;
    assert GoodGap(p.before) && LaidOut(p.doc) && GoodComma(p.comma);
    hide *;
    ItemsAfterGap(p.before, x, depth, done, strtod);
    TextSolid(p.doc, more, number, strtod);
    TextEnds(p.doc, number, more);
    ItemsThrough(x, depth + 1 + Height(Tree(p.doc)) <= MAX_DEPTH, Tree(p.doc), p.comma, g, u, depth, done, strtod);
  }

  lemma EntriesThrough(key: seq<byte>, colon: Gap, x: seq<byte>, ok: bool, v: Json, comma: Option<Gap>, g: Gap,
                       u: seq<byte>, depth: nat, done: seq<Entry>, strtod: Scanner)
    requires IsScanner(strtod) && NulFree(key) && GoodGap(colon) && GoodComma(comma) && GoodGap(g)
    requires u != [] && WsLength(u) == 0 && u[0] != 0x2C
    requires var more := CommaThen(comma, GapText(g) + u);
      EndsWith(x, more) && Leaves(Value(x, depth + 1, strtod), x) == if ok then Left(v, |more|) else Refused
    ensures var t := Quoted(key) + (GapText(colon) + ([0x3A] + x));
      Leaves(Entries(t, depth, done, strtod), t) ==
      if ok then Leaves(Entries(GapText(g) + u, depth, done + [Entry(key, v)], strtod), GapText(g) + u) else Refused
  {
    hide *;
    var more := CommaThen(comma, GapText(g) + u);
    var t := Quoted(key) + (GapText(colon) + ([0x3A] + x));
    QuotedSolid(key, GapText(colon) + ([0x3A] + x));
    EntriesStep(t, depth, done, strtod);
    ItemAheadOf(x, if ok then Left(v, |more|) else Refused, more, depth + 1, strtod);
    EntryAheadOf(key, colon, x, depth + 1, strtod);
    if ok {
      var e := EntryAhead(t, depth + 1, strtod);
      assert e.Ok? && e.value == Entry(key, v) && t[e.used..] == more[CommaLength(more)..];
      CommaTaken(comma, g, u);
      EntriesAfterGap(g, u, depth, done + [Entry(key, v)], strtod);
    }
  }

  lemma QuotedSolid(s: seq<byte>, more: seq<byte>)
    ensures Solid(Quoted(s) + more)
  {
  }

  lemma EntryAheadOf(key: seq<byte>, colon: Gap, x: seq<byte>, depth: nat, strtod: Scanner)
    requires IsScanner(strtod) && NulFree(key) && GoodGap(colon)
    ensures var t, e := Quoted(key) + (GapText(colon) + ([0x3A] + x)), ItemAhead(x, depth, strtod);
      && (e.Fail? ==> EntryAhead(t, depth, strtod) == Fail)
      && (e.Ok? ==> EntryAhead(t, depth, strtod) == Ok(Entry(key, e.value), |t| - |x| + e.used)
                    && t[|t| - |x| + e.used..] == x[e.used..])
  {
    hide ItemAhead, KeyAhead, Quoted, GapText, GoodGap;
    KeyBeforeColon(key, colon, x);
    var t, e := Quoted(key) + (GapText(colon) + ([0x3A] + x)), ItemAhead(x, depth, strtod);
    assert t[|t| - |x|..] == x;
    if e.Ok? {
      assert t[|t| - |x| + e.used..] == t[|t| - |x|..][e.used..];
    }
  }

  /** The gap before a value does not matter. */
  lemma PartValue(p: Part, rest: seq<byte>, ok: bool, depth: nat, number: Printer, strtod: Scanner)
    requires IsScanner(strtod) && LaidPart(p)
    requires var more := CommaThen(p.comma, rest);
      Leaves(Value(TextThen(p.doc, number, more), depth, strtod), TextThen(p.doc, number, more))
      == if ok then Left(Tree(p.doc), |more|) else Refused
    ensures var more, t := CommaThen(p.comma, rest), PartThen(p, number, rest);
      && EndsWith(t, more)
      && Leaves(Value(t, depth, strtod), t) == if ok then Left(Tree(p.doc), |more|) else Refused
  {
    var more := CommaThen(p.comma, rest);
    var x := TextThen(p.doc, number, more);
    assert PartThen(p, number, rest) == GapText(p.before) + x && GoodGap(p.before);
    hide *;
    ValueAfterGap(p.before, x, depth, strtod);
    TextEnds(p.doc, number, more);
    EndsLater(GapText(p.before), x, more);
  }

  /** One entry of an object with what stands around it. */
  lemma FieldStep(f: Field, ok: bool, v: Json, g: Gap, u: seq<byte>, depth: nat, done: seq<Entry>, number: Printer,
                  strtod: Scanner)
    requires IsScanner(strtod) && LaidField(f) && GoodGap(g) && NulFree(f.key)
    requires u != [] && WsLength(u) == 0 && u[0] != 0x2C
    requires var more, y := CommaThen(f.part.comma, GapText(g) + u), PartThen(f.part, number, GapText(g) + u);
      EndsWith(y, more) && Leaves(Value(y, depth + 1, strtod), y) == if ok then Left(v, |more|) else Refused
    ensures var t := FieldThen(f, number, GapText(g) + u);
      Leaves(Entries(t, depth, done, strtod), t) ==
      if ok then Leaves(Entries(GapText(g) + u, depth, done + [Entry(f.key, v)], strtod), GapText(g) + u) else Refused
  {
    var y := PartThen(f.part, number, GapText(g) + u);
    var z := Quoted(f.key) + (GapText(f.colon) + ([0x3A] + y));
    assert FieldThen(f, number, GapText(g) + u) == GapText(f.start) + z;
    assert GoodGap(f.start) && GoodGap(f.colon) && GoodComma(f.part.comma);
    hide *;
    EntriesAfterGap(f.start, z, depth, done, strtod);
    EntriesThrough(f.key, f.colon, y, ok, v, f.part.comma, g, u, depth, done, strtod);
  }

  // ----- The gap before the next token -----

  function LeadGap(parts: seq<Part>, last: Gap): Gap { if parts == [] then last else parts[0].before }

  function Core(parts: seq<Part>, number: Printer, last: Gap, more: seq<byte>): seq<byte> {
    if parts == [] then [0x5D] + more
    else
      var rest := PartsThen(parts[1..], number, Closing(last, 0x5D, more));
      TextThen(parts[0].doc, number, CommaThen(parts[0].comma, rest))
  }

  /** The rest of an array is a gap and something that is neither gap nor comma. */
  lemma PartsLead(parts: seq<Part>, number: Printer, last: Gap, more: seq<byte>, strtod: Scanner)
    requires GoodGap(last) && LaidParts(parts)
    requires forall i :: 0 <= i < |parts| ==> Printable(TreeItems(parts)[i], number, strtod)
    ensures var u := Core(parts, number, last, more);
      && PartsThen(parts, number, Closing(last, 0x5D, more)) == GapText(LeadGap(parts, last)) + u
      && GoodGap(LeadGap(parts, last)) && u != [] && WsLength(u) == 0 && u[0] != 0x2C
      && (parts == [] ==> Delimited(u))
  {
    hide TextThen, WsLength, Printable, GapText, CommaThen;
    var u := Core(parts, number, last, more);
    if parts != [] {
      assert TreeItems(parts)[0] == Tree(parts[0].doc);
      var behind := CommaThen(parts[0].comma, PartsThen(parts[1..], number, Closing(last, 0x5D, more)));
      TextSolid(parts[0].doc, behind, number, strtod);
    }
    NoWs(u);
  }

  function LeadStart(fields: seq<Field>, last: Gap): Gap { if fields == [] then last else fields[0].start }

  function FieldCore(fields: seq<Field>, number: Printer, last: Gap, more: seq<byte>): seq<byte> {
    if fields == [] then [0x7D] + more
    else
      var f := fields[0];
      Quoted(f.key) + (GapText(f.colon) + ([0x3A] +
        PartThen(f.part, number, FieldsThen(fields[1..], number, Closing(last, 0x7D, more)))))
  }

  lemma FieldsLead(fields: seq<Field>, number: Printer, last: Gap, more: seq<byte>)
    requires GoodGap(last) && LaidFields(fields)
    ensures var u := FieldCore(fields, number, last, more);
      && FieldsThen(fields, number, Closing(last, 0x7D, more)) == GapText(LeadStart(fields, last)) + u
      && GoodGap(LeadStart(fields, last)) && u != [] && WsLength(u) == 0 && u[0] != 0x2C
      && (fields == [] ==> Delimited(u))
  {
    hide PartThen, WsLength, GapText, Quoted;
    var u := FieldCore(fields, number, last, more);
    if fields != [] {
      var f := fields[0];
      QuotedSolid(f.key, GapText(f.colon) + ([0x3A] +
        PartThen(f.part, number, FieldsThen(fields[1..], number, Closing(last, 0x7D, more)))));
    }
    NoWs(u);
  }

  // ----- The parser reads every such text -----

  /** Any text of a tree, with more behind it, is read as the tree up to its end if no node lies
      deeper than allowed, and refused otherwise. */
  lemma {:induction false} ValueOfText(d: Doc, depth: nat, more: seq<byte>, number: Printer, strtod: Scanner)
    requires IsScanner(strtod) && LaidOut(d) && Printable(Tree(d), number, strtod)
    requires Tree(d).JNum? ==> Delimited(more)
    ensures var t := TextThen(d, number, more);
      Leaves(Value(t, depth, strtod), t)
      == if depth + Height(Tree(d)) <= MAX_DEPTH then Left(Tree(d), |more|) else Refused
    decreases d, 0
  {
    hide *;
    if depth > MAX_DEPTH {
      TooDeep(TextThen(d, number, more), depth, strtod);
    } else {
      match d
      case Leaf(v) =>
        LeafOfText(v, more, depth, number, strtod);
      case Arr(parts, last) =>
        ArrayParts(parts, last, number, strtod);
        ItemsOfText(parts, last, depth, [], more, number, strtod);
        ArrayOfText(parts, last, depth, more, number, strtod);
      case Obj(fields, last) =>
        ObjectFields(fields, last, number, strtod);
        EntriesOfText(fields, last, depth, [], more, number, strtod);
        ObjectOfText(fields, last, depth, more, number, strtod);
    }
  }

  lemma TooDeep(t: seq<byte>, depth: nat, strtod: Scanner)
    requires IsScanner(strtod) && depth > MAX_DEPTH
    ensures Leaves(Value(t, depth, strtod), t) == Refused
  {
  }

  lemma LeafOfText(v: Json, more: seq<byte>, depth: nat, number: Printer, strtod: Scanner)
    requires IsScanner(strtod) && LaidOut(Leaf(v)) && Printable(Tree(Leaf(v)), number, strtod) && depth <= MAX_DEPTH
    requires Tree(Leaf(v)).JNum? ==> Delimited(more)
    ensures var t := TextThen(Leaf(v), number, more);
      Leaves(Value(t, depth, strtod), t)
      == if depth + Height(Tree(Leaf(v))) <= MAX_DEPTH then Left(Tree(Leaf(v)), |more|) else Refused
  {
    hide Value, LeafText, Printable, Delimited;
    LeafAhead(v, more, depth, number, strtod);
  }

  lemma ArrayParts(parts: seq<Part>, last: Gap, number: Printer, strtod: Scanner)
    requires LaidOut(Arr(parts, last)) && Printable(Tree(Arr(parts, last)), number, strtod)
    ensures GoodGap(last) && LaidParts(parts)
    ensures forall i :: 0 <= i < |parts| ==> Printable(TreeItems(parts)[i], number, strtod)
  {
  }

  lemma ObjectFields(fields: seq<Field>, last: Gap, number: Printer, strtod: Scanner)
    requires LaidOut(Obj(fields, last)) && Printable(Tree(Obj(fields, last)), number, strtod)
    ensures GoodGap(last) && LaidFields(fields) && AllPrintable(TreeEntries(fields), number, strtod)
  {
  }

  ghost predicate AllPrintable(entries: seq<Entry>, number: Printer, strtod: Scanner) {
    forall i :: 0 <= i < |entries| ==> NulFree(entries[i].key) && Printable(entries[i].val, number, strtod)
  }

  lemma ArrayOfText(parts: seq<Part>, last: Gap, depth: nat, more: seq<byte>, number: Printer, strtod: Scanner)
    requires IsScanner(strtod) && depth <= MAX_DEPTH
    requires var t := PartsThen(parts, number, Closing(last, 0x5D, more));
      Leaves(Items(t, depth, [], strtod), t) ==
      if parts == [] || depth + 1 + ItemsHeight(TreeItems(parts)) <= MAX_DEPTH
      then Left([] + TreeItems(parts), |more|) else Refused
    ensures var d := Arr(parts, last); var t := TextThen(d, number, more);
      Leaves(Value(t, depth, strtod), t)
      == if depth + Height(Tree(d)) <= MAX_DEPTH then Left(Tree(d), |more|) else Refused
  {
    hide Items, Entries, TreeItems, PartsThen, ItemsHeight;
    var rest := PartsThen(parts, number, Closing(last, 0x5D, more));
    NoWs([0x5B] + rest);
    assert ([0x5B] + rest)[0..] == [0x5B] + rest && ([0x5B] + rest)[1..] == rest;
    assert [] + TreeItems(parts) == TreeItems(parts);
  }

  lemma ObjectOfText(fields: seq<Field>, last: Gap, depth: nat, more: seq<byte>, number: Printer, strtod: Scanner)
    requires IsScanner(strtod) && depth <= MAX_DEPTH
    requires var t := FieldsThen(fields, number, Closing(last, 0x7D, more));
      Leaves(Entries(t, depth, [], strtod), t) ==
      if fields == [] || depth + 1 + EntriesHeight(TreeEntries(fields)) <= MAX_DEPTH
      then Left([] + TreeEntries(fields), |more|) else Refused
    ensures var d := Obj(fields, last); var t := TextThen(d, number, more);
      Leaves(Value(t, depth, strtod), t)
      == if depth + Height(Tree(d)) <= MAX_DEPTH then Left(Tree(d), |more|) else Refused
  {
    hide Items, Entries, TreeEntries, FieldsThen, EntriesHeight;
    var rest := FieldsThen(fields, number, Closing(last, 0x7D, more));
    NoWs([0x7B] + rest);
    assert ([0x7B] + rest)[0..] == [0x7B] + rest && ([0x7B] + rest)[1..] == rest;
    assert [] + TreeEntries(fields) == TreeEntries(fields);
  }

  lemma {:induction false} ItemsOfText(parts: seq<Part>, last: Gap, depth: nat, done: seq<Json>, more: seq<byte>,
                                       number: Printer, strtod: Scanner)
    requires IsScanner(strtod) && depth <= MAX_DEPTH && GoodGap(last) && LaidParts(parts)
    requires forall i :: 0 <= i < |parts| ==> Printable(TreeItems(parts)[i], number, strtod)
    ensures var t := PartsThen(parts, number, Closing(last, 0x5D, more));
      Leaves(Items(t, depth, done, strtod), t) ==
      if parts == [] || depth + 1 + ItemsHeight(TreeItems(parts)) <= MAX_DEPTH
      then Left(done + TreeItems(parts), |more|) else Refused
    decreases parts, 1
  {
    hide *;
    if parts == [] {
      ItemsNone(last, depth, done, more, number, strtod);
    } else {
      var p, tail := parts[0], parts[1..];
      var rest := PartsThen(tail, number, Closing(last, 0x5D, more));
      PartsSplit(parts, number, Closing(last, 0x5D, more), strtod);
      PartsLead(tail, number, last, more, strtod);
      PartApart(parts, last, number, more, strtod);
      ValueOfText(p.doc, depth + 1, CommaThen(p.comma, rest), number, strtod);
      PartStep(p, LeadGap(tail, last), Core(tail, number, last, more), depth, done, number, strtod);
      ItemsOfText(tail, last, depth, done + [Tree(p.doc)], more, number, strtod);
      ListSplit(done, Tree(p.doc), TreeItems(tail));
    }
  }

  lemma ListSplit<T>(done: seq<T>, v: T, tail: seq<T>)
    ensures done + [v] + tail == done + ([v] + tail)
  {
  }

  lemma ItemsNone(last: Gap, depth: nat, done: seq<Json>, more: seq<byte>, number: Printer, strtod: Scanner)
    requires IsScanner(strtod) && GoodGap(last)
    ensures var t := PartsThen([], number, Closing(last, 0x5D, more));
      Leaves(Items(t, depth, done, strtod), t) == Left(done + TreeItems([]), |more|)
  {
    hide Items, GapText;
    ItemsAfterGap(last, [0x5D] + more, depth, done, strtod);
    ItemsEnd(more, depth, done, strtod);
    assert done + [] == done;
  }

  /** The first element of a laid-out array, and the rest. */
  lemma PartsSplit(parts: seq<Part>, number: Printer, end: seq<byte>, strtod: Scanner)
    requires parts != [] && LaidParts(parts)
    requires forall i :: 0 <= i < |parts| ==> Printable(TreeItems(parts)[i], number, strtod)
    ensures var p, tail := parts[0], parts[1..];
      && LaidPart(p) && LaidOut(p.doc) && LaidParts(tail) && Printable(Tree(p.doc), number, strtod)
      && (forall i :: 0 <= i < |tail| ==> Printable(TreeItems(tail)[i], number, strtod))
      && TreeItems(parts) == [Tree(p.doc)] + TreeItems(tail)
      && (var h, first, others := ItemsHeight(TreeItems(parts)), Height(Tree(p.doc)), ItemsHeight(TreeItems(tail));
          h >= first && h >= others && (h == first || h == others) && (tail == [] ==> others == 0))
      && PartsThen(parts, number, end) == PartThen(p, number, PartsThen(tail, number, end))
  {
    hide Printable, Height, PartThen, Tree;
    var p, tail := parts[0], parts[1..];
    assert TreeItems(parts)[0] == Tree(p.doc) && TreeItems(parts)[1..] == TreeItems(tail);
    forall i | 0 <= i < |tail| ensures Printable(TreeItems(tail)[i], number, strtod) {
      assert TreeItems(tail)[i] == TreeItems(parts)[i + 1];
    }
  }

  lemma PartApart(parts: seq<Part>, last: Gap, number: Printer, more: seq<byte>, strtod: Scanner)
    requires parts != [] && GoodGap(last) && LaidParts(parts)
    requires forall i :: 0 <= i < |parts[1..]| ==> Printable(TreeItems(parts[1..])[i], number, strtod)
    ensures var p, rest := parts[0], PartsThen(parts[1..], number, Closing(last, 0x5D, more));
      Tree(p.doc).JNum? ==> Delimited(CommaThen(p.comma, rest))
  {
    var p, tail := parts[0], parts[1..];
    PartsLead(tail, number, last, more, strtod);
    if Tree(p.doc).JNum? {
      SetApart(p.comma, LeadGap(tail, last), Core(tail, number, last, more));
    }
    hide Delimited, CommaThen, PartsThen, Core, GoodGap, WsLength, Tree, Printable;
  }

  lemma {:induction false} EntriesOfText(fields: seq<Field>, last: Gap, depth: nat, done: seq<Entry>, more: seq<byte>,
                                         number: Printer, strtod: Scanner)
    requires IsScanner(strtod) && depth <= MAX_DEPTH && GoodGap(last) && LaidFields(fields)
    requires AllPrintable(TreeEntries(fields), number, strtod)
    ensures var t := FieldsThen(fields, number, Closing(last, 0x7D, more));
      Leaves(Entries(t, depth, done, strtod), t) ==
      if fields == [] || depth + 1 + EntriesHeight(TreeEntries(fields)) <= MAX_DEPTH
      then Left(done + TreeEntries(fields), |more|) else Refused
    decreases fields, 1
  {
    hide *;
    if fields == [] {
      EntriesNone(last, depth, done, more, number, strtod);
    } else {
      var f, tail := fields[0], fields[1..];
      var rest, v := FieldsThen(tail, number, Closing(last, 0x7D, more)), Tree(f.part.doc);
      FieldsSplit(fields, number, Closing(last, 0x7D, more), strtod);
      FieldsLead(tail, number, last, more);
      FieldApart(fields, last, number, more);
      ValueOfText(f.part.doc, depth + 1, CommaThen(f.part.comma, rest), number, strtod);
      var ok := depth + 1 + Height(v) <= MAX_DEPTH;
      PartValue(f.part, rest, ok, depth + 1, number, strtod);
      FieldStep(f, ok, v, LeadStart(tail, last), FieldCore(tail, number, last, more), depth, done, number, strtod);
      EntriesOfText(tail, last, depth, done + [Entry(f.key, v)], more, number, strtod);
      ListSplit(done, Entry(f.key, v), TreeEntries(tail));
    }
  }

  lemma EntriesNone(last: Gap, depth: nat, done: seq<Entry>, more: seq<byte>, number: Printer, strtod: Scanner)
    requires IsScanner(strtod) && GoodGap(last)
    ensures var t := FieldsThen([], number, Closing(last, 0x7D, more));
      Leaves(Entries(t, depth, done, strtod), t) == Left(done + TreeEntries([]), |more|)
  {
    hide Entries, GapText;
    EntriesAfterGap(last, [0x7D] + more, depth, done, strtod);
    EntriesEnd(more, depth, done, strtod);
    assert done + [] == done;
  }

  /** The first entry of a laid-out object, and the rest. */
  lemma FieldsSplit(fields: seq<Field>, number: Printer, end: seq<byte>, strtod: Scanner)
    requires fields != [] && LaidFields(fields) && AllPrintable(TreeEntries(fields), number, strtod)
    ensures var f, tail := fields[0], fields[1..]; var v := Tree(f.part.doc);
      && LaidField(f) && LaidPart(f.part) && LaidOut(f.part.doc) && LaidFields(tail) && NulFree(f.key)
      && Printable(v, number, strtod) && AllPrintable(TreeEntries(tail), number, strtod)
      && TreeEntries(fields) == [Entry(f.key, v)] + TreeEntries(tail)
      && (var h, first, others := EntriesHeight(TreeEntries(fields)), Height(v), EntriesHeight(TreeEntries(tail));
          h >= first && h >= others && (h == first || h == others) && (tail == [] ==> others == 0))
      && FieldsThen(fields, number, end) == FieldThen(f, number, FieldsThen(tail, number, end))
  {
    hide Printable, Height, FieldThen, Tree, NulFree;
    var f, tail := fields[0], fields[1..];
    assert TreeEntries(fields)[0] == Entry(f.key, Tree(f.part.doc));
    assert TreeEntries(fields)[1..] == TreeEntries(tail);
  }

  lemma FieldApart(fields: seq<Field>, last: Gap, number: Printer, more: seq<byte>)
    requires fields != [] && GoodGap(last) && LaidFields(fields)
    ensures var p, rest := fields[0].part, FieldsThen(fields[1..], number, Closing(last, 0x7D, more));
      Tree(p.doc).JNum? ==> Delimited(CommaThen(p.comma, rest))
  {
    var p, tail := fields[0].part, fields[1..];
    assert LaidField(fields[0]) && LaidPart(p);
    FieldsLead(tail, number, last, more);
    if Tree(p.doc).JNum? {
      SetApart(p.comma, LeadStart(tail, last), FieldCore(tail, number, last, more));
    }
    hide Delimited, CommaThen, FieldsThen, FieldCore, GoodGap, WsLength, Tree;
  }

  const MARK: seq<byte> := [0xEF, 0xBB, 0xBF]

  /** A whole file: perhaps a byte order mark, a gap, any text of a tree, and anything behind it.
      The tree comes back exactly when no node is deeper than 64; deeper trees are refused. */
  lemma RootOfText(marked: bool, lead: Gap, d: Doc, more: seq<byte>, number: Printer, strtod: Scanner)
    requires IsScanner(strtod) && GoodGap(lead) && LaidOut(d) && Printable(Tree(d), number, strtod)
    requires Tree(d).JNum? ==> Delimited(more)
    ensures var t := GapText(lead) + TextThen(d, number, more);
      |more| <= |t| && Root(if marked then MARK + t else t, strtod)
      == if Height(Tree(d)) <= MAX_DEPTH then Ok(Tree(d), |t| - |more|) else Fail
  {
    hide TextThen, Value, Height, Printable, Tree, LaidOut, GapText;
    var x := TextThen(d, number, more);
    var t := GapText(lead) + x;
    ValueOfText(d, 0, more, number, strtod);
    ValueAfterGap(lead, x, 0, strtod);
    TextEnds(d, number, more);
    assert (MARK + t)[3..] == t && t[0..] == t;
    NoMark(lead, d, more, number, strtod);
  }

  lemma NoMark(lead: Gap, d: Doc, more: seq<byte>, number: Printer, strtod: Scanner)
    requires GoodGap(lead) && LaidOut(d) && Printable(Tree(d), number, strtod)
    ensures var t := GapText(lead) + TextThen(d, number, more);
      t != [] && t[0] != 0xEF
  {
    hide TextThen, Printable;
    TextSolid(d, more, number, strtod);
    if lead != [] {
      assert GoodBlank(lead[0]);
    }
  }

  // ----- The canonical text -----

  /** No gaps, and a comma between neighbours. */
  function Canonical(v: Json): Doc
    decreases v, 0
  {
    match v
    case JArr(items) => Arr(CanonicalParts(items), [])
    case JObj(entries) => Obj(CanonicalFields(entries), [])
    case _ => Leaf(v)
  }

  function CommaIf(between: bool): Option<Gap> { if between then Some([]) else None }

  function CanonicalParts(items: seq<Json>): seq<Part>
    decreases items, 1
  {
    if items == [] then []
    else [Part([], Canonical(items[0]), CommaIf(|items| > 1))] + CanonicalParts(items[1..])
  }

  function CanonicalFields(entries: seq<Entry>): seq<Field>
    decreases entries, 1
  {
    if entries == [] then []
    else
      [Field([], entries[0].key, [], Part([], Canonical(entries[0].val), CommaIf(|entries| > 1)))]
      + CanonicalFields(entries[1..])
  }

  lemma {:induction false} CanonicalIs(v: Json)
    ensures Tree(Canonical(v)) == v && LaidOut(Canonical(v))
    decreases v, 0
  {
    match v
    case JArr(items) => CanonicalItems(items);
    case JObj(entries) => CanonicalEntries(entries);
    case _ =>
  }

  lemma {:induction false} CanonicalItems(items: seq<Json>)
    ensures TreeItems(CanonicalParts(items)) == items && LaidParts(CanonicalParts(items))
    ensures |CanonicalParts(items)| == |items|
    decreases items, 1
  {
    hide Tree, LaidOut, Canonical;
    if items != [] {
      CanonicalIs(items[0]);
      CanonicalItems(items[1..]);
      var parts := CanonicalParts(items);
      assert parts[1..] == CanonicalParts(items[1..]);
      assert LaidPart(parts[0]);
    }
  }

  lemma {:induction false} CanonicalEntries(entries: seq<Entry>)
    ensures TreeEntries(CanonicalFields(entries)) == entries && LaidFields(CanonicalFields(entries))
    ensures |CanonicalFields(entries)| == |entries|
    decreases entries, 1
  {
    hide Tree, LaidOut, Canonical;
    if entries != [] {
      CanonicalIs(entries[0].val);
      CanonicalEntries(entries[1..]);
      var fields := CanonicalFields(entries);
      assert fields[1..] == CanonicalFields(entries[1..]);
      assert LaidPart(fields[0].part) && LaidField(fields[0]);
    }
  }

  function Print(v: Json, number: Printer): seq<byte> {
    TextThen(Canonical(v), number, [])
  }

  /** A tree comes back from its canonical text exactly when no node is deeper than 64; deeper
      trees are refused. */
  lemma RootOfPrint(v: Json, number: Printer, strtod: Scanner)
    requires IsScanner(strtod) && Printable(v, number, strtod)
    ensures Root(Print(v, number), strtod) == if Height(v) <= MAX_DEPTH then Ok(v, |Print(v, number)|) else Fail
  {
    hide TextThen, Root, Height, Printable, Tree, LaidOut, Canonical;
    CanonicalIs(v);
    RootOfText(false, [], Canonical(v), [], number, strtod);
    assert GapText([]) + TextThen(Canonical(v), number, []) == Print(v, number);
  }
}
