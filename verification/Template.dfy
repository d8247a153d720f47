/** Rendering of palette templates: a scanner with escapes that writes to a growing buffer. */
module Template {
  import opened Options

  /** What the palette says about an expression, if anything. */
  type Evaluator = string -> Option<string>
  type TokenTest = string -> bool

  // ----- What stands at a position of the template -----

  predicate EscapedPair(src: string, i: nat) {
    i + 2 < |src| && src[i] == '\\' && src[i + 1] == '{' && src[i + 2] == '{'
  }

  predicate EscapedBrace(src: string, i: nat) {
    i + 1 < |src| && src[i] == '\\' && src[i + 1] == '{'
  }

  predicate Closes(src: string, e: nat) {
    e + 1 < |src| && src[e] == '}' && src[e + 1] == '}'
  }

  /** An expression in double braces starts at i, and e is the first place where it closes. */
  ghost predicate Expression(src: string, i: nat, e: nat) {
    i + 3 < |src| && src[i] == '{' && src[i + 1] == '{'
    && i + 2 <= e <= i + 242 && Closes(src, e)
    && forall k :: i + 2 <= k < e ==> !Closes(src, k) && src[k] != '\n'
  }

  predicate OpensToken(src: string, i: nat) {
    i + 1 < |src| && src[i] == '{' && src[i + 1] != '{'
    && (i == 0 || (src[i - 1] != '{' && src[i - 1] != '$' && src[i - 1] != '\\'))
  }

  predicate InToken(c: char) { c != '}' && c != '\n' && c != '{' }

  /** A token in single braces starts at i and closes at e. */
  ghost predicate Token(src: string, i: nat, e: nat) {
    OpensToken(src, i) && i + 1 <= e <= i + 49 && e < |src| && src[e] == '}'
    && forall k :: i + 1 <= k < e ==> InToken(src[k])
  }

  /** The evaluator has a replacement that fits its buffer. */
  predicate Valued(eval: Evaluator, x: string) {
    eval(x).Some? && |eval(x).value| < 600
  }

  ghost predicate Inserts(src: string, i: nat, e: nat, eval: Evaluator) {
    Expression(src, i, e) && Valued(eval, src[i + 2..e])
  }

  ghost predicate InsertsToken(src: string, i: nat, e: nat, eval: Evaluator, known: TokenTest) {
    Token(src, i, e) && known(src[i + 1..e]) && Valued(eval, src[i + 1..e])
  }

  lemma OneClosing(src: string, i: nat, d: nat, e: nat)
    requires Expression(src, i, d) && Expression(src, i, e)
    ensures d == e
  {
  }

  lemma OneTokenEnd(src: string, i: nat, d: nat, e: nat)
    requires Token(src, i, d) && Token(src, i, e)
    ensures d == e
  {
  }

  datatype Piece = Piece(length: nat, text: string)

  /** How much of the template is read at position i, and what is written for it. */
  ghost function PieceAt(src: string, i: nat, eval: Evaluator, known: TokenTest): (p: Piece)
    requires i < |src|
    ensures 0 < p.length <= |src| - i
  {
    if EscapedPair(src, i) then Piece(3, "{{")
    else if EscapedBrace(src, i) then Piece(2, "{")
    else if exists e: nat :: Inserts(src, i, e, eval) then
      var e: nat :| Inserts(src, i, e, eval);
      Piece(e + 2 - i, eval(src[i + 2..e]).value)
    else if exists e: nat :: InsertsToken(src, i, e, eval, known) then
      var e: nat :| InsertsToken(src, i, e, eval, known);
      Piece(e + 1 - i, eval(src[i + 1..e]).value)
    else Piece(1, [src[i]])
  }

  ghost function Rendered(src: string, i: nat, eval: Evaluator, known: TokenTest): string
    requires i <= |src|
    decreases |src| - i
  {
    if i == |src| then "" else
      var p := PieceAt(src, i, eval, known);
      p.text + Rendered(src, i + p.length, eval, known)
  }

  // ----- Documents written as templates -----

  datatype Part = Char(c: char) | Pair | Expr(x: string) | Tok(x: string)

  /** The text of a part: a brace is escaped, as is a pair of them; other characters stand for
      themselves. */
  function PartText(p: Part): string {
    match p
    case Char(c) => if c == '{' then "\\{" else [c]
    case Pair => "\\{{"
    case Expr(x) => "{{" + x + "}}"
    case Tok(x) => "{" + x + "}"
  }

  function PartMeaning(p: Part, eval: Evaluator): string {
    if p.Char? then [p.c] else if p.Pair? then "{{"
    else if eval(p.x).Some? then eval(p.x).value else ""
  }

  function DocText(doc: seq<Part>): string {
    if doc == [] then "" else PartText(doc[0]) + DocText(doc[1..])
  }

  function DocMeaning(doc: seq<Part>, eval: Evaluator): string {
    if doc == [] then "" else PartMeaning(doc[0], eval) + DocMeaning(doc[1..], eval)
  }

  /** Neither a line end nor the start of a closing pair. */
  predicate InExpression(x: string, k: nat)
    requires k < |x|
  {
    x[k] != '\n' && (x[k] == '}' ==> k + 1 < |x| && x[k + 1] != '}')
  }

  /** The part can be written down: the scanner finds its end. */
  ghost predicate Writable(p: Part) {
    match p
    case Char(_) => true
    case Pair => true
    case Expr(x) => |x| <= 240 && forall k: nat :: k < |x| ==> InExpression(x, k)
    case Tok(x) => |x| <= 48 && forall k :: 0 <= k < |x| ==> x[k] != '{' && x[k] != '}' && x[k] != '\n'
  }

  /** The part can be written down and has a value. */
  ghost predicate Sound(p: Part, eval: Evaluator, known: TokenTest) {
    Writable(p) && (p.Expr? || p.Tok? ==> Valued(eval, p.x)) && (p.Tok? ==> known(p.x))
  }

  /** Part q may stand right after a character: a backslash would escape its brace, an escaped
      brace would take its brace along, and a dollar sign switches tokens off. */
  predicate MayFollow(c: char, q: Part) {
    q.Char? || q.Pair? || (c != '\\' && c != '{' && (q.Tok? ==> c != '$'))
  }

  /** The part may stand where it does; after a pair of braces there are no tokens. */
  predicate Separate(doc: seq<Part>, k: nat) {
    0 < k < |doc| ==>
      (doc[k - 1].Char? ==> MayFollow(doc[k - 1].c, doc[k])) && (doc[k - 1].Pair? ==> !doc[k].Tok?)
  }

  ghost predicate Separated(doc: seq<Part>) {
    forall k: nat :: 0 < k < |doc| ==> Separate(doc, k)
  }

  ghost predicate AllSound(doc: seq<Part>, eval: Evaluator, known: TokenTest) {
    forall k :: 0 <= k < |doc| ==> Sound(doc[k], eval, known)
  }

  /** What precedes the document does not disturb its first part. */
  predicate Quiet(before: string, doc: seq<Part>) {
    before == "" || doc == [] || !doc[0].Tok? || MayFollow(before[|before| - 1], doc[0])
  }

  /** What stands at a character of a document: no escape begins there but the brace's own. */
  lemma CharText(before: string, doc: seq<Part>)
    requires doc != [] && doc[0].Char? && Separate(doc, 1)
    ensures var src, i, c := before + DocText(doc), |before|, doc[0].c;
      && i < |src|
      && (c == '{' ==> i + 1 < |src| && src[i] == '\\' && src[i + 1] == '{' && !(i + 2 < |src| && src[i + 2] == '{'))
      && (c != '{' ==> src[i] == c)
      && (c == '\\' ==> !(i + 1 < |src| && src[i + 1] == '{'))
  {
    DocSplits(before, doc);
    var c, rest := doc[0].c, DocText(doc[1..]);
    if c == '\\' || c == '{' { TextStart(doc[1..]); }
    hide DocText;
    assert PartText(doc[0]) == if c == '{' then "\\{" else [c];
  }

  lemma TextStart(doc: seq<Part>)
    requires doc != [] ==> doc[0].Char? || doc[0].Pair?
    ensures DocText(doc) != "" ==> DocText(doc)[0] != '{'
  {
    if doc != [] { assert PartText(doc[0])[0] != '{'; }
  }

  lemma CharPiece(before: string, doc: seq<Part>, eval: Evaluator, known: TokenTest)
    requires doc != [] && doc[0].Char? && Separate(doc, 1)
    ensures PieceAt(before + DocText(doc), |before|, eval, known) == Piece(|PartText(doc[0])|, [doc[0].c])
  {
    CharText(before, doc);
    hide DocText;
    assert |PartText(doc[0])| == if doc[0].c == '{' then 2 else 1;
  }

  lemma PairPiece(before: string, rest: string, eval: Evaluator, known: TokenTest)
    ensures PieceAt(before + "\\{{" + rest, |before|, eval, known) == Piece(3, "{{")
  {
    var src, i := before + "\\{{" + rest, |before|;
    assert src[i] == '\\' && src[i + 1] == '{' && src[i + 2] == '{';
  }

  lemma ExprPiece(before: string, x: string, rest: string, eval: Evaluator, known: TokenTest)
    requires Sound(Expr(x), eval, known)
    ensures PieceAt(before + "{{" + x + "}}" + rest, |before|, eval, known)
         == Piece(|x| + 4, eval(x).value)
  {
    var src, i := before + "{{" + x + "}}" + rest, |before|;
    var e := i + 2 + |x|;
    assert src[i + 2..e] == x;
    assert src[i] == '{' && src[i + 1] == '{' && src[e] == '}' && src[e + 1] == '}';
    forall k | i + 2 <= k < e ensures !Closes(src, k) && src[k] != '\n' {
      var m: nat := k - i - 2;
      assert src[k] == x[m];
      assert InExpression(x, m);
      if x[m] == '}' { assert src[k + 1] == x[m + 1]; }
    }
    assert Inserts(src, i, e, eval);
    forall d: nat | Inserts(src, i, d, eval) ensures d == e { OneClosing(src, i, d, e); }
  }

  lemma TokPiece(before: string, x: string, rest: string, eval: Evaluator, known: TokenTest)
    requires Sound(Tok(x), eval, known)
    requires before == "" || MayFollow(before[|before| - 1], Tok(x))
    ensures PieceAt(before + "{" + x + "}" + rest, |before|, eval, known)
         == Piece(|x| + 2, eval(x).value)
  {
    var src, i := before + "{" + x + "}" + rest, |before|;
    var e := i + 1 + |x|;
    assert src[i + 1..e] == x;
    assert src[i] == '{' && src[e] == '}';
    assert forall k :: i + 1 <= k < e ==> src[k] == x[k - i - 1];
    assert src[i + 1] != '{';
    assert i > 0 ==> src[i - 1] == before[i - 1];
    assert InsertsToken(src, i, e, eval, known);
    forall d: nat | InsertsToken(src, i, d, eval, known) ensures d == e { OneTokenEnd(src, i, d, e); }
    assert forall d: nat :: !Inserts(src, i, d, eval);
  }

  lemma DocSplits(before: string, doc: seq<Part>)
    requires doc != []
    ensures before + DocText(doc) == (before + PartText(doc[0])) + DocText(doc[1..])
  {
    hide PartText;
  }

  lemma PartPiece(before: string, doc: seq<Part>, eval: Evaluator, known: TokenTest)
    requires doc != [] && Sound(doc[0], eval, known) && Separate(doc, 1) && Quiet(before, doc)
    ensures PieceAt(before + DocText(doc), |before|, eval, known)
         == Piece(|PartText(doc[0])|, PartMeaning(doc[0], eval))
  {
    hide PieceAt, DocText;
    var rest := DocText(doc[1..]);
    if doc[0].Char? {
      CharPiece(before, doc, eval, known);
    } else {
      DocSplits(before, doc);
      if doc[0].Pair? { PairPiece(before, rest, eval, known); }
      else if doc[0].Expr? { ExprPart(before, doc[0], rest, eval, known); }
      else { TokPart(before, doc[0], rest, eval, known); }
    }
  }

  lemma ExprPart(before: string, p: Part, rest: string, eval: Evaluator, known: TokenTest)
    requires p.Expr? && Sound(p, eval, known)
    ensures PieceAt(before + PartText(p) + rest, |before|, eval, known)
         == Piece(|PartText(p)|, PartMeaning(p, eval))
  {
    ExprPiece(before, p.x, rest, eval, known);
    hide PieceAt;
    assert before + PartText(p) + rest == before + "{{" + p.x + "}}" + rest;
  }

  lemma TokPart(before: string, p: Part, rest: string, eval: Evaluator, known: TokenTest)
    requires p.Tok? && Sound(p, eval, known)
    requires before == "" || MayFollow(before[|before| - 1], p)
    ensures PieceAt(before + PartText(p) + rest, |before|, eval, known)
         == Piece(|PartText(p)|, PartMeaning(p, eval))
  {
    TokPiece(before, p.x, rest, eval, known);
    hide PieceAt;
    assert before + PartText(p) + rest == before + "{" + p.x + "}" + rest;
  }

  lemma Separation(before: string, doc: seq<Part>)
    requires doc != []
    ensures Separated(doc) <==> Separate(doc, 1) && Separated(doc[1..])
    ensures Separate(doc, 1) ==> Quiet(before + PartText(doc[0]), doc[1..])
  {
    if Separate(doc, 1) && Separated(doc[1..]) {
      forall k: nat | 0 < k < |doc| ensures Separate(doc, k) {
        if k > 1 { assert Separate(doc[1..], k - 1); }
      }
    }
    if Separated(doc) {
      forall k: nat | 0 < k < |doc[1..]| ensures Separate(doc[1..], k) {
        assert Separate(doc, k + 1);
      }
    }
  }

  lemma SoundTail(doc: seq<Part>, eval: Evaluator, known: TokenTest)
    requires doc != [] && AllSound(doc, eval, known)
    ensures Sound(doc[0], eval, known) && AllSound(doc[1..], eval, known)
  {
    hide Sound;
  }

  /** From any quiet position on, a document of sound parts renders to its meaning if its parts
      are separated. */
  lemma {:induction false} DocumentFrom(before: string, doc: seq<Part>, eval: Evaluator, known: TokenTest)
    requires AllSound(doc, eval, known) && Separated(doc) && Quiet(before, doc)
    ensures Rendered(before + DocText(doc), |before|, eval, known) == DocMeaning(doc, eval)
    decreases |doc|
  {
    hide *;
    if doc == [] {
      EmptyDocument(before, doc, eval, known);
    } else {
      SoundTail(doc, eval, known);
      Separation(before, doc);
      PartPiece(before, doc, eval, known);
      DocumentFrom(before + PartText(doc[0]), doc[1..], eval, known);
      Combine(before, doc, eval, known);
    }
  }

  lemma EmptyDocument(before: string, doc: seq<Part>, eval: Evaluator, known: TokenTest)
    requires doc == []
    ensures Rendered(before + DocText(doc), |before|, eval, known) == DocMeaning(doc, eval)
  {
    hide PieceAt;
    assert before + "" == before;
  }

  lemma Combine(before: string, doc: seq<Part>, eval: Evaluator, known: TokenTest)
    requires doc != []
    requires PieceAt(before + DocText(doc), |before|, eval, known)
          == Piece(|PartText(doc[0])|, PartMeaning(doc[0], eval))
    ensures Rendered(before + DocText(doc), |before|, eval, known) == DocMeaning(doc, eval)
       <==> Rendered((before + PartText(doc[0])) + DocText(doc[1..]), |before + PartText(doc[0])|, eval, known)
            == DocMeaning(doc[1..], eval)
  {
    hide PieceAt, PartText, PartMeaning, DocText;
    var src := before + DocText(doc);
    DocSplits(before, doc);
    assert |before| < |src|;
    OnePiece(src, |before|, eval, known);
    hide Rendered;
    SameFront(PartMeaning(doc[0], eval), Rendered(src, |before + PartText(doc[0])|, eval, known),
        DocMeaning(doc[1..], eval));
  }

  lemma SameFront(a: string, b: string, c: string)
    ensures a + b == a + c <==> b == c
  {
    assert (a + b)[|a|..] == b && (a + c)[|a|..] == c;
  }

  ghost predicate Renders(doc: seq<Part>, eval: Evaluator, known: TokenTest) {
    Rendered(DocText(doc), 0, eval, known) == DocMeaning(doc, eval)
  }

  /** A document of sound, separated parts, written as a template, renders to its meaning. */
  lemma DocumentRenders(doc: seq<Part>, eval: Evaluator, known: TokenTest)
    requires AllSound(doc, eval, known) && Separated(doc)
    ensures Renders(doc, eval, known)
  {
    DocumentFrom("", doc, eval, known);
    assert "" + DocText(doc) == DocText(doc);
  }

  // The evaluator and the test that tell parts that are not separated.
  function AnswerA(x: string): Option<string> { Some("a") }
  function KnowAll(x: string): bool { true }

  /** Two parts that are not separate are misread. */
  lemma Clash(before: string, doc: seq<Part>)
    requires |doc| > 1 && !Separate(doc, 1) && Writable(doc[1])
    ensures Rendered(before + DocText(doc), |before|, AnswerA, KnowAll) != DocMeaning(doc, AnswerA)
  {
    if doc[0].Pair? { ClashPair(before, doc); } else {
      ClashMeaning(doc);
      if doc[0].c == '$' { ClashDollar(before, doc); } else { ClashEscape(before, doc); }
    }
  }

  /** A token right after a pair of braces is copied. */
  lemma ClashPair(before: string, doc: seq<Part>)
    requires |doc| > 1 && doc[0].Pair? && doc[1].Tok? && Writable(doc[1])
    ensures Rendered(before + DocText(doc), |before|, AnswerA, KnowAll) != DocMeaning(doc, AnswerA)
  {
    var src, i, q, rest := before + DocText(doc), |before|, PartText(doc[1]), DocText(doc[1..][1..]);
    assert DocText(doc) == "\\{{" + (q + rest);
    assert src == before + "\\{{" + (q + rest);
    assert q[0] == '{' && |q| >= 2 && q[1] != '{';
    assert src[i + 2] == '{' && src[i + 3] == '{' && src[i + 4] == q[1];
    assert DocMeaning(doc, AnswerA) == "{{" + DocMeaning(doc[1..], AnswerA);
    assert DocMeaning(doc[1..], AnswerA) == "a" + DocMeaning(doc[1..][1..], AnswerA);
    hide DocText, DocMeaning, Writable;
    PairPiece(before, q + rest, AnswerA, KnowAll);
    OnePiece(src, i, AnswerA, KnowAll);
    OnePiece(src, i + 3, AnswerA, KnowAll);
    PlainPiece(src, i + 3, AnswerA, KnowAll);
    hide Rendered, PieceAt;
    assert Rendered(src, i, AnswerA, KnowAll)[2] == '{';
  }

  lemma ClashMeaning(doc: seq<Part>)
    requires |doc| > 1 && doc[0].Char? && (doc[1].Expr? || doc[1].Tok?)
    ensures |DocMeaning(doc, AnswerA)| >= 2
    ensures DocMeaning(doc, AnswerA)[0] == doc[0].c && DocMeaning(doc, AnswerA)[1] == 'a'
  {
    assert DocMeaning(doc, AnswerA) == [doc[0].c] + DocMeaning(doc[1..], AnswerA);
    assert DocMeaning(doc[1..], AnswerA) == "a" + DocMeaning(doc[1..][1..], AnswerA);
  }

  /** The text of an unseparated pair: its first characters. */
  lemma ClashText(before: string, doc: seq<Part>)
    requires |doc| > 1 && doc[0].Char? && !Separate(doc, 1) && Writable(doc[1])
    ensures var src, i := before + DocText(doc), |before|;
      && i + 2 < |src| && src[i + 1] == '{' && src[i] == (if doc[0].c == '$' then '$' else '\\')
      && (doc[0].c == '{' ==> src[i + 2] == '{')
      && (doc[0].c == '$' ==> src[i + 2] != '{')
  {
    var src, i, q := before + DocText(doc), |before|, PartText(doc[1]);
    assert DocText(doc) == PartText(doc[0]) + (q + DocText(doc[1..][1..]));
    assert q[0] == '{' && |q| >= 2;
    if doc[1].Tok? { assert q[1] != '{'; }
  }

  lemma ClashEscape(before: string, doc: seq<Part>)
    requires |doc| > 1 && doc[0].Char? && !Separate(doc, 1) && Writable(doc[1]) && doc[0].c != '$'
    ensures var r := Rendered(before + DocText(doc), |before|, AnswerA, KnowAll);
      && r != "" && r[0] == '{' && (doc[0].c == '{' ==> |r| >= 2 && r[1] == '{')
  {
    ClashText(before, doc);
    hide DocText, Writable;
    OnePiece(before + DocText(doc), |before|, AnswerA, KnowAll);
    hide Rendered;
  }

  lemma ClashDollar(before: string, doc: seq<Part>)
    requires |doc| > 1 && doc[0].Char? && !Separate(doc, 1) && Writable(doc[1]) && doc[0].c == '$'
    ensures var r := Rendered(before + DocText(doc), |before|, AnswerA, KnowAll);
      |r| >= 2 && r[1] == '{'
  {
    ClashText(before, doc);
    hide DocText, Writable;
    var src, i := before + DocText(doc), |before|;
    OnePiece(src, i, AnswerA, KnowAll);
    OnePiece(src, i + 1, AnswerA, KnowAll);
    PlainPiece(src, i, AnswerA, KnowAll);
    PlainPiece(src, i + 1, AnswerA, KnowAll);
    hide Rendered, PieceAt;
  }

  /** A character that starts nothing is copied. */
  lemma PlainPiece(src: string, i: nat, eval: Evaluator, known: TokenTest)
    requires i + 1 < |src| && src[i] != '\\'
    requires src[i] == '{' ==> src[i + 1] != '{' && i > 0 && (src[i - 1] == '$' || src[i - 1] == '{')
    ensures PieceAt(src, i, eval, known) == Piece(1, [src[i]])
  {
    assert forall e: nat :: !Inserts(src, i, e, eval) && !InsertsToken(src, i, e, eval, known);
  }

  /** Parts that are not separated are misread, whatever stands before and after them. */
  lemma {:induction false} Misrenders(before: string, doc: seq<Part>)
    requires AllSound(doc, AnswerA, KnowAll) && !Separated(doc) && Quiet(before, doc)
    ensures Rendered(before + DocText(doc), |before|, AnswerA, KnowAll) != DocMeaning(doc, AnswerA)
    decreases |doc|
  {
    hide *;
    assert doc != [] by { NothingUnseparated(doc); }
    SoundTail(doc, AnswerA, KnowAll);
    Separation(before, doc);
    if Separate(doc, 1) {
      PartPiece(before, doc, AnswerA, KnowAll);
      Misrenders(before + PartText(doc[0]), doc[1..]);
      Combine(before, doc, AnswerA, KnowAll);
    } else {
      SecondIsWritable(doc);
      Clash(before, doc);
    }
  }

  lemma NothingUnseparated(doc: seq<Part>)
    ensures !Separated(doc) ==> doc != []
  {
  }

  lemma SecondIsWritable(doc: seq<Part>)
    requires AllSound(doc, AnswerA, KnowAll) && !Separate(doc, 1)
    ensures |doc| > 1 && Writable(doc[1])
  {
    hide Writable;
    assert Sound(doc[1], AnswerA, KnowAll);
  }

  /** A document whose parts can be written renders to its meaning under every evaluator and
      token test that give its parts values, exactly when its parts are separated. */
  lemma RendersIffSeparated(doc: seq<Part>)
    requires forall k :: 0 <= k < |doc| ==> Writable(doc[k])
    ensures (forall eval, known :: AllSound(doc, eval, known) ==> Renders(doc, eval, known)) <==> Separated(doc)
  {
    hide Writable, Separated, Renders;
    if Separated(doc) {
      forall eval, known | AllSound(doc, eval, known) ensures Renders(doc, eval, known) {
        DocumentRenders(doc, eval, known);
      }
    } else {
      assert AllSound(doc, AnswerA, KnowAll);
      assert !Renders(doc, AnswerA, KnowAll) by { Misread(doc); }
    }
  }

  lemma Misread(doc: seq<Part>)
    requires AllSound(doc, AnswerA, KnowAll) && !Separated(doc)
    ensures !Renders(doc, AnswerA, KnowAll)
  {
    hide AllSound, Separated, Rendered, DocMeaning;
    assert "" + DocText(doc) == DocText(doc);
    Misrenders("", doc);
  }

  /** Every brace with a backslash before it. */
  function Escape(s: string): string {
    if s == "" then "" else (if s[0] == '{' then "\\{" else [s[0]]) + Escape(s[1..])
  }

  function Chars(s: string): seq<Part> {
    if s == "" then [] else [Char(s[0])] + Chars(s[1..])
  }

  lemma {:induction false} CharsText(s: string, eval: Evaluator)
    ensures DocText(Chars(s)) == Escape(s) && DocMeaning(Chars(s), eval) == s
    ensures forall k :: 0 <= k < |Chars(s)| ==> Chars(s)[k].Char?
  {
    if s != "" { CharsText(s[1..], eval); }
  }

  /** An escaped text renders to itself, whatever the evaluator would say about its parts. */
  lemma EscapedTextRenders(s: string, eval: Evaluator, known: TokenTest)
    ensures Rendered(Escape(s), 0, eval, known) == s
  {
    CharsText(s, eval);
    DocumentRenders(Chars(s), eval, known);
  }

  lemma {:induction false} PlainTextRenders(s: string, eval: Evaluator, known: TokenTest)
    requires '{' !in s
    ensures Rendered(s, 0, eval, known) == s
  {
    EscapePlain(s);
    EscapedTextRenders(s, eval, known);
  }

  lemma {:induction false} EscapePlain(s: string)
    requires '{' !in s
    ensures Escape(s) == s
  {
    if s != "" { EscapePlain(s[1..]); }
  }

  /** No brace is escaped, and a line end stands between every opening brace and the closing ones
      behind it. */
  ghost predicate NeverCloses(src: string) {
    && (forall i :: 0 < i < |src| && src[i] == '{' ==> src[i - 1] != '\\')
    && forall i, e :: 0 <= i < e < |src| && src[i] == '{' && src[e] == '}' ==> exists k :: i < k < e && src[k] == '\n'
  }

  lemma CopiedAt(src: string, i: nat, eval: Evaluator, known: TokenTest)
    requires NeverCloses(src) && i < |src|
    ensures PieceAt(src, i, eval, known) == Piece(1, [src[i]])
  {
    assert forall e: nat :: !Inserts(src, i, e, eval) && !InsertsToken(src, i, e, eval, known);
  }

  lemma {:induction false} CopiedFrom(src: string, i: nat, eval: Evaluator, known: TokenTest)
    requires NeverCloses(src) && i <= |src|
    ensures Rendered(src, i, eval, known) == src[i..]
    decreases |src| - i
  {
    hide PieceAt, NeverCloses;
    if i < |src| {
      CopiedAt(src, i, eval, known);
      CopiedFrom(src, i + 1, eval, known);
      assert [src[i]] + src[i + 1..] == src[i..];
    }
  }

  /** Braces that never close on their line are copied. */
  lemma OpenBracesRender(src: string, eval: Evaluator, known: TokenTest)
    requires NeverCloses(src)
    ensures Rendered(src, 0, eval, known) == src
  {
    CopiedFrom(src, 0, eval, known);
  }

  /** An escaped brace right before an expression: the pair rule takes the expression's first
      brace along. */
  lemma BraceBeforeExpression(eval: Evaluator, known: TokenTest)
    requires eval("x") == Some("v")
    ensures DocMeaning([Char('{'), Expr("x")], eval) == "{v"
    ensures Rendered(DocText([Char('{'), Expr("x")]), 0, eval, known) != "{v"
  {
    var doc := [Char('{'), Expr("x")];
    assert doc[1..] == [Expr("x")] && doc[1..][1..] == [];
    assert DocText(doc[1..]) == "{{x}}";
    assert DocText(doc) == "\\{{{x}}";
    assert EscapedPair(DocText(doc), 0);
    var r := Rendered(DocText(doc), 0, eval, known);
    assert r[1] == '{';
    assert DocMeaning(doc[1..], eval) == "v";
  }

  // ----- The scanner -----

  method FindClosing(src: string, i: nat) returns (found: bool, end: nat)
    ensures found ==> Expression(src, i, end)
    ensures !found ==> forall e: nat :: !Expression(src, i, e)
  {
    found, end := false, 0;
    if i + 3 < |src| && src[i] == '{' && src[i + 1] == '{' {
      end := i + 2;
      while end + 1 < |src| && end - (i + 2) < 240 && !(src[end] == '}' && src[end + 1] == '}')
        invariant i + 2 <= end < |src| && end <= i + 242
        invariant forall k :: i + 2 <= k < end ==> !Closes(src, k) && src[k] != '\n'
      {
        if src[end] == '\n' { break; }
        end := end + 1;
      }
      found := Closes(src, end);
      forall e: nat | Expression(src, i, e) ensures found {
        assert !(e < end);
      }
    }
  }

  method FindTokenEnd(src: string, i: nat) returns (found: bool, end: nat)
    ensures found ==> Token(src, i, end)
    ensures !found ==> forall e: nat :: !Token(src, i, e)
  {
    found, end := false, 0;
    if OpensToken(src, i) {
      end := i + 1;
      while end < |src| && end - (i + 1) < 48 && InToken(src[end])
        invariant i + 1 <= end <= |src| && end <= i + 49
        invariant forall k :: i + 1 <= k < end ==> InToken(src[k])
      {
        end := end + 1;
      }
      found := end < |src| && src[end] == '}';
      forall e: nat | Token(src, i, e) ensures found {
        assert !(e < end);
      }
    }
  }

  /** The bytes already written, in a larger buffer. */
  method Grow(buf: array<char>, pos: nat, cap: nat) returns (wider: array<char>)
    requires pos <= buf.Length <= cap
    ensures fresh(wider) && wider.Length == cap && wider[..pos] == buf[..pos]
  {
    wider := new char[cap](_ => ' ');
    for k := 0 to pos
      invariant forall j :: 0 <= j < k ==> wider[j] == buf[j]
    {
      wider[k] := buf[k];
    }
  }

  /** Writes text at pos, enlarging the buffer first when text and a spare byte do not fit. */
  method Put(buf: array<char>, pos: nat, text: string, cap: nat) returns (out: array<char>, end: nat)
    requires pos < buf.Length && (pos + |text| + 1 >= buf.Length ==> cap > pos + |text| && cap >= buf.Length)
    modifies buf
    ensures end == pos + |text| < out.Length
    ensures out == buf || fresh(out)
    ensures out.Length >= buf.Length
    ensures out[..end] == old(buf[..pos]) + text
  {
    out, end := buf, pos + |text|;
    if end + 1 >= buf.Length { out := Grow(buf, pos, cap); }
    for k := 0 to |text|
      invariant out[..pos] == old(buf[..pos])
      invariant forall j :: 0 <= j < k ==> out[pos + j] == text[j]
      modifies out
    {
      out[pos + k] := text[k];
    }
    assert forall j :: 0 <= j < |text| ==> out[..end][pos + j] == text[j];
    assert out[..end] == out[..pos] + text;
  }

  method Render(src: string, eval: Evaluator, known: TokenTest) returns (out: array<char>, pos: nat)
    ensures pos < out.Length && out[..pos] == Rendered(src, 0, eval, known)
  {
    hide Rendered, PieceAt, Expression, Token;
    out := new char[|src| * 2 + 4096](_ => ' ');
    pos := 0;
    var i := 0;
    ghost var whole := Rendered(src, 0, eval, known);
    while i < |src|
      invariant i <= |src| && pos < out.Length && fresh(out)
      invariant out.Length >= 4096
      invariant whole == out[..pos] + Rendered(src, i, eval, known)
      decreases |src| - i
    {
      var n, text, cap := PieceRead(src, i, eval, known, out.Length);
      OnePiece(src, i, eval, known);
      ghost var done := out[..pos];
      out, pos := Put(out, pos, text, cap);
      assert done + (text + Rendered(src, i + n, eval, known))
          == done + text + Rendered(src, i + n, eval, known);
      i := i + n;
    }
    AllRead(src, eval, known);
  }

  lemma OnePiece(src: string, i: nat, eval: Evaluator, known: TokenTest)
    requires i < |src|
    ensures Rendered(src, i, eval, known)
         == PieceAt(src, i, eval, known).text
            + Rendered(src, i + PieceAt(src, i, eval, known).length, eval, known)
  {
    hide PieceAt;
  }

  lemma AllRead(src: string, eval: Evaluator, known: TokenTest)
    ensures Rendered(src, |src|, eval, known) == ""
  {
  }

  /** What one pass of the render loop reads and writes, and the capacity it would grow to. */
  method PieceRead(src: string, i: nat, eval: Evaluator, known: TokenTest, cap: nat)
    returns (n: nat, text: string, wider: nat)
    requires i < |src| && cap >= 4096
    ensures Piece(n, text) == PieceAt(src, i, eval, known)
    ensures wider >= cap * 2 && wider >= cap + |text|
  {
    hide Expression, Token;
    if i + 2 < |src| && src[i] == '\\' && src[i + 1] == '{' && src[i + 2] == '{' {
      return 3, "{{", cap * 2;
    }
    if i + 1 < |src| && src[i] == '\\' && src[i + 1] == '{' {
      return 2, "{", cap * 2;
    }
    var found, end := FindClosing(src, i);
    if found {
      InsertsOnly(src, i, end, eval);
      var value := eval(src[i + 2..end]);
      if value.Some? && |value.value| < 600 {
        return end + 2 - i, value.value, (cap + |value.value| + 4096) * 2;
      }
    }
    assert forall e: nat :: !Inserts(src, i, e, eval);
    found, end := FindTokenEnd(src, i);
    if found {
      InsertsTokenOnly(src, i, end, eval, known);
      if known(src[i + 1..end]) {
        var value := eval(src[i + 1..end]);
        if value.Some? && |value.value| < 600 {
          return end + 1 - i, value.value, (cap + |value.value| + 4096) * 2;
        }
      }
    }
    assert forall e: nat :: !InsertsToken(src, i, e, eval, known);
    return 1, [src[i]], cap * 2;
  }

  lemma InsertsOnly(src: string, i: nat, e: nat, eval: Evaluator)
    requires Expression(src, i, e)
    ensures i + 2 <= e && e + 1 < |src|
    ensures Inserts(src, i, e, eval) == Valued(eval, src[i + 2..e])
    ensures forall d: nat :: Inserts(src, i, d, eval) ==> d == e
  {
  }

  lemma InsertsTokenOnly(src: string, i: nat, e: nat, eval: Evaluator, known: TokenTest)
    requires Token(src, i, e)
    ensures i + 1 <= e < |src|
    ensures InsertsToken(src, i, e, eval, known) == (known(src[i + 1..e]) && Valued(eval, src[i + 1..e]))
    ensures forall d: nat :: InsertsToken(src, i, d, eval, known) ==> d == e
  {
  }
}
