/** User-property bindings: an expression is printed when a project is loaded and parsed
    again when a property changes. */
module Bindings {
  import opened Options

  /** A user property: its text and its components, either of which may be empty. */
  datatype Property = Property(key: string, str: string, val: seq<real>)

  /** What the number reader makes of a text that is nothing but a number and blanks. */
  type NumberReader = string -> Option<real>

  // ----- Characters -----

  predicate Space(c: char) {
    c == ' ' || '\t' <= c <= '\r'
  }

  predicate Mark(c: char) { c == '!' || Space(c) }

  function Lower(c: char): char {
    if 'A' <= c <= 'Z' then c - 'A' + 'a' else c
  }

  /** Equal but for the case of letters. */
  predicate Same(a: string, b: string) {
    |a| == |b| && forall k :: 0 <= k < |a| ==> Lower(a[k]) == Lower(b[k])
  }

  /** The length of the longest prefix of marks. */
  function Marks(s: string): (n: nat)
    ensures n <= |s|
  {
    if s == "" || !Mark(s[0]) then 0 else 1 + Marks(s[1..])
  }

  function Bangs(s: string): (n: nat)
    ensures n <= |s|
  {
    if s == "" || s[0] != '!' then 0 else 1 + Bangs(s[1..])
  }

  function Spaces(s: string): (n: nat)
    ensures n <= |s|
  {
    if s == "" || !Space(s[0]) then 0 else 1 + Spaces(s[1..])
  }

  /** Whether the text holds an odd number of exclamation marks. */
  predicate Odd(s: string) {
    s != "" && ((s[0] == '!') != Odd(s[1..]))
  }

  function Clean(s: string): string { s[Marks(s)..] }
  predicate Negated(s: string) { Odd(s[..Marks(s)]) }

  // ----- Conditions -----

  /** The text matches the property, as its text or as its first component. */
  predicate Matches(up: Property, text: string, number: NumberReader) {
    (up.str != "" && Same(up.str, text))
    || (up.val != [] &&
        if Same(text, "true") then up.val[0] != 0.0
        else if Same(text, "false") then up.val[0] == 0.0
        else number(text).Some? && -0.0001 < up.val[0] - number(text).value < 0.0001)
  }

  function AfterBangs(cond: string): string { cond[Bangs(cond)..] }
  function Body(cond: string): string { AfterBangs(cond)[Spaces(AfterBangs(cond))..] }

  predicate Holds(up: Property, cond: string, number: NumberReader) {
    Matches(up, Body(cond), number) != Odd(cond[..Bangs(cond)])
  }

  // ----- Expressions -----

  datatype Test =
    | Bare(key: string, neg: bool)
    | Compare(key: string, neg: bool, cond: string)

  function IndexOf(s: string, c: char): (n: nat)
    ensures n <= |s| && (n < |s| ==> s[n] == c) && c !in s[..n]
  {
    if s == "" || s[0] == c then 0 else
      assert forall k :: 1 <= k < |s| ==> s[k] == s[1..][k - 1];
      1 + IndexOf(s[1..], c)
  }

  function TrimRight(s: string): (r: string)
    ensures |r| <= |s| && r == s[..|r|]
    ensures r != "" ==> !Space(r[|r| - 1])
  {
    if s == "" || !Space(s[|s| - 1]) then s else TrimRight(s[..|s| - 1])
  }

  predicate EndsInBang(s: string) { s != "" && s[|s| - 1] == '!' }

  function ParseCompare(rest: string, neg: bool, e: nat): (t: Option<Test>)
    requires e < |rest|
    ensures t.Some? ==> t.value.Compare? && |t.value.key| <= e
  {
    var left := rest[..e];
    var bang := EndsInBang(left);
    var key := TrimRight(if bang then left[..e - 1] else left);
    if key == "" || |key| >= 64 then None
    else Some(Compare(key, neg != bang, rest[e + 1..]))
  }

  function Parse(expr: string): Option<Test> {
    var rest := Clean(expr);
    var e := IndexOf(rest, '=');
    if rest == "" then None
    else if e == |rest| then Some(Bare(rest, Negated(expr)))
    else ParseCompare(rest, Negated(expr), e)
  }

  function Print(t: Test): string {
    match t
    case Bare(key, neg) => (if neg then "!" else "") + key
    case Compare(key, neg, cond) => key + (if neg then "!=" else "=") + cond
  }

  /** The first property of that name. */
  function Find(props: seq<Property>, key: string): Option<Property> {
    if props == [] || key == "" then None
    else if Same(props[0].key, key) then Some(props[0])
    else Find(props[1..], key)
  }

  function Evaluate(props: seq<Property>, t: Test, number: NumberReader): Option<bool> {
    var up := Find(props, t.key);
    if up == None then None
    else if t.Compare? then Some(Holds(up.value, t.cond, number) != t.neg)
    else if up.value.val == [] then None
    else Some((up.value.val[0] != 0.0) != t.neg)
  }

  function EvalText(props: seq<Property>, expr: string, number: NumberReader): Option<bool> {
    var t := Parse(expr);
    if t == None then None else Evaluate(props, t.value, number)
  }

  // ----- What the loader writes and returns -----

  function Cut(s: string, n: nat): string { if |s| <= n then s else s[..n] }

  /** The test a binding stands for: marks before the key and before the condition are
      gathered into one negation. */
  function TestOf(user: string, cond: string): Test {
    if cond == "" then Bare(Clean(user), Negated(user))
    else Compare(Clean(user), Negated(user) != Negated(cond), Clean(cond))
  }

  function Flag(b: bool): real { if b then 1.0 else 0.0 }

  function Components(val: seq<real>, n: nat, neg: bool): (r: seq<real>)
    requires n <= |val|
    ensures |r| == n
    ensures forall k :: 0 <= k < n ==> r[k] == if neg then Flag(val[k] == 0.0) else val[k]
  {
    if n == 0 then []
    else Components(val, n - 1, neg) + [if neg then Flag(val[n - 1] == 0.0) else val[n - 1]]
  }

  /** The numbers the loader takes from the property; None sends it to the default value. */
  function Numbers(props: seq<Property>, user: string, cond: string, room: nat,
                   number: NumberReader): Option<seq<real>> {
    var up := Find(props, Clean(user));
    if up == None then None
    else if cond != "" then Some([Flag(Holds(up.value, cond, number) != Negated(user))])
    else if up.value.val == [] then None
    else Some(Components(up.value.val, if |up.value.val| < room then |up.value.val| else room, Negated(user)))
  }

  // ----- Printing and parsing -----

  /** The key survives being printed before an operator: no equals sign, no blank at the end,
      no mark at the end that would be read as part of the operator, and not too long. */
  predicate Survives(t: Test) {
    '=' !in t.key
    && (t.Compare? && t.key != "" ==>
          |t.key| < 64 && !Space(t.key[|t.key| - 1]) && (t.key[|t.key| - 1] == '!' ==> t.neg))
  }

  /** A key as the loader leaves it. */
  predicate Cleaned(key: string) { key != "" && !Mark(key[0]) }

  lemma CleanIsCleaned(s: string)
    ensures Clean(s) == "" || Cleaned(Clean(s))
  {
    if s != "" && Mark(s[0]) { CleanIsCleaned(s[1..]); }
  }

  lemma CleanKeeps(s: string)
    requires Cleaned(s)
    ensures s != "" && Clean(s) == s && !Negated(s) && Marks(s) == 0
  {
  }

  lemma FirstIs(s: string, c: char, n: nat)
    requires n <= |s| && c !in s[..n] && (n < |s| ==> s[n] == c)
    ensures IndexOf(s, c) == n
  {
  }

  lemma TrimKeeps(s: string)
    ensures TrimRight(s) == s <==> s == "" || !Space(s[|s| - 1])
  {
  }

  lemma NegationIsStripped(key: string)
    requires Cleaned(key)
    ensures Clean("!" + key) == key && Negated("!" + key)
  {
    var expr := "!" + key;
    CleanKeeps(key);
    assert expr[1..] == key && Marks(expr) == 1;
    assert expr[..1] == "!" && Odd("!");
  }

  lemma BareReadsBack(key: string, neg: bool)
    requires Cleaned(key)
    ensures Parse(Print(Bare(key, neg))) == Some(Bare(key, neg)) <==> '=' !in key
  {
    hide Cleaned, Clean, Negated, ParseCompare, IndexOf;
    CleanKeeps(key);
    NegationIsStripped(key);
    assert "" + key == key;
    NoEquals(key);
  }

  lemma NoEquals(key: string)
    ensures IndexOf(key, '=') == |key| <==> '=' !in key
  {
    var e := IndexOf(key, '=');
    assert key[..|key|] == key;
  }

  lemma CompareReadsBack(key: string, neg: bool, cond: string)
    requires Cleaned(key)
    ensures Parse(Print(Compare(key, neg, cond))) == Some(Compare(key, neg, cond))
       <==> Survives(Compare(key, neg, cond))
  {
    var expr := Print(Compare(key, neg, cond));
    assert Cleaned(expr);
    CleanKeeps(expr);
    var k := IndexOf(key, '=');
    assert expr == Left(key, neg) + ("=" + cond) && expr == key + expr[|key|..];
    if k < |key| { EqualsInKey(key, neg, cond, expr[|key|..], k); } else { NoEqualsInKey(key, neg, cond, expr); }
    hide Parse, Survives;
  }

  lemma EqualsInKey(key: string, neg: bool, cond: string, rest: string, k: nat)
    requires k < |key| && key[k] == '=' && '=' !in key[..k]
    requires Clean(key + rest) == key + rest
    ensures Parse(key + rest) != Some(Compare(key, neg, cond)) && '=' in key
  {
    hide Clean, Negated, ParseCompare;
    var expr := key + rest;
    assert expr[..k] == key[..k];
    FirstIs(expr, '=', k);
    assert Parse(expr) == ParseCompare(expr, Negated(expr), k);
    hide Parse, IndexOf;
  }

  /** The key with what stands before the equals sign. */
  function Left(key: string, neg: bool): string { if neg then key + "!" else key }

  lemma NoEqualsInKey(key: string, neg: bool, cond: string, expr: string)
    requires Cleaned(key) && '=' !in key && expr == Left(key, neg) + ("=" + cond)
    requires Clean(expr) == expr && !Negated(expr)
    ensures Parse(expr) == Some(Compare(key, neg, cond)) <==> Survives(Compare(key, neg, cond))
  {
    hide *;
    var e := |Left(key, neg)|;
    ParsesAt(key, neg, cond, expr, e);
    LeftReadsBack(key, neg, cond, expr, e);
  }

  lemma ParsesAt(key: string, neg: bool, cond: string, expr: string, e: nat)
    requires '=' !in key && expr == Left(key, neg) + ("=" + cond) && e == |Left(key, neg)|
    requires Clean(expr) == expr && !Negated(expr)
    ensures e < |expr| && expr[..e] == Left(key, neg) && expr[e + 1..] == cond
    ensures Parse(expr) == ParseCompare(expr, false, e)
  {
    hide ParseCompare, Clean, Negated;
    assert expr[..e] == Left(key, neg) && expr[e] == '=' && expr[e + 1..] == cond;
    FirstIs(expr, '=', e);
  }

  lemma LeftReadsBack(key: string, neg: bool, cond: string, rest: string, e: nat)
    requires Cleaned(key) && '=' !in key && e < |rest|
    requires rest[..e] == Left(key, neg) && rest[e + 1..] == cond
    ensures ParseCompare(rest, false, e) == Some(Compare(key, neg, cond))
       <==> Survives(Compare(key, neg, cond))
  {
    TrimKeeps(key);
    hide TrimRight;
    if neg {
      assert (key + "!")[..e - 1] == key;
    } else if EndsInBang(key) {
      assert |TrimRight(key[..e - 1])| < |key|;
    }
  }

  /** The loader's expression is read back as the test it stands for, exactly when the key
      survives. */
  lemma PrintedReadsBack(user: string, cond: string)
    requires Clean(user) != ""
    ensures Parse(Print(TestOf(user, cond))) == Some(TestOf(user, cond))
       <==> Survives(TestOf(user, cond))
  {
    CleanIsCleaned(user);
    var t := TestOf(user, cond);
    if cond == "" { BareReadsBack(t.key, t.neg); } else { CompareReadsBack(t.key, t.neg, t.cond); }
  }

  // ----- What blanks, names and truth words are -----

  /** Blanks are the six white-space characters of the C locale. */
  lemma SpaceIs(c: char)
    ensures Space(c) <==> c in [' ', '\t', '\n', '\U{0B}', '\U{0C}', '\r']
  {
  }

  /** A capital letter and the small letter that goes with it. */
  predicate Capital(c: char, small: char) {
    'A' <= c <= 'Z' && 'a' <= small <= 'z' && c - 'A' == small - 'a'
  }

  /** Two texts are the same name exactly when they differ at most in the case of letters. */
  lemma SameIs(a: string, b: string)
    ensures Same(a, b) <==>
      (|a| == |b| && forall k :: 0 <= k < |a| ==> a[k] == b[k] || Capital(a[k], b[k]) || Capital(b[k], a[k]))
  {
    if |a| == |b| {
      forall k | 0 <= k < |a|
        ensures Lower(a[k]) == Lower(b[k]) <==> a[k] == b[k] || Capital(a[k], b[k]) || Capital(b[k], a[k])
      {
        LowerIs(a[k], b[k]);
      }
    }
    hide Lower;
  }

  lemma LowerIs(c: char, d: char)
    ensures Lower(c) == Lower(d) <==> c == d || Capital(c, d) || Capital(d, c)
  {
  }

  /** A comparison without marks is its text evaluated. */
  lemma ComparedText(props: seq<Property>, key: string, word: string, number: NumberReader)
    requires Cleaned(key) && Survives(Compare(key, false, word))
    ensures EvalText(props, key + "=" + word, number) == Evaluate(props, Compare(key, false, word), number)
  {
    CompareReadsBack(key, false, word);
    hide Parse, Cleaned, Survives, Evaluate;
    assert key + "=" + word == Print(Compare(key, false, word));
  }

  lemma BareText(props: seq<Property>, key: string, number: NumberReader)
    requires Cleaned(key) && '=' !in key
    ensures EvalText(props, key, number) == Evaluate(props, Bare(key, false), number)
    ensures EvalText(props, "!" + key, number) == Evaluate(props, Bare(key, true), number)
  {
    BareReadsBack(key, false);
    BareReadsBack(key, true);
    hide Parse, Cleaned, Evaluate;
    assert Print(Bare(key, false)) == key && Print(Bare(key, true)) == "!" + key;
  }

  /** The two truth words, on a property whose text does not match. */
  lemma WordsHold(up: Property, word: string, number: NumberReader)
    requires up.val != [] && !Same(up.str, word) && word in ["true", "false"]
    ensures Holds(up, word, number) <==> (up.val[0] != 0.0) == (word == "true")
  {
    assert Bangs(word) == 0 && AfterBangs(word) == word && Spaces(word) == 0;
    assert Lower(word[0]) != Lower((if word == "true" then "false" else "true")[0]);
  }

  /** Any other word: the property's own text in either case, or a number within a ten-thousandth. */
  lemma OtherHolds(up: Property, word: string, number: NumberReader)
    requires Cleaned(word) && !Same(word, "true") && !Same(word, "false")
    ensures Holds(up, word, number) <==>
      Same(up.str, word) || (up.val != [] && number(word).Some? &&
        number(word).value - 0.0001 < up.val[0] < number(word).value + 0.0001)
  {
    assert Bangs(word) == 0 && AfterBangs(word) == word && Spaces(word) == 0;
  }

  /** For a property whose text is neither word, a comparison with "true" is the bare test and one
      with "false" the inverted bare test. */
  lemma TruthWords(props: seq<Property>, key: string, number: NumberReader)
    requires Cleaned(key) && Survives(Compare(key, false, "true"))
    requires Find(props, key).Some? && Find(props, key).value.val != []
    requires !Same(Find(props, key).value.str, "true") && !Same(Find(props, key).value.str, "false")
    ensures EvalText(props, key, number) == Some(Find(props, key).value.val[0] != 0.0)
    ensures EvalText(props, key + "=" + "true", number) == EvalText(props, key, number)
    ensures EvalText(props, key + "=" + "false", number) == EvalText(props, "!" + key, number) != None
  {
    hide *;
    ComparedText(props, key, "true", number);
    BothSurvive(key);
    ComparedText(props, key, "false", number);
    BareText(props, key, number);
    WordsEvaluate(props, key, number);
  }

  lemma BothSurvive(key: string)
    requires Survives(Compare(key, false, "true"))
    ensures Survives(Compare(key, false, "false")) && '=' !in key
  {
  }

  lemma WordsEvaluate(props: seq<Property>, key: string, number: NumberReader)
    requires Find(props, key).Some? && Find(props, key).value.val != []
    requires !Same(Find(props, key).value.str, "true") && !Same(Find(props, key).value.str, "false")
    ensures var b := Find(props, key).value.val[0] != 0.0;
      && Evaluate(props, Bare(key, false), number) == Some(b) && Evaluate(props, Bare(key, true), number) == Some(!b)
      && Evaluate(props, Compare(key, false, "true"), number) == Some(b)
      && Evaluate(props, Compare(key, false, "false"), number) == Some(!b)
  {
    WordsHold(Find(props, key).value, "true", number);
    WordsHold(Find(props, key).value, "false", number);
    hide Holds, Find, Same;
  }

  // ----- Agreement -----

  /** In the condition's leading marks, every exclamation mark stands before any blank. */
  predicate Ordered(cond: string) { Body(cond) == "" || Body(cond)[0] != '!' }

  /** The parity of the exclamation marks that a blank separates from the first ones. */
  predicate OddLater(cond: string) { Negated(cond) != Odd(cond[..Bangs(cond)]) }

  lemma BangsAreMarks(s: string)
    ensures Bangs(s) <= Marks(s) && Marks(s) == Bangs(s) + Marks(s[Bangs(s)..])
  {
    if s != "" && s[0] == '!' {
      BangsAreMarks(s[1..]);
      assert s[Bangs(s)..] == s[1..][Bangs(s[1..])..];
    }
  }

  lemma SpacesAreMarks(s: string)
    ensures Marks(s) == Spaces(s) + Marks(s[Spaces(s)..])
    ensures !Odd(s[..Spaces(s)])
  {
    if s != "" && Space(s[0]) {
      SpacesAreMarks(s[1..]);
      assert s[Spaces(s)..] == s[1..][Spaces(s[1..])..];
      assert s[..Spaces(s)][1..] == s[1..][..Spaces(s[1..])];
    }
  }

  lemma OddConcat(a: string, b: string)
    ensures Odd(a + b) == (Odd(a) != Odd(b))
  {
    if a == "" { assert a + b == b; } else {
      OddConcat(a[1..], b);
      assert (a + b)[1..] == a[1..] + b;
    }
  }

  lemma BodyIsNotBlank(s: string)
    ensures s[Spaces(s)..] == "" || !Space(s[Spaces(s)..][0])
  {
    if s != "" && Space(s[0]) { BodyIsNotBlank(s[1..]); }
  }

  lemma OrderedIsClean(cond: string)
    requires Ordered(cond)
    ensures Clean(cond) == Body(cond) && !OddLater(cond)
  {
    var after := AfterBangs(cond);
    BangsAreMarks(cond);
    SpacesAreMarks(after);
    BodyIsNotBlank(after);
    var b, n := Bangs(cond), Spaces(after);
    assert Marks(Body(cond)) == 0;
    assert cond[..b + n] == cond[..b] + after[..n];
    OddConcat(cond[..b], after[..n]);
    assert cond[b + n..] == after[n..];
  }

  lemma CleanedHolds(up: Property, s: string, number: NumberReader)
    requires s == "" || Cleaned(s)
    ensures Holds(up, s, number) == Matches(up, s, number)
  {
    assert s[..0] == "";
    assert Bangs(s) == 0 && AfterBangs(s) == s && Spaces(s) == 0;
    assert Body(s) == s;
  }

  /** Cleaning the condition and keeping its parity does not change what it says. */
  lemma OrderedMeansTheSame(up: Property, cond: string, number: NumberReader)
    requires Ordered(cond)
    ensures (Holds(up, Clean(cond), number) != Negated(cond)) == Holds(up, cond, number)
  {
    OrderedIsClean(cond);
    CleanIsCleaned(cond);
    CleanedHolds(up, Clean(cond), number);
    hide Matches, Clean, Negated;
  }

  /** What the loader's numbers say, read as a truth value. */
  function Truth(numbers: Option<seq<real>>): Option<bool> {
    if numbers == None || numbers.value == [] then None else Some(numbers.value[0] != 0.0)
  }

  lemma TestEvaluates(props: seq<Property>, user: string, cond: string, room: nat, number: NumberReader)
    requires room > 0 && Ordered(cond)
    ensures Evaluate(props, TestOf(user, cond), number) == Truth(Numbers(props, user, cond, room, number))
  {
    hide Holds, Negated, Clean, Ordered, Find;
    var up := Find(props, Clean(user));
    if up.Some? { OrderedMeansTheSame(up.value, cond, number); }
  }

  lemma {:induction false} KeylessIsRefused(user: string, cond: string)
    requires Clean(user) == ""
    ensures Parse(Print(TestOf(user, cond))) == None
  {
    var t := TestOf(user, cond);
    var expr := Print(t);
    if t.Compare? {
      var body := "=" + t.cond;
      CleanKeeps(body);
      if t.neg { assert expr[1..] == body; } else { assert expr == body; }
      assert Clean(expr) == body;
      FirstIs(body, '=', 0);
      assert ParseCompare(body, Negated(expr), 0) == None;
    } else if t.neg {
      assert expr == "!";
      assert Marks(expr[1..]) == 0;
    }
  }

  /** The printed expression, evaluated later, gives the truth value of the number returned
      at load, and no value when the loader took none from the property. The buffer of cap
      characters must hold the expression and its terminator. */
  lemma LoadAgreesWithEvaluation(props: seq<Property>, user: string, cond: string, cap: nat, room: nat,
                                 number: NumberReader)
    requires room > 0 && Survives(TestOf(user, cond)) && Ordered(cond)
    requires |Print(TestOf(user, cond))| < cap
    ensures EvalText(props, Cut(Print(TestOf(user, cond)), cap - 1), number)
         == Truth(Numbers(props, user, cond, room, number))
  {
    TestEvaluates(props, user, cond, room, number);
    hide Numbers, Print, Parse, Ordered, Truth;
    if Clean(user) == "" {
      KeylessIsRefused(user, cond);
    } else {
      PrintedReadsBack(user, cond);
    }
  }

  lemma BlankBangFive()
    ensures Clean(" !5") == "5" && Negated(" !5")
    ensures Body(" !5") == "!5" && Bangs(" !5") == 0 && !Odd(" !5"[..0])
  {
    var cond := " !5";
    assert cond[1..] == "!5" && "!5"[1..] == "5";
    assert Marks("5") == 0 && Marks("!5") == 1 && Marks(cond) == 2;
    assert cond[..2][1..] == "!" && "!"[1..] == "";
    assert Spaces("!5") == 0 && Spaces(cond) == 1;
  }

  /** The order matters: a condition with a blank before its exclamation mark is false at
      load and true when evaluated. */
  lemma BlankBeforeBangDisagrees(number: NumberReader)
    requires number("!5") == None && number("5") == Some(5.0)
    ensures var props := [Property("k", "", [3.0])];
            Truth(Numbers(props, "k", " !5", 1, number)) == Some(false)
            && EvalText(props, Print(TestOf("k", " !5")), number) == Some(true)
  {
    var up := Property("k", "", [3.0]);
    var cond := " !5";
    BlankBangFive();
    CleanKeeps("k");
    PrintedReadsBack("k", cond);
    CleanedHolds(up, "5", number);
    hide Clean, Negated, Bangs, Odd, Parse, Print;
  }

  // ----- The scanners -----

  lemma SuffixStep(s: string, n: nat)
    requires n < |s|
    ensures s[n..][1..] == s[n + 1..] && s[n..][0] == s[n]
  {
  }

  lemma OddSnoc(s: string, n: nat)
    requires n < |s|
    ensures Odd(s[..n + 1]) == (Odd(s[..n]) != (s[n] == '!'))
  {
    var last := [s[n]];
    assert s[..n + 1] == s[..n] + last;
    OddConcat(s[..n], last);
    assert last[1..] == "" && Odd(last) == (s[n] == '!');
  }

  method SkipMarks(s: string) returns (neg: bool, rest: string)
    ensures neg == Negated(s) && rest == Clean(s)
  {
    neg := false;
    var n := 0;
    assert s[..0] == "" && s[0..] == s;
    while n < |s| && Mark(s[n])
      invariant n <= |s| && Marks(s) == n + Marks(s[n..]) && neg == Odd(s[..n])
    {
      SuffixStep(s, n);
      OddSnoc(s, n);
      if s[n] == '!' { neg := !neg; }
      n := n + 1;
    }
    rest := s[n..];
  }

  method SkipBangs(s: string) returns (neg: bool, rest: string)
    ensures neg == Odd(s[..Bangs(s)]) && rest == AfterBangs(s)
  {
    neg := false;
    var n := 0;
    assert s[..0] == "" && s[0..] == s;
    while n < |s| && s[n] == '!'
      invariant n <= |s| && Bangs(s) == n + Bangs(s[n..]) && neg == Odd(s[..n])
    {
      SuffixStep(s, n);
      OddSnoc(s, n);
      neg := !neg;
      n := n + 1;
    }
    rest := s[n..];
  }

  method SkipSpaces(s: string) returns (rest: string)
    ensures rest == s[Spaces(s)..]
  {
    var n := 0;
    assert s[0..] == s;
    while n < |s| && Space(s[n])
      invariant n <= |s| && Spaces(s) == n + Spaces(s[n..])
    {
      SuffixStep(s, n);
      n := n + 1;
    }
    rest := s[n..];
  }

  method FindProperty(props: seq<Property>, key: string) returns (up: Option<Property>)
    ensures up == Find(props, key)
  {
    if key == "" { return None; }
    for i := 0 to |props|
      invariant Find(props, key) == Find(props[i..], key)
    {
      if Same(props[i].key, key) { return Some(props[i]); }
    }
    return None;
  }

  method EvalCondition(up: Property, cond: string, number: NumberReader) returns (r: bool)
    ensures r == Holds(up, cond, number)
  {
    hide Spaces, Bangs, Odd, Same;
    var invert, rest := SkipBangs(cond);
    rest := SkipSpaces(rest);
    var matched := false;
    if up.str != "" && Same(up.str, rest) {
      matched := true;
    } else if |up.val| > 0 {
      if Same(rest, "true") {
        matched := up.val[0] != 0.0;
      } else if Same(rest, "false") {
        matched := up.val[0] == 0.0;
      } else {
        var value := number(rest);
        if value.Some? {
          var d := up.val[0] - value.value;
          matched := (if d < 0.0 then -d else d) < 0.0001;
        }
      }
    }
    r := if invert then !matched else matched;
  }

  method ReadKey(left: string) returns (bang: bool, key: string)
    ensures bang == EndsInBang(left)
    ensures key == TrimRight(if bang then left[..|left| - 1] else left)
  {
    var klen := |left|;
    bang := false;
    if klen > 0 && left[klen - 1] == '!' {
      bang := true;
      klen := klen - 1;
    }
    ghost var start := left[..klen];
    assert left[..|left|] == left;
    while klen > 0 && Space(left[klen - 1])
      invariant klen <= |left| && TrimRight(left[..klen]) == TrimRight(start)
    {
      assert left[..klen][..klen - 1] == left[..klen - 1];
      klen := klen - 1;
    }
    key := left[..klen];
  }

  method EvalExpression(props: seq<Property>, expr: string, number: NumberReader) returns (r: Option<bool>)
    ensures r == EvalText(props, expr, number)
  {
    hide Marks, Find, Holds, TrimRight, IndexOf, Negated, Clean;
    var neg, p := SkipMarks(expr);
    if p == "" { return None; }
    var e := IndexOf(p, '=');
    if e == |p| {
      var up := FindProperty(props, p);
      if up == None || up.value.val == [] { return None; }
      var v := up.value.val[0] != 0.0;
      return Some(if neg then !v else v);
    }
    var bang, key := ReadKey(p[..e]);
    if key == "" || |key| >= 64 { return None; }
    var up := FindProperty(props, key);
    if up == None { return None; }
    var matched := EvalCondition(up.value, p[e + 1..], number);
    return Some(if neg != bang then !matched else matched);
  }

  /** The loader: writes the expression into a buffer of cap characters, terminator included,
      and takes at most room numbers from the property. */
  method LoadFloats(props: seq<Property>, user: string, text: string, cap: nat, room: nat, number: NumberReader)
    returns (expr: string, numbers: Option<seq<real>>)
    requires room > 0
    ensures expr == if user == "" || cap == 0 then "" else Cut(Print(TestOf(user, Cut(text, 63))), cap - 1)
    ensures user != "" ==> numbers == Numbers(props, user, Cut(text, 63), room, number)
    ensures user == "" ==> numbers == None
  {
    hide Marks, Find, Holds, Negated, Clean;
    expr, numbers := "", None;
    if user == "" { return; }
    var neg, key := SkipMarks(user);
    var cond := Cut(text, 63);
    if cap > 0 {
      if cond != "" {
        var condNeg, rest := SkipMarks(cond);
        if neg { condNeg := !condNeg; }
        expr := Cut(key + (if condNeg then "!=" else "=") + rest, cap - 1);
      } else {
        expr := Cut((if neg then "!" else "") + key, cap - 1);
      }
    }
    var up := FindProperty(props, key);
    if up == None { return; }
    if cond != "" {
      var matched := EvalCondition(up.value, cond, number);
      if neg { matched := !matched; }
      numbers := Some([if matched then 1.0 else 0.0]);
    } else if |up.value.val| > 0 {
      var val := up.value.val;
      var n := if |val| < room then |val| else room;
      var out: seq<real> := [];
      for i := 0 to n
        invariant out == Components(val, i, neg)
      {
        out := out + [if neg then (if val[i] == 0.0 then 1.0 else 0.0) else val[i]];
      }
      numbers := Some(out);
    }
  }
}
