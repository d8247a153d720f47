/** When the expression printed for a binding, evaluated later, agrees with the numbers taken at
    load: the exact condition. */
module BindingAgreement {
  import opened Bindings
  import opened Options

  /** For this property, reading the printed text gives the truth the loader found. */
  ghost predicate Agrees(up: Property, cond: string, read: string, number: NumberReader) {
    (Holds(up, read, number) != Negated(cond)) == Holds(up, cond, number)
  }

  /** A property without text or value, and one with a text only. */
  function Blank(key: string): Property { Property(key, "", []) }
  function Worded(key: string, text: string): Property { Property(key, text, []) }

  /** Two properties that tell a condition from any shorter text read in its place. */
  lemma ShorterDisagrees(key: string, cond: string, read: string, number: NumberReader)
    requires |read| < |Body(cond)| && (read == "" || Cleaned(read))
    ensures !(Agrees(Blank(key), cond, read, number) && Agrees(Worded(key, Body(cond)), cond, read, number))
  {
    CleanedHolds(Blank(key), read, number);
    CleanedHolds(Worded(key, Body(cond)), read, number);
    assert Same(Body(cond), Body(cond)) && !Same(Body(cond), read);
    hide Negated, Odd, Bangs, Body, Same;
  }

  /** Cleaning shortens the body of a condition exactly when the condition is not ordered. */
  lemma BodyIsLonger(cond: string)
    ensures |Clean(cond)| <= |Body(cond)|
    ensures |Clean(cond)| == |Body(cond)| <==> Ordered(cond)
  {
    var after := AfterBangs(cond);
    BangsAreMarks(cond);
    SpacesAreMarks(after);
    BodyIsNotBlank(after);
  }

  /** Cleaning the condition and keeping its parity preserves its truth for every property
      exactly when the condition is ordered. */
  lemma MeansTheSameIffOrdered(cond: string, number: NumberReader)
    ensures (forall up :: Agrees(up, cond, Clean(cond), number)) <==> Ordered(cond)
  {
    if Ordered(cond) {
      forall up ensures Agrees(up, cond, Clean(cond), number) {
        OrderedMeansTheSame(up, cond, number);
      }
    } else {
      BodyIsLonger(cond);
      CleanIsCleaned(cond);
      ShorterDisagrees("", cond, Clean(cond), number);
    }
    hide Holds, Clean, Ordered, Negated;
  }

  // ----- Parsing a cut expression -----

  /** When a cut comparison is read as one with a key of the same length, the key survived and
      only the condition was cut. */
  lemma CutCompare(key: string, neg: bool, cond: string, text: string)
    requires Cleaned(key) && text <= Left(key, neg) + ("=" + cond)
    requires Parse(text).Some? && Parse(text).value.Compare? && |Parse(text).value.key| == |key|
    ensures |Left(key, neg)| < |text| && text[|Left(key, neg)|] == '='
    ensures Survives(Compare(key, neg, cond))
    ensures Parse(text) == Some(Compare(key, neg, text[|Left(key, neg)| + 1..]))
  {
    hide Parse, ParseCompare, Survives, IndexOf, Cleaned;
    var e := IndexOf(text, '=');
    FrontCleaned(key, neg, cond, text);
    CutParses(text);
    FirstEquals(Left(key, neg), |key|, cond, text, e);
    KeyOfLeft(key, neg);
    ParsesAs(key, neg, cond, text, e);
  }

  lemma FrontCleaned(key: string, neg: bool, cond: string, text: string)
    requires Cleaned(key) && text <= Left(key, neg) + ("=" + cond)
    ensures text == "" || Cleaned(text)
  {
    if text != "" { assert text[0] == key[0]; }
  }

  lemma KeyOfLeft(key: string, neg: bool)
    ensures |key| <= |Left(key, neg)| && '=' !in Left(key, neg)[|key|..]
    ensures '=' !in Left(key, neg) ==> '=' !in key
  {
  }

  lemma CutParses(text: string)
    requires text == "" || Cleaned(text)
    ensures text == "" ==> Parse(text) == None
    ensures text != "" ==>
      Parse(text) == if IndexOf(text, '=') == |text| then Some(Bare(text, false))
                     else ParseCompare(text, false, IndexOf(text, '='))
  {
    if text != "" { CleanKeeps(text); }
    hide ParseCompare, IndexOf, Cleaned;
  }

  /** Behind the key the first equals sign is the operator's. */
  lemma FirstEquals(left: string, n: nat, cond: string, text: string, e: nat)
    requires text <= left + ("=" + cond) && e < |text| && text[e] == '=' && '=' !in text[..e]
    requires n <= |left| && '=' !in left[n..] && n <= e
    ensures e == |left| && text[..e] == left && '=' !in left
  {
    var all := left + ("=" + cond);
    assert text[e] == all[e];
    forall k | n <= k < |left| ensures left[k] != '=' { assert left[k] == left[n..][k - n]; }
    forall k | 0 <= k < e ensures all[k] != '=' { assert all[k] == text[..e][k]; }
    assert all[|left|] == '=';
    assert e == |left|;
    assert text[..e] == left;
  }

  lemma ParsesAs(key: string, neg: bool, cond: string, text: string, e: nat)
    requires Cleaned(key) && '=' !in key && e < |text| && text[..e] == Left(key, neg)
    requires ParseCompare(text, false, e).Some? && |ParseCompare(text, false, e).value.key| == |key|
    ensures Survives(Compare(key, neg, cond))
    ensures ParseCompare(text, false, e) == Some(Compare(key, neg, text[e + 1..]))
  {
    TrimKeeps(key);
    hide TrimRight;
    if neg {
      assert (key + "!")[..e - 1] == key;
    }
  }

  // ----- Agreement of evaluation with loading -----

  /** The expression as it stands in a buffer of cap characters. */
  function PrintedIn(user: string, cond: string, cap: nat): string
    requires cap > 0
  {
    Cut(Print(TestOf(user, cond)), cap - 1)
  }

  ghost predicate AgreesOn(user: string, cond: string, cap: nat, room: nat, props: seq<Property>, number: NumberReader)
    requires cap > 0
  {
    EvalText(props, PrintedIn(user, cond, cap), number) == Truth(Numbers(props, user, cond, room, number))
  }

  lemma PrintedIsFront(user: string, cond: string, cap: nat)
    requires cap > 0
    ensures var all, text := Print(TestOf(user, cond)), PrintedIn(user, cond, cap);
      text <= all && (|all| < cap <==> |text| == |all|)
  {
    hide Print, TestOf;
  }

  /** A project with one property of the key's name. */
  lemma FindOne(up: Property, key: string)
    requires up.key != ""
    ensures Find([up], up.key) == Some(up)
    ensures Find([up], key).Some? ==> key != "" && |key| == |up.key| && Find([up], key) == Some(up)
  {
    assert [up][1..] == [] && Find([up][1..], key) == None;
    assert Same(up.key, up.key);
  }

  /** Agreement on a property without value forces the expression to be read as a comparison
      with its key, of some front of the condition. */
  lemma ReadAsCompare(user: string, cond: string, cap: nat, room: nat, up: Property, number: NumberReader)
    returns (read: string)
    requires cap > 0 && cond != "" && Clean(user) != "" && up.key == Clean(user) && up.val == []
    requires AgreesOn(user, cond, cap, room, [up], number)
    ensures var t := TestOf(user, cond);
      && Survives(t)
      && PrintedIn(user, cond, cap) == Left(t.key, t.neg) + ("=" + read)
      && read <= Clean(cond) && (|Print(t)| < cap <==> |read| == |Clean(cond)|)
    ensures Agrees(up, cond, read, number)
  {
    hide Clean, Negated, Find, Holds, Parse, Survives, Body, Cut;
    var t, text := TestOf(user, cond), PrintedIn(user, cond, cap);
    FindOne(up, up.key);
    PrintedIsFront(user, cond, cap);
    PrintOfCompare(t);
    assert Parse(text).Some?;
    var p := Parse(text).value;
    FindOne(up, p.key);
    CleanIsCleaned(user);
    CutCompare(t.key, t.neg, t.cond, text);
    read := text[|Left(t.key, t.neg)| + 1..];
    CutCondition(Left(t.key, t.neg), t.cond, text);
  }

  lemma PrintOfCompare(t: Test)
    requires t.Compare?
    ensures Print(t) == Left(t.key, t.neg) + ("=" + t.cond)
  {
  }

  lemma CutCondition(left: string, cond: string, text: string)
    requires text <= left + ("=" + cond) && |left| < |text|
    ensures text == left + ("=" + text[|left| + 1..]) && text[|left| + 1..] <= cond
  {
    var all := left + ("=" + cond);
    assert all[|left| + 1..] == cond;
    assert text[..|left|] == left && text[|left|] == '=';
  }

  lemma CompareNeeds(user: string, cond: string, cap: nat, room: nat, number: NumberReader)
    requires cap > 0 && cond != "" && Clean(user) != ""
    requires AgreesOn(user, cond, cap, room, [Blank(Clean(user))], number)
    requires AgreesOn(user, cond, cap, room, [Worded(Clean(user), Body(cond))], number)
    ensures Survives(TestOf(user, cond)) && Ordered(cond) && |Print(TestOf(user, cond))| < cap
  {
    hide AgreesOn, Clean, Survives, Body, Print, PrintedIn, Ordered, Agrees;
    var key := Clean(user);
    var read := ReadAsCompare(user, cond, cap, room, Blank(key), number);
    var again := ReadAsCompare(user, cond, cap, room, Worded(key, Body(cond)), number);
    var left := Left(TestOf(user, cond).key, TestOf(user, cond).neg);
    SameRest(left, read, again);
    FrontOfClean(cond, read);
    BodyIsLonger(cond);
    if |read| < |Body(cond)| {
      ShorterDisagrees(key, cond, read, number);
    }
  }

  lemma SameRest(left: string, x: string, y: string)
    requires left + ("=" + x) == left + ("=" + y)
    ensures x == y
  {
    assert (left + ("=" + x))[|left| + 1..] == x && (left + ("=" + y))[|left| + 1..] == y;
  }

  lemma FrontOfClean(cond: string, read: string)
    requires read <= Clean(cond)
    ensures read == "" || Cleaned(read)
  {
    CleanIsCleaned(cond);
    hide Clean;
  }

  lemma BareNeeds(user: string, cap: nat, room: nat, number: NumberReader)
    requires cap > 0 && room > 0 && Clean(user) != ""
    requires AgreesOn(user, "", cap, room, [Property(Clean(user), "", [1.0])], number)
    ensures Survives(TestOf(user, "")) && |Print(TestOf(user, ""))| < cap
  {
    hide Clean, Negated, Find, Holds, Parse, Cut;
    var t, text := TestOf(user, ""), PrintedIn(user, "", cap);
    var up := Property(Clean(user), "", [1.0]);
    FindOne(up, up.key);
    PrintedIsFront(user, "", cap);
    assert Parse(text).Some?;
    FindOne(up, Parse(text).value.key);
    CleanIsCleaned(user);
    CutBare(t.key, t.neg, text);
  }

  /** A cut bare key is read with a key of the same length only if nothing was cut and no
      equals sign is in it. */
  lemma CutBare(key: string, neg: bool, text: string)
    requires Cleaned(key) && text <= Print(Bare(key, neg))
    requires Parse(text).Some? && |Parse(text).value.key| == |key|
    ensures text == Print(Bare(key, neg)) && '=' !in key
  {
    hide Parse, ParseCompare, Cleaned, Clean;
    CleanOfBare(key, neg, text);
    BareParses(text);
    if Clean(text) == key { NoEquals(key); }
  }

  lemma CleanOfBare(key: string, neg: bool, text: string)
    requires Cleaned(key) && text <= Print(Bare(key, neg))
    ensures Clean(text) <= key
    ensures |Clean(text)| == |key| ==> text == Print(Bare(key, neg)) && Clean(text) == key
  {
    var n := if neg then 1 else 0;
    if |text| > n {
      assert text[n..] <= key && Cleaned(text[n..]);
      if neg {
        assert text == "!" + text[1..];
        NegationIsStripped(text[1..]);
      } else {
        CleanKeeps(text);
      }
    } else {
      assert text == "" || text == "!";
      assert "!"[1..] == "" && Clean("!") == "" && Clean("") == "";
    }
  }

  lemma BareParses(text: string)
    ensures Parse(text).Some? ==>
      && |Parse(text).value.key| <= IndexOf(Clean(text), '=') <= |Clean(text)|
  {
    hide IndexOf, Clean, Negated;
    var e := IndexOf(Clean(text), '=');
    if e < |Clean(text)| { hide ParseCompare; }
  }

  lemma KeylessCut(user: string, cond: string, text: string)
    requires Clean(user) == "" && text <= Print(TestOf(user, cond))
    ensures Parse(text) == None
  {
    var t := TestOf(user, cond);
    if text == "" || text == "!" {
      assert "!"[1..] == "" && Clean("!") == "" && Clean("") == "";
    } else {
      var n := if t.neg then 1 else 0;
      assert t.Compare? && text[n] == '=' && Cleaned(text[n..]);
      FirstIs(text[n..], '=', 0);
      if t.neg {
        assert text == "!" + text[1..];
        NegationIsStripped(text[1..]);
      } else {
        CleanKeeps(text);
      }
    }
  }

  // ----- What a project can hold -----

  /** The program keeps keys of at most 63 characters, texts of at most 255, and four numbers. */
  predicate Storable(up: Property) { |up.key| < 64 && |up.str| < 256 && |up.val| <= 4 }

  ghost predicate AllStorable(props: seq<Property>) {
    forall k :: 0 <= k < |props| ==> Storable(props[k])
  }

  ghost predicate AlwaysAgrees(user: string, cond: string, cap: nat, room: nat)
    requires cap > 0
  {
    forall props, number :: AllStorable(props) ==> AgreesOn(user, cond, cap, room, props, number)
  }

  /** A key that some property can have is read from the text. */
  predicate ReadsKey(text: string) { Parse(text).Some? && |Parse(text).value.key| < 64 }

  lemma {:induction false} FindLong(props: seq<Property>, key: string)
    requires AllStorable(props) && |key| >= 64
    ensures Find(props, key) == None
  {
    if props != [] {
      assert Storable(props[0]);
      FindLong(props[1..], key);
    }
  }

  lemma ParsedKey(text: string)
    ensures Parse(text).Some? ==> Parse(text).value.key != ""
  {
    hide IndexOf, Clean, Negated, TrimRight;
  }

  /** A key too long to be stored is found neither at load nor later, unless a shorter one is
      read from the buffer. */
  lemma LongKeyAgreesIff(user: string, cond: string, cap: nat, room: nat)
    requires cap > 0 && |Clean(user)| >= 64
    ensures AlwaysAgrees(user, cond, cap, room) <==> !ReadsKey(PrintedIn(user, cond, cap))
  {
    hide Parse, Print, Clean, TestOf, Cut, Find, Holds, PrintedIn;
    var text := PrintedIn(user, cond, cap);
    if ReadsKey(text) {
      ParsedKey(text);
      var up := Property(Parse(text).value.key, "", [1.0]);
      FindOne(up, up.key);
      FindOne(up, Clean(user));
      var number := (s: string) => None;
      assert AllStorable([up]) && !AgreesOn(user, cond, cap, room, [up], number);
    } else {
      forall props, number | AllStorable(props) ensures AgreesOn(user, cond, cap, room, props, number) {
        FindLong(props, Clean(user));
        if Parse(text).Some? { FindLong(props, Parse(text).value.key); }
      }
    }
  }

  lemma ShortKeyAgreesIf(user: string, cond: string, cap: nat, room: nat)
    requires cap > 0 && room > 0 && Survives(TestOf(user, cond)) && Ordered(cond)
    requires |Print(TestOf(user, cond))| < cap
    ensures AlwaysAgrees(user, cond, cap, room)
  {
    hide AgreesOn, Survives, Ordered, Print, TestOf;
    forall props, number ensures AgreesOn(user, cond, cap, room, props, number) {
      LoadAgrees(user, cond, cap, room, props, number);
    }
  }

  lemma ShortKeyAgreesOnlyIf(user: string, cond: string, cap: nat, room: nat)
    requires cap > 0 && room > 0 && 0 < |Clean(user)| < 64 && |cond| < 64
    requires AlwaysAgrees(user, cond, cap, room)
    ensures Survives(TestOf(user, cond)) && Ordered(cond) && |Print(TestOf(user, cond))| < cap
  {
    hide AgreesOn, Survives, Ordered, Print, TestOf, Body, Clean;
    var number := (s: string) => None;
    var key := Clean(user);
    if cond == "" {
      EmptyIsOrdered();
      assert AllStorable([Property(key, "", [1.0])]);
      BareNeeds(user, cap, room, number);
    } else {
      BodyIsShorter(cond);
      assert AllStorable([Blank(key)]) && AllStorable([Worded(key, Body(cond))]);
      CompareNeeds(user, cond, cap, room, number);
    }
  }

  lemma BodyIsShorter(cond: string)
    ensures |Body(cond)| <= |cond|
  {
  }

  /** For every project the program can hold, the printed expression, evaluated later, gives the
      truth of the numbers taken at load, and none when none were taken, exactly when: a key that
      can be stored survives, the condition is ordered and the buffer holds the expression; or,
      the key being empty or too long, no key that can be stored is read from the buffer. */
  lemma AlwaysAgreesIff(user: string, text: string, cap: nat, room: nat)
    requires cap > 0 && room > 0
    ensures var cond := Cut(text, 63);
      AlwaysAgrees(user, cond, cap, room) <==>
        if 0 < |Clean(user)| < 64
        then Survives(TestOf(user, cond)) && Ordered(cond) && |Print(TestOf(user, cond))| < cap
        else !ReadsKey(PrintedIn(user, cond, cap))
  {
    var cond := Cut(text, 63);
    assert |cond| < 64;
    hide *;
    if |Clean(user)| >= 64 {
      LongKeyAgreesIff(user, cond, cap, room);
    } else if |Clean(user)| == 0 {
      NoKeyAgrees(user, cond, cap, room);
    } else if AlwaysAgrees(user, cond, cap, room) {
      ShortKeyAgreesOnlyIf(user, cond, cap, room);
    } else if Survives(TestOf(user, cond)) && Ordered(cond) && |Print(TestOf(user, cond))| < cap {
      ShortKeyAgreesIf(user, cond, cap, room);
    }
  }

  lemma NoKeyAgrees(user: string, cond: string, cap: nat, room: nat)
    requires cap > 0 && |Clean(user)| == 0
    ensures AlwaysAgrees(user, cond, cap, room) && !ReadsKey(PrintedIn(user, cond, cap))
  {
    hide Parse, Print, Clean, TestOf, Cut, AgreesOn;
    PrintedIsFront(user, cond, cap);
    KeylessCut(user, cond, PrintedIn(user, cond, cap));
    forall props, number ensures AgreesOn(user, cond, cap, room, props, number) {
      KeylessAgrees(user, cond, cap, room, props, number);
    }
  }

  lemma EmptyIsOrdered()
    ensures Ordered("")
  {
  }

  lemma LoadAgrees(user: string, cond: string, cap: nat, room: nat, props: seq<Property>, number: NumberReader)
    requires cap > 0 && room > 0
    requires Survives(TestOf(user, cond)) && Ordered(cond) && |Print(TestOf(user, cond))| < cap
    ensures AgreesOn(user, cond, cap, room, props, number)
  {
    LoadAgreesWithEvaluation(props, user, cond, cap, room, number);
    hide Survives, Ordered, Print, TestOf, EvalText, Truth, Numbers, Cut;
  }

  lemma KeylessAgrees(user: string, cond: string, cap: nat, room: nat, props: seq<Property>, number: NumberReader)
    requires cap > 0 && Clean(user) == ""
    ensures AgreesOn(user, cond, cap, room, props, number)
  {
    hide Parse, Print, Clean, TestOf, Cut;
    PrintedIsFront(user, cond, cap);
    KeylessCut(user, cond, PrintedIn(user, cond, cap));
  }
}
