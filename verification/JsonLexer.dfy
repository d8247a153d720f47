/** The recursive-descent parser over a position in the source text. */
module JsonLexer {
  import opened Bits
  import opened JsonText
  import opened JsonValue
  import opened Options

  /** The outcome of lexing on, when n bytes giving acc lie behind. */
  ghost function Behind(acc: seq<byte>, n: nat, rest: Lexed): Lexed {
    if rest.NoString? then NoString else Str(acc + rest.str, n + rest.used)
  }

  class Lexer {
    const src: seq<byte>
    var pos: nat

    constructor (src: seq<byte>)
      ensures this.src == src && pos == 0
    {
      this.src := src;
      pos := 0;
    }

    ghost predicate Inside()
      reads this
    {
      pos <= |src|
    }

    method SkipWs()
      requires Inside()
      modifies this
      ensures Inside() && pos == old(pos) + WsLength(src[old(pos)..])
    {
      ghost var start := pos;
      assert src[start..][0..] == src[start..];
      while pos < |src|
        invariant Inside() && start <= pos
        invariant WsLength(src[start..]) == pos - start + WsLength(src[pos..])
        decreases |src| - pos
      {
        var c := src[pos];
        if IsWs(c) {
          pos := pos + 1;
        } else if c == 0x2F && pos + 1 < |src| && src[pos + 1] == 0x2F {
          SkipLine();
        } else if c == 0x2F && pos + 1 < |src| && src[pos + 1] == 0x2A {
          SkipComment();
        } else {
          break;
        }
      }
    }

    method SkipLine()
      requires pos + 1 < |src| && src[pos] == 0x2F && src[pos + 1] == 0x2F
      modifies this
      ensures Inside() && pos > old(pos)
      ensures WsLength(src[old(pos)..]) == pos - old(pos) + WsLength(src[pos..])
    {
      hide WsLength;
      ghost var start := pos;
      pos := pos + 2;
      ghost var body := src[pos..];
      while pos < |src| && src[pos] != 0x0A
        invariant Inside() && start + 2 <= pos
        invariant LineLength(body) == pos - (start + 2) + LineLength(src[pos..])
      {
        pos := pos + 1;
      }
      WsLine(src, start, pos);
    }

    method SkipComment()
      requires pos + 1 < |src| && src[pos] == 0x2F && src[pos + 1] == 0x2A
      modifies this
      ensures Inside() && pos > old(pos)
      ensures WsLength(src[old(pos)..]) == pos - old(pos) + WsLength(src[pos..])
    {
      hide WsLength, CommentLength;
      ghost var start := pos;
      pos := pos + 2;
      ghost var body := src[pos..];
      while pos + 1 < |src| && !(src[pos] == 0x2A && src[pos + 1] == 0x2F)
        invariant Inside() && start + 2 <= pos
        invariant CommentLength(body) == pos - (start + 2) + CommentLength(src[pos..])
      {
        CommentStep(src, pos);
        pos := pos + 1;
      }
      CommentStep(src, pos);
      if pos + 1 < |src| {
        pos := pos + 2;
      } else {
        pos := |src|;
      }
      WsComment(src, start, pos);
    }

    /** The growing output buffer always has room: its length stays below its capacity. */
    method Append(out: array<byte>, len: nat, piece: seq<byte>, need: nat) returns (next: array<byte>)
      requires len < out.Length && 64 <= out.Length && |piece| < need <= 6
      modifies out
      ensures next == out || fresh(next)
      ensures len + |piece| < next.Length && out.Length <= next.Length
      ensures next[..len + |piece|] == old(out[..len]) + piece
    {
      next := out;
      if len + need > out.Length {
        next := new byte[out.Length * 2];
        for i := 0 to len
          invariant next[..i] == out[..i] && out[..len] == old(out[..len])
        {
          next[i] := out[i];
        }
      }
      Store(next, len, piece);
    }

    /** One element of the string: the bytes it stands for; the position moves past it. */
    method NextElement(c: byte) returns (piece: seq<byte>, need: nat)
      requires 0 < pos <= |src| && src[pos - 1] == c
      modifies this
      ensures Inside()
      ensures var e := Element(src[old(pos) - 1..]); piece == e.bytes && pos == old(pos) - 1 + e.used
      ensures |piece| < need <= 6
    {
      hide FourHex, Utf8, Hex4;
      ghost var start := pos - 1;
      piece, need := [c], 2;
      if c == BACKSLASH && pos < |src| {
        var esc := src[pos];
        assert src[start..][1..] == src[pos..];
        pos := pos + 1;
        assert src[pos - 1..][1..] == src[pos..];
        if esc == 0x75 {
          if FourHex(src[pos..]) {
            var u := UnicodeEscape(src[pos..]);
            pos := pos + u.used;
            return u.bytes, 6;
          }
          piece := [0x3F];
        } else if esc == 0x62 {
          piece := [0x08];
        } else if esc == 0x66 {
          piece := [0x0C];
        } else if esc == 0x6E {
          piece := [0x0A];
        } else if esc == 0x72 {
          piece := [0x0D];
        } else if esc == 0x74 {
          piece := [0x09];
        } else {
          piece := [esc];
        }
      }
    }

    method ParseRawString() returns (s: Option<seq<byte>>)
      requires Inside()
      modifies this
      ensures Inside() && old(pos) <= pos
      ensures var r := RawString(src[old(pos)..]);
        if r.NoString? then s.None? else s == Some(r.str) && pos == old(pos) + r.used
    {
      hide Element, WsLength;
      ghost var start := pos;
      SkipWs();
      if pos >= |src| || src[pos] != QUOTE {
        return None;
      }
      pos := pos + 1;
      assert src[start..][pos - start..] == src[pos..];
      s := ParseBody();
    }

    /** The characters between the quotes, collected in a buffer that doubles when it is short. */
    method ParseBody() returns (s: Option<seq<byte>>)
      requires Inside()
      modifies this
      ensures Inside() && old(pos) <= pos
      ensures var r := StringBody(src[old(pos)..]);
        if r.NoString? then s.None? else s == Some(r.str) && pos == old(pos) + r.used
    {
      hide Element, StringBody, Behind;
      ghost var start := pos;
      var out := new byte[64];
      var len := 0;
      BodyStart(src[start..]);
      assert out[..0] == [];
      while pos < |src|
        invariant Inside() && start <= pos && fresh(out) && 0 <= len < out.Length && 64 <= out.Length
        invariant StringBody(src[start..]) == Behind(out[..len], pos - start, StringBody(src[pos..]))
        decreases |src| - pos
      {
        ghost var at := pos;
        var c := src[pos];
        pos := pos + 1;
        if c == QUOTE {
          BodyEnd(src, start, at, out[..len]);
          return Some(out[..len]);
        }
        var piece, need := NextElement(c);
        BodyStep(src, at, pos, out[..len], piece, start);
        out := Append(out, len, piece, need);
        len := len + |piece|;
      }
      BodyOpen(src, start, pos, out[..len]);
      return None;
    }

    /** Consumes one optional comma after white space. */
    method SkipComma()
      requires Inside()
      modifies this
      ensures Inside() && pos == old(pos) + CommaLength(src[old(pos)..])
    {
      hide WsLength;
      SkipWs();
      if pos < |src| && src[pos] == 0x2C {
        pos := pos + 1;
      }
    }

    /** A value and the comma after it. */
    method ParseItem(depth: nat, strtod: Scanner) returns (v: Option<Json>)
      requires Inside() && IsScanner(strtod)
      modifies this
      ensures Inside() && old(pos) <= pos
      ensures Follows(v, ItemAhead(src[old(pos)..], depth, strtod), pos - old(pos))
      decreases |src| - pos, 2
    {
      hide Value, CommaLength;
      ghost var start := pos;
      v := ParseValue(depth, strtod);
      if v.Some? {
        assert src[start..][pos - start..] == src[pos..];
        SkipComma();
      }
    }

    method ParseArray(depth: nat, strtod: Scanner) returns (items: Option<seq<Json>>)
      requires pos < |src| && IsScanner(strtod)
      modifies this
      ensures Inside() && old(pos) < pos
      ensures Follows(items, Items(src[old(pos) + 1..], depth, [], strtod), pos - old(pos) - 1)
      decreases |src| - pos, 0
    {
      hide Items, ItemAhead, WsLength, Value, CommaLength, Shifted, List, Stands;
      pos := pos + 1;
      ghost var start := pos;
      ghost var rest, one := ItemsRest(depth, strtod), ItemStep(depth, strtod);
      ItemsAreList(depth, strtod);
      Starts(rest, src, start);
      var done: seq<Json> := [];
      while pos < |src|
        invariant start <= pos <= |src| && Stands(rest, src, start, pos, done)
        decreases |src| - pos
      {
        ghost var at := pos;
        SkipWs();
        if pos < |src| && src[pos] == 0x5D {
          pos := pos + 1;
          Closes(rest, one, 0x5D, src, start, at, pos - 1, done);
          return Some(done);
        }
        ghost var here := pos;
        var elem := ParseItem(depth + 1, strtod);
        if elem.None? {
          Breaks(rest, one, 0x5D, src, start, at, here, done);
          return None;
        }
        Goes(rest, one, 0x5D, src, start, at, here, pos, done, elem.value);
        done := done + [elem.value];
      }
      Ends(rest, one, 0x5D, src, start, done);
      return None;
    }

    /** A key and its colon. */
    method ParseKey() returns (key: Option<seq<byte>>)
      requires Inside()
      modifies this
      ensures Inside() && old(pos) <= pos
      ensures var r := KeyAhead(src[old(pos)..]);
        if r.NoString? then key.None? else key == Some(r.str) && pos == old(pos) + r.used
    {
      hide WsLength, RawString;
      ghost var start := pos;
      key := ParseRawString();
      if key.None? {
        return;
      }
      assert src[start..][pos - start..] == src[pos..];
      SkipWs();
      if pos >= |src| || src[pos] != 0x3A {
        return None;
      }
      pos := pos + 1;
    }

    /** A key, its value and the comma after it. */
    method ParseEntry(depth: nat, strtod: Scanner) returns (entry: Option<Entry>)
      requires Inside() && IsScanner(strtod)
      modifies this
      ensures Inside() && old(pos) <= pos
      ensures Follows(entry, EntryAhead(src[old(pos)..], depth, strtod), pos - old(pos))
      decreases |src| - pos, 3
    {
      hide KeyAhead, ItemAhead;
      ghost var start := pos;
      var key := ParseKey();
      if key.None? {
        return None;
      }
      assert src[start..][pos - start..] == src[pos..];
      var val := ParseItem(depth, strtod);
      if val.None? {
        return None;
      }
      entry := Some(Entry(key.value, val.value));
    }

    method ParseObject(depth: nat, strtod: Scanner) returns (entries: Option<seq<Entry>>)
      requires pos < |src| && IsScanner(strtod)
      modifies this
      ensures Inside() && old(pos) < pos
      ensures Follows(entries, Entries(src[old(pos) + 1..], depth, [], strtod), pos - old(pos) - 1)
      decreases |src| - pos, 0
    {
      hide Entries, EntryAhead, WsLength, Value, CommaLength, Shifted, List, Stands;
      pos := pos + 1;
      ghost var start := pos;
      ghost var rest, one := EntriesRest(depth, strtod), EntryStep(depth, strtod);
      EntriesAreList(depth, strtod);
      Starts(rest, src, start);
      var done: seq<Entry> := [];
      while pos < |src|
        invariant start <= pos <= |src| && Stands(rest, src, start, pos, done)
        decreases |src| - pos
      {
        ghost var at := pos;
        SkipWs();
        if pos < |src| && src[pos] == 0x7D {
          pos := pos + 1;
          Closes(rest, one, 0x7D, src, start, at, pos - 1, done);
          return Some(done);
        }
        ghost var here := pos;
        var entry := ParseEntry(depth + 1, strtod);
        if entry.None? {
          Breaks(rest, one, 0x7D, src, start, at, here, done);
          return None;
        }
        Goes(rest, one, 0x7D, src, start, at, here, pos, done, entry.value);
        done := done + [entry.value];
      }
      Ends(rest, one, 0x7D, src, start, done);
      return None;
    }

    /** Does the text at the position begin with the word? */
    method LookingAt(word: seq<byte>) returns (b: bool)
      requires Inside()
      ensures b == Begins(src[pos..], word)
    {
      b := |src| - pos >= |word| && src[pos..pos + |word|] == word;
      if |src| - pos >= |word| {
        assert src[pos..][..|word|] == src[pos..pos + |word|];
      }
    }

    method ParseScalar(strtod: Scanner) returns (v: Option<Json>)
      requires pos < |src| && IsScanner(strtod)
      modifies this
      ensures Inside() && old(pos) <= pos
      ensures Follows(v, Scalar(src[old(pos)..], strtod), pos - old(pos))
    {
      hide Begins;
      var isTrue := LookingAt(TRUE_TEXT);
      if isTrue {
        BeginsRoom(src[pos..], TRUE_TEXT);
        pos := pos + 4;
        return Some(JBool(true));
      }
      var isFalse := LookingAt(FALSE_TEXT);
      if isFalse {
        BeginsRoom(src[pos..], FALSE_TEXT);
        pos := pos + 5;
        return Some(JBool(false));
      }
      var isNull := LookingAt(NULL_TEXT);
      if isNull {
        BeginsRoom(src[pos..], NULL_TEXT);
        pos := pos + 4;
        return Some(JNull);
      }
      if StartsNumber(src[pos]) {
        var num := strtod(Window(src[pos..]));
        if num.NoNumber? {
          return None;
        }
        assert num.used <= |Window(src[pos..])|;
        pos := pos + num.used;
        return Some(JNum(num.value));
      }
      return None;
    }

    method ParseValue(depth: nat, strtod: Scanner) returns (v: Option<Json>)
      requires Inside() && IsScanner(strtod)
      modifies this
      ensures Inside() && old(pos) <= pos && (v.Some? ==> old(pos) < pos)
      ensures Follows(v, Value(src[old(pos)..], depth, strtod), pos - old(pos))
      decreases |src| - pos, 1
    {
      hide WsLength, RawString, Scalar, Items, Entries, Value;
      ghost var start := pos;
      ValueUnfold(src[start..], depth, strtod);
      if depth > 64 {
        return None;
      }
      SkipWs();
      if pos >= |src| {
        return None;
      }
      assert src[start..][pos - start..] == src[pos..];
      assert src[pos..][1..] == src[pos + 1..];
      var c := src[pos];
      if c == 0x7B {
        var entries := ParseObject(depth, strtod);
        v := if entries.None? then None else Some(JObj(entries.value));
      } else if c == 0x5B {
        var items := ParseArray(depth, strtod);
        v := if items.None? then None else Some(JArr(items.value));
      } else if c == QUOTE {
        var s := ParseRawString();
        v := if s.None? then None else Some(JStr(s.value));
      } else {
        v := ParseScalar(strtod);
      }
    }
  }

  lemma BodyStart(t: seq<byte>)
    ensures StringBody(t) == Behind([], 0, StringBody(t))
  {
    hide StringBody;
    var r := StringBody(t);
    if r.Str? {
      assert [] + r.str == r.str;
    }
  }

  lemma BodyEnd(src: seq<byte>, start: nat, at: nat, acc: seq<byte>)
    requires start <= at < |src| && src[at] == QUOTE
    requires StringBody(src[start..]) == Behind(acc, at - start, StringBody(src[at..]))
    ensures StringBody(src[start..]) == Str(acc, at + 1 - start)
  {
    hide Element;
    assert acc + [] == acc;
  }

  lemma BodyOpen(src: seq<byte>, start: nat, at: nat, acc: seq<byte>)
    requires start <= at == |src|
    requires StringBody(src[start..]) == Behind(acc, at - start, StringBody(src[at..]))
    ensures StringBody(src[start..]).NoString?
  {
    hide Element;
    assert src[at..] == [];
  }

  lemma WsLine(src: seq<byte>, start: nat, end: nat)
    requires start + 2 <= |src| && src[start] == 0x2F && src[start + 1] == 0x2F
    requires end == start + 2 + LineLength(src[start + 2..]) <= |src|
    ensures WsLength(src[start..]) == end - start + WsLength(src[end..])
  {
    hide LineLength;
    var t := src[start..];
    assert t[2..] == src[start + 2..];
    assert t[end - start..] == src[end..];
  }

  lemma WsComment(src: seq<byte>, start: nat, end: nat)
    requires start + 2 <= |src| && src[start] == 0x2F && src[start + 1] == 0x2A
    requires end == start + 2 + CommentLength(src[start + 2..]) <= |src|
    ensures WsLength(src[start..]) == end - start + WsLength(src[end..])
  {
    hide CommentLength, LineLength;
    var t := src[start..];
    assert t[0] == 0x2F && t[1] == 0x2A && t[2..] == src[start + 2..];
    assert t[end - start..] == src[end..];
  }

  lemma CommentStep(src: seq<byte>, p: nat)
    requires p <= |src|
    ensures CommentLength(src[p..]) ==
            if p + 1 >= |src| then |src| - p
            else if src[p] == 0x2A && src[p + 1] == 0x2F then 2
            else 1 + CommentLength(src[p + 1..])
  {
    if p < |src| {
      assert src[p..][1..] == src[p + 1..];
    }
  }

  lemma BodyStep(src: seq<byte>, at: nat, next: nat, acc: seq<byte>, piece: seq<byte>, start: nat)
    requires start <= at < next <= |src| && src[at] != QUOTE
    requires Element(src[at..]) == Piece(piece, next - at)
    requires StringBody(src[start..]) == Behind(acc, at - start, StringBody(src[at..]))
    ensures StringBody(src[start..]) == Behind(acc + piece, next - start, StringBody(src[next..]))
  {
    hide Element;
    assert src[at..][next - at..] == src[next..];
    var rest := StringBody(src[next..]);
    if rest.Str? {
      assert acc + piece + rest.str == acc + (piece + rest.str);
    }
  }

  /** The parser's outcome is the specified one, and it moved on by the specified length. */
  ghost predicate Follows<T>(v: Option<T>, r: Parsed<T>, moved: int) {
    if r.Fail? then v.None? else v == Some(r.value) && moved == r.used
  }

  /** An outcome with n more bytes in front. */
  ghost function Shifted<T>(r: Parsed<T>, n: nat): Parsed<T> {
    if r.Fail? then Fail else Ok(r.value, n + r.used)
  }

  lemma Unshifted<T>(r: Parsed<T>)
    ensures r == Shifted(r, 0)
  {
  }

  lemma ShiftIs<T>(r: Parsed<T>, n: nat)
    ensures Shifted(r, n) == if r.Fail? then Fail else Ok(r.value, n + r.used)
  {
  }

  lemma ShiftTwice<T>(r: Parsed<T>, m: nat, n: nat)
    ensures Shifted(Shifted(r, m), n) == Shifted(r, m + n)
  {
  }

  // ----- The loops over elements and entries -----

  type Step<!T> = seq<byte> -> Parsed<T>
  type Rest<!T> = (seq<byte>, seq<T>) -> Parsed<seq<T>>

  /** One round of a list: white space and the closing bracket, or one more element. */
  ghost predicate Round<T(!new)>(rest: Rest<T>, one: Step<T>, close: byte, t: seq<byte>, done: seq<T>) {
    var w := WsLength(t);
    if t == [] then rest(t, done).Fail?
    else if w < |t| && t[w] == close then rest(t, done) == Ok(done, w + 1)
    else
      var e := one(t[w..]);
      (e.Ok? ==> 1 <= e.used <= |t[w..]|)
      && rest(t, done) ==
         if e.Fail? then Fail else Shifted(rest(t[w..][e.used..], done + [e.value]), w + e.used)
  }

  /** The elements of a list up to its closing bracket. */
  ghost predicate List<T(!new)>(rest: Rest<T>, one: Step<T>, close: byte) {
    forall t, done :: Round(rest, one, close, t, done)
  }

  ghost function ItemsRest(depth: nat, strtod: Scanner): Rest<Json>
    requires IsScanner(strtod)
  {
    (t: seq<byte>, done: seq<Json>) => Items(t, depth, done, strtod)
  }

  ghost function ItemStep(depth: nat, strtod: Scanner): Step<Json>
    requires IsScanner(strtod)
  {
    (t: seq<byte>) => ItemAhead(t, depth + 1, strtod)
  }

  lemma ItemsAreList(depth: nat, strtod: Scanner)
    requires IsScanner(strtod)
    ensures List(ItemsRest(depth, strtod), ItemStep(depth, strtod), 0x5D)
  {
    hide Round;
    forall t, done ensures Round(ItemsRest(depth, strtod), ItemStep(depth, strtod), 0x5D, t, done) {
      ItemsRound(t, depth, done, strtod);
    }
  }

  lemma ItemsRound(t: seq<byte>, depth: nat, done: seq<Json>, strtod: Scanner)
    requires IsScanner(strtod)
    ensures Round(ItemsRest(depth, strtod), ItemStep(depth, strtod), 0x5D, t, done)
  {
    hide WsLength, ItemAhead, Shifted;
    var w := WsLength(t);
    if w < |t| { assert t[w..][0] == t[w]; }
    var e := ItemAhead(t[w..], depth + 1, strtod);
    if e.Ok? { ShiftIs(Items(t[w..][e.used..], depth, done + [e.value], strtod), w + e.used); }
  }

  ghost function EntriesRest(depth: nat, strtod: Scanner): Rest<Entry>
    requires IsScanner(strtod)
  {
    (t: seq<byte>, done: seq<Entry>) => Entries(t, depth, done, strtod)
  }

  ghost function EntryStep(depth: nat, strtod: Scanner): Step<Entry>
    requires IsScanner(strtod)
  {
    (t: seq<byte>) => EntryAhead(t, depth + 1, strtod)
  }

  lemma EntriesAreList(depth: nat, strtod: Scanner)
    requires IsScanner(strtod)
    ensures List(EntriesRest(depth, strtod), EntryStep(depth, strtod), 0x7D)
  {
    hide Round;
    forall t, done ensures Round(EntriesRest(depth, strtod), EntryStep(depth, strtod), 0x7D, t, done) {
      EntriesRound(t, depth, done, strtod);
    }
  }

  lemma EntriesRound(t: seq<byte>, depth: nat, done: seq<Entry>, strtod: Scanner)
    requires IsScanner(strtod)
    ensures Round(EntriesRest(depth, strtod), EntryStep(depth, strtod), 0x7D, t, done)
  {
    hide WsLength, EntryAhead, Shifted;
    var w := WsLength(t);
    if w < |t| { assert t[w..][0] == t[w]; }
    var e := EntryAhead(t[w..], depth + 1, strtod);
    if e.Ok? { ShiftIs(Entries(t[w..][e.used..], depth, done + [e.value], strtod), w + e.used); }
  }

  // A loop stands at position at, with the elements done; here is past white space.

  ghost predicate Stands<T(!new)>(rest: Rest<T>, src: seq<byte>, start: nat, at: nat, done: seq<T>) {
    start <= at <= |src| && rest(src[start..], []) == Shifted(rest(src[at..], done), at - start)
  }

  lemma Starts<T(!new)>(rest: Rest<T>, src: seq<byte>, start: nat)
    requires start <= |src|
    ensures Stands(rest, src, start, start, [])
  {
    Unshifted(rest(src[start..], []));
  }

  lemma Closes<T(!new)>(rest: Rest<T>, one: Step<T>, close: byte, src: seq<byte>, start: nat, at: nat, here: nat,
                         done: seq<T>)
    requires List(rest, one, close) && Stands(rest, src, start, at, done)
    requires here == at + WsLength(src[at..]) < |src| && src[here] == close
    ensures Follows(Some(done), rest(src[start..], []), here + 1 - start)
  {
    hide WsLength;
    assert Round(rest, one, close, src[at..], done);
    assert src[at..][here - at] == src[here];
  }

  lemma Breaks<T(!new)>(rest: Rest<T>, one: Step<T>, close: byte, src: seq<byte>, start: nat, at: nat, here: nat,
                         done: seq<T>)
    requires List(rest, one, close) && Stands(rest, src, start, at, done) && at < |src|
    requires here == at + WsLength(src[at..]) <= |src| && (here == |src| || src[here] != close)
    requires one(src[here..]).Fail?
    ensures rest(src[start..], []).Fail?
  {
    hide WsLength;
    assert Round(rest, one, close, src[at..], done);
    assert src[at..][here - at..] == src[here..];
    if here < |src| { assert src[at..][here - at] == src[here]; }
  }

  lemma Goes<T(!new)>(rest: Rest<T>, one: Step<T>, close: byte, src: seq<byte>, start: nat, at: nat, here: nat,
                      next: nat, done: seq<T>, elem: T)
    requires List(rest, one, close) && Stands(rest, src, start, at, done) && at < |src|
    requires here == at + WsLength(src[at..]) <= |src| && (here == |src| || src[here] != close)
    requires one(src[here..]).Ok? && one(src[here..]).value == elem
    requires next == here + one(src[here..]).used <= |src|
    ensures next > at && Stands(rest, src, start, next, done + [elem])
  {
    hide WsLength, Shifted;
    assert Round(rest, one, close, src[at..], done);
    assert src[at..][here - at..] == src[here..];
    if here < |src| { assert src[at..][here - at] == src[here]; }
    assert src[here..][next - here..] == src[next..];
    ShiftTwice(rest(src[next..], done + [elem]), next - at, at - start);
  }

  lemma Ends<T(!new)>(rest: Rest<T>, one: Step<T>, close: byte, src: seq<byte>, start: nat, done: seq<T>)
    requires List(rest, one, close) && Stands(rest, src, start, |src|, done)
    ensures rest(src[start..], []).Fail?
  {
    assert src[|src|..] == [];
    assert Round(rest, one, close, src[|src|..], done);
  }

  lemma BeginsRoom(t: seq<byte>, word: seq<byte>)
    requires Begins(t, word)
    ensures |word| <= |t|
  {
  }

  /** A value after white space, by its first byte. */
  lemma ValueUnfold(t: seq<byte>, depth: nat, strtod: Scanner)
    requires IsScanner(strtod)
    ensures depth > MAX_DEPTH || WsLength(t) == |t| ==> Value(t, depth, strtod).Fail?
    ensures depth <= MAX_DEPTH && WsLength(t) < |t| ==>
      var w := WsLength(t);
      var u := t[w..];
      Value(t, depth, strtod) ==
        if u[0] == 0x7B then
          var r := Entries(u[1..], depth, [], strtod);
          if r.Fail? then Fail else Ok(JObj(r.value), w + 1 + r.used)
        else if u[0] == 0x5B then
          var r := Items(u[1..], depth, [], strtod);
          if r.Fail? then Fail else Ok(JArr(r.value), w + 1 + r.used)
        else if u[0] == QUOTE then
          var r := RawString(u);
          if r.NoString? then Fail else Ok(JStr(r.str), w + r.used)
        else
          var r := Scalar(u, strtod);
          if r.Fail? then Fail else Ok(r.value, w + r.used)
  {
    hide WsLength, RawString, Scalar, Items, Entries;
  }

  /** The entry point: the parsed tree, or nothing. */
  method ParseRoot(src: seq<byte>, strtod: Scanner) returns (v: Option<Json>)
    requires IsScanner(strtod)
    ensures Follows(v, Root(src, strtod), if Root(src, strtod).Ok? then Root(src, strtod).used else 0)
  {
    hide Value;
    if |src| == 0 {
      return None;
    }
    var offset := if |src| >= 3 && src[0] == 0xEF && src[1] == 0xBB && src[2] == 0xBF then 3 else 0;
    var lx := new Lexer(src[offset..]);
    assert lx.src[0..] == src[offset..];
    v := lx.ParseValue(0, strtod);
  }
}
