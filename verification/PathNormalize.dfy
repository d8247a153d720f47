/** Lexical normalisation of an absolute path, in its own buffer. */
module PathNormalize {

  // ----- Segments and the stack -----

  /** Leading slashes. */
  function Slashes(s: string): (n: nat)
    ensures n <= |s| && (n < |s| ==> s[n] != '/')
  {
    if s == "" || s[0] != '/' then 0 else 1 + Slashes(s[1..])
  }

  /** Characters up to the next slash. */
  function SegLength(s: string): (n: nat)
    ensures n <= |s| && (n < |s| ==> s[n] == '/') && forall i :: 0 <= i < n ==> s[i] != '/'
    ensures s != "" && s[0] != '/' ==> n > 0
  {
    if s == "" || s[0] == '/' then 0 else 1 + SegLength(s[1..])
  }

  /** The non-empty pieces between slashes. */
  function Segments(s: string): seq<string>
    decreases |s|
  {
    var t := s[Slashes(s)..];
    if t == "" then [] else [t[..SegLength(t)]] + Segments(t[SegLength(t)..])
  }

  function Apply(stack: seq<string>, seg: string): seq<string> {
    if seg == "." then stack
    else if seg == ".." then (if stack == [] then [] else stack[..|stack| - 1])
    else stack + [seg]
  }

  /** "." is dropped, ".." pops, the root absorbs; anything else is pushed. */
  function Resolve(segs: seq<string>, stack: seq<string>): seq<string> {
    if segs == [] then stack else Resolve(segs[1..], Apply(stack, segs[0]))
  }

  function Text(stack: seq<string>): string {
    if stack == [] then "/"
    else if |stack| == 1 then "/" + stack[0]
    else Text(stack[..|stack| - 1]) + "/" + stack[|stack| - 1]
  }

  function Normalize(path: string): string {
    if path == "" || path[0] != '/' then path else Text(Resolve(Segments(path[1..]), []))
  }

  ghost predicate IsSegment(s: string) {
    s != "" && '/' !in s
  }

  ghost predicate Plain(stack: seq<string>) {
    forall i :: 0 <= i < |stack| ==> IsSegment(stack[i]) && stack[i] != "." && stack[i] != ".."
  }

  // ----- Laws -----

  lemma {:induction false} SegmentsAreSegments(s: string)
    ensures forall i :: 0 <= i < |Segments(s)| ==> IsSegment(Segments(s)[i])
    decreases |s|
  {
    hide SegLength;
    var t := s[Slashes(s)..];
    if t != "" {
      SegLengthBounds(t);
      var first, rest := t[..SegLength(t)], t[SegLength(t)..];
      SegmentsAreSegments(rest);
      assert Segments(s) == [first] + Segments(rest);
    }
  }

  lemma {:induction false} ResolvePlain(segs: seq<string>, stack: seq<string>)
    requires Plain(stack) && forall i :: 0 <= i < |segs| ==> IsSegment(segs[i])
    ensures Plain(Resolve(segs, stack))
  {
    if segs != [] {
      ResolvePlain(segs[1..], Apply(stack, segs[0]));
    }
  }

  lemma {:induction false} ResolveConcat(a: seq<string>, b: seq<string>, stack: seq<string>)
    ensures Resolve(a + b, stack) == Resolve(b, Resolve(a, stack))
  {
    if a == [] {
      assert a + b == b;
    } else {
      ResolveConcat(a[1..], b, Apply(stack, a[0]));
      assert (a + b)[1..] == a[1..] + b;
    }
  }

  /** A plain stack resolves to itself. */
  lemma {:induction false} ResolvePush(segs: seq<string>, stack: seq<string>)
    requires Plain(segs)
    ensures Resolve(segs, stack) == stack + segs
  {
    if segs == [] {
      assert stack + segs == stack;
    } else {
      assert IsSegment(segs[0]) && segs[0] != "." && segs[0] != "..";
      ResolvePush(segs[1..], stack + [segs[0]]);
      assert stack + [segs[0]] + segs[1..] == stack + segs;
    }
  }

  lemma SlashesStep(c: char, s: string)
    ensures Slashes([c] + s) == if c == '/' then 1 + Slashes(s) else 0
    ensures SegLength([c] + s) == if c == '/' then 0 else 1 + SegLength(s)
  {
    assert ([c] + s)[1..] == s;
  }

  lemma {:induction false} SegLengthAt(s: string, rest: string)
    requires '/' !in s
    ensures SegLength(s + "/" + rest) == |s|
  {
    if s == "" {
      assert s + "/" + rest == "/" + rest;
    } else {
      SegLengthAt(s[1..], rest);
      SlashesStep(s[0], s[1..] + "/" + rest);
      assert s + "/" + rest == [s[0]] + (s[1..] + "/" + rest);
    }
  }

  lemma {:induction false} SegLengthAll(s: string)
    requires '/' !in s
    ensures SegLength(s) == |s|
  {
    if s != "" {
      SegLengthAll(s[1..]);
    }
  }

  lemma SegmentsSlash(s: string)
    ensures Segments("/" + s) == Segments(s)
  {
    hide Slashes;
    SlashesStep('/', s);
    assert ("/" + s)[1 + Slashes(s)..] == s[Slashes(s)..];
  }

  /** Splitting at a slash: the segments of both sides. */
  lemma {:induction false} SegmentsConcat(s: string, t: string)
    ensures Segments(s + "/" + t) == Segments(s) + Segments(t)
    decreases |s|
  {
    hide Segments, Slashes, SegLength;
    if s == "" {
      SegmentsSlash(t);
      assert s + "/" + t == "/" + t;
      NoSegments();
      assert [] + Segments(t) == Segments(t);
    } else if s[0] == '/' {
      SegmentsConcat(s[1..], t);
      SegmentsSlash(s[1..]);
      SegmentsSlash(s[1..] + "/" + t);
      assert "/" + s[1..] == s;
      assert s + "/" + t == "/" + (s[1..] + "/" + t);
    } else {
      var n := SegLength(s);
      var rest := s[n..];
      SegLengthBounds(s);
      SegmentsFirst(s);
      if n == |s| {
        assert s[..n] == s && rest == "";
        NoSegments();
        SegLengthAt(s, t);
        SegmentsFirst(s + "/" + t);
        assert (s + "/" + t)[..n] == s;
        assert (s + "/" + t)[n..] == "/" + t;
        SegmentsSlash(t);
        assert [s] + [] == [s];
      } else {
        var head := s[..n];
        var tail := s[n + 1..];
        assert s == head + "/" + tail;
        assert rest == "/" + tail;
        SegmentsConcat(rest, t);
        SegLengthAt(head, tail + "/" + t);
        assert s + "/" + t == head + "/" + (tail + "/" + t);
        SegmentsFirst(s + "/" + t);
        assert (s + "/" + t)[..n] == head;
        assert (s + "/" + t)[n..] == rest + "/" + t;
        assert [head] + (Segments(rest) + Segments(t)) == [head] + Segments(rest) + Segments(t);
      }
    }
  }

  lemma NoSegments()
    ensures Segments("") == []
  {
  }

  lemma SegLengthBounds(s: string)
    requires s != "" && s[0] != '/'
    ensures 0 < SegLength(s) <= |s| && '/' !in s[..SegLength(s)]
    ensures SegLength(s) < |s| ==> s[SegLength(s)] == '/'
  {
  }

  /** The first segment of a text that does not begin with a slash. */
  lemma SegmentsFirst(s: string)
    requires s != "" && s[0] != '/'
    ensures Segments(s) == [s[..SegLength(s)]] + Segments(s[SegLength(s)..])
  {
    hide SegLength;
    assert Slashes(s) == 0;
    assert s[0..] == s;
  }

  /** The segments of a stack's text are the stack. */
  lemma {:induction false} SegmentsOfText(stack: seq<string>)
    requires forall i :: 0 <= i < |stack| ==> IsSegment(stack[i])
    ensures Text(stack) != "" && Text(stack)[0] == '/' && Segments(Text(stack)[1..]) == stack
    ensures Segments(Text(stack)) == stack
  {
    hide Segments;
    var m := |stack| - 1;
    if stack == [] {
      NoSegments();
      SegmentsSlash("");
      assert "/" + "" == "/";
    } else if |stack| == 1 {
      OneSegment(stack[0]);
      assert Text(stack)[1..] == stack[0];
      SegmentsSlash(stack[0]);
    } else {
      SegmentsOfText(stack[..m]);
      OneSegment(stack[m]);
      var front := Text(stack[..m]);
      SegmentsConcat(front[1..], stack[m]);
      assert Text(stack)[1..] == front[1..] + "/" + stack[m];
      assert stack[..m] + [stack[m]] == stack;
      SegmentsConcat(front, stack[m]);
    }
  }

  lemma OneSegment(s: string)
    requires IsSegment(s)
    ensures Segments(s) == [s]
  {
    hide SegLength, Segments;
    SegLengthAll(s);
    assert s[0] in s;
    SegmentsFirst(s);
    NoSegments();
    assert s[..|s|] == s && s[|s|..] == "";
    assert [s] + [] == [s];
  }

  /** What a normalised absolute path is made of. */
  lemma NormalForm(path: string)
    requires path != "" && path[0] == '/'
    ensures var stack := Resolve(Segments(path[1..]), []);
      Plain(stack) && Normalize(path) == Text(stack)
      && Normalize(path) != "" && Normalize(path)[0] == '/' && Segments(Normalize(path)[1..]) == stack
  {
    hide Segments, Resolve;
    SegmentsAreSegments(path[1..]);
    ResolvePlain(Segments(path[1..]), []);
    SegmentsOfText(Resolve(Segments(path[1..]), []));
  }

  /** Normalising twice is normalising once. */
  lemma Idempotent(path: string)
    ensures Normalize(Normalize(path)) == Normalize(path)
  {
    hide Segments, Resolve;
    if path != "" && path[0] == '/' {
      NormalForm(path);
      var stack := Resolve(Segments(path[1..]), []);
      ResolvePush(stack, []);
      assert [] + stack == stack;
    }
  }

  /** A front of a path may be normalised before the rest is appended. */
  lemma NormalizeFront(p: string, q: string)
    ensures Normalize(Normalize(p) + "/" + q) == Normalize(p + "/" + q)
  {
    hide Segments, Resolve;
    if p != "" && p[0] == '/' {
      NormalForm(p);
      var stack := Resolve(Segments(p[1..]), []);
      ResolvePush(stack, []);
      assert [] + stack == stack;
      Appended(Normalize(p), q);
      Appended(p, q);
    }
  }

  lemma Appended(p: string, q: string)
    requires p != "" && p[0] == '/'
    ensures Normalize(p + "/" + q) == Text(Resolve(Segments(q), Resolve(Segments(p[1..]), [])))
  {
    hide Segments, Resolve, Text;
    assert (p + "/" + q)[1..] == p[1..] + "/" + q;
    SegmentsConcat(p[1..], q);
    ResolveConcat(Segments(p[1..]), Segments(q), []);
  }

  // ----- One more piece at the end -----

  /** A path with no piece, or with a dot, behind it names the same place. */
  lemma DotStays(p: string)
    requires p != "" && p[0] == '/'
    ensures Normalize(p + "/") == Normalize(p) && Normalize(p + "/" + ".") == Normalize(p)
  {
    hide Segments, Text;
    Appended(p, "");
    NoSegments();
    assert p + "/" + "" == p + "/";
    Appended(p, ".");
    OneSegment(".");
  }

  /** An ordinary piece is written behind the normalised path. */
  lemma DownAppends(p: string, seg: string)
    requires p != "" && p[0] == '/' && IsSegment(seg) && seg != "." && seg != ".."
    ensures Normalize(p + "/" + seg) == (if Normalize(p) == "/" then "" else Normalize(p)) + "/" + seg
  {
    hide Segments, Text;
    Appended(p, seg);
    OneSegment(seg);
    NormalForm(p);
    var stack := Resolve(Segments(p[1..]), []);
    TextPush(stack, seg);
    TextLong(stack);
  }

  /** Two dots take back the piece before them, and stay at the root. */
  lemma UpUndoesDown(p: string, seg: string)
    requires p != "" && p[0] == '/' && IsSegment(seg) && seg != "." && seg != ".."
    ensures Normalize(p + "/" + seg + "/" + "..") == Normalize(p)
    ensures Normalize(p) == "/" ==> Normalize(p + "/" + "..") == "/"
  {
    hide Segments, Text;
    var stack := Resolve(Segments(p[1..]), []);
    Appended(p, "..");
    OneSegment("..");
    NormalForm(p);
    TextLong(stack);
    OneSegment(seg);
    SegmentsConcat(seg, "..");
    assert p + "/" + seg + "/" + ".." == p + "/" + (seg + "/" + "..");
    Appended(p, seg + "/" + "..");
    ResolveConcat([seg], [".."], stack);
    assert (stack + [seg])[..|stack|] == stack;
  }

  // ----- The program -----

  lemma TextPush(stack: seq<string>, seg: string)
    ensures Text(stack + [seg]) == if stack == [] then "/" + seg else Text(stack) + "/" + seg
    ensures |Text(stack)| >= 1
  {
    assert (stack + [seg])[..|stack|] == stack;
  }

  lemma {:induction false} TextLong(stack: seq<string>)
    requires Plain(stack)
    ensures Text(stack) != "" && Text(stack)[0] == '/'
    ensures |Text(stack)| == 1 <==> stack == []
  {
    if stack != [] {
      TextLong(stack[..|stack| - 1]);
      assert IsSegment(stack[|stack| - 1]);
    }
  }

  /** Copies len characters downwards within the buffer. */
  method MoveDown(a: array<char>, dst: nat, src: nat, len: nat)
    requires dst <= src && src + len <= a.Length
    modifies a
    ensures a[..dst] == old(a[..dst]) && a[dst..dst + len] == old(a[src..src + len])
    ensures a[src + len..] == old(a[src + len..])
  {
    ghost var was := a[..];
    for i := 0 to len
      invariant forall k :: 0 <= k < dst || src + i <= k < a.Length ==> a[k] == was[k]
      invariant a[dst..dst + i] == was[src..src + i]
    {
      a[dst + i] := a[src + i];
      assert a[dst..dst + i + 1] == a[dst..dst + i] + [was[src + i]];
    }
  }

  /** The unread part of the buffer is the unread part of the text, still closed by zero. */
  ghost predicate Unread(path: array<char>, text: string, p: nat)
    reads path
  {
    p <= |text| < path.Length && '\0' !in text && path[p..|text|] == text[p..] && path[|text|] == '\0'
  }

  lemma UnreadAt(path: array<char>, text: string, p: nat)
    requires Unread(path, text, p)
    ensures p <= |text| < path.Length
    ensures path[p] == '\0' <==> p == |text|
    ensures p < |text| ==> path[p] == text[p] && Unread(path, text, p + 1)
  {
    if p < |text| {
      assert path[p] == path[p..|text|][0];
      assert text[p] in text;
      assert path[p + 1..|text|] == path[p..|text|][1..];
    }
  }

  /** Finds the next segment, start up to next; none is left when start is the end. */
  method NextSegment(path: array<char>, p: nat, ghost text: string) returns (start: nat, next: nat)
    requires Unread(path, text, p)
    ensures p <= start <= next <= |text| < path.Length && Unread(path, text, next)
    ensures start == |text| <==> path[start] == '\0'
    ensures start == |text| ==> Segments(text[p..]) == []
    ensures start < |text| ==>
              && start < next && Segments(text[p..]) == [text[start..next]] + Segments(text[next..])
              && path[start..next] == text[start..next] && (next == |text| || text[next] == '/')
    ensures p < |text| && text[p] == '/' ==> p < start
  {
    hide Segments, SegLength, Unread, Slashes;
    start := SkipSlashes(path, p, text);
    next := start;
    UnreadAt(path, text, start);
    if path[start] == '\0' {
      NoSegments();
      assert text[start..] == "";
      return;
    }
    ghost var rest := text[start..];
    next := SegmentEnd(path, start, text);
    SegLengthBounds(rest);
    SegmentsFirst(rest);
    assert rest[..next - start] == text[start..next] && rest[next - start..] == text[next..];
  }

  method SkipSlashes(path: array<char>, p: nat, ghost text: string) returns (start: nat)
    requires Unread(path, text, p)
    ensures p <= start <= |text| < path.Length && Unread(path, text, start)
    ensures Segments(text[start..]) == Segments(text[p..])
    ensures start < |text| ==> text[start] != '/'
    ensures p < |text| && text[p] == '/' ==> p < start
  {
    hide Segments, Unread;
    start := p;
    UnreadAt(path, text, start);
    while path[start] == '/'
      invariant p <= start <= |text| < path.Length && Unread(path, text, start)
      invariant Segments(text[start..]) == Segments(text[p..])
      decreases |text| - start
    {
      UnreadAt(path, text, start);
      SegmentsSlash(text[start + 1..]);
      assert text[start..] == "/" + text[start + 1..];
      start := start + 1;
    }
    UnreadAt(path, text, start);
  }

  method SegmentEnd(path: array<char>, start: nat, ghost text: string) returns (next: nat)
    requires Unread(path, text, start)
    ensures start <= next <= |text| < path.Length && Unread(path, text, next)
    ensures next - start == SegLength(text[start..]) && path[start..next] == text[start..next]
  {
    hide SegLength, Unread;
    next := start;
    UnreadAt(path, text, next);
    while path[next] != '\0' && path[next] != '/'
      invariant start <= next <= |text| < path.Length && Unread(path, text, next)
      invariant SegLength(text[start..]) == next - start + SegLength(text[next..])
      invariant path[start..next] == text[start..next]
      decreases |text| - next
    {
      UnreadAt(path, text, next);
      SegLengthSlice(text, next);
      assert text[start..next + 1] == text[start..next] + [text[next]];
      next := next + 1;
    }
    UnreadAt(path, text, next);
    SegLengthSlice(text, next);
  }

  lemma SegLengthSlice(text: string, p: nat)
    requires p <= |text|
    ensures SegLength(text[p..]) == if p == |text| || text[p] == '/' then 0 else 1 + SegLength(text[p + 1..])
  {
    if p < |text| {
      assert text[p..][1..] == text[p + 1..];
    }
  }

  /** Drops the last segment of the output; the root stays. */
  method PopSegment(path: array<char>, outLen: nat, ghost stack: seq<string>) returns (len: nat)
    requires outLen <= path.Length && path[..outLen] == Text(stack) && Plain(stack)
    ensures 1 <= len <= outLen && path[..len] == Text(Apply(stack, ".."))
  {
    hide Plain;
    len := outLen;
    TextLong(stack);
    if stack != [] {
      TextSplit(stack);
    }
    ghost var keep := |Text(Apply(stack, ".."))|;
    ghost var floor := if |stack| <= 1 then 1 else keep + 1;
    if |stack| > 1 {
      assert path[..outLen][floor - 1] == '/';
    }
    forall i | floor <= i < outLen ensures path[i] != '/' {
      assert path[i] == path[..outLen][i];
      NoSlashInLast(stack, i);
    }
    if outLen > 1 {
      while len > 1 && path[len - 1] != '/'
        invariant floor <= len <= outLen
        decreases len
      {
        len := len - 1;
      }
      if len > 1 && path[len - 1] == '/' {
        len := len - 1;
      }
    }
    assert path[..len] == path[..outLen][..len];
  }

  /** The text of a stack is that of the stack below, a slash and the last segment. */
  lemma TextSplit(stack: seq<string>)
    requires Plain(stack) && stack != []
    ensures var below, last := stack[..|stack| - 1], stack[|stack| - 1];
      && IsSegment(last)
      && (below == [] ==> Text(below) == "/" && Text(stack) == "/" + last)
      && (below != [] ==> |Text(below)| > 1 && Text(stack) == Text(below) + "/" + last)
  {
    if |stack| > 1 {
      TextLong(stack[..|stack| - 1]);
    }
  }

  lemma NoSlashInLast(stack: seq<string>, i: nat)
    requires Plain(stack) && stack != [] && i < |Text(stack)|
    requires i >= if |stack| == 1 then 1 else |Text(stack[..|stack| - 1])| + 1
    ensures Text(stack)[i] != '/'
  {
    hide Text;
    TextSplit(stack);
    var last := stack[|stack| - 1];
    var k := i - (|Text(stack)| - |last|);
    assert Text(stack)[i] == last[k];
    assert last[k] in last;
  }

  /** Appends a segment that lies further on in the buffer. */
  method PushSegment(path: array<char>, outLen: nat, start: nat, next: nat, ghost stack: seq<string>,
                     ghost text: string) returns (len: nat)
    requires Unread(path, text, next) && start < next && path[start..next] == text[start..next]
    requires 1 <= outLen <= start && (outLen > 1 ==> outLen + 1 <= start)
    requires path[..outLen] == Text(stack) && Plain(stack)
    modifies path
    ensures 1 <= len <= next && path[..len] == Text(stack + [text[start..next]])
    ensures Unread(path, text, next)
  {
    hide *;
    UnreadTail(path, text, next);
    ghost var seg, tail := text[start..next], path[next..];
    PushedText(stack, seg);
    TwoParts(path, start, next);
    len := PutSeparator(path, outLen, start);
    TwoParts(path, start, next);
    MoveDown(path, len, start, next - start);
    JoinFront(path, len, next - start);
    len := len + (next - start);
    UnreadKept(path, text, next, tail);
  }

  lemma TwoParts(path: array<char>, start: nat, next: nat)
    requires start <= next <= path.Length
    ensures path[start..][..next - start] == path[start..next]
    ensures path[start..][next - start..] == path[next..]
  {
  }

  function WithSlash(s: string): string { if |s| > 1 then s + "/" else s }

  lemma PushedText(stack: seq<string>, seg: string)
    requires Plain(stack)
    ensures Text(stack + [seg]) == WithSlash(Text(stack)) + seg && Text(stack) != ""
  {
    hide Text, Plain;
    TextLong(stack);
    TextPush(stack, seg);
    if stack == [] { assert Text(stack) == "/"; }
  }

  /** A slash, unless the output is only the root. */
  method PutSeparator(path: array<char>, at: nat, start: nat) returns (len: nat)
    requires at <= start <= path.Length && (at > 1 ==> at < start)
    modifies path
    ensures len == if at > 1 then at + 1 else at
    ensures path[..len] == WithSlash(old(path[..at]))
    ensures path[start..] == old(path[start..])
  {
    len := at;
    if at > 1 {
      path[at] := '/';
      len := at + 1;
    }
  }

  lemma JoinFront(path: array<char>, at: nat, len: nat)
    requires at + len <= path.Length
    ensures path[..at + len] == path[..at] + path[at..at + len]
  {
  }

  lemma UnreadTail(path: array<char>, text: string, p: nat)
    requires Unread(path, text, p)
    ensures p <= |text| < path.Length && '\0' !in text
    ensures path[p..][..|text| - p] == text[p..] && path[p..][|text| - p] == '\0'
  {
    assert path[p..][..|text| - p] == path[p..|text|];
  }

  lemma UnreadKept(path: array<char>, text: string, p: nat, tail: string)
    requires p <= |text| < path.Length && '\0' !in text && path[p..] == tail
    requires |tail| == path.Length - p && tail[..|text| - p] == text[p..] && tail[|text| - p] == '\0'
    ensures Unread(path, text, p)
  {
    assert path[p..|text|] == path[p..][..|text| - p];
    assert path[|text|] == path[p..][|text| - p];
  }

  /** Reads the path behind its own output and writes the normalised path over it.  n is the
      length of the text; a zero character ends it. */
  method NormalizePath(path: array<char>, n: nat) returns (m: nat)
    requires n < path.Length && path[n] == '\0' && '\0' !in path[..n]
    modifies path
    ensures m <= n && path[m] == '\0' && path[..m] == Normalize(old(path[..n]))
  {
    hide Segments, Resolve, Text, Plain, Unread, Apply;
    ghost var text := path[..n];
    if path[0] != '/' {
      assert text == "" || text[0] != '/';
      return n;
    }
    ghost var stack: seq<string> := [];
    var outLen, p := 1, 1;
    StartState(path, text);
    while path[p] != '\0'
      invariant 1 <= outLen <= p <= n && path[..outLen] == Text(stack) && Plain(stack)
      invariant Unread(path, text, p)
      invariant p == 1 || p == n || text[p] == '/'
      invariant outLen > 1 ==> p > 1
      invariant Resolve(Segments(text[p..]), stack) == Resolve(Segments(text[1..]), [])
      decreases n - p
    {
      UnreadAt(path, text, p);
      var start, next := NextSegment(path, p, text);
      if path[start] == '\0' {
        ResolveNone(stack);
        break;
      }
      ghost var seg := text[start..next];
      ResolveStep(seg, Segments(text[next..]), stack);
      SegmentKind(path, text, start, next);
      PlainStep(text[p..], seg, Segments(text[next..]), stack);
      if next - start == 1 && path[start] == '.' {
      } else if next - start == 2 && path[start] == '.' && path[start + 1] == '.' {
        outLen := PopSegment(path, outLen, stack);
      } else {
        outLen := PushSegment(path, outLen, start, next, stack, text);
      }
      stack := Apply(stack, seg);
      p := next;
    }
    UnreadAt(path, text, p);
    NoSegments();
    ResolveNone(stack);
    assert text[|text|..] == "";
    path[outLen] := '\0';
    m := outLen;
  }

  lemma ResolveNone(stack: seq<string>)
    ensures Resolve([], stack) == stack
  {
  }

  lemma ResolveStep(seg: string, rest: seq<string>, stack: seq<string>)
    ensures Resolve([seg] + rest, stack) == Resolve(rest, Apply(stack, seg))
  {
    assert ([seg] + rest)[1..] == rest;
  }

  lemma SegmentKind(path: array<char>, text: string, start: nat, next: nat)
    requires start < next <= |text| && next <= path.Length && path[start..next] == text[start..next]
    ensures var seg := text[start..next];
      && (seg == "." <==> next - start == 1 && path[start] == '.')
      && (seg == ".." <==> next - start == 2 && path[start] == '.' && path[start + 1] == '.')
  {
    assert path[start] == path[start..next][0];
    if next - start == 2 {
      assert path[start + 1] == path[start..next][1];
    }
  }

  lemma PlainStep(text: string, seg: string, rest: seq<string>, stack: seq<string>)
    requires Segments(text) == [seg] + rest && Plain(stack)
    ensures Plain(Apply(stack, seg))
    ensures seg == "." ==> Apply(stack, seg) == stack
    ensures seg != "." && seg != ".." ==> Apply(stack, seg) == stack + [seg]
  {
    hide Segments;
    SegmentsAreSegments(text);
    assert IsSegment(([seg] + rest)[0]);
  }

  lemma StartState(path: array<char>, text: string)
    requires |text| < path.Length && text == path[..|text|] && path[|text|] == '\0' && '\0' !in text
    requires text != "" && text[0] == '/'
    ensures Text([]) == "/" && Plain([]) && path[..1] == "/" && Unread(path, text, 1)
  {
  }
}
