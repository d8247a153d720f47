/** The JSON grammar the parser accepts, as functions on the text ahead. */
module JsonValue {
  import opened Bits
  import opened JsonText

  const MAX_DEPTH := 64
  const NUMBER_WINDOW := 63

  datatype Json =
    | JNull
    | JBool(bval: bool)
    | JNum(num: real)
    | JStr(str: seq<byte>)
    | JArr(items: seq<Json>)
    | JObj(entries: seq<Entry>)

  datatype Entry = Entry(key: seq<byte>, val: Json)

  // ----- The number scanner of the C library, a parameter -----

  /** A finite number and the length of its text, or nothing. */
  datatype Scan = NoNumber | Number(value: real, used: nat)

  type Scanner = seq<byte> -> Scan

  ghost predicate IsScanner(strtod: Scanner) {
    forall t :: strtod(t).Number? ==> 1 <= strtod(t).used <= |t|
  }

  function Window(t: seq<byte>): seq<byte> {
    if |t| < NUMBER_WINDOW then t else t[..NUMBER_WINDOW]
  }

  predicate StartsNumber(c: byte) {
    c == 0x2D || c == 0x2B || 0x30 <= c <= 0x39 || c == 0x2E
  }

  // ----- White space and comments -----

  predicate IsWs(c: byte) {
    c == 0x20 || c == 0x09 || c == 0x0D || c == 0x0A
  }

  /** Bytes up to a line end. */
  function LineLength(t: seq<byte>): (n: nat)
    ensures n <= |t|
  {
    if t == [] || t[0] == 0x0A then 0 else 1 + LineLength(t[1..])
  }

  /** Bytes up to and with a comment's end, or all of them. */
  function CommentLength(t: seq<byte>): (n: nat)
    ensures n <= |t|
  {
    if |t| < 2 then |t|
    else if t[0] == 0x2A && t[1] == 0x2F then 2
    else 1 + CommentLength(t[1..])
  }

  function WsLength(t: seq<byte>): (n: nat)
    ensures n <= |t|
    decreases |t|
  {
    if t == [] then 0
    else if IsWs(t[0]) then 1 + WsLength(t[1..])
    else if |t| > 1 && t[0] == 0x2F && t[1] == 0x2F then
      var n := 2 + LineLength(t[2..]);
      n + WsLength(t[n..])
    else if |t| > 1 && t[0] == 0x2F && t[1] == 0x2A then
      var n := 2 + CommentLength(t[2..]);
      n + WsLength(t[n..])
    else 0
  }

  // ----- Values -----

  /** A value and the length of its text, leading white space included. */
  datatype Parsed<+T> = Fail | Ok(value: T, used: nat)

  function RawString(t: seq<byte>): (r: Lexed)
    ensures r.Str? ==> 2 <= r.used <= |t|
  {
    var w := WsLength(t);
    if w == |t| || t[w] != QUOTE then NoString
    else
      var b := StringBody(t[w + 1..]);
      if b.NoString? then NoString else Str(b.str, w + 1 + b.used)
  }

  predicate Begins(t: seq<byte>, word: seq<byte>) {
    |t| >= |word| && t[..|word|] == word
  }

  const TRUE_TEXT: seq<byte> := [0x74, 0x72, 0x75, 0x65]
  const FALSE_TEXT: seq<byte> := [0x66, 0x61, 0x6C, 0x73, 0x65]
  const NULL_TEXT: seq<byte> := [0x6E, 0x75, 0x6C, 0x6C]

  /** Words and numbers. */
  function Scalar(t: seq<byte>, strtod: Scanner): (r: Parsed<Json>)
    requires t != []
    ensures r.Ok? ==> r.used <= |t|
    ensures r.Ok? && IsScanner(strtod) ==> 1 <= r.used
  {
    if Begins(t, TRUE_TEXT) then Ok(JBool(true), 4)
    else if Begins(t, FALSE_TEXT) then Ok(JBool(false), 5)
    else if Begins(t, NULL_TEXT) then Ok(JNull, 4)
    else if StartsNumber(t[0]) then
      var n := strtod(Window(t));
      if n.NoNumber? || n.used > |Window(t)| then Fail else Ok(JNum(n.value), n.used)
    else Fail
  }

  function Value(t: seq<byte>, depth: nat, strtod: Scanner): (r: Parsed<Json>)
    requires IsScanner(strtod)
    ensures r.Ok? ==> 1 <= r.used <= |t|
    decreases |t|, 0
  {
    if depth > MAX_DEPTH then Fail
    else
      var w := WsLength(t);
      if w == |t| then Fail
      else
        var u := t[w..];
        if u[0] == 0x7B then
          var r := Entries(u[1..], depth, [], strtod);
          if r.Fail? then Fail else Ok(JObj(r.value), w + 1 + r.used)
        else if u[0] == 0x5B then
          var r := Items(u[1..], depth, [], strtod);
          if r.Fail? then Fail else Ok(JArr(r.value), w + 1 + r.used)
        else if u[0] == QUOTE then
          var r := RawString(u);
          if r.NoString? then Fail else Ok(JStr(r.str), w + r.used)
        else
          var r := Scalar(u, strtod);
          if r.Fail? then Fail else Ok(r.value, w + r.used)
  }

  /** The length of white space and, after it, one optional comma. */
  function CommaLength(t: seq<byte>): (n: nat)
    ensures n <= |t|
  {
    var w := WsLength(t);
    if w < |t| && t[w] == 0x2C then w + 1 else w
  }

  /** One array element, with the comma after it. */
  function ItemAhead(u: seq<byte>, depth: nat, strtod: Scanner): (r: Parsed<Json>)
    requires IsScanner(strtod)
    ensures r.Ok? ==> 1 <= r.used <= |u|
    decreases |u|, 1
  {
    var e := Value(u, depth, strtod);
    if e.Fail? then Fail else Ok(e.value, e.used + CommaLength(u[e.used..]))
  }

  /** The rest of an array after the elements so far. */
  function Items(t: seq<byte>, depth: nat, done: seq<Json>, strtod: Scanner): (r: Parsed<seq<Json>>)
    requires IsScanner(strtod)
    ensures r.Ok? ==> 1 <= r.used <= |t|
    decreases |t|, 2
  {
    if t == [] then Fail
    else
      var w := WsLength(t);
      var u := t[w..];
      if u != [] && u[0] == 0x5D then Ok(done, w + 1)
      else
        var e := ItemAhead(u, depth + 1, strtod);
        if e.Fail? then Fail
        else
          var r := Items(u[e.used..], depth, done + [e.value], strtod);
          if r.Fail? then Fail else Ok(r.value, w + e.used + r.used)
  }

  /** A key and its colon. */
  function KeyAhead(u: seq<byte>): (r: Lexed)
    ensures r.Str? ==> 1 <= r.used <= |u|
  {
    var k := RawString(u);
    if k.NoString? then NoString
    else
      var c := k.used + WsLength(u[k.used..]);
      if c == |u| || u[c] != 0x3A then NoString else Str(k.str, c + 1)
  }

  /** One object entry, with the comma after it. */
  function EntryAhead(u: seq<byte>, depth: nat, strtod: Scanner): (r: Parsed<Entry>)
    requires IsScanner(strtod)
    ensures r.Ok? ==> 1 <= r.used <= |u|
    decreases |u|, 1
  {
    var k := KeyAhead(u);
    if k.NoString? then Fail
    else
      var v := ItemAhead(u[k.used..], depth, strtod);
      if v.Fail? then Fail else Ok(Entry(k.str, v.value), k.used + v.used)
  }

  /** The rest of an object after the entries so far. */
  function Entries(t: seq<byte>, depth: nat, done: seq<Entry>, strtod: Scanner): (r: Parsed<seq<Entry>>)
    requires IsScanner(strtod)
    ensures r.Ok? ==> 1 <= r.used <= |t|
    decreases |t|, 2
  {
    if t == [] then Fail
    else
      var w := WsLength(t);
      var u := t[w..];
      if u != [] && u[0] == 0x7D then Ok(done, w + 1)
      else
        var e := EntryAhead(u, depth + 1, strtod);
        if e.Fail? then Fail
        else
          var r := Entries(u[e.used..], depth, done + [e.value], strtod);
          if r.Fail? then Fail else Ok(r.value, w + e.used + r.used)
  }

  // ----- The whole text -----

  /** A byte order mark is skipped; the text is one value, whatever follows it. */
  function Root(src: seq<byte>, strtod: Scanner): Parsed<Json>
    requires IsScanner(strtod)
  {
    if src == [] then Fail
    else
      var offset := if |src| >= 3 && src[0] == 0xEF && src[1] == 0xBB && src[2] == 0xBF then 3 else 0;
      Value(src[offset..], 0, strtod)
  }

  // ----- Depth -----

  function Max(x: nat, y: nat): nat { if x < y then y else x }

  /** How deep the deepest node lies; the root lies at zero. */
  function Height(v: Json): nat
    decreases v, 0
  {
    match v
    case JArr(items) => if items == [] then 0 else 1 + ItemsHeight(items)
    case JObj(entries) => if entries == [] then 0 else 1 + EntriesHeight(entries)
    case _ => 0
  }

  function ItemsHeight(items: seq<Json>): nat
    decreases items, 1
  {
    if items == [] then 0 else Max(Height(items[0]), ItemsHeight(items[1..]))
  }

  function EntriesHeight(entries: seq<Entry>): nat
    decreases entries, 1
  {
    if entries == [] then 0 else Max(Height(entries[0].val), EntriesHeight(entries[1..]))
  }
}
