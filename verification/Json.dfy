/** The JSON value type of the NMOS node: how a value is printed and how text is read.
  *
  * Text is bytes, as in the original; nothing here knows about characters beyond ASCII
  * except the escapes that name them.
  */
module Json {
  import opened Wrappers

  type Text = seq<Byte>
  type Int64 = i: int | -0x8000_0000_0000_0000 <= i < 0x8000_0000_0000_0000

  /** A real is kept as the characters it was read from. */
  datatype Json =
    | Null
    | Bool(b: bool)
    | Int(i: Int64)
    | Real(token: Text)
    | Str(s: Text)
    | Arr(items: seq<Json>)
    | Obj(members: seq<Member>)

  datatype Member = Member(key: Text, value: Json)

  const QUOTE: Byte := 34
  const BACKSLASH: Byte := 92
  const SLASH: Byte := 47
  const COMMA: Byte := 44
  const COLON: Byte := 58
  const OPEN_BRACKET: Byte := 91
  const CLOSE_BRACKET: Byte := 93
  const OPEN_BRACE: Byte := 123
  const CLOSE_BRACE: Byte := 125
  const SPACE: Byte := 32
  const TAB: Byte := 9
  const NEWLINE: Byte := 10
  const RETURN: Byte := 13
  const BACKSPACE: Byte := 8
  const FORM_FEED: Byte := 12
  const MINUS: Byte := 45
  const PLUS: Byte := 43
  const DOT: Byte := 46
  const LOWER_B: Byte := 98
  const LOWER_E: Byte := 101
  const UPPER_E: Byte := 69
  const LOWER_F: Byte := 102
  const LOWER_N: Byte := 110
  const LOWER_R: Byte := 114
  const LOWER_T: Byte := 116
  const LOWER_U: Byte := 117
  const ZERO: Byte := 48

  const NULL_TEXT: Text := [110, 117, 108, 108]
  const TRUE_TEXT: Text := [116, 114, 117, 101]
  const FALSE_TEXT: Text := [102, 97, 108, 115, 101]

  // ---------------------------------------------------------------------------
  // Object members
  // ---------------------------------------------------------------------------

  /** Set a member: overwrite the one with that key, else append. */
  function SetMember(ms: seq<Member>, key: Text, value: Json): (r: seq<Member>)
    ensures |ms| <= |r| <= |ms| + 1
  {
    if ms == [] then [Member(key, value)]
    else if ms[0].key == key then [Member(key, value)] + ms[1..]
    else [ms[0]] + SetMember(ms[1..], key, value)
  }

  /** The value of a key, or null. */
  function At(ms: seq<Member>, key: Text): Json {
    if ms == [] then Null else if ms[0].key == key then ms[0].value else At(ms[1..], key)
  }

  predicate Has(ms: seq<Member>, key: Text) {
    exists i :: 0 <= i < |ms| && ms[i].key == key
  }

  lemma {:induction false} SetReads(ms: seq<Member>, key: Text, value: Json, other: Text)
    ensures At(SetMember(ms, key, value), other) == if other == key then value else At(ms, other)
  {
    if ms != [] && ms[0].key != key { SetReads(ms[1..], key, value, other); }
  }

  lemma {:induction false} SetAppends(ms: seq<Member>, key: Text, value: Json)
    requires !Has(ms, key)
    ensures SetMember(ms, key, value) == ms + [Member(key, value)]
  {
    if ms != [] {
      assert ms[0].key != key;
      forall i | 0 <= i < |ms[1..]| ensures ms[1..][i].key != key { assert ms[i + 1].key != key; }
      SetAppends(ms[1..], key, value);
    }
  }

  lemma {:induction false} SetKeeps(ms: seq<Member>, key: Text, value: Json)
    requires Has(ms, key)
    ensures |SetMember(ms, key, value)| == |ms|
  {
    if ms[0].key != key {
      var i :| 0 <= i < |ms| && ms[i].key == key;
      assert ms[1..][i - 1].key == key;
      SetKeeps(ms[1..], key, value);
    }
  }

  // ---------------------------------------------------------------------------
  // Printing
  // ---------------------------------------------------------------------------

  function HexDigit(v: nat): Byte
    requires v < 16
  {
    if v < 10 then ZERO + v else 87 + v
  }

  /** One byte of a string, escaped. */
  function EscapeByte(c: Byte): (r: Text)
    ensures r != []
  {
    if c == QUOTE then [BACKSLASH, QUOTE]
    else if c == BACKSLASH then [BACKSLASH, BACKSLASH]
    else if c == BACKSPACE then [BACKSLASH, LOWER_B]
    else if c == FORM_FEED then [BACKSLASH, LOWER_F]
    else if c == NEWLINE then [BACKSLASH, LOWER_N]
    else if c == RETURN then [BACKSLASH, LOWER_R]
    else if c == TAB then [BACKSLASH, LOWER_T]
    else if c < 32 then [BACKSLASH, LOWER_U, ZERO, ZERO, HexDigit(c / 16), HexDigit(c % 16)]
    else [c]
  }

  function Escape(s: Text): Text {
    if s == [] then [] else EscapeByte(s[0]) + Escape(s[1..])
  }

  function Digits(n: nat): (r: Text)
    ensures r != [] && forall k :: 0 <= k < |r| ==> IsDigit(r[k])
  {
    if n < 10 then [ZERO + n] else Digits(n / 10) + [ZERO + n % 10]
  }

  predicate IsDigit(c: Byte) { 48 <= c <= 57 }

  function IntText(i: int): (r: Text)
    ensures r != []
  {
    if i < 0 then [MINUS] + Digits(-i) else Digits(i)
  }

  function Spaces(n: nat): (r: Text)
    ensures |r| == n
  {
    seq(n, i => SPACE)
  }

  /** How values are printed: the indent, none if negative, and what the conversion of reals
    * makes of one. */
  datatype Style = Style(indent: int, ofReal: Text -> Text)

  function Indent(style: Style, depth: nat): Text {
    if style.indent < 0 then [] else [NEWLINE] + Spaces(style.indent * depth)
  }

  predicate NoReals(j: Json) {
    match j
    case Real(_) => false
    case Arr(items) => forall i :: 0 <= i < |items| ==> NoReals(items[i])
    case Obj(members) => forall i :: 0 <= i < |members| ==> NoReals(members[i].value)
    case _ => true
  }

  function Write(j: Json, style: Style, depth: nat): (r: Text)
    decreases j, 1, 0
  {
    match j
    case Null => NULL_TEXT
    case Bool(b) => if b then TRUE_TEXT else FALSE_TEXT
    case Int(i) => IntText(i)
    case Real(token) => style.ofReal(token)
    case Str(s) => [QUOTE] + Escape(s) + [QUOTE]
    case Arr(items) =>
      if items == [] then [OPEN_BRACKET, CLOSE_BRACKET]
      else [OPEN_BRACKET] + WriteItems(j, style, depth, 0) + Indent(style, depth) + [CLOSE_BRACKET]
    case Obj(members) =>
      if members == [] then [OPEN_BRACE, CLOSE_BRACE]
      else [OPEN_BRACE] + WriteMembers(j, style, depth, 0) + Indent(style, depth) + [CLOSE_BRACE]
  }

  /** The items of an array from the `k`-th on, each but the first after a comma. */
  function WriteItems(j: Json, style: Style, depth: nat, k: nat): Text
    requires j.Arr? && k <= |j.items|
    decreases j, 0, |j.items| - k
  {
    if k == |j.items| then []
    else (if k > 0 then [COMMA] else []) + Indent(style, depth + 1)
         + Write(j.items[k], style, depth + 1) + WriteItems(j, style, depth, k + 1)
  }

  function KeyText(key: Text, style: Style): Text {
    [QUOTE] + Escape(key) + (if style.indent < 0 then [QUOTE, COLON] else [QUOTE, COLON, SPACE])
  }

  function WriteMembers(j: Json, style: Style, depth: nat, k: nat): Text
    requires j.Obj? && k <= |j.members|
    decreases j, 0, |j.members| - k
  {
    if k == |j.members| then []
    else (if k > 0 then [COMMA] else []) + Indent(style, depth + 1)
         + KeyText(j.members[k].key, style) + Write(j.members[k].value, style, depth + 1)
         + WriteMembers(j, style, depth, k + 1)
  }

  function Dump(j: Json, style: Style): Text
  {
    Write(j, style, 0)
  }

  // ---------------------------------------------------------------------------
  // Reading
  // ---------------------------------------------------------------------------

  datatype Reason =
    | BadLiteral | TruncatedEscape | BadUnicodeEscape | ExpectedString | BadEscape | UnterminatedString
    | TooDeep | UnexpectedEnd | ExpectedColon | ExpectedCommaOrBrace | ExpectedCommaOrBracket
    | UnexpectedCharacter | TrailingData

  /** What was read and the text after it, or why not and how much text was left then. */
  datatype Got<+T> = Got(value: T, rest: Text) | Fail(reason: Reason, left: nat)

  predicate IsSpace(c: Byte) { c == SPACE || c == TAB || c == NEWLINE || c == RETURN }

  function Skip(t: Text): (r: Text)
    ensures |r| <= |t| && (r != [] ==> !IsSpace(r[0]))
  {
    if t != [] && IsSpace(t[0]) then Skip(t[1..]) else t
  }

  function Literal(t: Text, lit: Text): (r: Got<()>)
    ensures r.Got? ==> |t| == |lit| + |r.rest|
  {
    if |t| >= |lit| && t[..|lit|] == lit then Got((), t[|lit|..]) else Fail(BadLiteral, |t|)
  }

  function HexValue(c: Byte): (v: int)
    ensures -1 <= v < 16
  {
    if IsDigit(c) then c - 48
    else if 97 <= c <= 102 then c - 87
    else if 65 <= c <= 70 then c - 55
    else -1
  }

  function Hex4(t: Text): (r: Got<nat>)
    ensures r.Got? ==> r.value < 0x10000 && |t| == 4 + |r.rest|
  {
    if |t| < 4 then Fail(TruncatedEscape, |t|)
    else
      var a, b, c, d := HexValue(t[0]), HexValue(t[1]), HexValue(t[2]), HexValue(t[3]);
      if a < 0 || b < 0 || c < 0 || d < 0 then Fail(BadUnicodeEscape, |t|)
      else
        var v: int := ((a * 16 + b) * 16 + c) * 16 + d;
        Got(v, t[4..])
  }

  /** A code point in UTF-8. */
  function Utf8(cp: nat): Text
    requires cp < 0x110000
  {
    if cp < 0x80 then [cp]
    else if cp < 0x800 then [0xC0 + cp / 64, 0x80 + cp % 64]
    else if cp < 0x10000 then [0xE0 + cp / 4096, 0x80 + cp / 64 % 64, 0x80 + cp % 64]
    else [0xF0 + cp / 0x40000, 0x80 + cp / 4096 % 64, 0x80 + cp / 64 % 64, 0x80 + cp % 64]
  }

  /** A `\u` escape, after the `u`: one code unit, or two that pair up, or two that do not. */
  function Unicode(t: Text): (r: Got<Text>)
    ensures r.Got? ==> |r.rest| < |t|
  {
    match Hex4(t)
    case Fail(e, n) => Fail(e, n)
    case Got(cp, rest) =>
      if 0xD800 <= cp <= 0xDBFF && |rest| >= 2 && rest[0] == BACKSLASH && rest[1] == LOWER_U then
        match Hex4(rest[2..])
        case Fail(e, n) => Fail(e, n)
        case Got(lo, after) =>
          if 0xDC00 <= lo <= 0xDFFF then
            Got(Utf8(0x10000 + (cp - 0xD800) * 1024 + (lo - 0xDC00)), after)
          else Got(Utf8(cp) + Utf8(lo), after)
      else Got(Utf8(cp), rest)
  }

  /** What follows a backslash. */
  function Unescape(t: Text): (r: Got<Text>)
    requires t != []
    ensures r.Got? ==> |r.rest| < |t|
  {
    var e, rest := t[0], t[1..];
    if e == QUOTE then Got([QUOTE], rest)
    else if e == BACKSLASH then Got([BACKSLASH], rest)
    else if e == SLASH then Got([SLASH], rest)
    else if e == LOWER_B then Got([BACKSPACE], rest)
    else if e == LOWER_F then Got([FORM_FEED], rest)
    else if e == LOWER_N then Got([NEWLINE], rest)
    else if e == LOWER_R then Got([RETURN], rest)
    else if e == LOWER_T then Got([TAB], rest)
    else if e == LOWER_U then Unicode(rest)
    else Fail(BadEscape, |rest|)
  }

  /** The rest of a string after its opening quote, behind what has been read of it. */
  function StringTail(t: Text, soFar: Text): (r: Got<Text>)
    ensures r.Got? ==> |r.rest| < |t|
    decreases |t|
  {
    if t == [] then Fail(UnterminatedString, 0)
    else if t[0] == QUOTE then Got(soFar, t[1..])
    else if t[0] != BACKSLASH then StringTail(t[1..], soFar + [t[0]])
    else if |t| == 1 then Fail(UnterminatedString, 0)
    else match Unescape(t[1..])
      case Fail(e, n) => Fail(e, n)
      case Got(s, rest) => StringTail(rest, soFar + s)
  }

  function ReadString(t: Text): (r: Got<Text>)
    ensures r.Got? ==> |r.rest| < |t|
  {
    if t == [] || t[0] != QUOTE then Fail(ExpectedString, |t|) else StringTail(t[1..], [])
  }

  predicate InNumber(c: Byte) {
    IsDigit(c) || c == DOT || c == LOWER_E || c == UPPER_E || c == PLUS || c == MINUS
  }

  /** How far the characters of a number run. */
  function NumberRun(t: Text): (n: nat)
    ensures n <= |t| && (n < |t| ==> !InNumber(t[n]))
    ensures forall k :: 0 <= k < n ==> InNumber(t[k])
  {
    if t != [] && InNumber(t[0]) then 1 + NumberRun(t[1..]) else 0
  }

  predicate AllDigits(t: Text) { forall k :: 0 <= k < |t| ==> IsDigit(t[k]) }

  function DigitsValue(t: Text): nat
    requires AllDigits(t)
  {
    if t == [] then 0 else DigitsValue(t[..|t| - 1]) * 10 + (t[|t| - 1] - 48)
  }

  /** The conversion of digits to a 64-bit integer, saturating. */
  function Saturate(v: int): Int64 {
    if v > 0x7FFF_FFFF_FFFF_FFFF then 0x7FFF_FFFF_FFFF_FFFF
    else if v < -0x8000_0000_0000_0000 then -0x8000_0000_0000_0000
    else v
  }

  function NumberOf(sign: Text, digits: Text): Json {
    if AllDigits(digits) then
      var v: int := DigitsValue(digits);
      Int(Saturate(if sign == [MINUS] then -v else v))
    else Real(sign + digits)
  }

  function ReadNumber(t: Text): (r: Got<Json>)
    requires t != []
    ensures r.Got? ==> |r.rest| < |t|
  {
    var signed := t[0] == MINUS || t[0] == PLUS;
    var sign, body := if signed then t[..1] else [], if signed then t[1..] else t;
    var n := NumberRun(body);
    if sign == [] && n == 0 then Fail(UnexpectedCharacter, |t|)
    else Got(NumberOf(sign, body[..n]), body[n..])
  }

  const MAX_DEPTH: nat := 64

  function ReadValue(t: Text, depth: nat): (r: Got<Json>)
    ensures r.Got? ==> |r.rest| < |t|
    decreases |t|, 1
  {
    if depth > MAX_DEPTH then Fail(TooDeep, |t|) else ReadStarted(Skip(t), depth)
  }

  /** A value, by the character it starts with. */
  function ReadStarted(s: Text, depth: nat): (r: Got<Json>)
    requires depth <= MAX_DEPTH
    ensures r.Got? ==> |r.rest| < |s|
    decreases |s|, 0
  {
    if s == [] then Fail(UnexpectedEnd, 0)
    else if s[0] == OPEN_BRACE then
      var u := Skip(s[1..]);
      if u != [] && u[0] == CLOSE_BRACE then Got(Obj([]), u[1..]) else ReadMembers(u, depth, [])
    else if s[0] == OPEN_BRACKET then
      var u := Skip(s[1..]);
      if u != [] && u[0] == CLOSE_BRACKET then Got(Arr([]), u[1..]) else ReadItems(u, depth, [])
    else if s[0] == QUOTE then
      match ReadString(s)
      case Fail(e, n) => Fail(e, n)
      case Got(v, rest) => Got(Str(v), rest)
    else if s[0] == LOWER_T then Mapped(Literal(s, TRUE_TEXT), Bool(true))
    else if s[0] == LOWER_F then Mapped(Literal(s, FALSE_TEXT), Bool(false))
    else if s[0] == LOWER_N then Mapped(Literal(s, NULL_TEXT), Null)
    else ReadNumber(s)
  }

  function Mapped(g: Got<()>, j: Json): Got<Json> {
    match g
    case Fail(e, n) => Fail(e, n)
    case Got(_, rest) => Got(j, rest)
  }

  /** The items of an array, up to and with the bracket that closes it. */
  function ReadItems(t: Text, depth: nat, soFar: seq<Json>): (r: Got<Json>)
    ensures r.Got? ==> |r.rest| < |t|
    decreases |t|, 2
  {
    match ReadValue(t, depth + 1)
    case Fail(e, n) => Fail(e, n)
    case Got(v, rest) =>
      var u := Skip(rest);
      if u != [] && u[0] == COMMA then ReadItems(u[1..], depth, soFar + [v])
      else if u != [] && u[0] == CLOSE_BRACKET then Got(Arr(soFar + [v]), u[1..])
      else Fail(ExpectedCommaOrBracket, |u|)
  }

  /** A key, its colon and its value. */
  function ReadPair(t: Text, depth: nat): (r: Got<Member>)
    ensures r.Got? ==> |r.rest| < |t|
    decreases |t|, 2
  {
    match ReadString(Skip(t))
    case Fail(e, n) => Fail(e, n)
    case Got(key, rest) =>
      var u := Skip(rest);
      if u == [] || u[0] != COLON then Fail(ExpectedColon, |u|)
      else match ReadValue(u[1..], depth + 1)
        case Fail(e, n) => Fail(e, n)
        case Got(v, after) => Got(Member(key, v), after)
  }

  /** The members of an object, up to and with the brace that closes it. */
  function ReadMembers(t: Text, depth: nat, soFar: seq<Member>): (r: Got<Json>)
    ensures r.Got? ==> |r.rest| < |t|
    decreases |t|, 3
  {
    match ReadPair(t, depth)
    case Fail(e, n) => Fail(e, n)
    case Got(m, rest) =>
      var w := Skip(rest);
      var ms := SetMember(soFar, m.key, m.value);
      if w != [] && w[0] == COMMA then ReadMembers(w[1..], depth, ms)
      else if w != [] && w[0] == CLOSE_BRACE then Got(Obj(ms), w[1..])
      else Fail(ExpectedCommaOrBrace, |w|)
  }

  /** A whole text: one value and nothing after it. */
  function Parse(t: Text): Got<Json> {
    match ReadValue(t, 0)
    case Fail(e, n) => Fail(e, n)
    case Got(v, rest) =>
      var u := Skip(rest);
      if u != [] then Fail(TrailingData, |u|) else Got(v, [])
  }
}
