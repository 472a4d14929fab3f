/** Reading back what was printed: which values survive, and why the others do not. */
module JsonRoundTrip {
  import opened Wrappers
  import opened Json

  // ---------------------------------------------------------------------------
  // Strings
  // ---------------------------------------------------------------------------

  lemma HexRoundTrip(c: Byte, rest: Text)
    requires c < 32
    ensures Hex4([ZERO, ZERO, HexDigit(c / 16), HexDigit(c % 16)] + rest) == Got(c as nat, rest)
  {
    var t := [ZERO, ZERO, HexDigit(c / 16), HexDigit(c % 16)] + rest;
    HexDigitValue(c / 16);
    HexDigitValue(c % 16);
    hide HexValue, HexDigit;
    HexZero();
    assert t[4..] == rest;
  }

  lemma HexDigitValue(v: nat)
    requires v < 16
    ensures HexValue(HexDigit(v)) == v
  {}

  lemma HexZero()
    ensures HexValue(ZERO) == 0
  {}

  /** An escaped byte is read as that byte, whatever byte it is. */
  lemma {:induction false} ByteReadsBack(c: Byte, rest: Text, soFar: Text)
    ensures StringTail(EscapeByte(c) + rest, soFar) == StringTail(rest, soFar + [c])
  {
    hide EscapeByte, Unescape;
    var t := EscapeByte(c) + rest;
    EscapeStarts(c);
    if c >= 32 && c != QUOTE && c != BACKSLASH {
      assert t[1..] == rest;
    } else {
      UnescapeByte(c, rest);
      assert t[1..] == EscapeByte(c)[1..] + rest;
    }
  }

  lemma EscapeStarts(c: Byte)
    ensures if c >= 32 && c != QUOTE && c != BACKSLASH then EscapeByte(c) == [c]
            else |EscapeByte(c)| > 1 && EscapeByte(c)[0] == BACKSLASH
  {}

  lemma {:induction false} UnescapeByte(c: Byte, rest: Text)
    requires c < 32 || c == QUOTE || c == BACKSLASH
    ensures |EscapeByte(c)| > 1 && Unescape(EscapeByte(c)[1..] + rest) == Got([c], rest)
  {
    hide Hex4, HexDigit;
    var t := EscapeByte(c)[1..] + rest;
    assert t[1..] == EscapeByte(c)[2..] + rest;
    if c < 32 && c != BACKSPACE && c != FORM_FEED && c != NEWLINE && c != RETURN && c != TAB {
      HexRoundTrip(c, rest);
    } else {
      assert EscapeByte(c)[2..] == [];
      assert t[1..] == rest;
    }
  }

  /** Any string at all survives escaping. */
  lemma {:induction false} StringReadsBack(s: Text, rest: Text, soFar: Text)
    ensures StringTail(Escape(s) + ([QUOTE] + rest), soFar) == Got(soFar + s, rest)
  {
    hide EscapeByte;
    if s == [] {
      assert Escape(s) + ([QUOTE] + rest) == [QUOTE] + rest;
      assert ([QUOTE] + rest)[1..] == rest && soFar + s == soFar;
    } else {
      var more := Escape(s[1..]) + ([QUOTE] + rest);
      assert Escape(s) + ([QUOTE] + rest) == EscapeByte(s[0]) + more;
      ByteReadsBack(s[0], more, soFar);
      StringReadsBack(s[1..], rest, soFar + [s[0]]);
      assert soFar + [s[0]] + s[1..] == soFar + s;
    }
  }

  lemma {:induction false} QuotedReadsBack(s: Text, rest: Text)
    ensures ReadString([QUOTE] + Escape(s) + ([QUOTE] + rest)) == Got(s, rest)
  {
    hide StringTail, Escape;
    var t := [QUOTE] + Escape(s) + ([QUOTE] + rest);
    assert t[1..] == Escape(s) + ([QUOTE] + rest);
    StringReadsBack(s, rest, []);
    assert [] + s == s;
  }

  // ---------------------------------------------------------------------------
  // Integers
  // ---------------------------------------------------------------------------

  lemma {:induction false} DigitsReadBack(n: nat)
    ensures AllDigits(Digits(n)) && DigitsValue(Digits(n)) == n
  {
    if n >= 10 {
      DigitsReadBack(n / 10);
      assert Digits(n)[..|Digits(n)| - 1] == Digits(n / 10);
    } else {
      assert Digits(n)[..0] == [];
    }
  }

  /** The text that follows does not look like more of a number. */
  predicate Ends(rest: Text) { rest == [] || !InNumber(rest[0]) }

  lemma {:induction false} RunOfDigits(d: Text, rest: Text)
    requires AllDigits(d) && Ends(rest)
    ensures NumberRun(d + rest) == |d|
  {
    if d == [] {
      assert d + rest == rest;
    } else {
      assert (d + rest)[1..] == d[1..] + rest;
      RunOfDigits(d[1..], rest);
    }
  }

  lemma {:induction false} IntReadsBack(i: Int64, rest: Text)
    requires Ends(rest)
    ensures ReadNumber(IntText(i) + rest) == Got(Int(i), rest)
    ensures IntText(i)[0] == MINUS || IsDigit(IntText(i)[0])
  {
    hide Digits, DigitsValue, NumberRun, InNumber;
    var v: int := i;
    var n: nat := if v < 0 then -v else v;
    var d := Digits(n);
    DigitsReadBack(n);
    RunOfDigits(d, rest);
    var t := IntText(i) + rest;
    if v < 0 {
      assert t[1..] == d + rest && t[..1] == [MINUS];
    } else {
      assert t == d + rest && t[0] == d[0];
    }
    assert (d + rest)[..|d|] == d && (d + rest)[|d|..] == rest;
  }

  // ---------------------------------------------------------------------------
  // White space and nesting
  // ---------------------------------------------------------------------------

  predicate AllSpace(t: Text) { forall k :: 0 <= k < |t| ==> IsSpace(t[k]) }

  lemma {:induction false} SkipsSpace(ws: Text, t: Text)
    requires AllSpace(ws) && t != [] && !IsSpace(t[0])
    ensures Skip(ws + t) == t
  {
    if ws == [] {
      assert ws + t == t;
    } else {
      assert (ws + t)[1..] == ws[1..] + t;
      SkipsSpace(ws[1..], t);
    }
  }

  lemma IndentIsSpace(style: Style, depth: nat)
    ensures AllSpace(Indent(style, depth))
  {}

  /** Every value in it lies at a depth the reader accepts. */
  predicate Within(j: Json, depth: nat) {
    && depth <= MAX_DEPTH
    && match j
       case Arr(items) => forall i :: 0 <= i < |items| ==> Within(items[i], depth + 1)
       case Obj(members) => forall i :: 0 <= i < |members| ==> Within(members[i].value, depth + 1)
       case _ => true
  }

  function Larger(a: nat, b: nat): nat { if a < b then b else a }

  /** Levels of nesting: none for a scalar or an empty container. */
  function Nesting(j: Json): nat
    decreases j, 1, 0
  {
    match j
    case Arr(items) => NestingOf(j, 0)
    case Obj(members) => NestingOf(j, 0)
    case _ => 0
  }

  function Children(j: Json): nat {
    match j
    case Arr(items) => |items|
    case Obj(members) => |members|
    case _ => 0
  }

  function Child(j: Json, k: nat): (c: Json)
    requires k < Children(j)
    ensures c < j
  {
    match j
    case Arr(items) => items[k]
    case Obj(members) => members[k].value
  }

  function NestingOf(j: Json, k: nat): nat
    requires k <= Children(j)
    decreases j, 0, Children(j) - k
  {
    if k == Children(j) then 0 else Larger(1 + Nesting(Child(j, k)), NestingOf(j, k + 1))
  }

  /** A value is readable at a depth exactly when its nesting stays within 64 levels. */
  lemma {:induction false} WithinIsNesting(j: Json, depth: nat)
    ensures Within(j, depth) <==> depth + Nesting(j) <= MAX_DEPTH
    decreases j, 1, 0
  {
    NestingBounds(j, depth, 0);
    assert Within(j, depth) <==> depth <= MAX_DEPTH && forall k :: 0 <= k < Children(j) ==> Within(Child(j, k), depth + 1) by {
      WithinChildren(j, depth);
    }
  }

  lemma {:induction false} WithinChildren(j: Json, depth: nat)
    ensures Within(j, depth) <==> depth <= MAX_DEPTH && forall k :: 0 <= k < Children(j) ==> Within(Child(j, k), depth + 1)
  {
    match j
    case Arr(items) => assert forall k :: 0 <= k < |items| ==> Child(j, k) == items[k];
    case Obj(members) => assert forall k :: 0 <= k < |members| ==> Child(j, k) == members[k].value;
    case _ =>
  }

  lemma {:induction false} NestingBounds(j: Json, depth: nat, k: nat)
    requires k <= Children(j)
    ensures (forall i :: k <= i < Children(j) ==> Within(Child(j, i), depth + 1)) && depth <= MAX_DEPTH
            <==> depth + NestingOf(j, k) <= MAX_DEPTH
    decreases j, 0, Children(j) - k
  {
    hide Within;
    if k < Children(j) {
      WithinIsNesting(Child(j, k), depth + 1);
      NestingBounds(j, depth, k + 1);
    }
  }

  // ---------------------------------------------------------------------------
  // Whole values
  // ---------------------------------------------------------------------------

  /** What becomes of a value: in every object a key printed twice keeps its first place
    * and takes its last value. */
  function Merged(j: Json): Json
    decreases j, 1, 0
  {
    match j
    case Arr(items) => Arr(MergedItems(j, |items|))
    case Obj(members) => Obj(MergedMembers(j, |members|))
    case _ => j
  }

  function MergedItems(j: Json, n: nat): (r: seq<Json>)
    requires j.Arr? && n <= |j.items|
    decreases j, 0, n
  {
    if n == 0 then [] else MergedItems(j, n - 1) + [Merged(j.items[n - 1])]
  }

  function MergedMembers(j: Json, n: nat): seq<Member>
    requires j.Obj? && n <= |j.members|
    decreases j, 0, n
  {
    if n == 0 then []
    else SetMember(MergedMembers(j, n - 1), j.members[n - 1].key, Merged(j.members[n - 1].value))
  }

  /** Read as `v` with `rest` left over if the nesting allows, else refused as too deep. */
  predicate ReadAs(g: Got<Json>, ok: bool, v: Json, rest: Text) {
    if ok then g == Got(v, rest) else g.Fail? && g.reason == TooDeep
  }

  /** What a printed value starts with. */
  lemma {:induction false} WriteStarts(j: Json, style: Style, depth: nat)
    requires NoReals(j)
    ensures var t := Write(j, style, depth);
            t != [] && !IsSpace(t[0]) && t[0] != CLOSE_BRACKET && t[0] != CLOSE_BRACE
  {
    hide Escape;
    if j.Int? { IntReadsBack(j.i, []); }
  }

  /** The text of an array after its `k`-th item has been written, to the end. */
  function ItemsTail(j: Json, style: Style, depth: nat, k: nat, rest: Text): (r: Text)
    requires j.Arr? && NoReals(j) && k <= |j.items|
  {
    WriteItems(j, style, depth, k) + (Indent(style, depth) + ([CLOSE_BRACKET] + rest))
  }

  function MembersTail(j: Json, style: Style, depth: nat, k: nat, rest: Text): (r: Text)
    requires j.Obj? && NoReals(j) && k <= |j.members|
  {
    WriteMembers(j, style, depth, k) + (Indent(style, depth) + ([CLOSE_BRACE] + rest))
  }

  lemma {:induction false} ItemsTailStep(j: Json, style: Style, depth: nat, k: nat, rest: Text)
    requires j.Arr? && NoReals(j) && k < |j.items|
    ensures ItemsTail(j, style, depth, k, rest)
            == (if k > 0 then [COMMA] else [])
               + (Indent(style, depth + 1) + (Write(j.items[k], style, depth + 1) + ItemsTail(j, style, depth, k + 1, rest)))
  {
    hide Write, Indent;
  }

  lemma {:induction false} MembersTailStep(j: Json, style: Style, depth: nat, k: nat, rest: Text)
    requires j.Obj? && NoReals(j) && k < |j.members|
    ensures MembersTail(j, style, depth, k, rest)
            == (if k > 0 then [COMMA] else [])
               + (Indent(style, depth + 1)
                  + (KeyText(j.members[k].key, style)
                     + (Write(j.members[k].value, style, depth + 1) + MembersTail(j, style, depth, k + 1, rest))))
  {
    hide Write, Indent, KeyText;
  }

  lemma IndentStarts(style: Style, depth: nat)
    ensures Indent(style, depth) == [] || Indent(style, depth)[0] == NEWLINE
    ensures !InNumber(NEWLINE) && !InNumber(COMMA) && !InNumber(CLOSE_BRACKET) && !InNumber(CLOSE_BRACE)
  {}

  /** What follows an item: a comma, or white space and the bracket that closes. */
  lemma {:induction false} AfterItem(j: Json, style: Style, depth: nat, k: nat, rest: Text)
    requires j.Arr? && NoReals(j) && 0 < k <= |j.items|
    ensures var t := ItemsTail(j, style, depth, k, rest);
            && t != [] && Ends(t)
            && (k < |j.items| ==> t[0] == COMMA && Skip(t) == t)
            && (k == |j.items| ==> Skip(t) == [CLOSE_BRACKET] + rest)
  {
    hide Write, KeyText, Indent, Skip, InNumber;
    IndentStarts(style, depth);
    IndentStarts(style, depth + 1);
    var t := ItemsTail(j, style, depth, k, rest);
    IndentIsSpace(style, depth);
    if k < |j.items| {
      ItemsTailStep(j, style, depth, k, rest);
      SkipsSpace([], t);
      assert [] + t == t;
    } else {
      assert t == Indent(style, depth) + ([CLOSE_BRACKET] + rest);
      SkipsSpace(Indent(style, depth), [CLOSE_BRACKET] + rest);
    }
  }

  lemma {:induction false} AfterMember(j: Json, style: Style, depth: nat, k: nat, rest: Text)
    requires j.Obj? && NoReals(j) && 0 < k <= |j.members|
    ensures var t := MembersTail(j, style, depth, k, rest);
            && t != [] && Ends(t)
            && (k < |j.members| ==> t[0] == COMMA && Skip(t) == t)
            && (k == |j.members| ==> Skip(t) == [CLOSE_BRACE] + rest)
  {
    hide Write, KeyText, Indent, Skip, InNumber;
    IndentStarts(style, depth);
    IndentStarts(style, depth + 1);
    var t := MembersTail(j, style, depth, k, rest);
    IndentIsSpace(style, depth);
    if k < |j.members| {
      MembersTailStep(j, style, depth, k, rest);
      SkipsSpace([], t);
      assert [] + t == t;
    } else {
      assert t == Indent(style, depth) + ([CLOSE_BRACE] + rest);
      SkipsSpace(Indent(style, depth), [CLOSE_BRACE] + rest);
    }
  }

  /** Reading back one printed value, whatever white space is before it. */
  lemma {:induction false} ValueReadsBack(j: Json, style: Style, depth: nat, ws: Text, rest: Text)
    requires NoReals(j) && AllSpace(ws) && Ends(rest)
    ensures ReadAs(ReadValue(ws + (Write(j, style, depth) + rest), depth), Within(j, depth), Merged(j), rest)
    decreases j, 2, 0
  {
    hide Write, Within, ReadStarted, Merged, NoReals, IsSpace, AllSpace, Skip;
    WriteStarts(j, style, depth);
    SkipsSpace(ws, Write(j, style, depth) + rest);
    WithinDepth(j, depth);
    if depth <= MAX_DEPTH {
      match j
      case Arr(items) => ArrReadsBack(j, style, depth, rest);
      case Obj(members) => ObjReadsBack(j, style, depth, rest);
      case _ => ScalarReadsBack(j, style, depth, rest);
    }
  }

  lemma {:induction false} WithinDepth(j: Json, depth: nat)
    ensures Within(j, depth) ==> depth <= MAX_DEPTH
    ensures depth <= MAX_DEPTH && !j.Arr? && !j.Obj? ==> Within(j, depth) && Merged(j) == j
  {}

  lemma {:induction false} ScalarReadsBack(j: Json, style: Style, depth: nat, rest: Text)
    requires NoReals(j) && Ends(rest) && !j.Arr? && !j.Obj? && depth <= MAX_DEPTH
    ensures ReadStarted(Write(j, style, depth) + rest, depth) == Got(j, rest)
  {
    hide ReadItems, ReadMembers, ReadString, ReadNumber, IntText, Escape, Skip, InNumber;
    match j
    case Real(_) => assert false;
    case Int(i) =>
      IntReadsBack(i, rest);
      assert (IntText(i) + rest)[0] == IntText(i)[0];
    case Str(s) =>
      assert [QUOTE] + Escape(s) + [QUOTE] + rest == [QUOTE] + Escape(s) + ([QUOTE] + rest);
      QuotedReadsBack(s, rest);
    case Null => LiteralReads(NULL_TEXT, rest);
    case Bool(b) =>
      LiteralReads(TRUE_TEXT, rest);
      LiteralReads(FALSE_TEXT, rest);
  }

  lemma {:induction false} LiteralReads(lit: Text, rest: Text)
    requires lit != []
    ensures Literal(lit + rest, lit) == Got((), rest) && (lit + rest)[0] == lit[0]
  {}

  lemma {:induction false} ArrReadsBack(j: Json, style: Style, depth: nat, rest: Text)
    requires NoReals(j) && Ends(rest) && j.Arr? && depth <= MAX_DEPTH
    ensures ReadAs(ReadStarted(Write(j, style, depth) + rest, depth), Within(j, depth), Merged(j), rest)
    decreases j, 1, |j.items| + 1
  {
    hide ReadStarted, ReadItems, ReadMembers, Write, Skip, Within, ItemsTail, MembersTail, KeyText, Ends, RestWithin;
    if j.items == [] {
      EmptyReadsBack(j, style, depth, rest);
    } else {
      ArrOpens(j, style, depth, rest);
      ItemsReadBack(j, style, depth, 0, [], rest);
      var first := Write(j.items[0], style, depth + 1) + ItemsTail(j, style, depth, 1, rest);
      assert [] + first == first;
      RestStep(j, depth, 0);
    }
  }

  /** An array that is not empty is read as its items. */
  lemma {:induction false} ArrOpens(j: Json, style: Style, depth: nat, rest: Text)
    requires NoReals(j) && j.Arr? && depth <= MAX_DEPTH && j.items != []
    ensures ReadStarted(Write(j, style, depth) + rest, depth)
            == ReadItems(Write(j.items[0], style, depth + 1) + ItemsTail(j, style, depth, 1, rest), depth, [])
  {
    hide ReadItems, ReadMembers, ReadString, ReadNumber, Skip, IsSpace, Write, WriteItems, Indent;
    ItemsTailStep(j, style, depth, 0, rest);
    var first := Write(j.items[0], style, depth + 1) + ItemsTail(j, style, depth, 1, rest);
    OpensWith(j, style, depth, rest, first);
    IndentIsSpace(style, depth + 1);
    WriteStarts(j.items[0], style, depth + 1);
    SkipsSpace(Indent(style, depth + 1), first);
    assert ([OPEN_BRACKET] + (Indent(style, depth + 1) + first))[1..] == Indent(style, depth + 1) + first;
  }

  lemma {:induction false} EmptyReadsBack(j: Json, style: Style, depth: nat, rest: Text)
    requires NoReals(j) && depth <= MAX_DEPTH && (j == Arr([]) || j == Obj([]))
    ensures ReadAs(ReadStarted(Write(j, style, depth) + rest, depth), Within(j, depth), Merged(j), rest)
  {
    hide ReadItems, ReadMembers, ReadString, ReadNumber, Skip;
    var close := [if j.Arr? then CLOSE_BRACKET else CLOSE_BRACE];
    var t := Write(j, style, depth) + rest;
    assert t[1..] == close + rest && (close + rest)[1..] == rest;
    SkipsSpace([], close + rest);
    assert [] + (close + rest) == close + rest;
  }

  lemma {:induction false} OpensWith(j: Json, style: Style, depth: nat, rest: Text, first: Text)
    requires NoReals(j) && j.Arr? && j.items != []
    requires ItemsTail(j, style, depth, 0, rest) == [] + (Indent(style, depth + 1) + first)
    ensures Write(j, style, depth) + rest == [OPEN_BRACKET] + (Indent(style, depth + 1) + first)
  {
    hide Indent, WriteItems;
    assert [] + (Indent(style, depth + 1) + first) == Indent(style, depth + 1) + first;
  }

  predicate RestWithin(j: Json, depth: nat, k: nat) {
    forall i :: k <= i < Children(j) ==> Within(Child(j, i), depth + 1)
  }

  /** Reading the items of an array from the `k`-th on. */
  lemma {:induction false} ItemsReadBack(j: Json, style: Style, depth: nat, k: nat, ws: Text, rest: Text)
    requires NoReals(j) && Ends(rest) && j.Arr? && k < |j.items| && depth <= MAX_DEPTH && AllSpace(ws)
    ensures var t := ws + (Write(j.items[k], style, depth + 1) + ItemsTail(j, style, depth, k + 1, rest));
            ReadAs(ReadItems(t, depth, MergedItems(j, k)), RestWithin(j, depth, k), Merged(j), rest)
    decreases j, 1, |j.items| - k
  {
    hide ReadValue, Write, WriteItems, Indent, ItemsTail, Within, RestWithin, Ends, Skip, AllSpace;
    var tail := ItemsTail(j, style, depth, k + 1, rest);
    AfterItem(j, style, depth, k + 1, rest);
    ValueReadsBack(j.items[k], style, depth + 1, ws, tail);
    RestStep(j, depth, k);
    if Within(j.items[k], depth + 1) && k + 1 < |j.items| {
      ItemsTailStep(j, style, depth, k + 1, rest);
      IndentIsSpace(style, depth + 1);
      ItemsReadBack(j, style, depth, k + 1, Indent(style, depth + 1), rest);
      assert tail[1..]
             == Indent(style, depth + 1) + (Write(j.items[k + 1], style, depth + 1) + ItemsTail(j, style, depth, k + 2, rest));
    }
  }

  lemma {:induction false} RestStep(j: Json, depth: nat, k: nat)
    requires k < Children(j)
    ensures RestWithin(j, depth, k) <==> Within(Child(j, k), depth + 1) && RestWithin(j, depth, k + 1)
    ensures RestWithin(j, depth, Children(j))
    ensures Within(j, depth) <==> depth <= MAX_DEPTH && RestWithin(j, depth, 0)
  {
    WithinChildren(j, depth);
    hide Within;
  }

  lemma {:induction false} ObjReadsBack(j: Json, style: Style, depth: nat, rest: Text)
    requires NoReals(j) && Ends(rest) && j.Obj? && depth <= MAX_DEPTH
    ensures ReadAs(ReadStarted(Write(j, style, depth) + rest, depth), Within(j, depth), Merged(j), rest)
    decreases j, 1, |j.members| + 1
  {
    hide ReadStarted, ReadItems, ReadMembers, Write, Skip, Within, ItemsTail, MembersTail, KeyText, Ends, RestWithin;
    if j.members == [] {
      EmptyReadsBack(j, style, depth, rest);
    } else {
      ObjOpens(j, style, depth, rest);
      MembersReadBack(j, style, depth, 0, [], rest);
      var first := KeyText(j.members[0].key, style)
                   + (Write(j.members[0].value, style, depth + 1) + MembersTail(j, style, depth, 1, rest));
      assert [] + first == first;
      RestStep(j, depth, 0);
    }
  }

  /** An object that is not empty is read as its members. */
  lemma {:induction false} ObjOpens(j: Json, style: Style, depth: nat, rest: Text)
    requires NoReals(j) && j.Obj? && depth <= MAX_DEPTH && j.members != []
    ensures ReadStarted(Write(j, style, depth) + rest, depth)
            == ReadMembers(KeyText(j.members[0].key, style)
                           + (Write(j.members[0].value, style, depth + 1) + MembersTail(j, style, depth, 1, rest)), depth, [])
  {
    hide ReadItems, ReadMembers, ReadString, ReadNumber, Skip, IsSpace, Write, WriteMembers, Indent, KeyText;
    MembersTailStep(j, style, depth, 0, rest);
    var more := Write(j.members[0].value, style, depth + 1) + MembersTail(j, style, depth, 1, rest);
    var first := KeyText(j.members[0].key, style) + more;
    OpensWithKey(j, style, depth, rest, first);
    IndentIsSpace(style, depth + 1);
    KeyStarts(j.members[0].key, style, more);
    SkipsSpace(Indent(style, depth + 1), first);
    assert ([OPEN_BRACE] + (Indent(style, depth + 1) + first))[1..] == Indent(style, depth + 1) + first;
  }

  lemma {:induction false} OpensWithKey(j: Json, style: Style, depth: nat, rest: Text, first: Text)
    requires NoReals(j) && j.Obj? && j.members != []
    requires MembersTail(j, style, depth, 0, rest) == [] + (Indent(style, depth + 1) + first)
    ensures Write(j, style, depth) + rest == [OPEN_BRACE] + (Indent(style, depth + 1) + first)
  {
    hide Indent, WriteMembers;
    assert [] + (Indent(style, depth + 1) + first) == Indent(style, depth + 1) + first;
  }

  lemma {:induction false} KeyStarts(key: Text, style: Style, more: Text)
    ensures var t := KeyText(key, style) + more;
            t != [] && t[0] == QUOTE && t[0] != CLOSE_BRACE && !IsSpace(t[0])
  {
    hide Escape;
  }

  /** The white space a key's colon is followed by. */
  function AfterColon(style: Style): (r: Text)
    ensures AllSpace(r)
  {
    if style.indent < 0 then [] else [SPACE]
  }

  lemma {:induction false} KeyReadsBack(key: Text, style: Style, ws: Text, more: Text)
    requires AllSpace(ws)
    ensures ReadString(Skip(ws + (KeyText(key, style) + more))) == Got(key, [COLON] + (AfterColon(style) + more))
    ensures Skip([COLON] + (AfterColon(style) + more)) == [COLON] + (AfterColon(style) + more)
  {
    hide Escape, ReadString, KeyText, Skip;
    var after := [COLON] + (AfterColon(style) + more);
    KeyStarts(key, style, more);
    SkipsSpace(ws, KeyText(key, style) + more);
    KeyIsQuoted(key, style, more);
    QuotedReadsBack(key, after);
    SkipsSpace([], after);
    assert [] + after == after;
  }

  lemma {:induction false} KeyIsQuoted(key: Text, style: Style, more: Text)
    ensures KeyText(key, style) + more == [QUOTE] + Escape(key) + ([QUOTE] + ([COLON] + (AfterColon(style) + more)))
  {
    hide Escape;
  }

  /** Reading the members of an object from the `k`-th on. */
  lemma {:induction false} MembersReadBack(j: Json, style: Style, depth: nat, k: nat, ws: Text, rest: Text)
    requires NoReals(j) && Ends(rest) && j.Obj? && k < |j.members| && depth <= MAX_DEPTH && AllSpace(ws)
    ensures var t := ws + (KeyText(j.members[k].key, style)
                           + (Write(j.members[k].value, style, depth + 1) + MembersTail(j, style, depth, k + 1, rest)));
            ReadAs(ReadMembers(t, depth, MergedMembers(j, k)), RestWithin(j, depth, k), Merged(j), rest)
    decreases j, 1, |j.members| - k
  {
    hide ReadValue, Write, WriteMembers, ReadItems, ReadString, ReadNumber, Escape, KeyText, Indent, MembersTail;
    hide Within, RestWithin, Ends, Skip, AllSpace;
    var key, value := j.members[k].key, j.members[k].value;
    var tail := MembersTail(j, style, depth, k + 1, rest);
    var more := Write(value, style, depth + 1) + tail;
    KeyReadsBack(key, style, ws, more);
    assert ([COLON] + (AfterColon(style) + more))[1..] == AfterColon(style) + more;
    AfterMember(j, style, depth, k + 1, rest);
    ValueReadsBack(value, style, depth + 1, AfterColon(style), tail);
    RestStep(j, depth, k);
    if Within(value, depth + 1) && k + 1 < |j.members| {
      MembersTailStep(j, style, depth, k + 1, rest);
      IndentIsSpace(style, depth + 1);
      MembersReadBack(j, style, depth, k + 1, Indent(style, depth + 1), rest);
      assert tail[1..] == Indent(style, depth + 1)
                          + (KeyText(j.members[k + 1].key, style)
                             + (Write(j.members[k + 1].value, style, depth + 1) + MembersTail(j, style, depth, k + 2, rest)));
    }
  }

  // ---------------------------------------------------------------------------
  // The results
  // ---------------------------------------------------------------------------

  /** Printing and reading back, at any indent: a value nested within 64 levels comes back
    * with its repeated keys merged, and any other is refused as too deep. */
  lemma {:induction false} ParseDump(j: Json, style: Style)
    requires NoReals(j)
    ensures ReadAs(Parse(Dump(j, style)), Nesting(j) <= MAX_DEPTH, Merged(j), [])
  {
    hide ReadValue, Write, Within, Merged, Nesting;
    ValueReadsBack(j, style, 0, [], []);
    WithinIsNesting(j, 0);
    assert [] + (Write(j, style, 0) + []) == Write(j, style, 0);
  }

  /** No object in the value has a key twice. */
  predicate DistinctKeys(j: Json) {
    match j
    case Arr(items) => forall i :: 0 <= i < |items| ==> DistinctKeys(items[i])
    case Obj(members) =>
      && (forall i :: 0 <= i < |members| ==> DistinctKeys(members[i].value))
      && (forall i, k :: 0 <= i < k < |members| ==> members[i].key != members[k].key)
    case _ => true
  }

  /** Merging changes nothing exactly when no object repeats a key. */
  lemma {:induction false} MergedIsSame(j: Json)
    ensures Merged(j) == j <==> DistinctKeys(j)
    decreases j, 1, 0
  {
    match j
    case Arr(items) => ItemsSame(j, |items|);
    case Obj(members) =>
      MembersSame(j, |members|);
      assert members[..|members|] == members;
    case _ =>
  }

  lemma {:induction false} ItemsSame(j: Json, n: nat)
    requires j.Arr? && n <= |j.items|
    ensures |MergedItems(j, n)| == n
    ensures MergedItems(j, n) == j.items[..n] <==> forall i :: 0 <= i < n ==> DistinctKeys(j.items[i])
    decreases j, 0, n
  {
    hide Merged, DistinctKeys;
    if n > 0 {
      ItemsSame(j, n - 1);
      MergedIsSame(j.items[n - 1]);
      var m := MergedItems(j, n);
      assert m[..n - 1] == MergedItems(j, n - 1) && j.items[..n][..n - 1] == j.items[..n - 1];
      assert m == j.items[..n] <==> m[..n - 1] == j.items[..n - 1] && m[n - 1] == j.items[n - 1] by {
        if m[..n - 1] == j.items[..n - 1] && m[n - 1] == j.items[n - 1] { assert m == m[..n - 1] + [m[n - 1]]; }
      }
    }
  }

  predicate KeysApart(ms: seq<Member>) { forall i, k :: 0 <= i < k < |ms| ==> ms[i].key != ms[k].key }

  /** Merging keeps the keys there are, and as many members unless a key is repeated. */
  lemma {:induction false} MembersKeys(j: Json, n: nat)
    requires j.Obj? && n <= |j.members|
    ensures |MergedMembers(j, n)| <= n && (|MergedMembers(j, n)| == n <==> KeysApart(j.members[..n]))
    ensures forall key :: Has(MergedMembers(j, n), key) <==> Has(j.members[..n], key)
  {
    hide Merged, Has, KeysApart, SetMember;
    if n > 0 {
      var last := j.members[n - 1];
      var front, before := MergedMembers(j, n - 1), j.members[..n - 1];
      MembersKeys(j, n - 1);
      assert j.members[..n] == before + [last];
      KeysStep(before, last);
      HasStep(before, last);
      if Has(front, last.key) {
        SetKeeps(front, last.key, Merged(last.value));
        SetHas(front, last.key, Merged(last.value));
      } else {
        SetAppends(front, last.key, Merged(last.value));
        HasStep(front, Member(last.key, Merged(last.value)));
      }
    } else {
      NoKeys();
      assert j.members[..0] == [];
    }
  }

  lemma NoKeys()
    ensures KeysApart([]) && forall key :: !Has([], key)
  {}

  lemma {:induction false} MembersSame(j: Json, n: nat)
    requires j.Obj? && n <= |j.members|
    ensures MergedMembers(j, n) == j.members[..n]
            <==> KeysApart(j.members[..n]) && forall i :: 0 <= i < n ==> DistinctKeys(j.members[i].value)
    decreases j, 0, n
  {
    hide Merged, DistinctKeys, Has, KeysApart, SetMember;
    if n > 0 {
      var last := j.members[n - 1];
      var front, before := MergedMembers(j, n - 1), j.members[..n - 1];
      MembersSame(j, n - 1);
      MembersKeys(j, n - 1);
      MembersKeys(j, n);
      MergedIsSame(last.value);
      assert j.members[..n] == before + [last];
      KeysStep(before, last);
      if !Has(front, last.key) {
        SetAppends(front, last.key, Merged(last.value));
        SnocSame(front, Member(last.key, Merged(last.value)), before, last);
      }
    } else {
      NoKeys();
      assert j.members[..0] == [];
    }
  }

  lemma {:induction false} SnocSame<T>(a: seq<T>, x: T, b: seq<T>, y: T)
    ensures a + [x] == b + [y] <==> a == b && x == y
  {
    if a + [x] == b + [y] {
      assert a == (a + [x])[..|a|] && b == (b + [y])[..|b|];
      assert x == (a + [x])[|a|] && y == (b + [y])[|b|];
    }
  }

  lemma {:induction false} KeysStep(ms: seq<Member>, m: Member)
    ensures KeysApart(ms + [m]) <==> KeysApart(ms) && !Has(ms, m.key)
  {
    var all := ms + [m];
    if KeysApart(all) {
      forall i, k | 0 <= i < k < |ms| ensures ms[i].key != ms[k].key { assert all[i].key != all[k].key; }
      forall i | 0 <= i < |ms| ensures ms[i].key != m.key { assert all[i].key != all[|ms|].key; }
    }
  }

  lemma {:induction false} HasStep(ms: seq<Member>, m: Member)
    ensures forall key :: Has(ms + [m], key) <==> Has(ms, key) || m.key == key
  {
    forall key | Has(ms, key) || m.key == key ensures Has(ms + [m], key) {
      if Has(ms, key) {
        var i :| 0 <= i < |ms| && ms[i].key == key;
        assert (ms + [m])[i].key == key;
      } else {
        assert (ms + [m])[|ms|].key == key;
      }
    }
  }

  lemma {:induction false} SetHas(ms: seq<Member>, key: Text, value: Json)
    requires Has(ms, key)
    ensures forall k :: Has(SetMember(ms, key, value), k) <==> Has(ms, k)
  {
    SetKeepsKeys(ms, key, value);
    SetKeeps(ms, key, value);
    var after := SetMember(ms, key, value);
    forall k | Has(ms, k) ensures Has(after, k) {
      var i :| 0 <= i < |ms| && ms[i].key == k;
      assert after[i].key == k;
    }
  }

  lemma {:induction false} SetKeepsKeys(ms: seq<Member>, key: Text, value: Json)
    ensures forall i :: 0 <= i < |ms| ==> SetMember(ms, key, value)[i].key == ms[i].key
  {
    if ms != [] && ms[0].key != key { SetKeepsKeys(ms[1..], key, value); }
  }

  /** Reading back gives the value itself exactly when it is nested within 64 levels and no
    * object in it repeats a key. */
  lemma {:induction false} RoundTrip(j: Json, style: Style)
    requires NoReals(j)
    ensures Parse(Dump(j, style)) == Got(j, []) <==> Nesting(j) <= MAX_DEPTH && DistinctKeys(j)
  {
    hide Parse, Dump, Merged, DistinctKeys, Nesting;
    ParseDump(j, style);
    MergedIsSame(j);
  }

  /** An object that prints a key twice reads back as another object. */
  lemma RepeatedKey(style: Style)
    ensures var j := Obj([Member([], Null), Member([], Bool(true))]);
            Parse(Dump(j, style)) == Got(Obj([Member([], Bool(true))]), [])
  {
    var j := Obj([Member([], Null), Member([], Bool(true))]);
    assert NestingOf(j, 2) == 0 && NestingOf(j, 1) == 1 && NestingOf(j, 0) == 1;
    assert MergedMembers(j, 1) == [Member([], Null)];
    assert MergedMembers(j, 2) == [Member([], Bool(true))];
    hide Parse, Dump;
    ParseDump(j, style);
  }
}
