/** What JSON text is (RFC 8259), character by character: the names and escapes, the hex digits
  * and code units of an escaped string, UTF-8 (RFC 3629), and texts printed and refused. */
module JsonFacts {
  import opened Wrappers
  import opened Json
  import opened JsonRoundTrip
  import opened Gf2

  // ---------------------------------------------------------------------------
  // Characters
  // ---------------------------------------------------------------------------

  lemma Characters()
    ensures [QUOTE, BACKSLASH, SLASH, COMMA, COLON, DOT, PLUS, MINUS] == Ascii("\"\\/,:.+-")
    ensures [OPEN_BRACKET, CLOSE_BRACKET, OPEN_BRACE, CLOSE_BRACE, SPACE, ZERO] == Ascii("[]{} 0")
    ensures [LOWER_B, LOWER_E, LOWER_F, LOWER_N, LOWER_R, LOWER_T, LOWER_U, UPPER_E] == Ascii("befnrtuE")
    ensures NULL_TEXT == Ascii("null") && TRUE_TEXT == Ascii("true") && FALSE_TEXT == Ascii("false")
    ensures [BACKSPACE, TAB, NEWLINE, FORM_FEED, RETURN] == [8, 9, 10, 12, 13]
  {}

  const LOWER_HEX: Text := [48, 49, 50, 51, 52, 53, 54, 55, 56, 57, 97, 98, 99, 100, 101, 102]
  const UPPER_HEX: Text := [48, 49, 50, 51, 52, 53, 54, 55, 56, 57, 65, 66, 67, 68, 69, 70]

  lemma HexIs()
    ensures LOWER_HEX == Ascii("0123456789abcdef") && UPPER_HEX == Ascii("0123456789ABCDEF")
  {}

  /** A hex digit is worth its place among the sixteen, in either case, and nothing else is one. */
  lemma HexReads(c: Byte, k: nat)
    requires k < 16
    ensures HexDigit(k) == LOWER_HEX[k]
    ensures HexValue(c) == k <==> c == LOWER_HEX[k] || c == UPPER_HEX[k]
  {}

  /** What a backslash may be followed by, besides a code unit, and what it stands for. */
  lemma ShortEscapes(k: nat, rest: Text)
    requires k < 8
    ensures var t := Ascii("\"\\/bfnrt");
            Unescape([t[k]] + rest) == Got([[34, 92, 47, 8, 12, 10, 13, 9][k]], rest)
  {
    var t := Ascii("\"\\/bfnrt");
    assert ([t[k]] + rest)[1..] == rest;
  }

  /** Any other character after it is refused. */
  lemma OtherEscapes(t: Text)
    requires t != [] && t[0] !in Ascii("\"\\/bfnrtu")
    ensures Unescape(t) == Fail(BadEscape, |t| - 1)
  {
    var all := Ascii("\"\\/bfnrtu");
    assert all[0] == QUOTE && all[1] == BACKSLASH && all[2] == SLASH && all[3] == LOWER_B && all[4] == LOWER_F;
    assert all[5] == LOWER_N && all[6] == LOWER_R && all[7] == LOWER_T && all[8] == LOWER_U;
  }

  /** A printed string holds no control character, and a quote only behind a backslash; what
    * needs no escape is printed as it is. */
  lemma {:induction false} EscapedIsClean(s: Text, k: nat)
    requires k < |Escape(s)|
    ensures Escape(s)[k] >= 32 && (Escape(s)[k] == 34 ==> k > 0 && Escape(s)[k - 1] == 92)
    decreases |s|
  {
    var first := EscapeByte(s[0]);
    if k >= |first| { EscapedIsClean(s[1..], k - |first|); }
  }

  lemma PlainByte(c: Byte)
    ensures EscapeByte(c) == [c] <==> c >= 32 && c != 34 && c != 92
  {}

  // ---------------------------------------------------------------------------
  // Code units and UTF-8
  // ---------------------------------------------------------------------------

  /** Four hex digits are a number, the first the highest. */
  lemma {:induction false} Hex4Reads(x: nat, t: Text, rest: Text)
    requires x < 0x10000 && |t| == 4
    requires t[0] in [LOWER_HEX[x / 4096], UPPER_HEX[x / 4096]]
    requires t[1] in [LOWER_HEX[x / 256 % 16], UPPER_HEX[x / 256 % 16]]
    requires t[2] in [LOWER_HEX[x / 16 % 16], UPPER_HEX[x / 16 % 16]]
    requires t[3] in [LOWER_HEX[x % 16], UPPER_HEX[x % 16]]
    ensures Hex4(t + rest) == Got(x, rest)
  {
    HexReads(t[0], x / 4096);
    HexReads(t[1], x / 256 % 16);
    HexReads(t[2], x / 16 % 16);
    HexReads(t[3], x % 16);
    hide HexValue;
    assert (t + rest)[4..] == rest;
    FourDigits(x);
  }

  lemma FourDigits(x: nat)
    requires x < 0x10000
    ensures ((x / 4096 * 16 + x / 256 % 16) * 16 + x / 16 % 16) * 16 + x % 16 == x
  {
    var a := x / 16;
    var b := a / 16;
    assert a == b * 16 + a % 16 && b == b / 16 * 16 + b % 16;
    assert x / 256 == b && x / 4096 == b / 16;
  }

  /** The value of a byte's lowest bits. */
  function Low(b: Byte, n: nat): nat
    requires n > 0
  {
    b % n
  }

  /** `u` is a code point in UTF-8: one byte, or a first byte that says how many follow and has
    * its highest bits, and then six bits to a byte. */
  predicate IsUtf8(u: Text, cp: nat) {
    if cp < 0x80 then u == [cp]
    else if cp < 0x800 then
      |u| == 2 && u[0] / 32 == 6 && u[1] / 64 == 2 && cp == 64 * Low(u[0], 32) + Low(u[1], 64)
    else if cp < 0x10000 then
      |u| == 3 && u[0] / 16 == 14 && u[1] / 64 == 2 && u[2] / 64 == 2
      && cp == 4096 * Low(u[0], 16) + 64 * Low(u[1], 64) + Low(u[2], 64)
    else
      |u| == 4 && u[0] / 8 == 30 && u[1] / 64 == 2 && u[2] / 64 == 2 && u[3] / 64 == 2
      && cp == 0x40000 * Low(u[0], 8) + 4096 * Low(u[1], 64) + 64 * Low(u[2], 64) + Low(u[3], 64)
  }

  lemma Utf8Shape(cp: nat)
    requires cp < 0x110000
    ensures IsUtf8(Utf8(cp), cp)
  {
    Sixes(cp);
  }

  lemma Sixes(cp: nat)
    requires cp < 0x110000
    ensures cp / 64 == cp / 4096 * 64 + cp / 64 % 64 && cp / 4096 == cp / 0x40000 * 64 + cp / 4096 % 64
    ensures cp / 0x40000 <= 4 && (cp < 0x10000 ==> cp / 4096 < 16) && (cp < 0x800 ==> cp / 64 < 32)
  {
    var a := cp / 64;
    var b := a / 64;
    DivModUnique(cp, b, a % 64 * 64 + cp % 64, 4096);
    DivModUnique(cp, b / 64, (b % 64 * 64 + a % 64) * 64 + cp % 64, 0x40000);
  }

  /** A code unit that is none of a pair's first halves stands for itself, and so does one that no
    * second escape follows. */
  lemma UnitReads(t: Text, x: nat, rest: Text)
    requires Hex4(t) == Got(x, rest) && x < 0x10000
    requires !(0xD800 <= x < 0xDC00) || |rest| < 2 || rest[..2] != Ascii("\\u")
    ensures Unicode(t) == Got(Utf8(x), rest)
  {
    hide Hex4, Utf8;
    if |rest| >= 2 && rest[0] == BACKSLASH && rest[1] == LOWER_U {
      assert rest[..2] == [BACKSLASH, LOWER_U] == Ascii("\\u");
    }
  }

  /** The two code units of UTF-16 that a code point past the first 65536 has, escaped one after
    * the other, stand for that code point. */
  lemma PairReads(t: Text, cp: nat, u: Text, rest: Text)
    requires 0x10000 <= cp < 0x110000
    requires Hex4(t) == Got(0xD800 + (cp - 0x10000) / 0x400, Ascii("\\u") + u)
    requires Hex4(u) == Got(0xDC00 + (cp - 0x10000) % 0x400, rest)
    ensures Unicode(t) == Got(Utf8(cp), rest)
  {
    hide Hex4, Utf8;
    var after := Ascii("\\u") + u;
    assert after[0] == BACKSLASH && after[1] == LOWER_U && after[2..] == u;
  }

  // ---------------------------------------------------------------------------
  // Numbers too long for an integer
  // ---------------------------------------------------------------------------

  /** An integer of more than 64 bits reads as the nearest that has them. */
  lemma {:induction false} LongIntegers(i: int, rest: Text)
    requires Ends(rest)
    ensures ReadNumber(IntText(i) + rest)
            == Got(Int(if i >= 0x8000_0000_0000_0000 then 0x7FFF_FFFF_FFFF_FFFF
                       else if i < -0x8000_0000_0000_0000 then -0x8000_0000_0000_0000 else i), rest)
  {
    hide Digits, DigitsValue, NumberRun, InNumber;
    var n: nat := if i < 0 then -i else i;
    var d := Digits(n);
    DigitsReadBack(n);
    RunOfDigits(d, rest);
    var t := IntText(i) + rest;
    if i < 0 {
      assert t[1..] == d + rest && t[..1] == [MINUS];
    } else {
      assert t == d + rest && t[0] == d[0];
    }
    assert (d + rest)[..|d|] == d && (d + rest)[|d|..] == rest;
  }

  // ---------------------------------------------------------------------------
  // Nesting
  // ---------------------------------------------------------------------------

  /** An empty array in `n` others. */
  function Nest(n: nat): Json {
    if n == 0 then Arr([]) else Arr([Nest(n - 1)])
  }

  lemma {:induction false} NestIs(n: nat)
    ensures Nesting(Nest(n)) == n && NoReals(Nest(n)) && DistinctKeys(Nest(n))
  {
    if n > 0 {
      NestIs(n - 1);
      assert NestingOf(Nest(n), 1) == 0 && Child(Nest(n), 0) == Nest(n - 1);
    }
  }

  /** Sixty-four arrays in one another around an innermost one are read, and no more. */
  lemma {:induction false} SixtyFourDeep(n: nat, style: Style)
    ensures Parse(Dump(Nest(n), style)) == Got(Nest(n), []) <==> n <= 64
  {
    hide Parse, Dump, Nesting, NoReals, DistinctKeys, Nest;
    NestIs(n);
    RoundTrip(Nest(n), style);
  }

  // ---------------------------------------------------------------------------
  // A text printed, and texts refused
  // ---------------------------------------------------------------------------

  function Sample(): Json {
    Obj([Member(Ascii("a"), Arr([Int(-7), Bool(true)])), Member(Ascii("b"), Null)])
  }

  lemma SampleOnOneLine(style: Style)
    requires style.indent < 0
    ensures Dump(Sample(), style) == Ascii("{\"a\":[-7,true],\"b\":null}")
  {
    hide Write, WriteMembers, KeyText, Ascii;
    SampleList(style);
    SampleMembers(style);
    SampleEnds(style);
    SampleText();
  }

  lemma SampleList(style: Style)
    requires style.indent < 0
    ensures Write(Arr([Int(-7), Bool(true)]), style, 1) == Ascii("[-7,true]")
  {
    hide IntText;
    var list := Arr([Int(-7), Bool(true)]);
    assert WriteItems(list, style, 1, 2) == [];
    assert WriteItems(list, style, 1, 1) == Ascii(",true");
    MinusSeven();
    assert WriteItems(list, style, 1, 0) == Ascii("-7,true");
  }

  lemma MinusSeven()
    ensures IntText(-7) == Ascii("-7")
  {}

  lemma SampleKeys(style: Style)
    requires style.indent < 0
    ensures KeyText(Ascii("a"), style) == Ascii("\"a\":") && KeyText(Ascii("b"), style) == Ascii("\"b\":")
  {
    OneLetter(97);
    OneLetter(98);
    hide Escape;
  }

  lemma SampleMembers(style: Style)
    requires style.indent < 0
    ensures WriteMembers(Sample(), style, 0, 0) == Ascii("\"a\":") + Write(Arr([Int(-7), Bool(true)]), style, 1)
                                                    + Ascii(",\"b\":null")
  {
    hide KeyText;
    SampleKeys(style);
    assert WriteMembers(Sample(), style, 0, 2) == [];
    assert WriteMembers(Sample(), style, 0, 1) == Ascii(",\"b\":null");
  }

  lemma SampleEnds(style: Style)
    requires style.indent < 0
    ensures Dump(Sample(), style) == Ascii("{") + WriteMembers(Sample(), style, 0, 0) + Ascii("}")
  {
    hide WriteMembers;
  }

  lemma SampleText()
    ensures Ascii("{") + (Ascii("\"a\":") + Ascii("[-7,true]") + Ascii(",\"b\":null")) + Ascii("}")
            == Ascii("{\"a\":[-7,true],\"b\":null}")
  {}

  /** Texts that are not JSON, and why they are refused. */
  lemma Refusals()
    ensures Parse(Ascii("tru")) == Fail(BadLiteral, 3)
    ensures Parse(Ascii("[1,]")) == Fail(UnexpectedCharacter, 1)
    ensures Parse(Ascii("1 2")) == Fail(TrailingData, 1)
    ensures Parse(Ascii("\"a")) == Fail(UnterminatedString, 0)
    ensures Parse([]) == Fail(UnexpectedEnd, 0)
  {
    RefusedWord();
    RefusedList();
    RefusedTwo();
    RefusedString();
  }

  lemma RefusedWord()
    ensures Parse(Ascii("tru")) == Fail(BadLiteral, 3)
  {
    assert Skip(Ascii("tru")) == Ascii("tru");
  }

  lemma RefusedList()
    ensures Parse(Ascii("[1,]")) == Fail(UnexpectedCharacter, 1)
  {
    var t := Ascii("[1,]");
    assert t[1..] == Ascii("1,]");
    OneReads(Ascii(",]"));
    assert Ascii("1") + Ascii(",]") == Ascii("1,]");
    assert Ascii(",]")[1..] == Ascii("]");
    assert ReadNumber(Ascii("]")) == Fail(UnexpectedCharacter, 1);
    assert ReadValue(Ascii("]"), 1) == Fail(UnexpectedCharacter, 1);
  }

  lemma OneReads(rest: Text)
    requires Ends(rest)
    ensures ReadNumber(Ascii("1") + rest) == Got(Int(1), rest)
  {
    assert IntText(1) == Ascii("1");
    IntReadsBack(1, rest);
  }

  lemma RefusedTwo()
    ensures Parse(Ascii("1 2")) == Fail(TrailingData, 1)
  {
    OneReads(Ascii(" 2"));
    assert Ascii("1") + Ascii(" 2") == Ascii("1 2");
    assert Ascii(" 2")[1..] == Ascii("2");
    assert Skip(Ascii(" 2")) == Ascii("2");
  }

  lemma RefusedString()
    ensures Parse(Ascii("\"a")) == Fail(UnterminatedString, 0)
  {
    var t := Ascii("\"a");
    assert t[1..] == Ascii("a") && Ascii("a")[1..] == [];
    assert StringTail([], [] + [97]) == Fail(UnterminatedString, 0);
  }

  lemma OneLetter(c: Byte)
    requires 97 <= c <= 98
    ensures Escape([c]) == [c] && (c == 97 ==> Ascii("a") == [c]) && (c == 98 ==> Ascii("b") == [c])
  {
    assert [c][1..] == [];
    assert Escape([]) == [];
  }
}
