/** The printer and the recursive-descent reader of JSON text, with its cursor. */
module JsonText {
  import opened Wrappers
  import opened Json

  // ---------------------------------------------------------------------------
  // Printing
  // ---------------------------------------------------------------------------

  method EscapeText(s: Text) returns (o: Text)
    ensures o == Escape(s)
  {
    hide EscapeByte;
    o := [];
    var k := 0;
    while k < |s|
      invariant k <= |s| && o + Escape(s[k..]) == Escape(s)
    {
      assert s[k..][1..] == s[k + 1..];
      o := o + EscapeByte(s[k]);
      k := k + 1;
    }
  }

  method WriteIndent(out: Text, style: Style, depth: nat) returns (r: Text)
    ensures r == out + Indent(style, depth)
  {
    if style.indent < 0 { return out; }
    r := out + [NEWLINE];
    r := r + Spaces(style.indent * depth);
  }

  /** Append a value to `out`. */
  method Append(out: Text, j: Json, style: Style, depth: nat) returns (r: Text)
    ensures r == out + Write(j, style, depth)
    decreases j, 1
  {
    hide Escape, IntText, WriteItems, WriteMembers, Indent;
    match j
    case Null => r := out + NULL_TEXT;
    case Bool(b) => r := out + (if b then TRUE_TEXT else FALSE_TEXT);
    case Int(i) => r := out + IntText(i);
    case Real(token) => r := out + style.ofReal(token);
    case Str(s) =>
      var o := EscapeText(s);
      r := out + [QUOTE];
      r := r + o;
      r := r + [QUOTE];
    case Arr(items) =>
      if items == [] { return out + [OPEN_BRACKET, CLOSE_BRACKET]; }
      r := AppendItems(out + [OPEN_BRACKET], j, style, depth);
      r := WriteIndent(r, style, depth);
      r := r + [CLOSE_BRACKET];
    case Obj(members) =>
      if members == [] { return out + [OPEN_BRACE, CLOSE_BRACE]; }
      r := AppendMembers(out + [OPEN_BRACE], j, style, depth);
      r := WriteIndent(r, style, depth);
      r := r + [CLOSE_BRACE];
  }

  method AppendItems(out: Text, j: Json, style: Style, depth: nat) returns (r: Text)
    requires j.Arr?
    ensures r == out + WriteItems(j, style, depth, 0)
    decreases j, 0
  {
    hide Write, Indent;
    r := out;
    var k := 0;
    while k < |j.items|
      invariant k <= |j.items| && r + WriteItems(j, style, depth, k) == out + WriteItems(j, style, depth, 0)
    {
      if k > 0 { r := r + [COMMA]; }
      r := WriteIndent(r, style, depth + 1);
      r := Append(r, j.items[k], style, depth + 1);
      k := k + 1;
    }
  }

  method AppendMembers(out: Text, j: Json, style: Style, depth: nat) returns (r: Text)
    requires j.Obj?
    ensures r == out + WriteMembers(j, style, depth, 0)
    decreases j, 0
  {
    hide Write, Indent, Escape;
    r := out;
    var k := 0;
    while k < |j.members|
      invariant k <= |j.members| && r + WriteMembers(j, style, depth, k) == out + WriteMembers(j, style, depth, 0)
    {
      ghost var before := r;
      if k > 0 { r := r + [COMMA]; }
      r := WriteIndent(r, style, depth + 1);
      r := AppendKey(r, j.members[k].key, style);
      r := Append(r, j.members[k].value, style, depth + 1);
      AppendAssoc(before, if k > 0 then [COMMA] else [], Indent(style, depth + 1), KeyText(j.members[k].key, style),
                  Write(j.members[k].value, style, depth + 1), WriteMembers(j, style, depth, k + 1));
      k := k + 1;
    }
  }

  lemma {:induction false} AppendAssoc(a: Text, b: Text, c: Text, d: Text, e: Text, f: Text)
    ensures a + (b + c + d + e + f) == a + b + c + d + e + f
  {}

  method AppendKey(out: Text, key: Text, style: Style) returns (r: Text)
    ensures r == out + KeyText(key, style)
  {
    hide Escape;
    var o := EscapeText(key);
    r := out + [QUOTE];
    r := r + o;
    r := r + if style.indent < 0 then [QUOTE, COLON] else [QUOTE, COLON, SPACE];
  }

  // ---------------------------------------------------------------------------
  // Reading
  // ---------------------------------------------------------------------------

  /** Insert a member, or overwrite the one there is. */
  method PutMember(ms: seq<Member>, key: Text, value: Json) returns (r: seq<Member>)
    ensures r == SetMember(ms, key, value)
  {
    hide SetMember;
    SetNothing(key, value);
    var k := 0;
    while k < |ms|
      invariant k <= |ms| && SetMember(ms, key, value) == ms[..k] + SetMember(ms[k..], key, value)
    {
      SetStep(ms, key, value, k);
      if ms[k].key == key { return ms[k := Member(key, value)]; }
      k := k + 1;
    }
    return ms + [Member(key, value)];
  }

  lemma SetNothing(key: Text, value: Json)
    ensures SetMember([], key, value) == [Member(key, value)]
  {}

  lemma {:induction false} SetStep(ms: seq<Member>, key: Text, value: Json, k: nat)
    requires k < |ms|
    ensures ms[k].key == key ==> ms[..k] + SetMember(ms[k..], key, value) == ms[k := Member(key, value)]
    ensures ms[k].key != key ==>
              ms[..k] + SetMember(ms[k..], key, value) == ms[..k + 1] + SetMember(ms[k + 1..], key, value)
  {
    assert ms[k..][1..] == ms[k + 1..];
  }

  /** Why reading failed, and at what offset. */
  datatype Trouble = Trouble(reason: Reason, offset: int)

  class Parser {
    const t: Text
    var p: nat
    var err: Option<Trouble>

    ghost predicate Valid()
      reads this
    {
      p <= |t| && err == None
    }

    /** What a read on the text from the cursor on leaves behind. */
    ghost predicate Leaves<T>(g: Got<T>, ok: bool)
      reads this
    {
      match g
      case Got(_, rest) => ok && p <= |t| && t[p..] == rest && err == None
      case Fail(reason, left) => !ok && err == Some(Trouble(reason, |t| - left))
    }

    constructor (text: Text)
      ensures Valid() && t == text && p == 0
    {
      t, p, err := text, 0, None;
    }

    method Error(reason: Reason)
      requires err == None
      modifies `err
      ensures err == Some(Trouble(reason, p))
    {
      err := Some(Trouble(reason, p));
    }

    method Ws()
      requires Valid()
      modifies `p
      ensures Valid() && old(p) <= p && t[p..] == Skip(t[old(p)..])
    {
      hide Skip, IsSpace;
      while p < |t| && IsSpace(t[p])
        invariant Valid() && old(p) <= p && Skip(t[p..]) == Skip(t[old(p)..])
        decreases |t| - p
      {
        SkipStep(t, p);
        p := p + 1;
      }
      SkipStep(t, p);
    }

    method ReadLiteral(lit: Text) returns (ok: bool)
      requires Valid()
      modifies `p, `err
      ensures p >= old(p) && Leaves(Literal(t[old(p)..], lit), ok)
    {
      if |t| - p < |lit| || t[p..p + |lit|] != lit {
        assert t[p..][..if |lit| <= |t| - p then |lit| else 0] == t[p..p + if |lit| <= |t| - p then |lit| else 0];
        Error(BadLiteral);
        return false;
      }
      assert t[p..][..|lit|] == t[p..p + |lit|] && t[p..][|lit|..] == t[p + |lit|..];
      p := p + |lit|;
      return true;
    }

    method ReadHex4() returns (ok: bool, out: nat)
      requires Valid()
      modifies `p, `err
      ensures p >= old(p) && Leaves(Hex4(t[old(p)..]), ok)
      ensures ok ==> Hex4(t[old(p)..]).Got? && out == Hex4(t[old(p)..]).value
    {
      hide HexValue;
      out := 0;
      if p + 4 > |t| {
        Error(TruncatedEscape);
        return false, 0;
      }
      ghost var s := t[p..];
      assert s[4..] == t[p + 4..];
      var a, b, c, d := HexValue(t[p]), HexValue(t[p + 1]), HexValue(t[p + 2]), HexValue(t[p + 3]);
      if a < 0 || b < 0 || c < 0 || d < 0 {
        Error(BadUnicodeEscape);
        return false, 0;
      }
      out := ((a * 16 + b) * 16 + c) * 16 + d;
      p := p + 4;
      return true, out;
    }

    method ReadUnicode() returns (ok: bool, out: Text)
      requires Valid()
      modifies `p, `err
      ensures p >= old(p) && Leaves(Unicode(t[old(p)..]), ok)
      ensures ok ==> Unicode(t[old(p)..]).Got? && out == Unicode(t[old(p)..]).value
    {
      hide Hex4, Utf8;
      out := [];
      var cp, lo;
      ok, cp := ReadHex4();
      if !ok { return; }
      if 0xD800 <= cp <= 0xDBFF && p + 1 < |t| && t[p] == BACKSLASH && t[p + 1] == LOWER_U {
        assert t[p..][2..] == t[p + 2..];
        p := p + 2;
        ok, lo := ReadHex4();
        if !ok { return; }
        if 0xDC00 <= lo <= 0xDFFF {
          cp := 0x10000 + (cp - 0xD800) * 1024 + (lo - 0xDC00);
        } else {
          out := out + Utf8(cp);
          cp := lo;
        }
      }
      out := out + Utf8(cp);
    }

    method ReadEscape() returns (ok: bool, out: Text)
      requires Valid() && p < |t|
      modifies `p, `err
      ensures p >= old(p) && Leaves(Unescape(t[old(p)..]), ok)
      ensures ok ==> Unescape(t[old(p)..]).Got? && out == Unescape(t[old(p)..]).value
    {
      hide Unicode;
      ok, out := true, [];
      var e := t[p];
      assert t[p..][1..] == t[p + 1..];
      p := p + 1;
      if e == QUOTE { out := [QUOTE]; }
      else if e == BACKSLASH { out := [BACKSLASH]; }
      else if e == SLASH { out := [SLASH]; }
      else if e == LOWER_B { out := [BACKSPACE]; }
      else if e == LOWER_F { out := [FORM_FEED]; }
      else if e == LOWER_N { out := [NEWLINE]; }
      else if e == LOWER_R { out := [RETURN]; }
      else if e == LOWER_T { out := [TAB]; }
      else if e == LOWER_U { ok, out := ReadUnicode(); }
      else {
        Error(BadEscape);
        ok := false;
      }
    }

    method ReadQuoted() returns (ok: bool, out: Text)
      requires Valid()
      modifies `p, `err
      ensures p >= old(p) && Leaves(ReadString(t[old(p)..]), ok)
      ensures ok ==> ReadString(t[old(p)..]).Got? && out == ReadString(t[old(p)..]).value
    {
      hide StringTail;
      out := [];
      if p >= |t| || t[p] != QUOTE {
        Error(ExpectedString);
        return false, [];
      }
      assert t[p..][1..] == t[p + 1..];
      p := p + 1;
      ok, out := ReadTail();
    }

    method ReadTail() returns (ok: bool, out: Text)
      requires Valid()
      modifies `p, `err
      ensures p >= old(p) && Leaves(StringTail(t[old(p)..], []), ok)
      ensures ok ==> StringTail(t[old(p)..], []).Got? && out == StringTail(t[old(p)..], []).value
    {
      hide StringTail, Unescape;
      out := [];
      while p < |t|
        invariant Valid() && old(p) <= p && StringTail(t[p..], out) == StringTail(t[old(p)..], [])
        decreases |t| - p
      {
        TailStep(t, p, out);
        var c := t[p];
        p := p + 1;
        if c == QUOTE { return true, out; }
        if c != BACKSLASH {
          out := out + [c];
        } else {
          if p >= |t| { break; }
          var more;
          ok, more := ReadEscape();
          if !ok { return false, []; }
          out := out + more;
        }
      }
      TailEnd(t, p, out);
      Error(UnterminatedString);
      return false, [];
    }

    method ReadNumeral() returns (ok: bool, out: Json)
      requires Valid() && p < |t|
      modifies `p, `err
      ensures p >= old(p) && Leaves(ReadNumber(t[old(p)..]), ok)
      ensures ok ==> ReadNumber(t[old(p)..]).Got? && out == ReadNumber(t[old(p)..]).value
    {
      hide NumberRun, InNumber, NumberOf;
      var start := p;
      if t[p] == MINUS || t[p] == PLUS { p := p + 1; }
      var body := p;
      var fractional := false;
      while p < |t| && InNumber(t[p])
        invariant Valid() && body <= p && NumberRun(t[body..]) == p - body + NumberRun(t[p..])
        invariant fractional <==> !AllDigits(t[body..p])
        decreases |t| - p
      {
        RunStep(t, p);
        DigitsStep(t, body, p);
        if !IsDigit(t[p]) { fractional := true; }
        p := p + 1;
      }
      RunStep(t, p);
      NumberParts(t, start, body, p);
      if p == start {
        Error(UnexpectedCharacter);
        return false, Null;
      }
      return true, NumberOf(t[start..body], t[body..p]);
    }

    /** A value at a depth. */
    method ReadJson(depth: nat) returns (ok: bool, out: Json)
      requires Valid()
      modifies `p, `err
      ensures p >= old(p) && Leaves(ReadValue(t[old(p)..], depth), ok)
      ensures ok ==> ReadValue(t[old(p)..], depth).Got? && out == ReadValue(t[old(p)..], depth).value
      decreases |t| - p, 1
    {
      hide ReadStarted, Skip;
      out := Null;
      if depth > MAX_DEPTH {
        Error(TooDeep);
        return false, Null;
      }
      Ws();
      ok, out := ReadFrom(depth);
    }

    method ReadFrom(depth: nat) returns (ok: bool, out: Json)
      requires Valid() && depth <= MAX_DEPTH
      modifies `p, `err
      ensures p >= old(p) && Leaves(ReadStarted(t[old(p)..], depth), ok)
      ensures ok ==> ReadStarted(t[old(p)..], depth).Got? && out == ReadStarted(t[old(p)..], depth).value
      decreases |t| - p, 0
    {
      hide ReadItems, ReadMembers, ReadString, ReadNumber, Literal, Skip;
      out := Null;
      if p >= |t| {
        Error(UnexpectedEnd);
        return false, Null;
      }
      var c := t[p];
      if c == OPEN_BRACE || c == OPEN_BRACKET {
        assert t[p..][1..] == t[p + 1..];
        p := p + 1;
        Ws();
        if p < |t| && t[p] == (if c == OPEN_BRACE then CLOSE_BRACE else CLOSE_BRACKET) {
          assert t[p..][1..] == t[p + 1..];
          p := p + 1;
          return true, if c == OPEN_BRACE then Obj([]) else Arr([]);
        }
        if c == OPEN_BRACE { ok, out := ReadMemberList(depth); } else { ok, out := ReadItemList(depth); }
      } else if c == QUOTE {
        var s;
        ok, s := ReadQuoted();
        if ok { out := Str(s); }
      } else if c == LOWER_T {
        ok := ReadLiteral(TRUE_TEXT);
        out := Bool(true);
      } else if c == LOWER_F {
        ok := ReadLiteral(FALSE_TEXT);
        out := Bool(false);
      } else if c == LOWER_N {
        ok := ReadLiteral(NULL_TEXT);
      } else {
        ok, out := ReadNumeral();
      }
    }

    method ReadItemList(depth: nat) returns (ok: bool, out: Json)
      requires Valid() && depth <= MAX_DEPTH
      modifies `p, `err
      ensures p >= old(p) && Leaves(ReadItems(t[old(p)..], depth, []), ok)
      ensures ok ==> ReadItems(t[old(p)..], depth, []).Got? && out == ReadItems(t[old(p)..], depth, []).value
      decreases |t| - p, 3
    {
      hide ReadValue, ReadItems, Skip;
      var items: seq<Json> := [];
      while true
        invariant Valid() && old(p) <= p && ReadItems(t[p..], depth, items) == ReadItems(t[old(p)..], depth, [])
        decreases |t| - p
      {
        ItemsStep(t[p..], depth, items);
        var v;
        ok, v := ReadJson(depth + 1);
        if !ok { return false, Null; }
        Ws();
        if p < |t| && t[p] == COMMA {
          assert t[p..][1..] == t[p + 1..];
          p := p + 1;
          items := items + [v];
        } else if p < |t| && t[p] == CLOSE_BRACKET {
          assert t[p..][1..] == t[p + 1..];
          p := p + 1;
          return true, Arr(items + [v]);
        } else {
          Error(ExpectedCommaOrBracket);
          return false, Null;
        }
      }
    }

    method ReadKeyValue(depth: nat) returns (ok: bool, m: Member)
      requires Valid() && depth <= MAX_DEPTH
      modifies `p, `err
      ensures p >= old(p) && Leaves(ReadPair(t[old(p)..], depth), ok)
      ensures ok ==> ReadPair(t[old(p)..], depth).Got? && m == ReadPair(t[old(p)..], depth).value
      decreases |t| - p, 2
    {
      hide ReadValue, ReadString, Skip;
      m := Member([], Null);
      Ws();
      var key, v;
      ok, key := ReadQuoted();
      if !ok { return; }
      Ws();
      if p >= |t| || t[p] != COLON {
        Error(ExpectedColon);
        return false, m;
      }
      assert t[p..][1..] == t[p + 1..];
      p := p + 1;
      ok, v := ReadJson(depth + 1);
      m := Member(key, v);
    }

    method ReadMemberList(depth: nat) returns (ok: bool, out: Json)
      requires Valid() && depth <= MAX_DEPTH
      modifies `p, `err
      ensures p >= old(p) && Leaves(ReadMembers(t[old(p)..], depth, []), ok)
      ensures ok ==> ReadMembers(t[old(p)..], depth, []).Got? && out == ReadMembers(t[old(p)..], depth, []).value
      decreases |t| - p, 3
    {
      hide ReadPair, ReadMembers, Skip, SetMember;
      var ms: seq<Member> := [];
      while true
        invariant Valid() && old(p) <= p && ReadMembers(t[p..], depth, ms) == ReadMembers(t[old(p)..], depth, [])
        decreases |t| - p
      {
        MembersStep(t[p..], depth, ms);
        var m;
        ok, m := ReadKeyValue(depth);
        if !ok { return false, Null; }
        ms := PutMember(ms, m.key, m.value);
        Ws();
        if p < |t| && t[p] == COMMA {
          assert t[p..][1..] == t[p + 1..];
          p := p + 1;
        } else if p < |t| && t[p] == CLOSE_BRACE {
          assert t[p..][1..] == t[p + 1..];
          p := p + 1;
          return true, Obj(ms);
        } else {
          Error(ExpectedCommaOrBrace);
          return false, Null;
        }
      }
    }
  }

  /** Parse a whole text.  On failure the value is null and the error says why and where. */
  method ParseText(text: Text) returns (out: Json, error: Option<Trouble>)
    ensures match Parse(text)
            case Got(v, _) => out == v && error == None
            case Fail(reason, left) => out == Null && error == Some(Trouble(reason, |text| - left))
  {
    hide ReadValue, Skip;
    var ps := new Parser(text);
    assert text[0..] == text;
    var ok;
    ok, out := ps.ReadJson(0);
    if !ok { return Null, ps.err; }
    ps.Ws();
    if ps.p != |text| { return Null, Some(Trouble(TrailingData, ps.p)); }
    error := None;
  }

  lemma {:induction false} RunStep(t: Text, p: nat)
    requires p <= |t|
    ensures NumberRun(t[p..]) == if p < |t| && InNumber(t[p]) then 1 + NumberRun(t[p + 1..]) else 0
  {
    if p < |t| { assert t[p..][1..] == t[p + 1..]; }
  }

  lemma {:induction false} DigitsStep(t: Text, body: nat, p: nat)
    requires body <= p < |t|
    ensures AllDigits(t[body..p + 1]) <==> AllDigits(t[body..p]) && IsDigit(t[p])
  {
    var s := t[body..p + 1];
    assert s[p - body] == t[p];
    assert t[body..p] == s[..p - body];
  }

  lemma {:induction false} NumberParts(t: Text, start: nat, body: nat, p: nat)
    requires start < |t| && start <= body <= p <= |t|
    requires body == if t[start] == MINUS || t[start] == PLUS then start + 1 else start
    requires NumberRun(t[body..]) == p - body
    ensures ReadNumber(t[start..]) ==
            if p == start then Fail(UnexpectedCharacter, |t| - start) else Got(NumberOf(t[start..body], t[body..p]), t[p..])
  {
    hide NumberRun, NumberOf, InNumber, AllDigits;
    var s := t[start..];
    assert s[0] == t[start];
    if body == start {
      assert t[start..body] == [];
    } else {
      assert s[1..] == t[body..] && s[..1] == t[start..body];
    }
    assert t[body..][..p - body] == t[body..p] && t[body..][p - body..] == t[p..];
  }

  lemma {:induction false} ItemsStep(t: Text, depth: nat, soFar: seq<Json>)
    ensures ReadItems(t, depth, soFar) ==
            match ReadValue(t, depth + 1)
            case Fail(e, n) => Fail(e, n)
            case Got(v, rest) =>
              var u := Skip(rest);
              if u != [] && u[0] == COMMA then ReadItems(u[1..], depth, soFar + [v])
              else if u != [] && u[0] == CLOSE_BRACKET then Got(Arr(soFar + [v]), u[1..])
              else Fail(ExpectedCommaOrBracket, |u|)
  {
    hide ReadValue, Skip;
  }

  lemma {:induction false} MembersStep(t: Text, depth: nat, soFar: seq<Member>)
    ensures ReadMembers(t, depth, soFar) ==
            match ReadPair(t, depth)
            case Fail(e, n) => Fail(e, n)
            case Got(m, rest) =>
              var w := Skip(rest);
              var ms := SetMember(soFar, m.key, m.value);
              if w != [] && w[0] == COMMA then ReadMembers(w[1..], depth, ms)
              else if w != [] && w[0] == CLOSE_BRACE then Got(Obj(ms), w[1..])
              else Fail(ExpectedCommaOrBrace, |w|)
  {
    hide ReadPair, Skip, SetMember;
  }

  lemma {:induction false} TailStep(t: Text, p: nat, out: Text)
    requires p < |t|
    ensures StringTail(t[p..], out) ==
            if t[p] == QUOTE then Got(out, t[p + 1..])
            else if t[p] != BACKSLASH then StringTail(t[p + 1..], out + [t[p]])
            else if p + 1 == |t| then Fail(UnterminatedString, 0)
            else match Unescape(t[p + 1..])
              case Fail(e, n) => Fail(e, n)
              case Got(s, rest) => StringTail(rest, out + s)
  {
    hide Unescape;
    assert t[p..][1..] == t[p + 1..];
  }

  lemma {:induction false} TailEnd(t: Text, p: nat, out: Text)
    requires p == |t|
    ensures StringTail(t[p..], out) == Fail(UnterminatedString, 0)
  {}

  lemma {:induction false} SkipStep(t: Text, p: nat)
    requires p <= |t|
    ensures Skip(t[p..]) == if p < |t| && IsSpace(t[p]) then Skip(t[p + 1..]) else t[p..]
  {
    if p < |t| { assert t[p..][1..] == t[p + 1..]; }
  }
}
