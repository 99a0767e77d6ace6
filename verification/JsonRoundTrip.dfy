/** Parsing what was printed. */
module JsonRoundTrip {
  import opened Bytes
  import opened JsonValue
  import opened JsonGrammar

  // ----- numbers -----

  lemma {:induction false} TokenIsWhole(d: Text, post: Text, limit: nat)
    requires forall i :: 0 <= i < |d| ==> IsNumberByte(d[i])
    requires |d| <= limit
    requires post == [] || !IsNumberByte(post[0])
    ensures NumberToken(d + post, limit) == d
  {
    if d == [] {
      assert d + post == post;
    } else {
      assert (d + post)[1..] == d[1..] + post;
      TokenIsWhole(d[1..], post, limit - 1);
    }
  }

  function Tens(k: nat): nat {
    if k == 0 then 1 else 10 * Tens(k - 1)
  }

  lemma {:induction false} DigitsLength(n: nat, k: nat)
    requires k > 0 && n < Tens(k)
    ensures |Digits(n)| <= k
  {
    if n >= 10 {
      assert k > 1;
      DigitsLength(n / 10, k - 1);
    }
  }

  lemma {:induction false} DigitsDenote(n: nat)
    ensures DigitsValue(Digits(n)) == n
  {
    var t := Digits(n);
    if n >= 10 {
      DigitsDenote(n / 10);
      assert t[..|t| - 1] == Digits(n / 10);
    } else {
      assert t[..0] == [];
    }
  }

  lemma DecimalReads(n: int)
    requires INT_MIN <= n <= INT_MAX
    ensures Strtod(Decimal(n)) == Some((|Decimal(n)|, n as real))
    ensures |Decimal(n)| <= 63
    ensures forall i :: 0 <= i < |Decimal(n)| ==> IsNumberByte(Decimal(n)[i])
  {
    var m := if n < 0 then -n else n;
    var sign: Text := if n < 0 then [MINUS] else [];
    assert Tens(10) == 10_000_000_000;
    DigitsLength(m, 10);
    assert Decimal(n) == sign + Digits(m);
    SignedDigitsTaken(n < 0, sign, m);
  }

  /** A sign and digits are taken whole. */
  lemma SignedDigitsTaken(negative: bool, sign: Text, m: nat)
    requires sign == if negative then [MINUS] else []
    ensures Strtod(sign + Digits(m)) ==
      Some((|sign + Digits(m)|, if negative then -(m as real) else m as real))
  {
    hide Digits;
    hide DigitsEnd;
    hide DigitsValue;
    var digits, t := Digits(m), sign + Digits(m);
    var first := |sign|;
    DigitsDenote(m);
    assert forall i :: first <= i < |t| ==> t[i] == digits[i - first];
    assert t[0] == if negative then MINUS else digits[0];
    assert DigitsEnd(t, first) == |t|;
    assert t[first..|t|] + [] == digits;
  }

  lemma NumberRoundTrip(n: int, post: Text)
    requires INT_MIN <= n <= INT_MAX
    requires post == [] || !IsNumberByte(post[0])
    ensures ParseNumber(Decimal(n) + post) == Ok(Number(n as real), post)
  {
    DecimalReads(n);
    TokenIsWhole(Decimal(n), post, 63);
    assert (Decimal(n) + post)[|Decimal(n)|..] == post;
  }

  // ----- strings -----

  lemma {:induction false} EscapeByteReads(b: Byte, rest: Text)
    requires b != NUL && rest != []
    ensures Unescape(EscapeByte(b) + rest) == Prepend([b], Unescape(rest))
  {
    var e := EscapeByte(b);
    var t := e + rest;
    assert t[|e|..] == rest;
    if b > 31 && b != QUOTE && b != BACKSLASH {
    } else if ShortEscape(b) {
      assert EscapedByte(EscapeLetter(b)) == Some(b);
    } else {
      assert t[2..6] == [ZERO, ZERO, HexDigit(b / 16), HexDigit(b % 16)];
      assert Hex4(t[2..6]) == b;
      assert Utf8(b) == [b];
    }
  }

  /** Unescaping undoes escaping. */
  lemma {:induction false} EscapeRoundTrip(t: Text)
    requires NulFree(t)
    ensures Unescape(Escape(t) + [QUOTE]) == Done(t)
  {
    if t == [] {
      assert Escape(t) + [QUOTE] == [QUOTE];
    } else {
      var tail := Escape(t[1..]) + [QUOTE];
      assert Escape(t) + [QUOTE] == EscapeByte(t[0]) + tail;
      EscapeByteReads(t[0], tail);
      EscapeRoundTrip(t[1..]);
      assert t == [t[0]] + t[1..];
    }
  }

  lemma QuoteCloses(post: Text)
    ensures LiteralEnd([QUOTE] + post) == Some(0)
  {
  }

  /** Plain bytes before the closing quote are gone over one by one. */
  lemma {:induction false} LiteralEndSkips(plain: Text, rest: Text)
    requires forall i :: 0 <= i < |plain| ==> plain[i] != QUOTE && plain[i] != BACKSLASH
    requires LiteralEnd(rest).Some?
    ensures LiteralEnd(plain + rest) == Some(|plain| + LiteralEnd(rest).value)
  {
    if plain == [] {
      assert plain + rest == rest;
    } else {
      assert (plain + rest)[1..] == plain[1..] + rest;
      LiteralEndSkips(plain[1..], rest);
    }
  }

  lemma LiteralEndAfterByte(b: Byte, rest: Text)
    requires LiteralEnd(rest).Some?
    ensures LiteralEnd(EscapeByte(b) + rest) == Some(|EscapeByte(b)| + LiteralEnd(rest).value)
  {
    var e := EscapeByte(b);
    if |e| == 1 {
      LiteralEndSkips(e, rest);
    } else {
      assert (e + rest)[2..] == e[2..] + rest;
      LiteralEndSkips(e[2..], rest);
    }
  }

  /** The sizing pass finds the closing quote the printer wrote. */
  lemma {:induction false} LiteralEndAfterEscape(t: Text, post: Text)
    ensures LiteralEnd(Escape(t) + ([QUOTE] + post)) == Some(|Escape(t)|)
  {
    hide EscapeByte;
    hide LiteralEnd;
    if t == [] {
      QuoteCloses(post);
      assert Escape(t) + ([QUOTE] + post) == [QUOTE] + post;
    } else {
      var tail := Escape(t[1..]) + ([QUOTE] + post);
      LiteralEndAfterEscape(t[1..], post);
      LiteralEndAfterByte(t[0], tail);
      assert Escape(t) + ([QUOTE] + post) == EscapeByte(t[0]) + tail;
    }
  }

  lemma StringRoundTrip(t: Text, post: Text)
    requires NulFree(t)
    ensures ParseString(Quoted(t) + post) == Ok(t, post)
  {
    var s := Quoted(t) + post;
    var n := |Escape(t)|;
    assert s[1..] == Escape(t) + ([QUOTE] + post);
    LiteralEndAfterEscape(t, post);
    assert s[1..n + 2] == Escape(t) + [QUOTE];
    assert s[n + 2..] == post;
    EscapeRoundTrip(t);
    CStringIsWhole(t);
  }

  // ----- trees -----

  /** What may follow a printed value: it must not run on into a number. */
  predicate Delimited(post: Text) {
    post != [] && !IsNumberByte(post[0])
  }

  lemma SkipNothing(s: Text)
    requires s != [] && s[0] > 32
    ensures SkipWhitespace(s) == s
  {
  }

  lemma {:induction false} SkipBlanks(blanks: Text, s: Text)
    requires forall i :: 0 <= i < |blanks| ==> blanks[i] <= 32
    requires s != [] && s[0] > 32
    ensures SkipWhitespace(blanks + s) == s
    ensures DropWhitespace(blanks + s) == s
  {
    if blanks == [] {
      assert blanks + s == s;
    } else {
      assert (blanks + s)[1..] == blanks[1..] + s;
      SkipBlanks(blanks[1..], s);
    }
  }

  lemma FirstByte(j: Json, depth: nat, fmt: bool)
    requires Printable(j)
    ensures var r := Render(j, depth, fmt);
            r != [] && r[0] > 32 && r[0] != RBRACKET && r[0] != RBRACE && r[0] != 0xEF
  {
  }

  /** The parse of printed text: the same tree, or a refusal when it nests too deep. */
  ghost predicate ParsesIf<T>(r: Parsed<T>, value: T, rest: Text, fits: bool) {
    if fits then r == Ok(value, rest) else r.Err?
  }

  lemma FirstOfPrefix(s: Text, prefix: Text)
    requires prefix != []
    ensures StartsWith(s, prefix) ==> s[0] == prefix[0]
  {
    assert StartsWith(s, prefix) ==> s[..|prefix|][0] == prefix[0];
  }

  lemma NoKeyword(s: Text)
    requires s != [] && s[0] != NULL_TEXT[0] && s[0] != FALSE_TEXT[0] && s[0] != TRUE_TEXT[0]
    ensures !StartsWith(s, NULL_TEXT) && !StartsWith(s, FALSE_TEXT) && !StartsWith(s, TRUE_TEXT)
  {
    FirstOfPrefix(s, NULL_TEXT);
    FirstOfPrefix(s, FALSE_TEXT);
    FirstOfPrefix(s, TRUE_TEXT);
  }

  lemma KeywordRoundTrip(post: Text, open: nat)
    ensures ParseValue(NULL_TEXT + post, open) == Ok(Null, post)
    ensures ParseValue(FALSE_TEXT + post, open) == Ok(False, post)
    ensures ParseValue(TRUE_TEXT + post, open) == Ok(True, post)
  {
    StartsWithAppend(NULL_TEXT, post);
    StartsWithAppend(FALSE_TEXT, post);
    StartsWithAppend(TRUE_TEXT, post);
    FirstOfPrefix(FALSE_TEXT + post, NULL_TEXT);
    FirstOfPrefix(TRUE_TEXT + post, NULL_TEXT);
    FirstOfPrefix(TRUE_TEXT + post, FALSE_TEXT);
  }

  lemma NumberDispatch(s: Text, open: nat)
    requires s != [] && (s[0] == MINUS || IsDigit(s[0]))
    ensures ParseValue(s, open) == ParseNumber(s)
  {
    NoKeyword(s);
  }

  lemma StringDispatch(s: Text, open: nat)
    requires s != [] && s[0] == QUOTE
    ensures ParseValue(s, open) ==
      match ParseString(s) case Ok(t, rest) => Ok(String(t), rest) case Err(rest) => Err(rest)
  {
    NoKeyword(s);
  }

  lemma {:induction false} ScalarRoundTrip(j: Json, depth: nat, fmt: bool, post: Text, open: nat)
    requires Printable(j) && Delimited(post)
    requires !j.Array? && !j.Object?
    ensures ParseValue(Render(j, depth, fmt) + post, open) == Ok(j, post)
  {
    match j
    case Null => KeywordRoundTrip(post, open);
    case False => KeywordRoundTrip(post, open);
    case True => KeywordRoundTrip(post, open);
    case Number(d) =>
      var n := ValueInt(d);
      assert (Decimal(n) + post)[0] == Decimal(n)[0];
      NumberRoundTrip(n, post);
      NumberDispatch(Decimal(n) + post, open);
    case String(t) =>
      StringRoundTrip(t, post);
      StringDispatch(Quoted(t) + post, open);
  }

  lemma {:induction false} ValueRoundTrip(j: Json, depth: nat, fmt: bool, post: Text, open: nat)
    requires Printable(j) && Delimited(post) && open <= NESTING_LIMIT
    ensures ParsesIf(ParseValue(Render(j, depth, fmt) + post, open), j, post, open + Nesting(j) <= NESTING_LIMIT)
    decreases j, 1
  {
    match j
    case Array(es) => ArrayRoundTrip(es, depth, fmt, post, open);
    case Object(ms) => ObjectRoundTrip(ms, depth, fmt, post, open);
    case _ => ScalarRoundTrip(j, depth, fmt, post, open);
  }

  predicate Blank(t: Text) {
    forall i :: 0 <= i < |t| ==> t[i] <= 32
  }

  predicate Dark(t: Text) {
    t != [] && t[0] > 32
  }

  // One step of each loop of the parser, on texts given by their parts.

  lemma ElemsStep(blanks: Text, head: Text, after: Text, j: Json, open: nat)
    requires Blank(blanks) && Dark(head) && Dark(after)
    ensures ParseValue(head + after, open).Err? ==> ParseElems(blanks + (head + after), open).Err?
    ensures ParseValue(head + after, open) == Ok(j, after) && after[0] != COMMA
      ==> ParseElems(blanks + (head + after), open) == Ok(Elem(j, NoElem), after)
    ensures ParseValue(head + after, open) == Ok(j, after) && after[0] == COMMA
      ==> var next := ParseElems(after[1..], open);
          ParseElems(blanks + (head + after), open) ==
            if next.Err? then Err(next.rest) else Ok(Elem(j, next.value), next.rest)
  {
    SkipBlanks(blanks, head + after);
    SkipNothing(after);
  }

  lemma BracketDispatch(s: Text, open: nat)
    requires s != [] && (s[0] == LBRACKET || s[0] == LBRACE)
    ensures s[0] == LBRACKET ==> ParseValue(s, open) == ParseArray(s, open)
    ensures s[0] == LBRACE ==> ParseValue(s, open) == ParseObject(s, open)
  {
    hide ParseArray;
    hide ParseObject;
    NoKeyword(s);
  }

  lemma ArrayStep(body: Text, open: nat)
    requires Dark(body) && body[0] != RBRACKET
    ensures ParseValue([LBRACKET] + body, open) ==
      if open >= NESTING_LIMIT then Err([LBRACKET] + body) else
      match ParseElems(body, open + 1)
      case Err(rest) => Err(rest)
      case Ok(es, rest) => if rest == [] || rest[0] != RBRACKET then Err(rest) else Ok(Array(es), rest[1..])
  {
    hide ParseValue;
    hide ParseElems;
    hide ParseMembers;
    var s := [LBRACKET] + body;
    assert s[0] == LBRACKET && s[1..] == body;
    SkipNothing(body);
    BracketDispatch(s, open);
  }

  lemma EmptyArrayStep(post: Text, open: nat)
    ensures ParseValue([LBRACKET] + ([RBRACKET] + post), open) ==
      if open >= NESTING_LIMIT then Err([LBRACKET] + ([RBRACKET] + post)) else Ok(Array(NoElem), post)
  {
    hide ParseValue;
    hide ParseElems;
    hide ParseMembers;
    var s := [LBRACKET] + ([RBRACKET] + post);
    assert s[0] == LBRACKET && s[1..] == [RBRACKET] + post && s[1..][1..] == post;
    SkipNothing(s[1..]);
    BracketDispatch(s, open);
  }

  lemma MembersStep(
    s: Text, blanks: Text, key: Text, gap: Text, value: Text, after: Text, rest: Text, j: Json, open: nat)
    requires s == blanks + (Quoted(key) + ([COLON] + (gap + (value + after))))
    requires Blank(blanks) && NulFree(key) && Blank(gap) && Dark(value) && SkipWhitespace(after) == rest && Dark(rest)
    ensures ParseValue(value + after, open).Err? ==> ParseMembers(s, open).Err?
    ensures ParseValue(value + after, open) == Ok(j, after) && rest[0] != COMMA
      ==> ParseMembers(s, open) == Ok(Member(key, j, NoMember), rest)
    ensures ParseValue(value + after, open) == Ok(j, after) && rest[0] == COMMA && |rest| >= 2
      ==> var next := ParseMembers(rest[1..], open);
          ParseMembers(s, open) == if next.Err? then Err(next.rest) else Ok(Member(key, j, next.value), next.rest)
  {
    var afterKey := [COLON] + (gap + (value + after));
    SkipBlanks(blanks, Quoted(key) + afterKey);
    StringRoundTrip(key, afterKey);
    SkipNothing(afterKey);
    assert afterKey[1..] == gap + (value + after);
    SkipBlanks(gap, value + after);
  }

  lemma ObjectStep(blanks: Text, body: Text, open: nat)
    requires Blank(blanks) && Dark(body) && body[0] != RBRACE
    ensures ParseValue([LBRACE] + (blanks + body), open) ==
      if open >= NESTING_LIMIT then Err([LBRACE] + (blanks + body)) else
      match ParseMembers(body, open + 1)
      case Err(rest) => Err(rest)
      case Ok(ms, rest) => if rest == [] || rest[0] != RBRACE then Err(rest) else Ok(Object(ms), rest[1..])
  {
    hide ParseValue;
    hide ParseElems;
    hide ParseMembers;
    var s := [LBRACE] + (blanks + body);
    assert s[0] == LBRACE && s[1..] == blanks + body;
    SkipBlanks(blanks, body);
    BracketDispatch(s, open);
  }

  lemma EmptyObjectStep(blanks: Text, post: Text, open: nat)
    requires Blank(blanks)
    ensures ParseValue([LBRACE] + (blanks + ([RBRACE] + post)), open) ==
      if open >= NESTING_LIMIT then Err([LBRACE] + (blanks + ([RBRACE] + post))) else Ok(Object(NoMember), post)
  {
    hide ParseValue;
    hide ParseElems;
    hide ParseMembers;
    var body := [RBRACE] + post;
    var s := [LBRACE] + (blanks + body);
    assert s[0] == LBRACE && s[1..] == blanks + body && body[1..] == post;
    SkipBlanks(blanks, body);
    BracketDispatch(s, open);
  }

  // The printed text cut at the places where the parser pauses.

  function NewlineIf(fmt: bool): Text {
    if fmt then [NEWLINE] else []
  }

  function TabsIf(fmt: bool, n: nat): Text {
    if fmt then Tabs(n) else []
  }

  lemma BlankConcat(a: Text, b: Text)
    requires Blank(a) && Blank(b)
    ensures Blank(a + b)
  {
  }

  lemma Regroup(a: Text, b: Text, c: Text)
    ensures a + b + c == a + (b + c)
  {
  }

  /** What follows an element: the comma and the elements after it, or the bracket. */
  function AfterElem(es: Elems, depth: nat, fmt: bool, close: Text): Text {
    if es.NoElem? then close
    else [COMMA] + ((if fmt then [SPACE] else []) + RenderElems(es, depth, fmt) + close)
  }

  lemma ElemsText(es: Elems, depth: nat, fmt: bool, close: Text)
    requires es.Elem?
    ensures RenderElems(es, depth, fmt) + close
         == Render(es.head, depth, fmt) + AfterElem(es.next, depth, fmt, close)
  {
    var head := Render(es.head, depth, fmt);
    var sep := ElemSeparator(es.next.NoElem?, fmt);
    var rest := RenderElems(es.next, depth, fmt);
    Regroup(head, sep, rest);
    Regroup(head, sep + rest, close);
    assert sep + rest + close == AfterElem(es.next, depth, fmt, close) by {
      if es.next.Elem? {
        var gap := if fmt then [SPACE] else [];
        assert sep == [COMMA] + gap;
        Regroup([COMMA], gap, rest);
        Regroup([COMMA], gap + rest, close);
      } else {
        assert sep + rest + close == close;
      }
    }
  }

  /** The members without the indentation before the first key. */
  function MembersText(ms: Members, depth: nat, fmt: bool): Text
    requires ms.Member?
  {
    Quoted(ms.key) + (KeySeparator(fmt) + (Render(ms.value, depth, fmt)
    + (MemberEnd(ms.next.NoMember?, fmt) + RenderMembers(ms.next, depth, fmt))))
  }

  lemma RenderMembersText(ms: Members, depth: nat, fmt: bool)
    requires ms.Member?
    ensures RenderMembers(ms, depth, fmt) == TabsIf(fmt, depth) + MembersText(ms, depth, fmt)
  {
    var a, b, c, d := TabsIf(fmt, depth), Quoted(ms.key), KeySeparator(fmt), Render(ms.value, depth, fmt);
    var e, f := MemberEnd(ms.next.NoMember?, fmt), RenderMembers(ms.next, depth, fmt);
    Regroup(a + b + c + d, e, f);
    Regroup(a + b + c, d, e + f);
    Regroup(a + b, c, d + (e + f));
    Regroup(a, b, c + (d + (e + f)));
  }

  /** What follows a member's value; `close` is what follows the last member. */
  function AfterMember(ms: Members, depth: nat, fmt: bool, close: Text): Text {
    if ms.NoMember? then NewlineIf(fmt) + close
    else [COMMA] + (NewlineIf(fmt) + TabsIf(fmt, depth) + (MembersText(ms, depth, fmt) + close))
  }

  lemma MembersTextParts(ms: Members, depth: nat, fmt: bool, close: Text)
    requires ms.Member?
    ensures MembersText(ms, depth, fmt) + close
         == Quoted(ms.key) + ([COLON] + ((if fmt then [TAB] else []) +
            (Render(ms.value, depth, fmt) + AfterMember(ms.next, depth, fmt, close))))
  {
    var b, c, d := Quoted(ms.key), KeySeparator(fmt), Render(ms.value, depth, fmt);
    var gap := if fmt then [TAB] else [];
    var e, f := MemberEnd(ms.next.NoMember?, fmt), RenderMembers(ms.next, depth, fmt);
    var after := AfterMember(ms.next, depth, fmt, close);
    assert e + f + close == after by {
      Regroup(e, f, close);
      if ms.next.Member? {
        var t, m := TabsIf(fmt, depth), MembersText(ms.next, depth, fmt);
        RenderMembersText(ms.next, depth, fmt);
        Regroup(t, m, close);
        assert e == [COMMA] + NewlineIf(fmt);
        Regroup([COMMA], NewlineIf(fmt), t + (m + close));
        Regroup(NewlineIf(fmt), t, m + close);
      } else {
        assert f + close == close;
      }
    }
    Regroup(b, c + (d + (e + f)), close);
    Regroup(c, d + (e + f), close);
    Regroup(d, e + f, close);
    assert c == [COLON] + gap;
    Regroup([COLON], gap, d + after);
  }

  // The four inductions.

  lemma {:induction false} ArrayRoundTrip(es: Elems, depth: nat, fmt: bool, post: Text, open: nat)
    requires PrintableElems(es) && Delimited(post) && open <= NESTING_LIMIT
    ensures ParsesIf(ParseValue(Render(Array(es), depth, fmt) + post, open), Array(es), post,
                  open + 1 + NestingElems(es) <= NESTING_LIMIT)
    decreases es, 2
  {
    hide ParseValue;
    hide ParseElems;
    hide ParseMembers;
    var body := RenderElems(es, depth + 1, fmt);
    var close := [RBRACKET] + post;
    Regroup([LBRACKET] + body, [RBRACKET], post);
    Regroup([LBRACKET], body, close);
    if es.NoElem? {
      assert body + close == close;
      EmptyArrayStep(post, open);
    } else {
      ElemsText(es, depth + 1, fmt, close);
      FirstByte(es.head, depth + 1, fmt);
      ArrayStep(body + close, open);
      if open < NESTING_LIMIT {
        ElemsRoundTrip(es, depth + 1, fmt, [], post, open + 1);
        Regroup([], body, close);
        assert [] + (body + close) == body + close;
        assert close[1..] == post;
      }
    }
  }

  lemma {:induction false} ElemsRoundTrip(es: Elems, depth: nat, fmt: bool, blanks: Text, post: Text, open: nat)
    requires es.Elem? && PrintableElems(es) && open <= NESTING_LIMIT && Blank(blanks)
    ensures ParsesIf(
      ParseElems(blanks + RenderElems(es, depth, fmt) + ([RBRACKET] + post), open), es, [RBRACKET] + post,
      open + NestingElems(es) <= NESTING_LIMIT)
    decreases es, 1
  {
    hide ParseValue;
    hide ParseElems;
    hide ParseMembers;
    var close := [RBRACKET] + post;
    var head := Render(es.head, depth, fmt);
    var after := AfterElem(es.next, depth, fmt, close);
    Regroup(blanks, RenderElems(es, depth, fmt), close);
    ElemsText(es, depth, fmt, close);
    FirstByte(es.head, depth, fmt);
    ElemsStep(blanks, head, after, es.head, open);
    ValueRoundTrip(es.head, depth, fmt, after, open);
    if es.next.Elem? {
      var gap := if fmt then [SPACE] else [];
      assert after[1..] == gap + RenderElems(es.next, depth, fmt) + close;
      ElemsRoundTrip(es.next, depth, fmt, gap, post, open);
    } else {
      assert NestingElems(es.next) == 0;
    }
  }

  lemma ObjectText(ms: Members, depth: nat, fmt: bool, post: Text)
    ensures var close := TabsIf(fmt, depth) + ([RBRACE] + post);
            var s := Render(Object(ms), depth, fmt) + post;
            if ms.NoMember? then s == [LBRACE] + (NewlineIf(fmt) + TabsIf(fmt, depth) + ([RBRACE] + post))
            else s == [LBRACE] + (NewlineIf(fmt) + TabsIf(fmt, depth + 1) + (MembersText(ms, depth + 1, fmt) + close))
  {
    var body := RenderMembers(ms, depth + 1, fmt);
    var last := [RBRACE] + post;
    var close := TabsIf(fmt, depth) + last;
    assert ObjectOpen(fmt) == [LBRACE] + NewlineIf(fmt);
    Regroup(ObjectOpen(fmt) + body, ObjectClose(depth, fmt), post);
    Regroup(TabsIf(fmt, depth), [RBRACE], post);
    Regroup(ObjectOpen(fmt), body, close);
    Regroup([LBRACE], NewlineIf(fmt), body + close);
    if ms.NoMember? {
      assert body + close == close;
      Regroup(NewlineIf(fmt), TabsIf(fmt, depth), last);
    } else {
      var text := MembersText(ms, depth + 1, fmt);
      RenderMembersText(ms, depth + 1, fmt);
      Regroup(TabsIf(fmt, depth + 1), text, close);
      Regroup(NewlineIf(fmt), TabsIf(fmt, depth + 1), text + close);
    }
  }

  lemma {:induction false} ObjectRoundTrip(ms: Members, depth: nat, fmt: bool, post: Text, open: nat)
    requires PrintableMembers(ms) && Delimited(post) && open <= NESTING_LIMIT
    ensures ParsesIf(ParseValue(Render(Object(ms), depth, fmt) + post, open), Object(ms), post,
                  open + 1 + NestingMembers(ms) <= NESTING_LIMIT)
    decreases ms, 2
  {
    hide ParseValue;
    hide ParseElems;
    hide ParseMembers;
    hide Render;
    hide MembersText;
    hide TabsIf;
    hide NewlineIf;
    var last := [RBRACE] + post;
    var close := TabsIf(fmt, depth) + last;
    ObjectText(ms, depth, fmt, post);
    if ms.NoMember? {
      LeadIsBlank(depth, fmt);
      EmptyObjectStep(NewlineIf(fmt) + TabsIf(fmt, depth), post, open);
    } else {
      var text := MembersText(ms, depth + 1, fmt);
      LeadIsBlank(depth + 1, fmt);
      MembersTextQuoted(ms, depth + 1, fmt);
      ObjectStep(NewlineIf(fmt) + TabsIf(fmt, depth + 1), text + close, open);
      if open < NESTING_LIMIT {
        MembersRoundTrip(ms, depth + 1, fmt, [], post, open + 1);
        assert [] + (text + close) == text + close;
        assert last[1..] == post;
      }
    }
  }

  lemma MembersTextQuoted(ms: Members, depth: nat, fmt: bool)
    requires ms.Member?
    ensures MembersText(ms, depth, fmt) != [] && MembersText(ms, depth, fmt)[0] == QUOTE
  {
  }

  lemma LeadIsBlank(depth: nat, fmt: bool)
    ensures Blank(NewlineIf(fmt) + TabsIf(fmt, depth))
  {
    BlankConcat(NewlineIf(fmt), TabsIf(fmt, depth));
  }

  lemma MemberReads(s: Text, blanks: Text, ms: Members, gap: Text, value: Text, after: Text, last: Text, open: nat)
    requires ms.Member? && open <= NESTING_LIMIT
    requires s == blanks + (Quoted(ms.key) + ([COLON] + (gap + (value + after))))
    requires Blank(blanks) && NulFree(ms.key) && Blank(gap) && Dark(value) && Dark(SkipWhitespace(after))
    requires ParsesIf(ParseValue(value + after, open), ms.value, after, open + Nesting(ms.value) <= NESTING_LIMIT)
    requires var rest := SkipWhitespace(after);
             if ms.next.NoMember? then rest == last && rest[0] != COMMA
             else rest[0] == COMMA && |rest| >= 2
                  && ParsesIf(ParseMembers(rest[1..], open), ms.next, last,
                           open + NestingMembers(ms.next) <= NESTING_LIMIT)
    ensures ParsesIf(ParseMembers(s, open), ms, last, open + NestingMembers(ms) <= NESTING_LIMIT)
  {
    MembersStep(s, blanks, ms.key, gap, value, after, SkipWhitespace(after), ms.value, open);
    assert ms.next.NoMember? ==> NestingMembers(ms.next) == 0;
  }

  lemma {:induction false} MembersRoundTrip(ms: Members, depth: nat, fmt: bool, blanks: Text, post: Text, open: nat)
    requires ms.Member? && PrintableMembers(ms) && depth > 0 && open <= NESTING_LIMIT && Blank(blanks)
    ensures ParsesIf(
      ParseMembers(blanks + (MembersText(ms, depth, fmt) + (TabsIf(fmt, depth - 1) + ([RBRACE] + post))), open),
                  ms, [RBRACE] + post, open + NestingMembers(ms) <= NESTING_LIMIT)
    decreases ms, 1
  {
    hide ParseValue;
    hide ParseElems;
    hide ParseMembers;
    var last := [RBRACE] + post;
    var close := TabsIf(fmt, depth - 1) + last;
    var gap := if fmt then [TAB] else [];
    var value := Render(ms.value, depth, fmt);
    var after := AfterMember(ms.next, depth, fmt, close);
    var lead := NewlineIf(fmt) + TabsIf(fmt, depth);
    MembersTextParts(ms, depth, fmt, close);
    FirstByte(ms.value, depth, fmt);
    AfterMemberRead(ms.next, depth, fmt, post);
    ValueRoundTrip(ms.value, depth, fmt, after, open);
    if ms.next.Member? {
      BlankConcat(NewlineIf(fmt), TabsIf(fmt, depth));
      MembersRoundTrip(ms.next, depth, fmt, lead, post, open);
    }
    MemberReads(blanks + (MembersText(ms, depth, fmt) + close), blanks, ms, gap, value, after, last, open);
  }

  lemma AfterMemberRead(ms: Members, depth: nat, fmt: bool, post: Text)
    requires depth > 0
    ensures var close := TabsIf(fmt, depth - 1) + ([RBRACE] + post);
            var after := AfterMember(ms, depth, fmt, close);
            && Delimited(after)
            && if ms.NoMember? then SkipWhitespace(after) == [RBRACE] + post
               else SkipWhitespace(after) == after && after[0] == COMMA && |after| >= 2
                    && after[1..] == NewlineIf(fmt) + TabsIf(fmt, depth) + (MembersText(ms, depth, fmt) + close)
  {
    var last := [RBRACE] + post;
    var close := TabsIf(fmt, depth - 1) + last;
    var after := AfterMember(ms, depth, fmt, close);
    if ms.NoMember? {
      Regroup(NewlineIf(fmt), TabsIf(fmt, depth - 1), last);
      BlankConcat(NewlineIf(fmt), TabsIf(fmt, depth - 1));
      SkipBlanks(NewlineIf(fmt) + TabsIf(fmt, depth - 1), last);
      assert after[0] <= 32 || after[0] == RBRACE;
    } else {
      SkipNothing(after);
    }
  }

  /**
   * The round trip.  For every printable tree, in both layouts, parsing the printed
   * text gives the tree back and stops at the terminator exactly when the tree nests
   * no deeper than the limit; a deeper tree prints but does not parse.
   */
  lemma {:induction false} PrintParse(j: Json, fmt: bool, requireNul: bool)
    requires Printable(j)
    ensures NulFree(Render(j, 0, fmt))
    ensures var text := Render(j, 0, fmt);
            if Nesting(j) <= NESTING_LIMIT
            then ParseCString(text, requireNul) == Tree(j, |text|)
            else ParseCString(text, requireNul).Failure?
  {
    hide ParseValue;
    hide Render;
    var text := Render(j, 0, fmt);
    RenderNulFree(j, 0, fmt);
    CStringIsWhole(text);
    var content := text + [NUL];
    FirstByte(j, 0, fmt);
    assert content[0] == text[0];
    if |content| > 4 {
      assert content[..3][0] == content[0];
    }
    SkipNothing(content);
    ValueRoundTrip(j, 0, fmt, [NUL], 0);
    assert SkipWhitespace([NUL]) == [NUL];
  }

  // ----- printed text is a C string -----

  lemma {:induction false} EscapeNulFree(t: Text)
    ensures NulFree(Escape(t)) && NulFree(Quoted(t))
  {
    if t != [] {
      EscapeNulFree(t[1..]);
      assert NulFree(EscapeByte(t[0]));
      NulFreeConcat(EscapeByte(t[0]), Escape(t[1..]));
    }
    NulFreeConcat([QUOTE], Escape(t));
    NulFreeConcat([QUOTE] + Escape(t), [QUOTE]);
  }

  lemma DecimalNulFree(n: int)
    ensures NulFree(Decimal(n))
  {
    var d := Digits(if n < 0 then -n else n);
    assert forall i :: 0 <= i < |d| ==> IsDigit(d[i]);
  }

  lemma MarksNulFree(depth: nat, last: bool, fmt: bool)
    ensures NulFree(Tabs(depth)) && NulFree([]) && NulFree(ElemSeparator(last, fmt)) && NulFree(KeySeparator(fmt))
    ensures NulFree(MemberEnd(last, fmt)) && NulFree(ObjectOpen(fmt)) && NulFree(ObjectClose(depth, fmt))
    ensures NulFree([LBRACKET]) && NulFree([RBRACKET])
    ensures NulFree(NULL_TEXT) && NulFree(FALSE_TEXT) && NulFree(TRUE_TEXT)
  {
  }

  lemma ThreeNulFree(a: Text, b: Text, c: Text)
    requires NulFree(a) && NulFree(b) && NulFree(c)
    ensures NulFree(a + b + c)
  {
    NulFreeConcat(a, b);
    NulFreeConcat(a + b, c);
  }

  lemma {:induction false} RenderNulFree(j: Json, depth: nat, fmt: bool)
    ensures NulFree(Render(j, depth, fmt))
    decreases j, 1
  {
    hide NulFree;
    hide Quoted;
    hide ObjectOpen;
    hide ObjectClose;
    MarksNulFree(depth, false, fmt);
    match j
    case Number(d) => DecimalNulFree(ValueInt(d));
    case String(t) => EscapeNulFree(t);
    case Array(es) =>
      ElemsNulFree(es, depth + 1, fmt);
      ThreeNulFree([LBRACKET], RenderElems(es, depth + 1, fmt), [RBRACKET]);
    case Object(ms) =>
      MembersNulFree(ms, depth + 1, fmt);
      ThreeNulFree(ObjectOpen(fmt), RenderMembers(ms, depth + 1, fmt), ObjectClose(depth, fmt));
    case _ =>
  }

  lemma {:induction false} ElemsNulFree(es: Elems, depth: nat, fmt: bool)
    ensures NulFree(RenderElems(es, depth, fmt))
    decreases es, 0
  {
    hide NulFree;
    hide Render;
    hide ElemSeparator;
    if es.Elem? {
      RenderNulFree(es.head, depth, fmt);
      ElemsNulFree(es.next, depth, fmt);
      MarksNulFree(depth, es.next.NoElem?, fmt);
      ThreeNulFree(Render(es.head, depth, fmt), ElemSeparator(es.next.NoElem?, fmt), RenderElems(es.next, depth, fmt));
    } else {
      MarksNulFree(depth, true, fmt);
    }
  }

  lemma {:induction false} MembersNulFree(ms: Members, depth: nat, fmt: bool)
    ensures NulFree(RenderMembers(ms, depth, fmt))
    decreases ms, 0
  {
    hide NulFree;
    hide Render;
    hide Quoted;
    hide KeySeparator;
    hide MemberEnd;
    hide Tabs;
    if ms.Member? {
      EscapeNulFree(ms.key);
      RenderNulFree(ms.value, depth, fmt);
      MembersNulFree(ms.next, depth, fmt);
      MarksNulFree(depth, ms.next.NoMember?, fmt);
      var tabs, value := if fmt then Tabs(depth) else [], Render(ms.value, depth, fmt);
      ThreeNulFree(tabs, Quoted(ms.key), KeySeparator(fmt));
      ThreeNulFree(tabs + Quoted(ms.key) + KeySeparator(fmt), value, MemberEnd(ms.next.NoMember?, fmt));
      NulFreeConcat(tabs + Quoted(ms.key) + KeySeparator(fmt) + value + MemberEnd(ms.next.NoMember?, fmt),
                    RenderMembers(ms.next, depth, fmt));
    } else {
      MarksNulFree(depth, true, fmt);
    }
  }
}
