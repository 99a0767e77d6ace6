/** How printed text looks: its white space, and which spelling a string is given. */
module JsonLayout {
  import opened Bytes
  import opened JsonValue
  import T = JsonText
  import R = JsonRoundTrip
  import G = JsonGrammar

  // ----- white space -----

  /** The text without the white space outside its strings. */
  function Strip(t: Text, inString: bool): Text {
    if t == [] then []
    else if inString then
      if t[0] == BACKSLASH && |t| > 1 then t[..2] + Strip(t[2..], true)
      else [t[0]] + Strip(t[1..], t[0] != QUOTE)
    else if t[0] == SPACE || t[0] == TAB || t[0] == NEWLINE || t[0] == 13 then Strip(t[1..], false)
    else [t[0]] + Strip(t[1..], t[0] == QUOTE)
  }

  /** What may be taken as it is, outside of strings. */
  predicate Solid(t: Text) {
    forall i :: 0 <= i < |t| ==> t[i] > 32 && t[i] != QUOTE
  }

  lemma {:induction false} StripSolid(t: Text, rest: Text)
    requires Solid(t)
    ensures Strip(t + rest, false) == t + Strip(rest, false)
    decreases t
  {
    if t == [] {
      assert t + rest == rest;
    } else {
      assert (t + rest)[1..] == t[1..] + rest;
      StripSolid(t[1..], rest);
      assert t == [t[0]] + t[1..];
    }
  }

  lemma {:induction false} StripWhite(t: Text, rest: Text)
    requires forall i :: 0 <= i < |t| ==> t[i] == SPACE || t[i] == TAB || t[i] == NEWLINE
    ensures Strip(t + rest, false) == Strip(rest, false)
    decreases t
  {
    if t == [] {
      assert t + rest == rest;
    } else {
      assert (t + rest)[1..] == t[1..] + rest;
      StripWhite(t[1..], rest);
    }
  }

  lemma {:induction false} StripPlain(t: Text, rest: Text)
    requires forall i :: 0 <= i < |t| ==> t[i] != QUOTE && t[i] != BACKSLASH
    ensures Strip(t + rest, true) == t + Strip(rest, true)
    decreases t
  {
    if t == [] {
      assert t + rest == rest;
    } else {
      assert (t + rest)[1..] == t[1..] + rest;
      StripPlain(t[1..], rest);
      assert t == [t[0]] + t[1..];
    }
  }

  lemma StripEscapeByte(b: Byte, rest: Text)
    ensures Strip(EscapeByte(b) + rest, true) == EscapeByte(b) + Strip(rest, true)
  {
    var e := EscapeByte(b);
    var t := e + rest;
    if |e| == 1 {
      assert t[1..] == rest;
    } else {
      assert e[0] == BACKSLASH && t[..2] == e[..2] && t[2..] == e[2..] + rest;
      StripPlain(e[2..], rest);
      assert e == e[..2] + e[2..];
    }
  }

  lemma {:induction false} StripEscape(t: Text, rest: Text)
    ensures Strip(Escape(t) + rest, true) == Escape(t) + Strip(rest, true)
    decreases t
  {
    hide EscapeByte;
    hide Strip;
    if t == [] {
      assert Escape(t) + rest == rest;
      assert Escape(t) + Strip(rest, true) == Strip(rest, true);
    } else {
      var e, tail := EscapeByte(t[0]), Escape(t[1..]);
      assert Escape(t) + rest == e + (tail + rest);
      StripEscapeByte(t[0], tail + rest);
      StripEscape(t[1..], rest);
      assert e + (tail + Strip(rest, true)) == (e + tail) + Strip(rest, true);
    }
  }

  lemma StripQuoted(t: Text, rest: Text)
    ensures Strip(Quoted(t) + rest, false) == Quoted(t) + Strip(rest, false)
  {
    hide Escape;
    QuoteOpens(Escape(t) + ([QUOTE] + rest));
    QuoteCloses(rest);
    hide Strip;
    StripEscape(t, [QUOTE] + rest);
    assert Quoted(t) + rest == [QUOTE] + (Escape(t) + ([QUOTE] + rest));
    assert Quoted(t) + Strip(rest, false) == [QUOTE] + (Escape(t) + ([QUOTE] + Strip(rest, false)));
  }

  lemma QuoteOpens(rest: Text)
    ensures Strip([QUOTE] + rest, false) == [QUOTE] + Strip(rest, true)
  {
    assert ([QUOTE] + rest)[1..] == rest;
  }

  lemma QuoteCloses(rest: Text)
    ensures Strip([QUOTE] + rest, true) == [QUOTE] + Strip(rest, false)
  {
    assert ([QUOTE] + rest)[1..] == rest;
  }

  /** The text with no white space at all outside of strings. */
  function Compact(j: Json): Text {
    match j
    case Null => NULL_TEXT
    case False => FALSE_TEXT
    case True => TRUE_TEXT
    case Number(d) => Decimal(ValueInt(d))
    case String(t) => Quoted(t)
    case Array(es) => [LBRACKET] + (CompactElems(es) + [RBRACKET])
    case Object(ms) => [LBRACE] + (CompactMembers(ms) + [RBRACE])
  }

  function CompactElems(es: Elems): Text {
    match es
    case NoElem => []
    case Elem(j, NoElem) => Compact(j)
    case Elem(j, more) => Compact(j) + ([COMMA] + CompactElems(more))
  }

  function CompactMembers(ms: Members): Text {
    match ms
    case NoMember => []
    case Member(key, j, NoMember) => Quoted(key) + ([COLON] + Compact(j))
    case Member(key, j, more) => Quoted(key) + ([COLON] + (Compact(j) + ([COMMA] + CompactMembers(more))))
  }

  lemma {:induction false} DecimalIsSolid(n: int)
    ensures Solid(Decimal(n))
  {
  }

  /**
   * In both layouts, and at any depth, the printed text is the compact one with white space
   * put in between: none of it inside a string, and nothing else different.
   */
  lemma {:induction false} RenderStripped(j: Json, depth: nat, fmt: bool, rest: Text)
    ensures Strip(Render(j, depth, fmt) + rest, false) == Compact(j) + Strip(rest, false)
    decreases j, 1
  {
    hide Strip;
    hide Decimal;
    hide Quoted;
    match j {
      case Null => StripSolid(NULL_TEXT, rest);
      case False => StripSolid(FALSE_TEXT, rest);
      case True => StripSolid(TRUE_TEXT, rest);
      case Number(d) =>
        DecimalIsSolid(ValueInt(d));
        StripSolid(Decimal(ValueInt(d)), rest);
      case String(t) => StripQuoted(t, rest);
      case Array(es) => ArrayStripped(es, depth, fmt, rest);
      case Object(ms) => ObjectStripped(ms, depth, fmt, rest);
    }
  }

  lemma {:induction false} ArrayStripped(es: Elems, depth: nat, fmt: bool, rest: Text)
    ensures Strip(Render(Array(es), depth, fmt) + rest, false) == Compact(Array(es)) + Strip(rest, false)
    decreases es, 2
  {
    hide Strip;
    hide Render;
    hide RenderElems;
    hide Compact;
    hide CompactElems;
    var body, close: Text := RenderElems(es, depth + 1, fmt), [RBRACKET];
    ArrayParts(es, depth, fmt, rest, Strip(rest, false));
    StripSolid([LBRACKET], body + (close + rest));
    ElemsStripped(es, depth + 1, fmt, close + rest);
    StripSolid(close, rest);
  }

  lemma ArrayParts(es: Elems, depth: nat, fmt: bool, rest: Text, stripped: Text)
    ensures Render(Array(es), depth, fmt) + rest
         == [LBRACKET] + (RenderElems(es, depth + 1, fmt) + ([RBRACKET] + rest))
    ensures Compact(Array(es)) + stripped == [LBRACKET] + (CompactElems(es) + ([RBRACKET] + stripped))
  {
    hide RenderElems;
    hide CompactElems;
  }

  lemma {:induction false} ObjectStripped(ms: Members, depth: nat, fmt: bool, rest: Text)
    ensures Strip(Render(Object(ms), depth, fmt) + rest, false) == Compact(Object(ms)) + Strip(rest, false)
    decreases ms, 2
  {
    hide Strip;
    hide Render;
    hide RenderMembers;
    hide Compact;
    hide CompactMembers;
    var body, close: Text := RenderMembers(ms, depth + 1, fmt), [RBRACE];
    var line: Text, tabs := if fmt then [NEWLINE] else [], if fmt then Tabs(depth) else [];
    ObjectParts(ms, depth, fmt, rest, Strip(rest, false));
    StripSolid([LBRACE], line + (body + (tabs + (close + rest))));
    StripWhite(line, body + (tabs + (close + rest)));
    MembersStripped(ms, depth + 1, fmt, tabs + (close + rest));
    StripWhite(tabs, close + rest);
    StripSolid(close, rest);
  }

  lemma ObjectParts(ms: Members, depth: nat, fmt: bool, rest: Text, stripped: Text)
    ensures var line: Text, tabs := if fmt then [NEWLINE] else [], if fmt then Tabs(depth) else [];
      Render(Object(ms), depth, fmt) + rest
      == [LBRACE] + (line + (RenderMembers(ms, depth + 1, fmt) + (tabs + ([RBRACE] + rest))))
    ensures Compact(Object(ms)) + stripped == [LBRACE] + (CompactMembers(ms) + ([RBRACE] + stripped))
  {
    hide RenderMembers;
    hide CompactMembers;
    var line: Text, tabs := if fmt then [NEWLINE] else [], if fmt then Tabs(depth) else [];
    assert ObjectOpen(fmt) == [LBRACE] + line;
    FiveParts([LBRACE], line, RenderMembers(ms, depth + 1, fmt), tabs, [RBRACE], rest);
  }

  lemma FiveParts(a: Text, b: Text, c: Text, d: Text, e: Text, rest: Text)
    ensures (a + b) + c + (d + e) + rest == a + (b + (c + (d + (e + rest))))
  {
  }

  lemma {:induction false} ElemsStripped(es: Elems, depth: nat, fmt: bool, rest: Text)
    ensures Strip(RenderElems(es, depth, fmt) + rest, false) == CompactElems(es) + Strip(rest, false)
    decreases es, 0
  {
    hide Strip;
    hide Render;
    hide Compact;
    match es {
      case NoElem =>
        assert RenderElems(es, depth, fmt) + rest == rest;
        assert CompactElems(es) + Strip(rest, false) == Strip(rest, false);
      case Elem(j, more) =>
        var head, tail := Render(j, depth, fmt), RenderElems(more, depth, fmt);
        if more.NoElem? {
          assert RenderElems(es, depth, fmt) + rest == head + rest;
          RenderStripped(j, depth, fmt, rest);
        } else {
          var gap: Text := if fmt then [SPACE] else [];
          assert RenderElems(es, depth, fmt) + rest == head + ([COMMA] + (gap + (tail + rest)));
          RenderStripped(j, depth, fmt, [COMMA] + (gap + (tail + rest)));
          StripSolid([COMMA], gap + (tail + rest));
          StripWhite(gap, tail + rest);
          ElemsStripped(more, depth, fmt, rest);
          assert CompactElems(es) + Strip(rest, false)
              == Compact(j) + ([COMMA] + (CompactElems(more) + Strip(rest, false)));
        }
    }
  }

  lemma {:induction false} MembersStripped(ms: Members, depth: nat, fmt: bool, rest: Text)
    ensures Strip(RenderMembers(ms, depth, fmt) + rest, false) == CompactMembers(ms) + Strip(rest, false)
    decreases ms, 0
  {
    hide Strip;
    hide Render;
    hide Compact;
    hide Quoted;
    if ms.NoMember? {
      assert RenderMembers(ms, depth, fmt) + rest == rest;
      assert CompactMembers(ms) + Strip(rest, false) == Strip(rest, false);
    } else {
      var after := MemberEnd(ms.next.NoMember?, fmt) + (RenderMembers(ms.next, depth, fmt) + rest);
      MemberRegroup(ms, depth, fmt, rest, after);
      var tabs: Text, gap: Text := if fmt then Tabs(depth) else [], if fmt then [TAB] else [];
      var value := Render(ms.value, depth, fmt) + after;
      StripWhite(tabs, Quoted(ms.key) + ([COLON] + (gap + value)));
      StripQuoted(ms.key, [COLON] + (gap + value));
      StripSolid([COLON], gap + value);
      StripWhite(gap, value);
      RenderStripped(ms.value, depth, fmt, after);
      MembersStripped(ms.next, depth, fmt, rest);
      EndStripped(ms.next, depth, fmt, rest);
      CompactRegroup(ms, Strip(rest, false));
    }
  }

  lemma MemberRegroup(ms: Members, depth: nat, fmt: bool, rest: Text, after: Text)
    requires ms.Member?
    requires after == MemberEnd(ms.next.NoMember?, fmt) + (RenderMembers(ms.next, depth, fmt) + rest)
    ensures var tabs: Text, gap: Text := if fmt then Tabs(depth) else [], if fmt then [TAB] else [];
      RenderMembers(ms, depth, fmt) + rest
      == tabs + (Quoted(ms.key) + ([COLON] + (gap + (Render(ms.value, depth, fmt) + after))))
  {
    hide Render;
    hide Quoted;
    var tabs: Text, gap: Text := if fmt then Tabs(depth) else [], if fmt then [TAB] else [];
    assert KeySeparator(fmt) == [COLON] + gap;
    SixParts(tabs, Quoted(ms.key), [COLON], gap, Render(ms.value, depth, fmt), MemberEnd(ms.next.NoMember?, fmt),
             RenderMembers(ms.next, depth, fmt), rest);
  }

  lemma SixParts(a: Text, b: Text, c: Text, d: Text, e: Text, f: Text, g: Text, rest: Text)
    ensures a + b + (c + d) + e + f + g + rest == a + (b + (c + (d + (e + (f + (g + rest))))))
  {
  }

  /** A comma and a line break, if any, behind a member. */
  lemma EndStripped(more: Members, depth: nat, fmt: bool, rest: Text)
    requires Strip(RenderMembers(more, depth, fmt) + rest, false) == CompactMembers(more) + Strip(rest, false)
    ensures Strip(MemberEnd(more.NoMember?, fmt) + (RenderMembers(more, depth, fmt) + rest), false)
         == (if more.NoMember? then [] else [COMMA]) + (CompactMembers(more) + Strip(rest, false))
  {
    hide Strip;
    hide RenderMembers;
    hide CompactMembers;
    var comma: Text, line: Text := if more.NoMember? then [] else [COMMA], if fmt then [NEWLINE] else [];
    var tail := RenderMembers(more, depth, fmt) + rest;
    assert MemberEnd(more.NoMember?, fmt) + tail == comma + (line + tail);
    StripSolid(comma, line + tail);
    StripWhite(line, tail);
  }

  lemma CompactRegroup(ms: Members, rest: Text)
    requires ms.Member?
    ensures CompactMembers(ms) + rest == Quoted(ms.key) + ([COLON] + (Compact(ms.value)
      + ((if ms.next.NoMember? then [] else [COMMA]) + (CompactMembers(ms.next) + rest))))
  {
    hide Quoted;
    hide Compact;
    var key, value, more := Quoted(ms.key), Compact(ms.value), CompactMembers(ms.next);
    if ms.next.NoMember? {
      assert key + ([COLON] + value) + rest == key + ([COLON] + (value + ([] + ([] + rest))));
    } else {
      assert key + ([COLON] + (value + ([COMMA] + more))) + rest
          == key + ([COLON] + (value + ([COMMA] + (more + rest))));
    }
  }

  /** Printed without format there is no white space: the text is the compact one. */
  lemma {:induction false} UnformattedIsCompact(j: Json, depth: nat)
    ensures Render(j, depth, false) == Compact(j)
    decreases j, 1
  {
    match j
    case Array(es) => ElemsCompact(es, depth + 1);
    case Object(ms) => MembersCompact(ms, depth + 1);
    case _ =>
  }

  lemma {:induction false} ElemsCompact(es: Elems, depth: nat)
    ensures RenderElems(es, depth, false) == CompactElems(es)
    decreases es, 0
  {
    hide Render;
    hide Compact;
    if es.Elem? {
      UnformattedIsCompact(es.head, depth);
      ElemsCompact(es.next, depth);
    }
  }

  lemma {:induction false} MembersCompact(ms: Members, depth: nat)
    ensures RenderMembers(ms, depth, false) == CompactMembers(ms)
    decreases ms, 0
  {
    hide Render;
    hide Compact;
    hide Quoted;
    if ms.Member? {
      UnformattedIsCompact(ms.value, depth);
      MembersCompact(ms.next, depth);
    }
  }

  // ----- one formatted text -----

  /**
   * The object with an array [1, null] under "a" and an empty object under "b": a line and
   * tabs for each member, a tab behind the colon, a space behind the comma of an array.
   */
  lemma FormattedExample()
    ensures Render(Object(Member([97], OneAndNull(), Member([98], Object(NoMember), NoMember))), 0, true)
         == [LBRACE, NEWLINE] + FIRST_LINE + SECOND_LINES + [RBRACE]
  {
    hide Render;
    hide RenderMembers;
    hide OneAndNull;
    var second := Member([98], Object(NoMember), NoMember);
    FirstLine(second);
    SecondLines();
    var all := Member([97], OneAndNull(), second);
    ObjectParts(all, 0, true, [], []);
    assert Tabs(0) == [];
    assert Render(Object(all), 0, true) + [] == Render(Object(all), 0, true);
    assert [LBRACE] + ([NEWLINE] + (FIRST_LINE + SECOND_LINES + ([] + ([RBRACE] + []))))
        == [LBRACE, NEWLINE] + FIRST_LINE + SECOND_LINES + [RBRACE];
  }

  const FIRST_LINE: Text :=
    [TAB, QUOTE, 97, QUOTE, COLON, TAB, LBRACKET, 49, COMMA, SPACE, 110, 117, 108, 108, RBRACKET, COMMA, NEWLINE]

  const SECOND_LINES: Text :=
    [TAB, QUOTE, 98, QUOTE, COLON, TAB, LBRACE, NEWLINE, TAB, RBRACE, NEWLINE]

  function OneAndNull(): Json {
    Array(Elem(Number(1.0), Elem(Null, NoElem)))
  }

  lemma FirstLine(more: Members)
    requires more.Member?
    ensures RenderMembers(Member([97], OneAndNull(), more), 1, true) == FIRST_LINE + RenderMembers(more, 1, true)
  {
    hide Render;
    hide Quoted;
    OneLetter(97);
    ArrayExample();
    assert Tabs(1) == [TAB];
  }

  lemma SecondLines()
    ensures RenderMembers(Member([98], Object(NoMember), NoMember), 1, true) == SECOND_LINES
  {
    hide Quoted;
    OneLetter(98);
    assert Tabs(1) == [TAB];
    assert Render(Object(NoMember), 1, true) == [LBRACE, NEWLINE, TAB, RBRACE];
    hide Render;
  }

  lemma OneLetter(b: Byte)
    requires 97 <= b < 123
    ensures Quoted([b]) == [QUOTE, b, QUOTE]
  {
    var t := [b];
    assert t[1..] == [];
    assert Escape(t) == [b] + Escape([]);
  }

  lemma ArrayExample()
    ensures Render(OneAndNull(), 1, true)
         == [LBRACKET, 49, COMMA, SPACE, 110, 117, 108, 108, RBRACKET]
  {
    assert Decimal(ValueInt(1.0)) == [49];
    assert RenderElems(Elem(Null, NoElem), 2, true) == [110, 117, 108, 108];
  }

  // ----- escapes -----

  /** No spelling of a byte that the grammar of RFC 8259 has is shorter than the one printed. */
  lemma EscapeIsShortest(b: Byte, p: T.Piece)
    requires T.ValidPiece(p) && T.PieceBytes(p) == [b]
    ensures |EscapeByte(b)| <= |T.PieceText(p)|
  {
  }

  /** A byte that needs four digits is written with two zeros and its two, in lower case. */
  lemma ControlByte(b: Byte)
    requires b < 32 && !(8 <= b <= 10) && b != 12 && b != 13
    ensures EscapeByte(b) == [BACKSLASH, LETTER_U, 48, 48, if b < 16 then 48 else 49,
                              if b % 16 < 10 then 48 + b % 16 else 87 + b % 16]
  {
  }

  // ----- printed text is JSON text -----

  /** The piece that one byte is printed as. */
  function PieceFor(b: Byte): (p: T.Piece)
    ensures T.PieceText(p) == EscapeByte(b)
  {
    if b > 31 && b != QUOTE && b != BACKSLASH then T.Plain(b)
    else if ShortEscape(b) then T.Short(EscapeLetter(b))
    else T.Unit(EscapeByte(b), b)
  }

  lemma PieceForByte(b: Byte)
    requires b != NUL
    ensures T.ValidPiece(PieceFor(b)) && T.PieceBytes(PieceFor(b)) == [b]
    ensures !T.HighUnit(PieceFor(b)) && !T.LowUnit(PieceFor(b))
  {
  }

  function PiecesFor(t: Text): (ps: seq<T.Piece>)
    ensures |ps| == |t|
  {
    if t == [] then [] else [PieceFor(t[0])] + PiecesFor(t[1..])
  }

  lemma {:induction false} PiecesForText(t: Text)
    requires NulFree(t)
    ensures var ps := PiecesFor(t);
      T.ValidPieces(ps) && T.Paired(ps) && T.PiecesText(ps) == Escape(t) && T.PiecesBytes(ps) == t
    decreases t
  {
    hide T.ValidPiece;
    hide T.PieceBytes;
    hide T.HighUnit;
    hide T.LowUnit;
    hide T.PiecesText;
    hide T.PiecesBytes;
    hide T.Paired;
    hide EscapeByte;
    if t == [] {
      NoPieces();
    } else {
      PieceForByte(t[0]);
      PiecesForText(t[1..]);
      FirstPiece(PieceFor(t[0]), PiecesFor(t[1..]));
      assert t == [t[0]] + t[1..];
    }
  }

  lemma NoPieces()
    ensures T.Paired([]) && T.PiecesText([]) == [] && T.PiecesBytes([]) == []
  {
  }

  lemma FirstPiece(p: T.Piece, ps: seq<T.Piece>)
    requires !T.HighUnit(p) && !T.LowUnit(p)
    ensures var all := [p] + ps;
      && T.PiecesText(all) == T.PieceText(p) + T.PiecesText(ps)
      && T.PiecesBytes(all) == T.PieceBytes(p) + T.PiecesBytes(ps)
      && (T.Paired(all) <==> T.Paired(ps))
  {
    hide T.PieceBytes;
    hide T.PieceText;
    var all := [p] + ps;
    assert all[0] == p && all[1..] == ps;
  }

  lemma NameFor(t: Text)
    requires NulFree(t)
    ensures var ps := PiecesFor(t);
      T.ValidPieces(ps) && T.Paired(ps) && T.NameText(ps) == Quoted(t) && T.Name(ps) == t
  {
    hide T.ValidPieces;
    hide T.Paired;
    PiecesForText(t);
    CStringIsWhole(t);
  }

  lemma {:induction false} NoLeadingZero(n: nat)
    ensures n > 0 ==> Digits(n)[0] != ZERO
    ensures n == 0 ==> |Digits(n)| == 1
  {
    if n >= 10 {
      NoLeadingZero(n / 10);
    }
  }

  lemma NumberFor(n: int)
    requires INT_MIN <= n <= INT_MAX
    ensures var f := T.NumberForm(n < 0, Digits(if n < 0 then -n else n), None, None);
      T.ValidForm(f) && T.Keeps(f) && T.Write(f) == Decimal(n) && T.ValueOf(f) == Number(n as real)
  {
    hide Digits;
    hide G.DigitsValue;
    var m := if n < 0 then -n else n;
    NoLeadingZero(m);
    R.DigitsDenote(m);
    R.DecimalReads(n);
    assert Digits(m) + [] == Digits(m);
  }

  /**
   * Printed text is a JSON text of RFC 8259, in both layouts and at any depth, and its value
   * is what was printed.
   */
  lemma {:induction false} RenderIsJson(j: Json, depth: nat, fmt: bool) returns (f: T.Form)
    requires Printable(j)
    ensures T.ValidForm(f) && T.Keeps(f) && T.Write(f) == Render(j, depth, fmt) && T.ValueOf(f) == j
    decreases j, 2
  {
    match j {
      case Null => f := T.NullForm;
      case False => f := T.FalseForm;
      case True => f := T.TrueForm;
      case Number(d) =>
        var n := ValueInt(d);
        NumberFor(n);
        f := T.NumberForm(n < 0, Digits(if n < 0 then -n else n), None, None);
      case String(t) =>
        NameFor(t);
        f := T.StringForm(PiecesFor(t));
      case Array(es) => f := ArrayIsJson(es, depth, fmt);
      case Object(ms) => f := ObjectIsJson(ms, depth, fmt);
    }
  }

  lemma {:induction false} ArrayIsJson(es: Elems, depth: nat, fmt: bool) returns (f: T.Form)
    requires PrintableElems(es)
    ensures T.ValidForm(f) && T.Keeps(f) && T.Write(f) == Render(Array(es), depth, fmt) && T.ValueOf(f) == Array(es)
    decreases es, 1
  {
    hide Render;
    hide RenderElems;
    ArrayParts(es, depth, fmt, [], []);
    var body := RenderElems(es, depth + 1, fmt);
    assert Render(Array(es), depth, fmt) + [] == Render(Array(es), depth, fmt);
    if es.NoElem? {
      f := T.EmptyArray([]);
      NoElems(depth + 1, fmt);
      assert [LBRACKET] + ([] + ([RBRACKET] + [])) == [LBRACKET] + ([] + [RBRACKET]);
    } else {
      var items := ElemsAreItems(es, depth + 1, fmt, []);
      f := T.ArrayForm(items);
      assert [LBRACKET] + (([] + body) + [RBRACKET]) == [LBRACKET] + (body + ([RBRACKET] + []));
    }
  }

  lemma NoElems(depth: nat, fmt: bool)
    ensures RenderElems(NoElem, depth, fmt) == []
  {
  }

  lemma {:induction false} ElemsAreItems(es: Elems, depth: nat, fmt: bool, gap: Text) returns (items: T.Items)
    requires es.Elem? && PrintableElems(es) && T.White(gap)
    ensures T.ValidItems(items) && T.KeepsItems(items) && T.WriteItems(items) == gap + RenderElems(es, depth, fmt)
    ensures T.ElemsOf(items) == es
    decreases es, 0
  {
    hide Render;
    hide T.Write;
    hide T.ValidForm;
    hide T.ValueOf;
    hide T.ShortNumbers;
    hide T.PairedUnits;
    var form := RenderIsJson(es.head, depth, fmt);
    var head := Render(es.head, depth, fmt);
    if es.next.NoElem? {
      items := T.LastItem(gap, form, []);
      assert RenderElems(es, depth, fmt) == head;
      assert gap + (head + []) == gap + head;
    } else {
      var space: Text := if fmt then [SPACE] else [];
      var more := ElemsAreItems(es.next, depth, fmt, space);
      items := T.Item(gap, form, [], more);
      var tail := RenderElems(es.next, depth, fmt);
      assert ElemSeparator(false, fmt) == [COMMA] + space;
      assert RenderElems(es, depth, fmt) == head + ([COMMA] + (space + tail));
      assert gap + (head + ([] + ([COMMA] + (space + tail)))) == gap + (head + ([COMMA] + (space + tail)));
    }
  }

  lemma {:induction false} ObjectIsJson(ms: Members, depth: nat, fmt: bool) returns (f: T.Form)
    requires PrintableMembers(ms)
    ensures T.ValidForm(f) && T.Keeps(f) && T.Write(f) == Render(Object(ms), depth, fmt) && T.ValueOf(f) == Object(ms)
    decreases ms, 1
  {
    hide RenderMembers;
    var line: Text, tabs := if fmt then [NEWLINE] else [], if fmt then Tabs(depth) else [];
    ObjectText(ms, depth, fmt, line, tabs);
    if ms.NoMember? {
      f := T.EmptyObject(line + tabs);
      assert T.Write(f) == [LBRACE] + ((line + tabs) + [RBRACE]);
    } else {
      var entries := MembersAreEntries(ms, depth + 1, fmt, line, tabs);
      f := T.ObjectForm(entries);
    }
  }

  lemma ObjectText(ms: Members, depth: nat, fmt: bool, line: Text, tabs: Text)
    requires line == (if fmt then [NEWLINE] else []) && tabs == (if fmt then Tabs(depth) else [])
    ensures Render(Object(ms), depth, fmt)
         == [LBRACE] + ((line + (RenderMembers(ms, depth + 1, fmt) + tabs)) + [RBRACE])
    ensures ms.NoMember? ==> Render(Object(ms), depth, fmt) == [LBRACE] + ((line + tabs) + [RBRACE])
  {
    ObjectParts(ms, depth, fmt, [], []);
    var body := RenderMembers(ms, depth + 1, fmt);
    assert Render(Object(ms), depth, fmt) + [] == Render(Object(ms), depth, fmt);
    assert [LBRACE] + (line + (body + (tabs + ([RBRACE] + [])))) == [LBRACE] + ((line + (body + tabs)) + [RBRACE]);
  }

  lemma {:induction false} MembersAreEntries(ms: Members, depth: nat, fmt: bool, line: Text, close: Text)
    returns (es: T.Entries)
    requires ms.Member? && PrintableMembers(ms) && line == (if fmt then [NEWLINE] else []) && T.White(close)
    ensures T.ValidEntries(es) && T.KeepsEntries(es)
    ensures T.WriteEntries(es) == line + (RenderMembers(ms, depth, fmt) + close)
    ensures T.MembersOf(es) == ms
    decreases ms, 0
  {
    hide Render;
    hide T.Write;
    hide T.NameText;
    hide T.Name;
    hide T.ValidForm;
    hide T.ValidPieces;
    hide T.Paired;
    hide T.ValueOf;
    hide T.ShortNumbers;
    hide T.PairedUnits;
    var form := RenderIsJson(ms.value, depth, fmt);
    NameFor(ms.key);
    var name := PiecesFor(ms.key);
    var tabs: Text, gap: Text := if fmt then Tabs(depth) else [], if fmt then [TAB] else [];
    MemberParts(ms, depth, fmt, line, close, tabs, gap);
    if ms.next.NoMember? {
      es := T.LastEntry(line + tabs, name, [], gap, form, line + close);
    } else {
      var more := MembersAreEntries(ms.next, depth, fmt, line, close);
      es := T.Entry(line + tabs, name, [], gap, form, [], more);
    }
  }

  /** A member with the line break before it instead of behind it. */
  lemma MemberParts(ms: Members, depth: nat, fmt: bool, line: Text, close: Text, tabs: Text, gap: Text)
    requires ms.Member? && line == (if fmt then [NEWLINE] else [])
    requires tabs == (if fmt then Tabs(depth) else []) && gap == (if fmt then [TAB] else [])
    ensures var key, value := Quoted(ms.key), Render(ms.value, depth, fmt);
      line + (RenderMembers(ms, depth, fmt) + close) ==
        if ms.next.NoMember? then (line + tabs) + (key + ([] + ([COLON] + (gap + (value + (line + close))))))
        else (line + tabs) + (key + ([] + ([COLON] + (gap + (value + ([] + ([COMMA]
             + (line + (RenderMembers(ms.next, depth, fmt) + close)))))))))
  {
    hide Render;
    hide RenderMembers;
    hide Quoted;
    var key, value := Quoted(ms.key), Render(ms.value, depth, fmt);
    var comma: Text, tail := if ms.next.NoMember? then [] else [COMMA], RenderMembers(ms.next, depth, fmt);
    MemberLine(ms, depth, fmt, tabs, gap, comma, line);
    EightParts(line, tabs, key, [COLON], gap, value, comma, tail, close);
    if ms.next.NoMember? {
      NoMembers(depth, fmt);
      assert [] + (line + ([] + close)) == line + close;
    } else {
      assert [] + ([COMMA] + (line + (tail + close))) == [COMMA] + (line + (tail + close));
    }
  }

  lemma NoMembers(depth: nat, fmt: bool)
    ensures RenderMembers(NoMember, depth, fmt) == []
  {
  }

  lemma MemberLine(ms: Members, depth: nat, fmt: bool, tabs: Text, gap: Text, comma: Text, line: Text)
    requires ms.Member? && line == (if fmt then [NEWLINE] else [])
    requires comma == if ms.next.NoMember? then [] else [COMMA]
    requires tabs == (if fmt then Tabs(depth) else []) && gap == (if fmt then [TAB] else [])
    ensures RenderMembers(ms, depth, fmt) == tabs + Quoted(ms.key) + ([COLON] + gap) + Render(ms.value, depth, fmt)
      + (comma + line) + RenderMembers(ms.next, depth, fmt)
  {
    hide Render;
    hide Quoted;
    assert KeySeparator(fmt) == [COLON] + gap && MemberEnd(ms.next.NoMember?, fmt) == comma + line;
  }

  lemma EightParts(l: Text, a: Text, b: Text, c: Text, d: Text, e: Text, f: Text, g: Text, h: Text)
    ensures l + ((a + b + (c + d) + e + (f + l) + g) + h)
         == (l + a) + (b + ([] + (c + (d + (e + (f + (l + (g + h))))))))
  {
  }
}
