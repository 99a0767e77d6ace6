/**
 * Everything the parser takes is a text of the accepted grammar with its value: the other
 * half of what JsonText says, so that the language of the parser is known exactly.
 */
module JsonAccepted {
  import opened Bytes
  import opened JsonValue
  import opened JsonLiteral
  import opened JsonText
  import R = JsonRoundTrip
  import G = JsonGrammar

  // ----- numbers -----

  /** The exponent part that `strtod` uses. */
  lemma ExponentOf(t: Text, i: nat) returns (e: Option<Exponent>)
    requires i <= |t|
    ensures ExponentText(e) == t[i..i + G.Exponent(t, i).0] && ExponentValue(e) == G.Exponent(t, i).1
    ensures e.Some? ==> AllDigits(e.value.digits) && (e.value.sign.Some? ==> G.IsSign(e.value.sign.value))
  {
    hide G.DigitsValue;
    hide G.DigitsEnd;
    hide ExponentText;
    NoExponentText();
    if G.Exponent(t, i).0 == 0 {
      return None;
    }
    var signed := i + 1 < |t| && G.IsSign(t[i + 1]);
    var first := if signed then i + 2 else i + 1;
    var last := G.DigitsEnd(t, first);
    e := Some(Exponent(t[i] == 69, if signed then Some(t[i + 1]) else None, t[first..last]));
    ExponentJoin(t, i, e.value, last);
  }

  lemma ExponentJoin(t: Text, i: nat, x: Exponent, last: nat)
    requires var first := if x.sign.Some? then i + 2 else i + 1;
      first <= last <= |t| && x.digits == t[first..last]
    requires i < |t| && t[i] == (if x.capital then 69 else 101)
    requires x.sign.Some? ==> i + 1 < |t| && t[i + 1] == x.sign.value
    ensures ExponentText(Some(x)) == t[i..last]
  {
    if x.sign.Some? {
      assert t[i..last] == [t[i]] + [t[i + 1]] + t[i + 2..last];
    } else {
      assert t[i..last] == [t[i]] + [] + t[i + 1..last];
    }
  }

  lemma NoExponentText()
    ensures ExponentText(None) == []
  {
  }

  /** The parts of the number that `strtod` uses, where it does not begin with a plus sign. */
  lemma NumberOf(t: Text)
    returns (negative: bool, whole: Text, fraction: Option<Text>, exponent: Option<Exponent>)
    requires G.Strtod(t).Some? && (t[0] == MINUS || IsDigit(t[0]))
    ensures AcceptedNumber(negative, whole, fraction, exponent)
    ensures G.Strtod(t).value ==
      (|NumberText(negative, whole, fraction, exponent)|, NumberValue(negative, whole, fraction, exponent))
    ensures NumberText(negative, whole, fraction, exponent) <= t
  {
    hide G.Strtod;
    hide G.DigitsEnd;
    hide G.DigitsValue;
    hide G.Scaled;
    hide G.Exponent;
    hide ExponentText;
    hide ExponentValue;
    hide FractionText;
    hide AllDigits;
    negative := t[0] == MINUS;
    var first := if negative then 1 else 0;
    var point := G.DigitsEnd(t, first);
    var hasPoint := point < |t| && t[point] == DOT;
    var last := if hasPoint then G.DigitsEnd(t, point + 1) else point;
    whole := t[first..point];
    fraction := if hasPoint then Some(t[point + 1..last]) else None;
    exponent := ExponentOf(t, last);
    DigitsAre(t, first, point);
    if hasPoint {
      DigitsAre(t, point + 1, last);
    }
    PartsJoin(t, negative, first, point, last, fraction, ExponentText(exponent));
    var digits := if hasPoint then t[point + 1..last] else [];
    SomeDigits(t, whole, digits);
    StrtodByParts(t, negative, whole, digits, point, last, G.Exponent(t, last));
  }

  /** Without digits there is no number. */
  lemma SomeDigits(t: Text, whole: Text, digits: Text)
    requires G.Strtod(t).Some?
    requires var first := if t != [] && G.IsSign(t[0]) then 1 else 0;
      var point := G.DigitsEnd(t, first);
      && whole == t[first..point]
      && digits == if point < |t| && t[point] == DOT then t[point + 1..G.DigitsEnd(t, point + 1)] else []
    ensures whole != [] || digits != []
  {
    hide G.DigitsEnd;
    hide G.Scaled;
    hide G.Exponent;
  }

  lemma DigitsAre(t: Text, i: nat, e: nat)
    requires i <= e <= |t| && forall k :: i <= k < e ==> IsDigit(t[k])
    ensures OnlyDigits(t[i..e])
  {
  }

  lemma PartsJoin(t: Text, negative: bool, first: nat, point: nat, last: nat, fraction: Option<Text>, x: Text)
    requires first <= point <= last && last + |x| <= |t| && x == t[last..last + |x|]
    requires first == (if negative then 1 else 0) && (negative ==> t[0] == MINUS)
    requires fraction == None ==> last == point
    requires fraction.Some? ==> last > point && t[point] == DOT && fraction.value == t[point + 1..last]
    ensures (if negative then [MINUS] else []) + t[first..point] + FractionText(fraction) + x == t[..last + |x|]
  {
    hide FractionText;
    assert (if negative then [MINUS] else []) == t[..first];
    FractionIs(t, point, last, fraction);
    Join(t, first, point);
    Join(t, point, last);
    Join(t, last, last + |x|);
  }

  lemma FractionIs(t: Text, point: nat, last: nat, fraction: Option<Text>)
    requires point <= last <= |t| && (fraction == None ==> last == point)
    requires fraction.Some? ==> last > point && t[point] == DOT && fraction.value == t[point + 1..last]
    ensures FractionText(fraction) == t[point..last]
  {
    if fraction.Some? {
      assert t[point..last] == [t[point]] + t[point + 1..last];
    }
  }

  lemma Join(t: Text, i: nat, j: nat)
    requires i <= j <= |t|
    ensures t[..i] + t[i..j] == t[..j]
  {
  }

  /** What is read as a number is one, of at most 63 bytes. */
  lemma NumberTaken(s: Text) returns (f: Form)
    requires s != [] && (s[0] == MINUS || IsDigit(s[0])) && G.ParseNumber(s).Ok?
    ensures f.NumberForm? && IsForm(f, s, G.ParseNumber(s), 0)
  {
    hide G.Strtod;
    hide NumberText;
    hide NumberValue;
    hide AcceptedNumber;
    var token := G.NumberToken(s, NUMBER_LIMIT);
    TokenBegins(s);
    var negative, whole, fraction, exponent := NumberOf(token);
    f := NumberForm(negative, whole, fraction, exponent);
    var t := Write(f);
    assert t == token[..|t|] == s[..|t|];
    assert s == t + s[|t|..];
  }

  lemma TokenBegins(s: Text)
    requires s != [] && (s[0] == MINUS || IsDigit(s[0]))
    ensures G.NumberToken(s, NUMBER_LIMIT) != [] && G.NumberToken(s, NUMBER_LIMIT)[0] == s[0]
  {
  }

  // ----- the longest number -----

  lemma {:induction false} DigitsCover(t: Text, i: nat, e: nat)
    requires i <= e <= |t| && forall k :: i <= k < e ==> IsDigit(t[k])
    ensures G.DigitsEnd(t, i) >= e
    ensures e < |t| && !IsDigit(t[e]) ==> G.DigitsEnd(t, i) == e
    decreases e - i
  {
    if i < e {
      DigitsCover(t, i + 1, e);
    }
  }

  /** Behind the point a number goes on at least as far as these digits and this exponent do. */
  lemma ExponentCovers(t: Text, i: nat, x: Exponent)
    requires i <= |t| && ExponentText(Some(x)) <= t[i..]
    requires AllDigits(x.digits) && (x.sign.Some? ==> G.IsSign(x.sign.value))
    ensures G.Exponent(t, i).0 >= |ExponentText(Some(x))|
  {
    hide G.DigitsValue;
    hide G.DigitsEnd;
    var u := ExponentText(Some(x));
    var first := if x.sign.Some? then i + 2 else i + 1;
    SignedDigits(x, u);
    assert forall k :: 0 <= k < |u| ==> t[i + k] == t[i..][k] == u[k];
    assert forall k :: 0 <= k < |x.digits| ==> t[first + k] == u[first - i..][k] == x.digits[k];
    DigitsCover(t, first, first + |x.digits|);
  }

  /** `strtod` takes at least the number that stands at the beginning. */
  lemma StrtodCovers(t: Text, negative: bool, whole: Text, fraction: Option<Text>, exponent: Option<Exponent>)
    requires AcceptedNumber(negative, whole, fraction, exponent)
    requires NumberText(negative, whole, fraction, exponent) <= t
    ensures G.Strtod(t).Some? && G.Strtod(t).value.0 >= |NumberText(negative, whole, fraction, exponent)|
  {
    hide G.DigitsEnd;
    hide G.Strtod;
    hide G.Exponent;
    hide ExponentText;
    hide FractionText;
    hide AllDigits;
    var minus: Text := if negative then [MINUS] else [];
    var f, x := FractionText(fraction), ExponentText(exponent);
    var first, point := |minus|, |minus| + |whole|;
    var last := point + |f|;
    PartsBegin(fraction, exponent);
    PartsAt(t, minus, whole, f, x);
    NoSign(t, minus, whole, negative);
    DigitsCover(t, first, point);
    if fraction.Some? {
      assert t[point] == f[0];
      assert forall k :: point + 1 <= k < last ==> t[k] == f[k - point] == fraction.value[k - point - 1];
      DigitsCover(t, point + 1, last);
    }
    if exponent.Some? {
      ExponentNotEmpty(exponent.value);
      ExponentCovers(t, last, exponent.value);
      StrtodAtLeast(t, first, point, fraction.Some?, last, |x|);
    } else {
      NoExponentText();
      StrtodAtLeast(t, first, point, fraction.Some?, last, 0);
    }
  }

  /** What `strtod` takes, by where its digits, its point and its exponent are known to reach. */
  lemma StrtodAtLeast(t: Text, first: nat, point: nat, hasPoint: bool, last: nat, n: nat)
    requires first <= point <= last <= |t| && first == (if t != [] && G.IsSign(t[0]) then 1 else 0)
    requires first < point || point + 1 < last
    requires if hasPoint then point < last && t[point] == DOT else point == last
    requires G.DigitsEnd(t, first) >= point
    requires hasPoint || n > 0 ==> G.DigitsEnd(t, first) == point
    requires hasPoint ==> G.DigitsEnd(t, point + 1) >= last && (n > 0 ==> G.DigitsEnd(t, point + 1) == last)
    requires n > 0 ==> G.Exponent(t, last).0 >= n && (!hasPoint ==> last == |t| || t[last] != DOT)
    ensures G.Strtod(t).Some? && G.Strtod(t).value.0 >= last + n
  {
    hide G.DigitsEnd;
    hide G.Scaled;
    hide G.Exponent;
  }

  lemma ExponentNotEmpty(x: Exponent)
    ensures ExponentText(Some(x)) != []
  {
  }

  /** Where the parts of a number stand in a text that begins with it. */
  lemma PartsAt(t: Text, minus: Text, whole: Text, f: Text, x: Text)
    requires minus + whole + f + x <= t
    ensures |minus| + |whole| + |f| + |x| <= |t|
    ensures forall k :: 0 <= k < |minus| ==> t[k] == minus[k]
    ensures forall k {:trigger t[k]} :: |minus| <= k < |minus| + |whole| ==> t[k] == whole[k - |minus|]
    ensures forall k {:trigger t[k]} :: |minus| + |whole| <= k < |minus| + |whole| + |f| ==>
      t[k] == f[k - |minus| - |whole|]
    ensures x <= t[|minus| + |whole| + |f|..]
    ensures x != [] ==> t[|minus| + |whole| + |f|] == x[0]
  {
    var n := minus + whole + f + x;
    assert forall k {:trigger t[k]} :: 0 <= k < |n| ==> t[k] == n[k];
    var last := |minus| + |whole| + |f|;
    assert t[last..][..|x|] == x;
  }

  lemma NoSign(t: Text, minus: Text, whole: Text, negative: bool)
    requires minus == (if negative then [MINUS] else []) && |minus| + |whole| <= |t| && t != []
    requires negative ==> t[0] == MINUS
    requires !negative ==> whole != [] && t[0] == whole[0] && IsDigit(whole[0])
    ensures (if G.IsSign(t[0]) then 1 else 0) == |minus|
  {
  }

  /** No accepted number of at most 63 bytes at the beginning of the text is longer than this one. */
  ghost predicate Longest(f: Form, s: Text) {
    forall g: Form :: g.NumberForm? && AcceptedForm(g) && ShortNumbers(g) && Write(g) <= s ==> |Write(g)| <= |Write(f)|
  }

  /** The number read is the longest at the beginning of the text, and the longest is read. */
  lemma NumberExactly(s: Text, f: Form)
    requires f.NumberForm? && AcceptedForm(f) && ShortNumbers(f) && Write(f) <= s
    ensures Longest(f, s) <==> G.ParseNumber(s) == G.Ok(ValueOf(f), s[|Write(f)|..])
  {
    hide G.Strtod;
    hide NumberText;
    hide NumberValue;
    hide AcceptedNumber;
    hide Longest;
    var token := G.NumberToken(s, NUMBER_LIMIT);
    ShortIsInToken(f, s);
    StrtodCovers(token, f.negative, f.whole, f.fraction, f.exponent);
    NumberBytes(f.negative, f.whole, f.fraction, f.exponent);
    assert s[0] == Write(f)[0];
    var taken := NumberTaken(s);
    TakenIsLongest(s, taken);
    NumberReads(f.negative, f.whole, f.fraction, f.exponent);
    NumberReads(taken.negative, taken.whole, taken.fraction, taken.exponent);
    LongestIsUnique(f, taken, s);
  }

  lemma LongestIsUnique(f: Form, g: Form, s: Text)
    requires f.NumberForm? && AcceptedForm(f) && ShortNumbers(f) && Write(f) <= s
    requires g.NumberForm? && AcceptedForm(g) && ShortNumbers(g) && Write(g) <= s && Longest(g, s)
    ensures Longest(f, s) <==> |Write(f)| == |Write(g)|
    ensures Longest(f, s) ==> Write(f) == Write(g)
  {
    hide AcceptedForm;
    hide ShortNumbers;
    hide Write;
    if |Write(f)| == |Write(g)| {
      assert Write(f) == s[..|Write(f)|] == Write(g);
    }
  }

  lemma ShortIsInToken(f: Form, s: Text)
    requires f.NumberForm? && AcceptedForm(f) && ShortNumbers(f) && Write(f) <= s
    ensures Write(f) <= G.NumberToken(s, NUMBER_LIMIT)
  {
    hide AcceptedNumber;
    hide NumberText;
    hide G.NumberToken;
    NumberBytes(f.negative, f.whole, f.fraction, f.exponent);
    var t, token := Write(f), G.NumberToken(s, NUMBER_LIMIT);
    assert forall k :: 0 <= k < |t| ==> G.IsNumberByte(s[k]);
    assert |t| <= |token|;
    assert token[..|t|] == s[..|t|] == t;
  }

  lemma TakenIsLongest(s: Text, f: Form)
    requires s != [] && (s[0] == MINUS || IsDigit(s[0])) && G.ParseNumber(s).Ok?
    requires f.NumberForm? && s == Write(f) + G.ParseNumber(s).rest
    ensures Longest(f, s)
  {
    hide G.Strtod;
    hide AcceptedNumber;
    hide NumberText;
    var token := G.NumberToken(s, NUMBER_LIMIT);
    forall g: Form | g.NumberForm? && AcceptedForm(g) && ShortNumbers(g) && Write(g) <= s
      ensures |Write(g)| <= |Write(f)|
    {
      ShortIsInToken(g, s);
      StrtodCovers(token, g.negative, g.whole, g.fraction, g.exponent);
    }
  }

  // ----- strings -----

  lemma NibbleOf(b: Byte)
    requires IsHexDigit(b)
    ensures IsNibble(b, G.HexValue(b).value)
  {
  }

  /** Four hexadecimal digits spell the unit that they are read as. */
  lemma UnitOf(t: Text)
    requires |t| == 6 && t[0] == BACKSLASH && t[1] == LETTER_U && !HasOddDigit(t)
    ensures IsUnit(t, G.Hex4(t[2..6]))
  {
    hide IsNibble;
    hide G.HexValue;
    NibbleOf(t[2]);
    NibbleOf(t[3]);
    NibbleOf(t[4]);
    NibbleOf(t[5]);
    var d := t[2..6];
    assert d[0] == t[2] && d[1] == t[3] && d[2] == t[4] && d[3] == t[5];
    NibblesOf(G.HexValue(t[2]).value, G.HexValue(t[3]).value, G.HexValue(t[4]).value, G.HexValue(t[5]).value);
  }

  lemma NibblesOf(a: nat, b: nat, c: nat, d: nat)
    requires a < 16 && b < 16 && c < 16 && d < 16
    ensures var u := ((a * 16 + b) * 16 + c) * 16 + d;
      u / 4096 == a && u / 256 % 16 == b && u / 16 % 16 == c && u % 16 == d
  {
  }

  /** A \u sequence that is read is one unit, or has an odd digit. */
  lemma UnitPiece(t: Text) returns (p: Piece)
    requires |t| == 6 && t[0] == BACKSLASH && t[1] == LETTER_U
    ensures p == Unit(t, G.Hex4(t[2..6])) && (AcceptedPiece(p) || OddUnit(p))
  {
    hide G.Hex4;
    hide IsUnit;
    p := Unit(t, G.Hex4(t[2..6]));
    Hex4IsZero(t);
    if !HasOddDigit(t) {
      UnitOf(t);
    }
  }

  /** What a \u sequence that decodes is made of: one unit, or two surrogates. */
  lemma UnitsOf(t: Text) returns (front: seq<Piece>)
    requires |t| > 1 && t[0] == BACKSLASH && t[1] == LETTER_U && G.Utf16Literal(t).Some?
    ensures 1 <= |front| <= 2 && G.Utf16Literal(t).value.length == 6 * |front|
    ensures front[0].Unit? && front[0].text == t[..6] && (AcceptedPiece(front[0]) || OddUnit(front[0]))
    ensures |front| == 2 ==>
      AcceptedPiece(front[0]) && front[1].Unit? && front[1].text == t[6..12] && AcceptedPiece(front[1])
  {
    hide G.Hex4;
    hide AcceptedPiece;
    var p := UnitPiece(t[..6]);
    assert t[..6][2..6] == t[2..6];
    front := [p];
    if G.Utf16Literal(t).value.length == 12 {
      var q := UnitPiece(t[6..12]);
      assert t[6..12][2..6] == t[8..12];
      front := [p, q];
    }
  }

  /** The sizing pass goes over a backslash, a byte, and four plain bytes. */
  lemma SixLeft(t: Text, n: nat)
    requires G.LiteralEnd(t) == Some(n) && |t| >= 6 && t[0] == BACKSLASH
    requires forall i :: 2 <= i < 6 ==> t[i] != BACKSLASH && t[i] != QUOTE
    ensures n >= 6 && G.LiteralEnd(t[6..]) == Some(n - 6)
  {
    hide G.LiteralEnd;
    LiteralEndBasics(t);
    LiteralStep(t, n);
    PlainLeft(t, 2, n);
    PlainLeft(t, 3, n);
    PlainLeft(t, 4, n);
    PlainLeft(t, 5, n);
  }

  lemma PlainLeft(t: Text, i: nat, n: nat)
    requires i < |t| && i <= n && t[i] != BACKSLASH && t[i] != QUOTE && G.LiteralEnd(t[i..]) == Some(n - i)
    ensures n > i && G.LiteralEnd(t[i + 1..]) == Some(n - i - 1)
  {
    hide G.LiteralEnd;
    var u := t[i..];
    LiteralEndBasics(u);
    LiteralStep(u, n - i);
    assert u[1..] == t[i + 1..];
  }

  lemma UnitPlain(t: Text, u: int)
    requires 0 <= u < 0x1_0000 && IsUnit(t, u)
    ensures |t| == 6 && t[0] == BACKSLASH && forall i :: 2 <= i < 6 ==> t[i] != BACKSLASH && t[i] != QUOTE
  {
    UnitValue(t, u);
  }

  lemma UnitLeft(t: Text, p: Piece, n: nat)
    requires G.LiteralEnd(t) == Some(n) && p.Unit? && AcceptedPiece(p) && |t| >= 6 && p.text == t[..6]
    ensures n >= 6 && G.LiteralEnd(t[6..]) == Some(n - 6)
  {
    hide G.LiteralEnd;
    hide IsUnit;
    UnitPlain(p.text, p.u);
    assert forall i :: 0 <= i < 6 ==> t[i] == p.text[i];
    SixLeft(t, n);
  }

  /** Pieces that stand at the front of a literal that decodes, and are taken in one step. */
  ghost predicate InFront(front: seq<Piece>, t: Text, odd: bool) {
    var n := |PiecesText(front)|;
    && 1 <= |front| <= 2 && 0 < n < |t| && PiecesText(front) == t[..n] && G.Unescape(t[n..]).Done?
    && (AcceptedPiece(front[0]) || OddUnit(front[0]) || (odd && front[0] == Plain(QUOTE)))
    && (|front| == 2 ==> AcceptedPiece(front[0]) && !OddUnit(front[0]) && AcceptedPiece(front[1]) && !OddUnit(front[1]))
    && (!odd && !OddUnit(front[0]) ==> G.LiteralEnd(t[n..]) == Some(|t| - 1 - n))
  }

  lemma OnePieceText(p: Piece)
    ensures PiecesText([p]) == PieceText(p)
  {
    assert [p][1..] == [];
    assert PieceText(p) + [] == PieceText(p);
  }

  lemma TwoPiecesText(p: Piece, q: Piece)
    ensures PiecesText([p, q]) == PieceText(p) + PieceText(q)
  {
    assert [p, q][1..] == [q];
    OnePieceText(q);
  }

  lemma FrontPieces(t: Text, odd: bool) returns (front: seq<Piece>)
    requires |t| > 1 && t[|t| - 1] == QUOTE && G.Unescape(t).Done?
    requires !odd ==> G.LiteralEnd(t) == Some(|t| - 1)
    requires !(odd && t == [BACKSLASH, QUOTE])
    ensures InFront(front, t, odd)
  {
    hide IsUnit;
    hide PiecesText;
    hide G.LiteralEnd;
    hide G.Utf16Literal;
    hide HasOddDigit;
    if !odd {
      LiteralEndBasics(t);
      LiteralStep(t, |t| - 1);
    }
    if t[0] != BACKSLASH {
      front := [Plain(t[0])];
      OnePieceText(front[0]);
    } else if t[1] != LETTER_U {
      front := [Short(t[1])];
      OnePieceText(front[0]);
    } else {
      front := UnitsInFront(t, odd);
    }
  }

  lemma UnitsInFront(t: Text, odd: bool) returns (front: seq<Piece>)
    requires |t| > 1 && t[0] == BACKSLASH && t[1] == LETTER_U && G.Unescape(t).Done?
    requires !odd ==> G.LiteralEnd(t) == Some(|t| - 1)
    ensures InFront(front, t, odd)
  {
    hide AcceptedPiece;
    hide G.LiteralEnd;
    hide G.Utf16Literal;
    hide G.Unescape;
    hide PiecesText;
    G.UnicodeStep(t);
    front := UnitsOf(t);
    assert G.Unescape(t[6 * |front|..]).Done?;
    if |front| == 1 {
      OnePieceText(front[0]);
      assert front == [front[0]];
      if !odd && !OddUnit(front[0]) {
        UnitLeft(t, front[0], |t| - 1);
      }
    } else {
      TwoPiecesText(front[0], front[1]);
      assert front == [front[0], front[1]];
      assert t[..12] == t[..6] + t[6..12];
      SurrogatesAreUnits(t, front[0], front[1]);
      if !odd {
        UnitLeft(t, front[0], |t| - 1);
        assert t[6..][..6] == t[6..12];
        UnitLeft(t[6..], front[1], |t| - 7);
        assert t[6..][6..] == t[12..];
      }
    }
  }

  /** Accepted pieces have hexadecimal digits only. */
  lemma SurrogatesAreUnits(t: Text, p: Piece, q: Piece)
    requires p.Unit? && AcceptedPiece(p) && q.Unit? && AcceptedPiece(q)
    ensures !OddUnit(p) && !OddUnit(q)
  {
  }

  lemma {:induction false} PiecesConcat(a: seq<Piece>, b: seq<Piece>)
    ensures PiecesText(a + b) == PiecesText(a) + PiecesText(b)
  {
    hide PieceText;
    if a == [] {
      assert a + b == b;
    } else {
      assert (a + b)[1..] == a[1..] + b;
      PiecesConcat(a[1..], b);
    }
  }

  lemma FrontAccepted(front: seq<Piece>, more: seq<Piece>, t: Text, odd: bool)
    requires InFront(front, t, odd) && AcceptedPieces(more, odd || OddUnit(front[0]))
    ensures AcceptedPieces(front + more, odd)
  {
    hide AcceptedPiece;
    hide OddUnit;
    hide PiecesText;
    hide G.Unescape;
    hide G.LiteralEnd;
    var all := front + more;
    if |front| == 1 {
      assert all[1..] == more;
    } else {
      assert all[1..][1..] == more && all[1..][0] == front[1];
      assert AcceptedPieces(all[1..], odd);
    }
  }

  /** The pieces of a literal that decodes, up to the closing quote. */
  lemma {:induction false} PiecesOf(t: Text, odd: bool) returns (ps: seq<Piece>)
    requires t != [] && t[|t| - 1] == QUOTE && G.Unescape(t).Done?
    requires !odd ==> G.LiteralEnd(t) == Some(|t| - 1)
    ensures AcceptedPieces(ps, odd) && PiecesText(ps) + [QUOTE] == t
    decreases |t|
  {
    hide AcceptedPiece;
    hide AcceptedPieces;
    hide OddUnit;
    hide PiecesText;
    hide G.Unescape;
    hide G.LiteralEnd;
    if |t| == 1 {
      ps := [];
      NoPieces(odd);
    } else if odd && t == [BACKSLASH, QUOTE] {
      ps := LoneBackslash();
    } else {
      var front := FrontPieces(t, odd);
      var n := |PiecesText(front)|;
      var more := PiecesOf(t[n..], odd || OddUnit(front[0]));
      ps := front + more;
      FrontAccepted(front, more, t, odd);
      PiecesConcat(front, more);
      assert PiecesText(ps) + [QUOTE] == t[..n] + t[n..];
    }
  }

  lemma NoPieces(odd: bool)
    ensures AcceptedPieces([], odd) && PiecesText([]) + [QUOTE] == [QUOTE]
  {
  }

  lemma LoneBackslash() returns (ps: seq<Piece>)
    ensures AcceptedPieces(ps, true) && PiecesText(ps) + [QUOTE] == [BACKSLASH, QUOTE]
  {
    ps := [Plain(BACKSLASH)];
    assert ps[1..] == [];
  }

  /** What is read as a string is one. */
  lemma NameOf(s: Text) returns (ps: seq<Piece>)
    requires s != [] && G.ParseString(s).Ok?
    ensures AcceptedName(ps) && Paired(ps)
    ensures s == NameText(ps) + G.ParseString(s).rest && Name(ps) == G.ParseString(s).value
  {
    hide G.Unescape;
    hide G.LiteralEnd;
    hide CString;
    var n := G.LiteralEnd(s[1..]).value;
    var t := s[1..n + 2];
    assert t == s[1..][..n + 1];
    EndInPrefix(s[1..]);
    ps := PiecesOf(t, false);
    PiecesDecode(ps, false);
    assert s == [QUOTE] + t + s[n + 2..];
  }

  /** The sizing pass sees nothing behind the closing quote. */
  lemma {:induction false} EndInPrefix(t: Text)
    requires G.LiteralEnd(t).Some?
    ensures G.LiteralEnd(t[..G.LiteralEnd(t).value + 1]) == G.LiteralEnd(t)
    decreases |t|
  {
    var n := G.LiteralEnd(t).value;
    if n > 0 {
      var w := if t[0] == BACKSLASH then 2 else 1;
      LiteralStep(t, n);
      EndInPrefix(t[w..]);
      assert t[..n + 1][w..] == t[w..][..n - w + 1];
    }
  }

  // ----- white space -----

  lemma {:induction false} DropSplit(s: Text) returns (blanks: Text)
    ensures R.Blank(blanks) && s == blanks + G.DropWhitespace(s)
    decreases s
  {
    blanks := [];
    if s != [] && s[0] <= 32 {
      var more := DropSplit(s[1..]);
      blanks := [s[0]] + more;
      assert s == [s[0]] + s[1..];
    }
  }

  /** What is skipped is blank. */
  lemma SkipSplit(s: Text) returns (blanks: Text)
    ensures R.Blank(blanks) && s == blanks + G.SkipWhitespace(s)
  {
    blanks := DropSplit(s);
    if s != [] && G.DropWhitespace(s) == [] {
      assert blanks == s;
      blanks := s[..|s| - 1];
    }
  }

  // ----- values -----

  /** The form spells the value that was read, within the limits, and what is left follows it. */
  ghost predicate IsForm(f: Form, s: Text, r: G.Parsed<Json>, open: nat) {
    && r.Ok? && AcceptedForm(f) && Keeps(f) && ValueOf(f) == r.value
    && s == Write(f) + r.rest && open + Nesting(r.value) <= NESTING_LIMIT
  }

  ghost predicate IsItems(items: Items, s: Text, r: G.Parsed<Elems>, open: nat) {
    && r.Ok? && AcceptedItems(items) && KeepsItems(items) && ElemsOf(items) == r.value
    && s == WriteItems(items) + r.rest && open + NestingElems(r.value) <= NESTING_LIMIT
  }

  ghost predicate IsEntries(es: Entries, s: Text, r: G.Parsed<Members>, open: nat) {
    && r.Ok? && AcceptedEntries(es) && KeepsEntries(es) && MembersOf(es) == r.value
    && s == WriteEntries(es) + r.rest && open + NestingMembers(r.value) <= NESTING_LIMIT
  }

  /**
   * Whatever the parser reads as a value is a text of the accepted grammar with that value,
   * within both limits.
   */
  lemma {:induction false} FormOf(s: Text, open: nat) returns (f: Form)
    requires G.ParseValue(s, open).Ok? && open <= NESTING_LIMIT
    ensures IsForm(f, s, G.ParseValue(s, open), open)
    decreases |s|, 1
  {
    hide G.ParseString;
    hide G.ParseNumber;
    hide G.ParseArray;
    hide G.ParseObject;
    hide AcceptedName;
    hide NameText;
    hide Name;
    if StartsWith(s, NULL_TEXT) {
      f := NullForm;
      StartSplit(s, NULL_TEXT);
    } else if StartsWith(s, FALSE_TEXT) {
      f := FalseForm;
      StartSplit(s, FALSE_TEXT);
    } else if StartsWith(s, TRUE_TEXT) {
      f := TrueForm;
      StartSplit(s, TRUE_TEXT);
    } else if s[0] == QUOTE {
      var ps := NameOf(s);
      f := StringForm(ps);
    } else if s[0] == MINUS || IsDigit(s[0]) {
      f := NumberTaken(s);
      NumberIsFlat(s);
    } else if s[0] == LBRACKET {
      f := ArrayOf(s, open);
    } else {
      f := ObjectOf(s, open);
    }
  }

  lemma StartSplit(s: Text, prefix: Text)
    requires StartsWith(s, prefix)
    ensures s == prefix + s[|prefix|..]
  {
  }

  lemma NumberIsFlat(s: Text)
    requires G.ParseNumber(s).Ok?
    ensures Nesting(G.ParseNumber(s).value) == 0
  {
    hide G.Strtod;
  }

  lemma {:induction false} ArrayOf(s: Text, open: nat) returns (f: Form)
    requires s != [] && s[0] == LBRACKET && G.ParseArray(s, open).Ok? && open <= NESTING_LIMIT
    ensures IsForm(f, s, G.ParseArray(s, open), open)
    decreases |s|, 0
  {
    hide G.ParseElems;
    hide G.SkipWhitespace;
    hide R.Blank;
    hide IsItems;
    var gap := SkipSplit(s[1..]);
    var t := G.SkipWhitespace(s[1..]);
    if t[0] == RBRACKET {
      f := EmptyArray(gap);
      BracketsSplit(s, LBRACKET, gap + t, gap, t);
    } else {
      var items := ItemsOf(t, open + 1);
      var rest := G.ParseElems(t, open + 1).rest;
      var padded := PadItems(gap, items, t, G.ParseElems(t, open + 1), open + 1);
      f := ArrayForm(padded);
      ItemsFacts(padded, gap + t, G.ParseElems(t, open + 1), open + 1);
      BracketsSplit(s, LBRACKET, gap + t, WriteItems(padded), rest);
    }
  }

  lemma BracketsSplit(s: Text, open: Byte, inner: Text, written: Text, rest: Text)
    requires s != [] && s[0] == open && s[1..] == inner == written + rest && rest != []
    ensures s == [open] + (written + [rest[0]]) + rest[1..]
  {
    assert rest == [rest[0]] + rest[1..];
  }

  lemma ItemsFacts(items: Items, s: Text, r: G.Parsed<Elems>, open: nat)
    requires IsItems(items, s, r, open)
    ensures r.Ok? && AcceptedItems(items) && KeepsItems(items) && ElemsOf(items) == r.value
    ensures s == WriteItems(items) + r.rest && open + NestingElems(r.value) <= NESTING_LIMIT
  {
  }

  /** More white space in front. */
  lemma PadItems(gap: Text, items: Items, s: Text, r: G.Parsed<Elems>, open: nat) returns (padded: Items)
    requires R.Blank(gap) && IsItems(items, s, r, open)
    ensures IsItems(padded, gap + s, r, open)
  {
    hide Write;
    hide AcceptedForm;
    hide Keeps;
    hide ValueOf;
    var before := gap + items.before;
    padded := match items
      case LastItem(_, form, after) => LastItem(before, form, after)
      case Item(_, form, after, rest) => Item(before, form, after, rest);
    Prefixed(gap, items.before);
    assert WriteItems(padded) == gap + WriteItems(items);
    assert gap + s == WriteItems(padded) + r.rest;
  }

  lemma Prefixed(gap: Text, before: Text)
    ensures forall tail: Text :: gap + before + tail == gap + (before + tail)
  {
  }

  lemma OneItem(s: Text, before: Text, form: Form, after: Text, t: Text, j: Json, open: nat)
    requires R.Blank(before) && R.Blank(after) && IsForm(form, Write(form) + (after + t), G.Ok(j, after + t), open)
    requires s == before + (Write(form) + (after + t))
    ensures IsItems(LastItem(before, form, after), s, G.Ok(Elem(j, NoElem), t), open)
  {
    hide Write;
    hide AcceptedForm;
    hide ShortNumbers;
    hide PairedUnits;
    hide ValueOf;
    hide R.Blank;
    ThreeParts(before, Write(form), after, t);
    assert NestingElems(Elem(j, NoElem)) == Nesting(j);
    assert s == WriteItems(LastItem(before, form, after)) + t;
  }

  lemma MoreItems(s: Text, before: Text, form: Form, after: Text, t: Text, j: Json,
                  more: Items, r: G.Parsed<Elems>, open: nat)
    requires R.Blank(before) && R.Blank(after) && IsForm(form, Write(form) + (after + t), G.Ok(j, after + t), open)
    requires s == before + (Write(form) + (after + t))
    requires t != [] && t[0] == COMMA && IsItems(more, t[1..], r, open)
    ensures IsItems(Item(before, form, after, more), s, G.Ok(Elem(j, r.value), r.rest), open)
  {
    hide Write;
    hide AcceptedForm;
    hide ShortNumbers;
    hide PairedUnits;
    hide ValueOf;
    hide R.Blank;
    ThreeParts(before, Write(form), after + ([COMMA] + WriteItems(more)), r.rest);
    Comma(after, t, WriteItems(more), r.rest);
  }

  lemma Comma(after: Text, t: Text, written: Text, rest: Text)
    requires t != [] && t[0] == COMMA && t[1..] == written + rest
    ensures after + t == (after + ([COMMA] + written)) + rest
  {
    assert t == [COMMA] + t[1..];
  }

  lemma {:induction false} ItemsOf(s: Text, open: nat) returns (items: Items)
    requires G.ParseElems(s, open).Ok? && open <= NESTING_LIMIT
    ensures IsItems(items, s, G.ParseElems(s, open), open)
    decreases |s|, 2
  {
    hide G.ParseValue;
    hide G.SkipWhitespace;
    hide R.Blank;
    hide Write;
    hide IsItems;
    hide AcceptedForm;
    hide Keeps;
    hide ValueOf;
    var before := SkipSplit(s);
    var u := G.SkipWhitespace(s);
    var form := FormOf(u, open);
    var r := G.ParseValue(u, open);
    var after := SkipSplit(r.rest);
    var t := G.SkipWhitespace(r.rest);
    if t == [] || t[0] != COMMA {
      items := LastItem(before, form, after);
      OneItem(s, before, form, after, t, r.value, open);
    } else {
      var more := ItemsOf(t[1..], open);
      items := Item(before, form, after, more);
      MoreItems(s, before, form, after, t, r.value, more, G.ParseElems(t[1..], open), open);
    }
  }

  lemma {:induction false} ObjectOf(s: Text, open: nat) returns (f: Form)
    requires s != [] && s[0] == LBRACE && G.ParseObject(s, open).Ok? && open <= NESTING_LIMIT
    ensures IsForm(f, s, G.ParseObject(s, open), open)
    decreases |s|, 0
  {
    hide G.ParseMembers;
    hide G.SkipWhitespace;
    hide R.Blank;
    hide IsEntries;
    var gap := SkipSplit(s[1..]);
    var t := G.SkipWhitespace(s[1..]);
    if t[0] == RBRACE {
      f := EmptyObject(gap);
      BracketsSplit(s, LBRACE, gap + t, gap, t);
    } else {
      var es := EntriesOf(t, open + 1);
      var rest := G.ParseMembers(t, open + 1).rest;
      var padded := PadEntries(gap, es, t, G.ParseMembers(t, open + 1), open + 1);
      f := ObjectForm(padded);
      EntriesFacts(padded, gap + t, G.ParseMembers(t, open + 1), open + 1);
      BracketsSplit(s, LBRACE, gap + t, WriteEntries(padded), rest);
    }
  }

  lemma EntriesFacts(es: Entries, s: Text, r: G.Parsed<Members>, open: nat)
    requires IsEntries(es, s, r, open)
    ensures r.Ok? && AcceptedEntries(es) && KeepsEntries(es) && MembersOf(es) == r.value
    ensures s == WriteEntries(es) + r.rest && open + NestingMembers(r.value) <= NESTING_LIMIT
  {
  }

  lemma PadEntries(gap: Text, es: Entries, s: Text, r: G.Parsed<Members>, open: nat) returns (padded: Entries)
    requires R.Blank(gap) && IsEntries(es, s, r, open)
    ensures IsEntries(padded, gap + s, r, open)
  {
    hide Write;
    hide AcceptedForm;
    hide AcceptedName;
    hide Keeps;
    hide ValueOf;
    hide Name;
    hide NameText;
    var before := gap + es.before;
    padded := match es
      case LastEntry(_, name, mid, lead, form, after) => LastEntry(before, name, mid, lead, form, after)
      case Entry(_, name, mid, lead, form, after, rest) => Entry(before, name, mid, lead, form, after, rest);
    Prefixed(gap, es.before);
    assert WriteEntries(padded) == gap + WriteEntries(es);
    assert gap + s == WriteEntries(padded) + r.rest;
  }

  /** One member with the white space around its parts, and what follows. */
  ghost predicate IsEntry(e: Entries, s: Text, key: Text, j: Json, t: Text, open: nat) {
    && R.Blank(e.before) && AcceptedName(e.name) && R.Blank(e.mid) && R.Blank(e.gap) && R.Blank(e.after)
    && AcceptedForm(e.form) && Paired(e.name) && Keeps(e.form) && ValueOf(e.form) == j && Name(e.name) == key
    && open + Nesting(j) <= NESTING_LIMIT && s == EntryText(e.before, e, t)
  }

  lemma OneEntry(e: Entries, s: Text, key: Text, j: Json, t: Text, open: nat)
    requires e.LastEntry? && IsEntry(e, s, key, j, t, open)
    ensures IsEntries(e, s, G.Ok(Member(key, j, NoMember), t), open)
  {
    hide Write;
    hide NameText;
    hide AcceptedForm;
    hide AcceptedName;
    hide ShortNumbers;
    hide PairedUnits;
    hide ValueOf;
    hide Name;
    hide R.Blank;
    SixParts(e.before, NameText(e.name), e.mid, [COLON], e.gap, Write(e.form), e.after, t);
    assert NestingMembers(Member(key, j, NoMember)) == Nesting(j);
    assert s == WriteEntries(e) + t;
  }

  lemma MoreEntries(e: Entries, s: Text, key: Text, j: Json, t: Text, r: G.Parsed<Members>, open: nat)
    requires e.Entry? && IsEntry(e, s, key, j, t, open)
    requires t != [] && t[0] == COMMA && IsEntries(e.rest, t[1..], r, open)
    ensures IsEntries(e, s, G.Ok(Member(key, j, r.value), r.rest), open)
  {
    hide Write;
    hide NameText;
    hide AcceptedForm;
    hide AcceptedName;
    hide ShortNumbers;
    hide PairedUnits;
    hide ValueOf;
    hide Name;
    hide R.Blank;
    var after := e.after + ([COMMA] + WriteEntries(e.rest));
    SixParts(e.before, NameText(e.name), e.mid, [COLON], e.gap, Write(e.form), after, r.rest);
    Comma(e.after, t, WriteEntries(e.rest), r.rest);
  }

  lemma {:induction false} EntriesOf(s: Text, open: nat) returns (es: Entries)
    requires s != [] && G.ParseMembers(s, open).Ok? && open <= NESTING_LIMIT
    ensures IsEntries(es, s, G.ParseMembers(s, open), open)
    decreases |s|, 2
  {
    hide G.ParseValue;
    hide G.ParseString;
    hide G.SkipWhitespace;
    hide R.Blank;
    hide Write;
    hide IsEntries;
    hide AcceptedForm;
    hide AcceptedName;
    hide Keeps;
    hide ValueOf;
    hide Name;
    hide NameText;
    var before := SkipSplit(s);
    var u := G.SkipWhitespace(s);
    var name := NameOf(u);
    var named := G.ParseString(u);
    var mid := SkipSplit(named.rest);
    var colon := G.SkipWhitespace(named.rest);
    assert colon == [COLON] + colon[1..];
    var gap := SkipSplit(colon[1..]);
    var value := G.SkipWhitespace(colon[1..]);
    var form := FormOf(value, open);
    var r := G.ParseValue(value, open);
    var after := SkipSplit(r.rest);
    var t := G.SkipWhitespace(r.rest);
    es := LastEntry(before, name, mid, gap, form, after);
    if t == [] || t[0] != COMMA {
      assert IsEntry(es, s, named.value, r.value, t, open);
      OneEntry(es, s, named.value, r.value, t, open);
    } else {
      var more := EntriesOf(t[1..], open);
      es := Entry(before, name, mid, gap, form, after, more);
      assert IsEntry(es, s, named.value, r.value, t, open);
      MoreEntries(es, s, named.value, r.value, t, G.ParseMembers(t[1..], open), open);
    }
  }

  // ----- whole texts -----

  /** The text is an accepted spelling of the value, within both limits. */
  ghost predicate IsSpelling(text: Text, j: Json, marked: bool, before: Text, f: Form, after: Text) {
    && R.Blank(before) && AcceptedForm(f) && R.Blank(after) && ValueOf(f) == j
    && Keeps(f) && Nesting(j) <= NESTING_LIMIT
    && text == Spelled(marked, before, f, after)
  }

  /**
   * The language of the parser: a C string is parsed to a tree exactly when it is an accepted
   * spelling of that tree's value, and then to its end.
   */
  lemma AcceptedExactly(text: Text, j: Json, end: nat)
    ensures G.ParseCString(text, true) == G.Tree(j, end) <==>
      end == |CString(text)|
      && exists marked, before, f, after :: IsSpelling(CString(text), j, marked, before, f, after)
  {
    hide G.ParseCString;
    hide IsSpelling;
    if G.ParseCString(text, true) == G.Tree(j, end) {
      var marked, before, f, after := SpellingOf(text, j, end);
    }
    if exists marked, before, f, after :: IsSpelling(CString(text), j, marked, before, f, after) {
      var marked, before, f, after :| IsSpelling(CString(text), j, marked, before, f, after);
      SpellingReads(text, j, marked, before, f, after);
    }
  }

  lemma SpellingReads(text: Text, j: Json, marked: bool, before: Text, f: Form, after: Text)
    requires IsSpelling(CString(text), j, marked, before, f, after)
    ensures G.ParseCString(text, true) == G.Tree(j, |CString(text)|)
  {
    hide Write;
    hide G.ParseWithLength;
    var t := CString(text);
    NulFreeConcat(if marked then BYTE_ORDER_MARK else [], before + (Write(f) + after));
    AcceptedTextReads(marked, before, f, after, true);
    CStringIsWhole(t);
  }

  lemma SpellingOf(text: Text, j: Json, end: nat) returns (marked: bool, before: Text, f: Form, after: Text)
    requires G.ParseCString(text, true) == G.Tree(j, end)
    ensures end == |CString(text)| && IsSpelling(CString(text), j, marked, before, f, after)
  {
    hide G.ParseValue;
    hide G.SkipWhitespace;
    hide CString;
    hide Write;
    hide AcceptedForm;
    hide R.Blank;
    hide Keeps;
    var t := CString(text);
    var content := t + [NUL];
    marked := |content| > 4 && content[..3] == BYTE_ORDER_MARK;
    var mark := if marked then BYTE_ORDER_MARK else [];
    var inner := G.SkipBom(content);
    assert content == mark + inner;
    before := SkipSplit(inner);
    var s := G.SkipWhitespace(inner);
    f := FormOf(s, 0);
    var rest := G.ParseValue(s, 0).rest;
    after := SkipSplit(rest);
    var tail := G.SkipWhitespace(rest);
    assert content == (mark + (before + (Write(f) + after))) + tail;
    TerminatorLast(t, mark + (before + (Write(f) + after)), tail);
  }

  lemma TerminatorLast(t: Text, front: Text, tail: Text)
    requires NulFree(t) && t + [NUL] == front + tail && tail != [] && tail[0] == NUL
    ensures t == front && |tail| == 1
  {
    assert (t + [NUL])[|front|] == NUL;
    assert |front| == |t|;
    assert (t + [NUL])[..|t|] == t && (front + tail)[..|front|] == front;
  }

  // ----- the beginning of a text -----

  /** The text begins with an accepted spelling of the value, which ends there; a number is the longest. */
  ghost predicate BeginsWith(text: Text, j: Json, end: nat, marked: bool, before: Text, f: Form) {
    var front := (if marked then BYTE_ORDER_MARK else []) + before;
    && R.Blank(before) && AcceptedForm(f) && ValueOf(f) == j && Keeps(f) && Nesting(j) <= NESTING_LIMIT
    && front + Write(f) <= text && end == |front + Write(f)|
    && (f.NumberForm? ==> Longest(f, text[|front|..]))
  }

  /**
   * The language of the parser when no terminator is asked for: a C string is parsed to a
   * tree exactly when it begins with an accepted spelling of that tree's value, a number
   * being taken as far as it goes; what follows it is not looked at.
   */
  lemma AcceptedBeginning(text: Text, j: Json, end: nat)
    ensures G.ParseCString(text, false) == G.Tree(j, end) <==>
      exists marked, before, f :: BeginsWith(CString(text), j, end, marked, before, f)
  {
    hide G.ParseCString;
    hide BeginsWith;
    if G.ParseCString(text, false) == G.Tree(j, end) {
      var marked, before, f := BeginningOf(text, j, end);
    }
    if exists marked, before, f :: BeginsWith(CString(text), j, end, marked, before, f) {
      var marked, before, f :| BeginsWith(CString(text), j, end, marked, before, f);
      BeginningReads(text, j, end, marked, before, f);
    }
  }

  /** The terminator is no part of a number. */
  lemma LongestBeforeNul(f: Form, s: Text)
    ensures Longest(f, s) <==> Longest(f, s + [NUL])
  {
    hide AcceptedNumber;
    hide NumberText;
    forall g: Form | g.NumberForm? && AcceptedForm(g) ensures Write(g) <= s + [NUL] <==> Write(g) <= s {
      NumberBytes(g.negative, g.whole, g.fraction, g.exponent);
      BeforeNul(Write(g), s);
    }
  }

  lemma BeforeNul(t: Text, s: Text)
    requires NulFree(t)
    ensures t <= s + [NUL] <==> t <= s
  {
    var all := s + [NUL];
    assert all[|s|] == NUL && all[..|s|] == s;
    if t <= all {
      assert forall i :: 0 <= i < |t| ==> t[i] == all[i];
    }
  }

  lemma BeginningReads(text: Text, j: Json, end: nat, marked: bool, before: Text, f: Form)
    requires BeginsWith(CString(text), j, end, marked, before, f)
    ensures G.ParseCString(text, false) == G.Tree(j, end)
  {
    hide G.ParseValue;
    hide G.SkipWhitespace;
    hide G.SkipBom;
    hide Write;
    hide AcceptedForm;
    hide Keeps;
    hide Longest;
    hide CString;
    var t := CString(text);
    var mark := if marked then BYTE_ORDER_MARK else [];
    var front := mark + before;
    var post := t[|front + Write(f)|..] + [NUL];
    var s := Write(f) + post;
    assert t[|front|..] + [NUL] == s;
    assert t + [NUL] == mark + (before + s);
    FirstByte(f);
    MarkSkipped(marked, before, s);
    BlankThenDark(before, s);
    LongestBeforeNul(f, t[|front|..]);
    ValueTaken(f, post);
  }

  lemma ValueTaken(f: Form, post: Text)
    requires AcceptedForm(f) && Keeps(f) && Nesting(ValueOf(f)) <= NESTING_LIMIT
    requires f.NumberForm? ==> Longest(f, Write(f) + post)
    ensures G.ParseValue(Write(f) + post, 0) == G.Ok(ValueOf(f), post)
  {
    hide G.ParseValue;
    hide G.ParseNumber;
    hide AcceptedNumber;
    hide NumberText;
    hide NumberValue;
    hide Longest;
    var s := Write(f) + post;
    if f.NumberForm? {
      NumberBytes(f.negative, f.whole, f.fraction, f.exponent);
      assert s[0] == Write(f)[0];
      R.NumberDispatch(s, 0);
      NumberExactly(s, f);
      assert s[|Write(f)|..] == post;
    } else {
      AcceptedReads(f, post, 0);
    }
  }

  lemma BeginningOf(text: Text, j: Json, end: nat) returns (marked: bool, before: Text, f: Form)
    requires G.ParseCString(text, false) == G.Tree(j, end)
    ensures BeginsWith(CString(text), j, end, marked, before, f)
  {
    hide G.ParseValue;
    hide G.SkipWhitespace;
    hide CString;
    hide Write;
    hide AcceptedForm;
    hide R.Blank;
    hide Keeps;
    hide Longest;
    var t := CString(text);
    var content := t + [NUL];
    marked := |content| > 4 && content[..3] == BYTE_ORDER_MARK;
    var mark := if marked then BYTE_ORDER_MARK else [];
    var inner := G.SkipBom(content);
    assert content == mark + inner;
    before := SkipSplit(inner);
    var s := G.SkipWhitespace(inner);
    f := FormOf(s, 0);
    var rest := G.ParseValue(s, 0).rest;
    var front := mark + before;
    assert content == front + s && content == (front + Write(f)) + rest;
    LastByte(f);
    TerminatorLeft(t, front, Write(f), rest);
    if f.NumberForm? {
      NumberWasTaken(f, s);
      NumberInFront(t, front, f, s);
    }
  }

  lemma NumberInFront(t: Text, front: Text, f: Form, s: Text)
    requires t + [NUL] == front + s && |front| <= |t| && Longest(f, s)
    ensures Longest(f, t[|front|..])
  {
    hide Longest;
    var content := t + [NUL];
    assert content[|front|..] == s && content[|front|..] == t[|front|..] + [NUL];
    LongestBeforeNul(f, t[|front|..]);
  }

  lemma NumberWasTaken(f: Form, s: Text)
    requires f.NumberForm? && IsForm(f, s, G.ParseValue(s, 0), 0)
    ensures Longest(f, s)
  {
    hide G.ParseValue;
    hide G.ParseNumber;
    hide AcceptedNumber;
    hide NumberText;
    hide NumberValue;
    hide Longest;
    NumberBytes(f.negative, f.whole, f.fraction, f.exponent);
    assert s[0] == Write(f)[0];
    R.NumberDispatch(s, 0);
    TakenIsLongest(s, f);
  }

  /** A value ends with a byte that is no terminator. */
  lemma LastByte(f: Form)
    requires AcceptedForm(f)
    ensures Write(f) != [] && Write(f)[|Write(f)| - 1] != NUL
  {
    hide AcceptedNumber;
    hide AcceptedName;
    hide NumberText;
    if f.NumberForm? {
      NumberBytes(f.negative, f.whole, f.fraction, f.exponent);
    }
  }

  lemma TerminatorLeft(t: Text, front: Text, written: Text, rest: Text)
    requires t + [NUL] == (front + written) + rest && written != [] && written[|written| - 1] != NUL
    ensures rest != [] && front + written <= t
  {
    var whole := front + written;
    assert whole[|whole| - 1] == written[|written| - 1];
    assert rest == [] ==> whole + rest == whole;
    assert (t + [NUL])[..|front + written|] == front + written;
  }
}
