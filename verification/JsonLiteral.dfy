/** String literals: how much room decoding needs, and what \u sequences decode to. */
module JsonLiteral {
  import opened Bytes
  import G = JsonGrammar

  // ----- how much the second pass writes -----

  /** Bytes written to the output until the literal ends or turns out to be malformed. */
  function OutputLength(t: Text): (r: nat)
    ensures G.Unescape(t).Done? ==> r == |G.Unescape(t).bytes|
  {
    if |t| <= 1 then 0
    else if t[0] != BACKSLASH then 1 + OutputLength(t[1..])
    else if t[1] == LETTER_U then
      match G.Utf16Literal(t)
      case None => 0
      case Some(d) => |G.Utf8(d.codepoint)| + OutputLength(t[d.length..])
    else
      match G.EscapedByte(t[1])
      case None => 0
      case Some(b) => 1 + OutputLength(t[2..])
  }

  /** Bytes and escape pairs that the sizing pass counts in `t` before its closing quote at `n`. */
  function Units(t: Text, n: nat): int
    requires n <= |t|
  {
    n - G.EscapesBefore(t, n)
  }

  /** Whether the sizing pass stops at byte `k`, rather than jumping over it as the second of a pair. */
  predicate Visits(t: Text, k: nat)
    requires k <= |t|
  {
    k == 0 || (if t[0] == BACKSLASH then k > 1 && Visits(t[2..], k - 2) else Visits(t[1..], k - 1))
  }

  lemma LiteralStep(t: Text, n: nat)
    requires G.LiteralEnd(t) == Some(n) && n > 0
    ensures var w := if t[0] == BACKSLASH then 2 else 1; w <= n < |t| && G.LiteralEnd(t[w..]) == Some(n - w)
  {
  }

  lemma UnitsStep(t: Text, n: nat, w: nat)
    requires 0 < w <= n < |t| && w == if t[0] == BACKSLASH then 2 else 1
    ensures Units(t, n) == 1 + Units(t[w..], n - w)
  {
  }

  lemma VisitsStep(t: Text, k: nat, w: nat)
    requires 0 < w <= k <= |t| && w == if t[0] == BACKSLASH then 2 else 1
    ensures Visits(t, k) == Visits(t[w..], k - w)
  {
  }

  /**
   * After `k` bytes the sizing pass stands at the same byte or one further, and has
   * counted at least one unit for every two bytes.
   */
  lemma {:induction false} Skip(t: Text, n: nat, k: nat)
    requires G.LiteralEnd(t) == Some(n) && k <= n <= |t|
    ensures Visits(t, k) ==> G.LiteralEnd(t[k..]) == Some(n - k) && 2 * Units(t, n) >= 2 * Units(t[k..], n - k) + k
    ensures !Visits(t, k) ==>
      && k < n && G.LiteralEnd(t[k + 1..]) == Some(n - k - 1)
      && 2 * Units(t, n) >= 2 * Units(t[k + 1..], n - k - 1) + k + 1
    decreases n
  {
    hide G.LiteralEnd;
    hide Units;
    if k == 0 {
      assert t[0..] == t;
    } else {
      LiteralStep(t, n);
      var w := if t[0] == BACKSLASH then 2 else 1;
      UnitsStep(t, n, w);
      if w <= k {
        hide Visits;
        VisitsStep(t, k, w);
        Skip(t[w..], n - w, k - w);
        assert t[w..][k - w..] == t[k..];
        assert k < n ==> t[w..][k - w + 1..] == t[k + 1..];
      }
    }
  }

  /**
   * The second pass never writes more than the sizing pass allowed for, even where the
   * two disagree on which backslash begins an escape: with `half` set, the first byte
   * of `t` was jumped over by the sizing pass.
   */
  lemma {:induction false} OutputFits(t: Text, n: nat, half: bool)
    requires half ==> t != []
    requires var k := if half then 1 else 0; k <= n && G.LiteralEnd(t[k..]) == Some(n - k)
    ensures var k := if half then 1 else 0; n < |t| && OutputLength(t[..n + 1]) <= k + Units(t[k..], n - k)
    decreases n, 1
  {
    hide G.Utf8;
    hide G.LiteralEnd;
    var k := if half then 1 else 0;
    assert t[0..] == t;
    hide Units;
    LiteralEndBasics(t[k..]);
    var u := t[..n + 1];
    if n == 0 {
      UnitsPositive(t, n);
    } else if t[0] != BACKSLASH {
      assert u[1..] == t[1..][..n];
      if !half {
        LiteralStep(t, n);
        UnitsStep(t, n, 1);
      }
      OutputFits(t[1..], n - 1, false);
      assert t[1..][0..] == t[1..];
    } else if t[1] == LETTER_U {
      match G.Utf16Literal(u)
      case None => UnitsPositive(t[k..], n - k);
      case Some(d) =>
        Utf16Size(u);
        OutputFitsAfter(t, n, half, d.length, |G.Utf8(d.codepoint)|);
    } else {
      match G.EscapedByte(t[1])
      case None => UnitsPositive(t[k..], n - k);
      case Some(_) =>
        if n == 1 {
          UnitsPositive(t[k..], n - k);
        } else {
          OutputFitsAfter(t, n, half, 2, 1);
        }
    }
  }

  lemma {:induction false} OutputFitsAfter(t: Text, n: nat, half: bool, c: nat, wrote: nat)
    requires half ==> t != []
    requires var k := if half then 1 else 0; k < c <= n && G.LiteralEnd(t[k..]) == Some(n - k)
    requires 2 * wrote <= c && c % 2 == 0
    ensures var k := if half then 1 else 0;
      n < |t| && wrote + OutputLength(t[..n + 1][c..]) <= k + Units(t[k..], n - k)
    decreases n, 0
  {
    hide OutputLength;
    hide G.LiteralEnd;
    hide Units;
    hide Visits;
    var k := if half then 1 else 0;
    LiteralEndBasics(t[k..]);
    var rest := t[c..];
    Skip(t[k..], n - k, c - k);
    Resliced(t, n, k, c);
    if Visits(t[k..], c - k) {
      OutputFits(rest, n - c, false);
    } else {
      OutputFits(rest, n - c, true);
    }
  }

  lemma Resliced(t: Text, n: nat, k: nat, c: nat)
    requires k < c <= n < |t|
    ensures t[k..][c - k..] == t[c..] && t[..n + 1][c..] == t[c..][..n - c + 1]
    ensures t[c..][0..] == t[c..] && t[k..][c - k + 1..] == t[c..][1..]
  {
  }

  lemma LiteralEndBasics(t: Text)
    requires G.LiteralEnd(t).Some?
    ensures var n := G.LiteralEnd(t).value;
      n < |t| && t[n] == QUOTE && (t[0] == BACKSLASH ==> n >= 2) && (t[0] == QUOTE <==> n == 0)
  {
  }

  lemma {:induction false} UnitsPositive(t: Text, n: nat)
    requires n <= |t|
    ensures Units(t, n) >= 0
    decreases n
  {
    if n > 0 {
      if t[0] == BACKSLASH && n > 1 {
        UnitsPositive(t[2..], n - 2);
      } else {
        UnitsPositive(t[1..], n - 1);
      }
    }
  }

  lemma Utf16Size(t: Text)
    requires G.Utf16Literal(t).Some?
    ensures var d := G.Utf16Literal(t).value;
      d.length < |t| && d.length % 2 == 0 && d.length >= 6 && 2 * |G.Utf8(d.codepoint)| <= d.length
  {
  }

  // ----- UTF-16 escapes -----

  type Scalar = c: int | 0 <= c < 0x11_0000 && !(0xD800 <= c < 0xE000)

  /** `b` is the hexadecimal digit of `n`, in either case. */
  predicate IsNibble(b: Byte, n: int) {
    if n < 10 then b == ZERO + n else b == 65 + n - 10 || b == 97 + n - 10
  }

  /** `t` is \uXXXX for the UTF-16 unit `u`. */
  predicate IsUnit(t: Text, u: int) {
    && |t| == 6 && t[0] == BACKSLASH && t[1] == LETTER_U
    && IsNibble(t[2], u / 4096) && IsNibble(t[3], u / 256 % 16)
    && IsNibble(t[4], u / 16 % 16) && IsNibble(t[5], u % 16)
  }

  /** `t` writes `c` as section 7 of RFC 8259 has it: one unit, or a surrogate pair. */
  predicate IsScalar(t: Text, c: Scalar) {
    if c < 0x1_0000 then IsUnit(t, c)
    else
      && |t| == 12
      && IsUnit(t[..6], 0xD800 + (c - 0x1_0000) / 1024)
      && IsUnit(t[6..], 0xDC00 + (c - 0x1_0000) % 1024)
  }

  function ScalarLength(c: Scalar): nat {
    if c < 0x1_0000 then 6 else 12
  }

  /** `t` writes all of `cs`, one after the other. */
  predicate Spells(t: Text, cs: seq<Scalar>)
    decreases cs
  {
    if cs == [] then t == []
    else
      var n := ScalarLength(cs[0]);
      n <= |t| && IsScalar(t[..n], cs[0]) && Spells(t[n..], cs[1..])
  }

  function Utf8All(cs: seq<Scalar>): Text {
    if cs == [] then [] else G.Utf8(cs[0]) + Utf8All(cs[1..])
  }

  lemma NibbleValue(b: Byte, n: int)
    requires 0 <= n < 16 && IsNibble(b, n)
    ensures G.HexValue(b) == Some(n) && b != BACKSLASH && b != QUOTE
  {
  }

  lemma UnitValue(t: Text, u: int)
    requires 0 <= u < 0x1_0000 && IsUnit(t, u)
    ensures G.Hex4(t[2..6]) == u
    ensures forall i :: 2 <= i < 6 ==> t[i] != BACKSLASH && t[i] != QUOTE
  {
    hide IsNibble;
    hide G.HexValue;
    NibbleValue(t[2], u / 4096);
    NibbleValue(t[3], u / 256 % 16);
    NibbleValue(t[4], u / 16 % 16);
    NibbleValue(t[5], u % 16);
    FourNibbles(u);
  }

  lemma FourNibbles(u: nat)
    ensures u == ((u / 4096 * 16 + u / 256 % 16) * 16 + u / 16 % 16) * 16 + u % 16
  {
    assert u == u / 16 * 16 + u % 16;
    assert u / 16 == u / 256 * 16 + u / 16 % 16;
    assert u / 256 == u / 4096 * 16 + u / 256 % 16;
  }

  lemma PlainInLiteral(b: Byte, rest: Text)
    requires b != BACKSLASH && b != QUOTE && G.LiteralEnd(rest).Some?
    ensures G.LiteralEnd([b] + rest) == Some(1 + G.LiteralEnd(rest).value)
  {
    hide G.LiteralEnd;
    var t := [b] + rest;
    assert t[1..] == rest;
    LiteralOverPlain(t);
  }

  lemma LiteralOverPlain(t: Text)
    requires t != [] && t[0] != BACKSLASH && t[0] != QUOTE && G.LiteralEnd(t[1..]).Some?
    ensures G.LiteralEnd(t) == Some(1 + G.LiteralEnd(t[1..]).value)
  {
  }

  lemma LiteralOverPair(t: Text)
    requires |t| >= 2 && t[0] == BACKSLASH && G.LiteralEnd(t[2..]).Some?
    ensures G.LiteralEnd(t) == Some(2 + G.LiteralEnd(t[2..]).value)
  {
  }

  lemma PairInLiteral(b: Byte, rest: Text)
    requires G.LiteralEnd(rest).Some?
    ensures G.LiteralEnd([BACKSLASH, b] + rest) == Some(2 + G.LiteralEnd(rest).value)
  {
    hide G.LiteralEnd;
    var t := [BACKSLASH, b] + rest;
    assert t[2..] == rest;
    LiteralOverPair(t);
  }

  /** A backslash, any byte, and four bytes that are neither backslash nor quote. */
  lemma SixInLiteral(t: Text, rest: Text)
    requires |t| == 6 && t[0] == BACKSLASH && forall i :: 2 <= i < 6 ==> t[i] != BACKSLASH && t[i] != QUOTE
    requires G.LiteralEnd(rest).Some?
    ensures G.LiteralEnd(t + rest) == Some(6 + G.LiteralEnd(rest).value)
  {
    hide G.LiteralEnd;
    var five, four, three, two := t[5..] + rest, t[4..] + rest, t[3..] + rest, t[2..] + rest;
    assert five == [t[5]] + rest;
    PlainInLiteral(t[5], rest);
    assert four == [t[4]] + five;
    PlainInLiteral(t[4], five);
    assert three == [t[3]] + four;
    PlainInLiteral(t[3], four);
    assert two == [t[2]] + three;
    PlainInLiteral(t[2], three);
    assert t + rest == [BACKSLASH, t[1]] + two;
    PairInLiteral(t[1], two);
  }

  lemma UnitInLiteral(t: Text, u: int, rest: Text)
    requires 0 <= u < 0x1_0000 && IsUnit(t, u) && G.LiteralEnd(rest).Some?
    ensures |t| == 6 && G.LiteralEnd(t + rest) == Some(6 + G.LiteralEnd(rest).value)
  {
    hide G.LiteralEnd;
    hide IsNibble;
    UnitValue(t, u);
    SixInLiteral(t, rest);
  }

  lemma ScalarInLiteral(t: Text, c: Scalar, rest: Text)
    requires IsScalar(t, c) && G.LiteralEnd(rest).Some?
    ensures G.LiteralEnd(t + rest) == Some(|t| + G.LiteralEnd(rest).value)
  {
    hide G.LiteralEnd;
    hide IsUnit;
    if c < 0x1_0000 {
      UnitInLiteral(t, c, rest);
    } else {
      var high, low := 0xD800 + (c - 0x1_0000) / 1024, 0xDC00 + (c - 0x1_0000) % 1024;
      var first, second := t[..6], t[6..];
      assert IsUnit(first, high) && IsUnit(second, low);
      PairOfUnits(first, high, second, low, rest);
      assert t == first + second;
    }
  }

  lemma PairOfUnits(first: Text, high: int, second: Text, low: int, rest: Text)
    requires 0 <= high < 0x1_0000 && 0 <= low < 0x1_0000 && IsUnit(first, high) && IsUnit(second, low)
    requires G.LiteralEnd(rest).Some?
    ensures G.LiteralEnd(first + second + rest) == Some(12 + G.LiteralEnd(rest).value)
  {
    hide G.LiteralEnd;
    hide IsUnit;
    UnitInLiteral(second, low, rest);
    UnitInLiteral(first, high, second + rest);
    assert first + (second + rest) == first + second + rest;
  }

  lemma ScalarDecoded(t: Text, c: Scalar, rest: Text)
    requires IsScalar(t, c) && rest != []
    ensures |t| == ScalarLength(c) && t[0] == BACKSLASH && t[1] == LETTER_U
    ensures G.Utf16Literal(t + rest) == Some(G.Decoded(|t|, c))
  {
    hide G.Hex4;
    hide IsNibble;
    var d := t + rest;
    if c < 0x1_0000 {
      UnitValue(t, c);
      assert d[2..6] == t[2..6];
    } else {
      var high, low := 0xD800 + (c - 0x1_0000) / 1024, 0xDC00 + (c - 0x1_0000) % 1024;
      UnitValue(t[..6], high);
      UnitValue(t[6..], low);
      assert d[2..6] == t[..6][2..6] && d[8..12] == t[6..][2..6];
      assert d[6] == t[6..][0] && d[7] == t[6..][1];
      assert high % 0x400 == (c - 0x1_0000) / 1024 && low % 0x400 == (c - 0x1_0000) % 1024;
    }
  }

  /** Scalar values written as \u sequences and surrogate pairs decode to their UTF-8 encoding. */
  lemma {:induction false} ScalarsDecode(t: Text, cs: seq<Scalar>)
    requires Spells(t, cs)
    ensures G.LiteralEnd(t + [QUOTE]) == Some(|t|)
    ensures G.Unescape(t + [QUOTE]) == G.Done(Utf8All(cs))
    decreases cs
  {
    hide G.LiteralEnd;
    hide IsScalar;
    hide G.Utf16Literal;
    hide G.Utf8;
    if cs == [] {
      QuoteEnds();
      assert t + [QUOTE] == [QUOTE];
    } else {
      var n := ScalarLength(cs[0]);
      var rest := t[n..] + [QUOTE];
      ScalarsDecode(t[n..], cs[1..]);
      ScalarInLiteral(t[..n], cs[0], rest);
      ScalarDecoded(t[..n], cs[0], rest);
      assert t[..n] + rest == t + [QUOTE];
      assert (t + [QUOTE])[n..] == rest;
      assert (t + [QUOTE])[0] == t[..n][0] && (t + [QUOTE])[1] == t[..n][1];
    }
  }

  lemma QuoteEnds()
    ensures G.LiteralEnd([QUOTE]) == Some(0)
  {
  }

  lemma {:induction false} Utf8NulFree(cs: seq<Scalar>)
    ensures NulFree(Utf8All(cs)) <==> 0 !in cs
  {
    if cs != [] {
      var head, tail := G.Utf8(cs[0]), Utf8All(cs[1..]);
      Utf8NulFree(cs[1..]);
      assert cs == [cs[0]] + cs[1..];
      Utf8HasNul(cs[0]);
      NulFreeConcat(head, tail);
    }
  }

  lemma Utf8HasNul(c: Scalar)
    ensures NulFree(G.Utf8(c)) <==> c != 0
  {
    assert c == 0 ==> G.Utf8(c)[0] == 0;
  }

  /**
   * A literal of \u sequences parses to the UTF-8 encoding of its scalar values; as
   * the result is a C string, it is the whole encoding exactly when no U+0000 is among them.
   */
  lemma ScalarsParse(t: Text, cs: seq<Scalar>, rest: Text)
    requires Spells(t, cs)
    ensures G.ParseString([QUOTE] + t + [QUOTE] + rest) == G.Ok(CString(Utf8All(cs)), rest)
    ensures CString(Utf8All(cs)) == Utf8All(cs) <==> 0 !in cs
  {
    hide G.LiteralEnd;
    hide G.Unescape;
    hide Spells;
    hide Utf8All;
    hide CString;
    ScalarsDecode(t, cs);
    LiteralParses(t, Utf8All(cs), rest);
    Utf8NulFree(cs);
    CStringIsWhole(Utf8All(cs));
  }

  lemma LiteralParses(t: Text, bytes: Text, rest: Text)
    requires G.LiteralEnd(t + [QUOTE]) == Some(|t|) && G.Unescape(t + [QUOTE]) == G.Done(bytes)
    ensures G.ParseString([QUOTE] + t + [QUOTE] + rest) == G.Ok(CString(bytes), rest)
  {
    hide G.LiteralEnd;
    hide G.Unescape;
    hide CString;
    LiteralEndExtends(t + [QUOTE], rest);
    var s := [QUOTE] + t + [QUOTE] + rest;
    assert s[1..] == t + [QUOTE] + rest;
    assert s[1..|t| + 2] == t + [QUOTE];
    assert s[|t| + 2..] == rest;
  }

  lemma LiteralFails(t: Text, rest: Text)
    requires G.LiteralEnd(t + [QUOTE]) == Some(|t|) && G.Unescape(t + [QUOTE]).Bad?
    ensures G.ParseString([QUOTE] + t + [QUOTE] + rest).Err?
  {
    hide G.LiteralEnd;
    hide G.Unescape;
    LiteralEndExtends(t + [QUOTE], rest);
    var s := [QUOTE] + t + [QUOTE] + rest;
    assert s[1..] == t + [QUOTE] + rest;
    assert s[1..|t| + 2] == t + [QUOTE];
  }

  lemma {:induction false} LiteralEndExtends(t: Text, rest: Text)
    requires G.LiteralEnd(t).Some?
    ensures G.LiteralEnd(t + rest) == G.LiteralEnd(t)
  {
    if t[0] != QUOTE {
      var w := if t[0] == BACKSLASH then 2 else 1;
      assert (t + rest)[w..] == t[w..] + rest;
      LiteralEndExtends(t[w..], rest);
    }
  }

  // ----- digits that are none -----

  predicate IsHexDigit(b: Byte) {
    G.HexValue(b).Some?
  }

  predicate HasOddDigit(t: Text)
    requires |t| == 6
  {
    !IsHexDigit(t[2]) || !IsHexDigit(t[3]) || !IsHexDigit(t[4]) || !IsHexDigit(t[5])
  }

  predicate IsZeroUnit(t: Text)
    requires |t| == 6
  {
    t[2] == ZERO && t[3] == ZERO && t[4] == ZERO && t[5] == ZERO
  }

  lemma HexZero(b: Byte)
    ensures G.HexValue(b) == Some(0) <==> b == ZERO
  {
  }

  lemma Hex4IsZero(t: Text)
    requires |t| == 6
    ensures G.Hex4(t[2..6]) == 0 <==> IsZeroUnit(t) || HasOddDigit(t)
  {
    var d := t[2..6];
    HexZero(t[2]);
    HexZero(t[3]);
    HexZero(t[4]);
    HexZero(t[5]);
    hide G.HexValue;
    assert d[0] == t[2] && d[1] == t[3] && d[2] == t[4] && d[3] == t[5];
  }

  /**
   * A sequence is taken for U+0000 exactly when it is written 0000 or one of its four
   * bytes is no hexadecimal digit: such a sequence is accepted, not refused.
   */
  lemma ReadAsNulExactly(t: Text, rest: Text)
    requires |t| == 6 && t[0] == BACKSLASH && t[1] == LETTER_U && rest != []
    ensures G.Utf16Literal(t + rest) == Some(G.Decoded(6, 0)) <==> IsZeroUnit(t) || HasOddDigit(t)
  {
    var d := t + rest;
    assert d[2..6] == t[2..6];
    Hex4IsZero(t);
    hide G.Hex4;
  }

  /** In a string it ends the value: the literal "a\uZZZZb" parses to the string "a". */
  lemma OddDigitsCutString(rest: Text)
    ensures G.ParseString([QUOTE, 97, BACKSLASH, LETTER_U, 90, 90, 90, 90, 98, QUOTE] + rest) == G.Ok([97], rest)
  {
    hide G.ParseString;
    hide G.Utf16Literal;
    hide G.LiteralEnd;
    hide G.Unescape;
    var unit, tail: Text := [BACKSLASH, LETTER_U, 90, 90, 90, 90], [98, QUOTE];
    var inner: Text := [97] + (unit + tail);
    QuoteEnds();
    PlainInLiteral(98, [QUOTE]);
    assert [98] + [QUOTE] == tail;
    SixInLiteral(unit, tail);
    PlainInLiteral(97, unit + tail);
    OddUnescaped(unit, tail);
    var t: Text := [97] + unit + [98];
    assert t + [QUOTE] == inner;
    LiteralParses(t, [97, 0, 98], rest);
    assert [QUOTE] + t + [QUOTE] + rest == [QUOTE, 97, BACKSLASH, LETTER_U, 90, 90, 90, 90, 98, QUOTE] + rest;
    var bytes: Text := [97, 0, 98];
    assert bytes[1..] == [0, 98];
    assert CString(bytes[1..]) == [];
    assert CString(bytes) == [97];
  }

  lemma OddUnescaped(unit: Text, tail: Text)
    requires unit == [BACKSLASH, LETTER_U, 90, 90, 90, 90] && tail == [98, QUOTE]
    ensures G.Unescape([97] + (unit + tail)) == G.Done([97, 0, 98])
  {
    ReadAsNulExactly(unit, tail);
    hide G.Utf16Literal;
    var s := unit + tail;
    assert G.Unescape(tail) == G.Done([98]) by {
      assert tail[1..] == [QUOTE];
    }
    assert s[6..] == tail;
    assert G.Unescape(s) == G.Prepend(G.Utf8(0), G.Unescape(tail));
    assert ([97] + s)[1..] == s;
  }

  // ----- UTF-8 -----

  predicate Continues(b: Byte) {
    0x80 <= b < 0xC0
  }

  /** Reads one scalar value as section 3 of RFC 3629 lays it out: its length and value. */
  function DecodeOne(t: Text): (r: Option<G.Decoded>)
    ensures r.Some? ==> 1 <= r.value.length <= |t|
  {
    if t == [] then None
    else if t[0] < 0x80 then Some(G.Decoded(1, t[0]))
    else if 0xC0 <= t[0] < 0xE0 && |t| >= 2 && Continues(t[1]) then
      Some(G.Decoded(2, (t[0] as int) % 32 * 64 + (t[1] as int) % 64))
    else if 0xE0 <= t[0] < 0xF0 && |t| >= 3 && Continues(t[1]) && Continues(t[2]) then
      Some(G.Decoded(3, ((t[0] as int) % 16 * 64 + (t[1] as int) % 64) * 64 + (t[2] as int) % 64))
    else if 0xF0 <= t[0] < 0xF8 && |t| >= 4 && Continues(t[1]) && Continues(t[2]) && Continues(t[3]) then
      Some(G.Decoded(4,
        (((t[0] as int) % 8 * 64 + (t[1] as int) % 64) * 64 + (t[2] as int) % 64) * 64 + (t[3] as int) % 64))
    else None
  }

  function DecodeAll(t: Text): Option<seq<int>> {
    if t == [] then Some([])
    else
      match DecodeOne(t)
      case None => None
      case Some(d) =>
        match DecodeAll(t[d.length..])
        case None => None
        case Some(cs) => Some([d.codepoint] + cs)
  }

  lemma TwoBytes(a: nat, b: nat, t: Text)
    requires a < 32 && b < 64 && |t| >= 2 && t[0] == 0xC0 + a && t[1] == 0x80 + b
    ensures DecodeOne(t) == Some(G.Decoded(2, a * 64 + b))
  {
  }

  lemma ThreeBytes(a: nat, b: nat, c: nat, t: Text)
    requires a < 16 && b < 64 && c < 64 && |t| >= 3 && t[0] == 0xE0 + a && t[1] == 0x80 + b && t[2] == 0x80 + c
    ensures DecodeOne(t) == Some(G.Decoded(3, (a * 64 + b) * 64 + c))
  {
    assert t[0] % 16 == a;
  }

  lemma FourBytes(a: nat, b: nat, c: nat, d: nat, t: Text)
    requires a < 8 && b < 64 && c < 64 && d < 64 && |t| >= 4
    requires t[0] == 0xF0 + a && t[1] == 0x80 + b && t[2] == 0x80 + c && t[3] == 0x80 + d
    ensures DecodeOne(t) == Some(G.Decoded(4, ((a * 64 + b) * 64 + c) * 64 + d))
  {
    assert t[0] % 8 == a;
  }

  lemma SixBits(c: nat, q: nat, r: nat)
    requires q == c / 64 && r == c % 64
    ensures c == q * 64 + r
  {
  }

  lemma SixBitsTwice(c: nat)
    ensures c / 4096 == c / 64 / 64
  {
  }

  lemma SixBitParts(c: nat)
    ensures c == c / 64 * 64 + c % 64
    ensures c == (c / 4096 * 64 + c / 64 % 64) * 64 + c % 64
    ensures c == ((c / 262144 * 64 + c / 4096 % 64) * 64 + c / 64 % 64) * 64 + c % 64
  {
    SixBits(c, c / 64, c % 64);
    SixBitsTwice(c);
    SixBits(c / 64, c / 4096, c / 64 % 64);
    assert c / 262144 == c / 4096 / 64;
    SixBits(c / 4096, c / 262144, c / 4096 % 64);
  }

  lemma DecodeOneInverts(c: Scalar, rest: Text)
    ensures DecodeOne(G.Utf8(c) + rest) == Some(G.Decoded(|G.Utf8(c)|, c))
  {
    var t := G.Utf8(c) + rest;
    SixBitParts(c);
    if c < 0x80 {
      assert t[0] == c;
    } else {
      hide DecodeOne;
      if c < 0x800 {
        TwoBytes(c / 64, c % 64, t);
      } else if c < 0x1_0000 {
        ThreeBytes(c / 4096, c / 64 % 64, c % 64, t);
      } else {
        FourBytes(c / 262144, c / 4096 % 64, c / 64 % 64, c % 64, t);
      }
    }
  }

  /** The bytes produced are real UTF-8: they decode to the scalar values again. */
  lemma {:induction false} Utf8Inverts(cs: seq<Scalar>)
    ensures DecodeAll(Utf8All(cs)) == Some(cs)
  {
    hide G.Utf8;
    hide DecodeOne;
    if cs != [] {
      var u, rest := G.Utf8(cs[0]), Utf8All(cs[1..]);
      DecodeOneInverts(cs[0], rest);
      Utf8Inverts(cs[1..]);
      assert (u + rest)[|u|..] == rest;
      assert cs == [cs[0]] + cs[1..];
    }
  }
}
