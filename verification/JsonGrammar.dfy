/**
 * What the parser answers, as functions of the unread input.  Every function
 * maps the bytes still to be read to a value and the bytes left over, or to the
 * bytes left over at the point where parsing gave up.
 */
module JsonGrammar {
  import opened Bytes
  import opened JsonValue

  datatype Parsed<+T> = Ok(value: T, rest: Text) | Err(rest: Text)

  // ----- white space -----

  function DropWhitespace(s: Text): (r: Text)
    ensures |r| <= |s|
    ensures r != [] ==> r[0] > 32
  {
    if s != [] && s[0] <= 32 then DropWhitespace(s[1..]) else s
  }

  /** Skips bytes up to 32; input that runs out is left at its last byte. */
  function SkipWhitespace(s: Text): (r: Text)
    ensures |r| <= |s|
    ensures s != [] ==> r != []
  {
    if s == [] then s
    else if DropWhitespace(s) == [] then s[|s| - 1..]
    else DropWhitespace(s)
  }

  // ----- numbers -----

  predicate IsNumberByte(b: Byte) {
    IsDigit(b) || b == PLUS || b == MINUS || b == 101 || b == 69 || b == DOT
  }

  predicate IsSign(b: Byte) {
    b == PLUS || b == MINUS
  }

  /** The longest run of number bytes, at most 63 of them. */
  function NumberToken(s: Text, limit: nat): (t: Text)
    ensures |t| <= |s| && |t| <= limit && t == s[..|t|]
    ensures forall i :: 0 <= i < |t| ==> IsNumberByte(t[i])
    ensures |t| < |s| && |t| < limit ==> !IsNumberByte(s[|t|])
  {
    if s == [] || limit == 0 || !IsNumberByte(s[0]) then []
    else [s[0]] + NumberToken(s[1..], limit - 1)
  }

  /** One past the last digit of the run of digits that starts at `i`. */
  function DigitsEnd(t: Text, i: nat): (e: nat)
    requires i <= |t|
    ensures i <= e <= |t|
    ensures forall k :: i <= k < e ==> IsDigit(t[k])
    ensures e < |t| ==> !IsDigit(t[e])
    decreases |t| - i
  {
    if i < |t| && IsDigit(t[i]) then DigitsEnd(t, i + 1) else i
  }

  function DigitsValue(t: Text): int {
    if t == [] then 0 else 10 * DigitsValue(t[..|t| - 1]) + (t[|t| - 1] - ZERO)
  }

  function PowerOfTen(e: int): (p: real)
    decreases if e < 0 then -e else e
  {
    if e == 0 then 1.0 else if e > 0 then 10.0 * PowerOfTen(e - 1) else PowerOfTen(e + 1) / 10.0
  }

  /** The digits as an integer, times a power of ten. */
  function Scaled(digits: Text, exponent: int): real {
    DigitsValue(digits) as real * PowerOfTen(exponent)
  }

  /** Length and value of the exponent part at `i`; 0 and 0 where there is none. */
  function Exponent(t: Text, i: nat): (r: (nat, int))
    requires i <= |t|
    ensures i + r.0 <= |t|
  {
    if i < |t| && (t[i] == 101 || t[i] == 69) then
      var first := if i + 1 < |t| && IsSign(t[i + 1]) then i + 2 else i + 1;
      var last := DigitsEnd(t, first);
      var digits := DigitsValue(t[first..last]);
      if last == first then (0, 0)
      else (last - i, if first == i + 2 && t[i + 1] == MINUS then -digits else digits)
    else (0, 0)
  }

  /** `strtod` on a decimal token, over exact reals: bytes consumed and the number. */
  function Strtod(t: Text): (r: Option<(nat, real)>)
    ensures r.Some? ==> 0 < r.value.0 <= |t|
  {
    var first := if t != [] && IsSign(t[0]) then 1 else 0;
    var point := DigitsEnd(t, first);
    var hasPoint := point < |t| && t[point] == DOT;
    var last := if hasPoint then DigitsEnd(t, point + 1) else point;
    var fraction := if hasPoint then t[point + 1..last] else [];
    var digits := t[first..point] + fraction;
    if digits == [] then None else
    var exponent := Exponent(t, last);
    var magnitude := Scaled(digits, exponent.1 - |fraction|);
    Some((last + exponent.0, if first == 1 && t[0] == MINUS then -magnitude else magnitude))
  }

  function ParseNumber(s: Text): (r: Parsed<Json>)
    ensures r.Ok? ==> |r.rest| < |s|
    ensures |r.rest| <= |s|
  {
    match Strtod(NumberToken(s, 63))
    case None => Err(s)
    case Some((n, d)) => Ok(Number(d), s[n..])
  }

  // ----- strings -----

  /** Bytes before the closing quote of a literal whose opening quote is already read. */
  function LiteralEnd(t: Text): (r: Option<nat>)
    ensures r.Some? ==> r.value < |t| && t[r.value] == QUOTE
  {
    if t == [] then None
    else if t[0] == QUOTE then Some(0)
    else if t[0] == BACKSLASH then
      if |t| < 2 then None else
      match LiteralEnd(t[2..]) case None => None case Some(n) => Some(n + 2)
    else
      match LiteralEnd(t[1..]) case None => None case Some(n) => Some(n + 1)
  }

  /** Backslashes that the sizing pass meets, skipping the byte after each. */
  function EscapesBefore(t: Text, n: nat): nat
    requires n <= |t|
    decreases n
  {
    if n == 0 then 0
    else if t[0] == BACKSLASH then 1 + (if n == 1 then 0 else EscapesBefore(t[2..], n - 2))
    else EscapesBefore(t[1..], n - 1)
  }

  function HexValue(b: Byte): (r: Option<nat>)
    ensures r.Some? ==> r.value < 16
  {
    if 48 <= b <= 57 then Some(b - 48)
    else if 65 <= b <= 70 then Some(10 + b - 65)
    else if 97 <= b <= 102 then Some(10 + b - 97)
    else None
  }

  /** Four hexadecimal digits; anything else counts as 0. */
  function Hex4(t: Text): (r: nat)
    requires |t| == 4
    ensures r < 0x1_0000
  {
    var a, b, c, d := HexValue(t[0]), HexValue(t[1]), HexValue(t[2]), HexValue(t[3]);
    if a.Some? && b.Some? && c.Some? && d.Some?
    then ((a.value * 16 + b.value) * 16 + c.value) * 16 + d.value
    else 0
  }

  /** UTF-8 as in section 3 of RFC 3629. */
  function Utf8(c: int): (t: Text)
    requires 0 <= c < 0x11_0000
    ensures 1 <= |t| <= 4
  {
    if c < 0x80 then [c]
    else if c < 0x800 then [0xC0 + c / 64, 0x80 + c % 64]
    else if c < 0x1_0000 then [0xE0 + c / 4096, 0x80 + c / 64 % 64, 0x80 + c % 64]
    else [0xF0 + c / 262144, 0x80 + c / 4096 % 64, 0x80 + c / 64 % 64, 0x80 + c % 64]
  }

  /** A decoded \uXXXX sequence: bytes of input used and the code point. */
  datatype Decoded = Decoded(length: nat, codepoint: nat)

  /** One or two UTF-16 units at the start of `t`, whose last byte is the closing quote. */
  function Utf16Literal(t: Text): (r: Option<Decoded>)
    ensures r.Some? ==> r.value.length < |t| && r.value.codepoint < 0x11_0000
    ensures r.Some? ==> r.value.length == 6 || r.value.length == 12
  {
    if |t| < 7 then None else
    var first := Hex4(t[2..6]);
    if 0xDC00 <= first <= 0xDFFF then None
    else if 0xD800 <= first <= 0xDBFF then
      if |t| < 13 || t[6] != BACKSLASH || t[7] != LETTER_U then None else
      var second := Hex4(t[8..12]);
      if second < 0xDC00 || second > 0xDFFF then None
      else Some(Decoded(12, 0x1_0000 + first % 0x400 * 0x400 + second % 0x400))
    else Some(Decoded(6, first))
  }

  /** The byte a two-byte escape stands for. */
  function EscapedByte(letter: Byte): Option<Byte> {
    if letter == 98 then Some(8)
    else if letter == 102 then Some(12)
    else if letter == 110 then Some(10)
    else if letter == 114 then Some(13)
    else if letter == 116 then Some(9)
    else if letter == QUOTE || letter == BACKSLASH || letter == SLASH then Some(letter)
    else None
  }

  datatype Unescaped = Done(bytes: Text) | Bad(rest: Text)

  function Prepend(t: Text, u: Unescaped): (r: Unescaped)
    ensures r.Bad? <==> u.Bad?
    ensures r.Bad? ==> r == u
    ensures r.Done? ==> r.bytes == t + u.bytes
  {
    match u
    case Done(b) => Done(t + b)
    case Bad(_) => u
  }

  /**
   * The bytes of a literal; `t` runs up to and including the closing quote.
   * An escape that swallowed an odd number of backslashes may leave a backslash
   * just before the quote, which then reads as an escaped quote.
   */
  function Unescape(t: Text): (r: Unescaped)
    ensures r.Bad? ==> |r.rest| <= |t|
  {
    if |t| <= 1 then Done([])
    else if t[0] != BACKSLASH then Prepend([t[0]], Unescape(t[1..]))
    else if t[1] == LETTER_U then
      match Utf16Literal(t)
      case None => Bad(t)
      case Some(d) => Prepend(Utf8(d.codepoint), Unescape(t[d.length..]))
    else
      match EscapedByte(t[1])
      case None => Bad(t)
      case Some(b) => Prepend([b], Unescape(t[2..]))
  }

  function ParseString(s: Text): (r: Parsed<Text>)
    requires s != []
    ensures |r.rest| < |s|
  {
    if s[0] != QUOTE then Err(s[1..]) else
    match LiteralEnd(s[1..])
    case None => Err(s[1..])
    case Some(n) =>
      match Unescape(s[1..n + 2])
      case Bad(t) => Err(s[n + 2 - |t|..])
      case Done(bytes) => Ok(CString(bytes), s[n + 2..])
  }

  // ----- values -----

  function ParseValue(s: Text, depth: nat): (r: Parsed<Json>)
    ensures r.Ok? ==> |r.rest| < |s|
    ensures |r.rest| <= |s|
    decreases |s|, 1
  {
    if StartsWith(s, NULL_TEXT) then Ok(Null, s[4..])
    else if StartsWith(s, FALSE_TEXT) then Ok(False, s[5..])
    else if StartsWith(s, TRUE_TEXT) then Ok(True, s[4..])
    else if s == [] then Err(s)
    else if s[0] == QUOTE then
      match ParseString(s)
      case Ok(t, rest) => Ok(String(t), rest)
      case Err(rest) => Err(rest)
    else if s[0] == MINUS || IsDigit(s[0]) then ParseNumber(s)
    else if s[0] == LBRACKET then ParseArray(s, depth)
    else if s[0] == LBRACE then ParseObject(s, depth)
    else Err(s)
  }

  function ParseArray(s: Text, depth: nat): (r: Parsed<Json>)
    requires s != []
    ensures r.Ok? ==> |r.rest| < |s|
    ensures |r.rest| <= |s|
    decreases |s|, 0
  {
    if depth >= NESTING_LIMIT then Err(s) else
    var t := SkipWhitespace(s[1..]);
    if t == [] then Err(s)
    else if t[0] == RBRACKET then Ok(Array(NoElem), t[1..])
    else
      match ParseElems(t, depth + 1)
      case Err(rest) => Err(rest)
      case Ok(es, rest) =>
        if rest == [] || rest[0] != RBRACKET then Err(rest) else Ok(Array(es), rest[1..])
  }

  /** Elements separated by commas; stops at the first byte that is not a comma. */
  function ParseElems(s: Text, depth: nat): (r: Parsed<Elems>)
    ensures r.Ok? ==> |r.rest| < |s|
    ensures |r.rest| <= |s|
    decreases |s|, 2
  {
    match ParseValue(SkipWhitespace(s), depth)
    case Err(rest) => Err(rest)
    case Ok(j, after) =>
      var t := SkipWhitespace(after);
      if t == [] || t[0] != COMMA then Ok(Elem(j, NoElem), t)
      else
        match ParseElems(t[1..], depth)
        case Err(rest) => Err(rest)
        case Ok(es, rest) => Ok(Elem(j, es), rest)
  }

  function ParseObject(s: Text, depth: nat): (r: Parsed<Json>)
    requires s != []
    ensures r.Ok? ==> |r.rest| < |s|
    ensures |r.rest| <= |s|
    decreases |s|, 0
  {
    if depth >= NESTING_LIMIT then Err(s) else
    var t := SkipWhitespace(s[1..]);
    if t == [] then Err(s)
    else if t[0] == RBRACE then Ok(Object(NoMember), t[1..])
    else
      match ParseMembers(t, depth + 1)
      case Err(rest) => Err(rest)
      case Ok(ms, rest) =>
        if rest == [] || rest[0] != RBRACE then Err(rest) else Ok(Object(ms), rest[1..])
  }

  function ParseMembers(s: Text, depth: nat): (r: Parsed<Members>)
    requires s != []
    ensures r.Ok? ==> |r.rest| < |s|
    ensures |r.rest| <= |s|
    decreases |s|, 2
  {
    match ParseString(SkipWhitespace(s))
    case Err(rest) => Err(rest)
    case Ok(key, afterKey) =>
      var t := SkipWhitespace(afterKey);
      if t == [] || t[0] != COLON then Err(t) else
      match ParseValue(SkipWhitespace(t[1..]), depth)
      case Err(rest) => Err(rest)
      case Ok(j, after) =>
        var u := SkipWhitespace(after);
        if u == [] || u[0] != COMMA then Ok(Member(key, j, NoMember), u)
        else if |u| < 2 then Err(u)
        else
          match ParseMembers(u[1..], depth)
          case Err(rest) => Err(rest)
          case Ok(ms, rest) => Ok(Member(key, j, ms), rest)
  }

  // ----- one turn at a time -----

  lemma PlainStep(t: Text)
    requires |t| > 1 && t[0] != BACKSLASH
    ensures Unescape(t) == Prepend([t[0]], Unescape(t[1..]))
  {
  }

  lemma UnicodeStep(t: Text)
    requires |t| > 1 && t[0] == BACKSLASH && t[1] == LETTER_U
    ensures match Utf16Literal(t)
      case None => Unescape(t) == Bad(t)
      case Some(d) => d.length < |t| && Unescape(t) == Prepend(Utf8(d.codepoint), Unescape(t[d.length..]))
  {
    hide Utf8;
    hide Utf16Literal;
  }

  lemma EscapeStep(t: Text)
    requires |t| > 1 && t[0] == BACKSLASH && t[1] != LETTER_U
    ensures match EscapedByte(t[1])
      case None => Unescape(t) == Bad(t)
      case Some(b) => Unescape(t) == Prepend([b], Unescape(t[2..]))
  {
    hide EscapedByte;
  }

  /** One element with the white space before and after it. */
  function OneElem(here: Text, depth: nat): (r: Parsed<Json>)
    ensures |r.rest| <= |here|
    ensures r.Ok? ==> |r.rest| < |here|
  {
    match ParseValue(SkipWhitespace(here), depth)
    case Err(rest) => Err(rest)
    case Ok(j, after) => Ok(j, SkipWhitespace(after))
  }

  lemma ElemsUnfold(here: Text, depth: nat)
    ensures ParseElems(here, depth) ==
      match OneElem(here, depth)
      case Err(rest) => Err(rest)
      case Ok(j, t) =>
        if t == [] || t[0] != COMMA then Ok(Elem(j, NoElem), t)
        else match ParseElems(t[1..], depth) case Err(rest) => Err(rest) case Ok(es, rest) => Ok(Elem(j, es), rest)
  {
    hide SkipWhitespace;
    hide ParseValue;
  }

  /** A name, a colon and a value, with the white space after them. */
  function OneMember(here: Text, depth: nat): (r: Parsed<(Text, Json)>)
    requires here != []
    ensures |r.rest| <= |here|
    ensures r.Ok? ==> |r.rest| < |here|
  {
    match ParseString(SkipWhitespace(here))
    case Err(rest) => Err(rest)
    case Ok(key, afterKey) => ValueOfMember(key, SkipWhitespace(afterKey), depth)
  }

  function ValueOfMember(key: Text, t: Text, depth: nat): (r: Parsed<(Text, Json)>)
    ensures |r.rest| <= |t|
  {
    if t == [] || t[0] != COLON then Err(t) else
    match ParseValue(SkipWhitespace(t[1..]), depth)
    case Err(rest) => Err(rest)
    case Ok(j, after) => Ok((key, j), SkipWhitespace(after))
  }

  /** The rest of an object's members when the unread input begins with the comma. */
  function MembersAfterComma(u: Text, depth: nat): Parsed<Members>
    requires u != []
  {
    if |u| < 2 then Err(u) else ParseMembers(u[1..], depth)
  }

  lemma MembersUnfold(here: Text, depth: nat)
    requires here != []
    ensures ParseMembers(here, depth) ==
      match OneMember(here, depth)
      case Err(rest) => Err(rest)
      case Ok(m, u) =>
        if u == [] || u[0] != COMMA then Ok(Member(m.0, m.1, NoMember), u)
        else
          match MembersAfterComma(u, depth)
          case Err(rest) => Err(rest)
          case Ok(ms, rest) => Ok(Member(m.0, m.1, ms), rest)
  {
    hide SkipWhitespace;
    hide ParseValue;
    hide ParseString;
  }

  // ----- whole texts -----

  function SkipBom(s: Text): Text {
    if |s| > 4 && s[..3] == [0xEF, 0xBB, 0xBF] then s[3..] else s
  }

  /** A parse of a whole buffer: the tree and where it ended, or where it failed. */
  datatype Outcome = Tree(json: Json, end: nat) | Failure(position: nat)

  function FailureAt(content: Text, rest: Text): Outcome
    requires 0 < |content| && |rest| <= |content|
  {
    Failure(if rest == [] then |content| - 1 else |content| - |rest|)
  }

  function ParseWithLength(content: Text, requireNul: bool): Outcome {
    if content == [] then Failure(0) else
    match ParseValue(SkipWhitespace(SkipBom(content)), 0)
    case Err(rest) => FailureAt(content, rest)
    case Ok(j, rest) =>
      var tail := if requireNul then SkipWhitespace(rest) else rest;
      if requireNul && (tail == [] || tail[0] != NUL) then FailureAt(content, tail)
      else Tree(j, |content| - |tail|)
  }

  /** Parsing a C string: the terminator belongs to the input. */
  function ParseCString(text: Text, requireNul: bool): Outcome {
    ParseWithLength(CString(text) + [NUL], requireNul)
  }
}
