/**
 * Any JSON text, not only a printed one: the grammar of RFC 8259 with all the freedom it
 * leaves in white space, escapes and numbers, and what the parser makes of it.
 */
module JsonText {
  import opened Bytes
  import opened JsonValue
  import opened JsonLiteral
  import R = JsonRoundTrip
  import G = JsonGrammar

  // ----- concrete syntax -----

  /** A part of a string: a byte as it is, a two-byte escape, or a \u sequence for one UTF-16 unit. */
  datatype Piece = Plain(b: Byte) | Short(letter: Byte) | Unit(text: Text, u: nat)

  datatype Exponent = Exponent(capital: bool, sign: Option<Byte>, digits: Text)

  datatype Form =
    | NullForm
    | FalseForm
    | TrueForm
    | NumberForm(negative: bool, whole: Text, fraction: Option<Text>, exponent: Option<Exponent>)
    | StringForm(pieces: seq<Piece>)
    | EmptyArray(gap: Text)
    | ArrayForm(items: Items)
    | EmptyObject(gap: Text)
    | ObjectForm(entries: Entries)

  /** Elements, each with the white space before and after it. */
  datatype Items =
    | LastItem(before: Text, form: Form, after: Text)
    | Item(before: Text, form: Form, after: Text, rest: Items)

  /** Members: white space, name, white space, colon, white space, value, white space. */
  datatype Entries =
    | LastEntry(before: Text, name: seq<Piece>, mid: Text, gap: Text, form: Form, after: Text)
    | Entry(before: Text, name: seq<Piece>, mid: Text, gap: Text, form: Form, after: Text, rest: Entries)

  // ----- the text -----

  function PieceText(p: Piece): Text {
    match p
    case Plain(b) => [b]
    case Short(letter) => [BACKSLASH, letter]
    case Unit(text, _) => text
  }

  function PiecesText(ps: seq<Piece>): Text {
    if ps == [] then [] else PieceText(ps[0]) + PiecesText(ps[1..])
  }

  function NameText(ps: seq<Piece>): Text {
    [QUOTE] + PiecesText(ps) + [QUOTE]
  }

  function ExponentText(e: Option<Exponent>): Text {
    match e
    case None => []
    case Some(x) => [if x.capital then 69 else 101] + (match x.sign case None => [] case Some(s) => [s]) + x.digits
  }

  function FractionText(f: Option<Text>): Text {
    match f case None => [] case Some(digits) => [DOT] + digits
  }

  function NumberText(negative: bool, whole: Text, fraction: Option<Text>, exponent: Option<Exponent>): Text {
    (if negative then [MINUS] else []) + whole + FractionText(fraction) + ExponentText(exponent)
  }

  function Write(f: Form): Text {
    match f
    case NullForm => NULL_TEXT
    case FalseForm => FALSE_TEXT
    case TrueForm => TRUE_TEXT
    case NumberForm(negative, whole, fraction, exponent) => NumberText(negative, whole, fraction, exponent)
    case StringForm(ps) => NameText(ps)
    case EmptyArray(gap) => [LBRACKET] + (gap + [RBRACKET])
    case ArrayForm(items) => [LBRACKET] + (WriteItems(items) + [RBRACKET])
    case EmptyObject(gap) => [LBRACE] + (gap + [RBRACE])
    case ObjectForm(entries) => [LBRACE] + (WriteEntries(entries) + [RBRACE])
  }

  function WriteItems(items: Items): Text {
    match items
    case LastItem(before, form, after) => before + (Write(form) + after)
    case Item(before, form, after, rest) => before + (Write(form) + (after + ([COMMA] + WriteItems(rest))))
  }

  function WriteEntries(es: Entries): Text {
    match es
    case LastEntry(before, name, mid, gap, form, after) =>
      before + (NameText(name) + (mid + ([COLON] + (gap + (Write(form) + after)))))
    case Entry(before, name, mid, gap, form, after, rest) =>
      before + (NameText(name) + (mid + ([COLON] + (gap + (Write(form) + (after + ([COMMA] + WriteEntries(rest))))))))
  }

  // ----- the meaning -----

  predicate HighUnit(p: Piece) {
    p.Unit? && 0xD800 <= p.u < 0xDC00
  }

  predicate LowUnit(p: Piece) {
    p.Unit? && 0xDC00 <= p.u < 0xE000
  }

  /** The scalar value that two surrogates stand for. */
  function PairOf(high: Piece, low: Piece): Scalar
    requires HighUnit(high) && LowUnit(low)
  {
    0x1_0000 + (high.u - 0xD800) * 1024 + (low.u - 0xDC00)
  }

  /** The bytes of one piece; a surrogate by itself has none. */
  function PieceBytes(p: Piece): Text {
    match p
    case Plain(b) => [b]
    case Short(letter) => (match G.EscapedByte(letter) case None => [] case Some(b) => [b])
    case Unit(_, u) => if u < 0xD800 || 0xE000 <= u < 0x1_0000 then G.Utf8(u) else []
  }

  function PiecesBytes(ps: seq<Piece>): Text {
    if ps == [] then []
    else if |ps| > 1 && HighUnit(ps[0]) && LowUnit(ps[1]) then G.Utf8(PairOf(ps[0], ps[1])) + PiecesBytes(ps[2..])
    else PieceBytes(ps[0]) + PiecesBytes(ps[1..])
  }

  /** Every high surrogate is followed at once by a low one, and no low one stands by itself. */
  predicate Paired(ps: seq<Piece>) {
    ps == [] ||
    if HighUnit(ps[0]) then |ps| > 1 && LowUnit(ps[1]) && Paired(ps[2..])
    else !LowUnit(ps[0]) && Paired(ps[1..])
  }

  /** The string as the library keeps it: UTF-8, up to the first NUL. */
  function Name(ps: seq<Piece>): Text {
    CString(PiecesBytes(ps))
  }

  function ExponentValue(e: Option<Exponent>): int {
    match e
    case None => 0
    case Some(x) => if x.sign == Some(MINUS) then -G.DigitsValue(x.digits) else G.DigitsValue(x.digits)
  }

  /** The digits as one integer, scaled by the exponent less the length of the fraction. */
  function NumberValue(negative: bool, whole: Text, fraction: Option<Text>, exponent: Option<Exponent>): real {
    var digits := match fraction case None => [] case Some(ds) => ds;
    var magnitude := G.Scaled(whole + digits, ExponentValue(exponent) - |digits|);
    if negative then -magnitude else magnitude
  }

  function ValueOf(f: Form): Json {
    match f
    case NullForm => Null
    case FalseForm => False
    case TrueForm => True
    case NumberForm(negative, whole, fraction, exponent) => Number(NumberValue(negative, whole, fraction, exponent))
    case StringForm(ps) => String(Name(ps))
    case EmptyArray(_) => Array(NoElem)
    case ArrayForm(items) => Array(ElemsOf(items))
    case EmptyObject(_) => Object(NoMember)
    case ObjectForm(entries) => Object(MembersOf(entries))
  }

  function ElemsOf(items: Items): Elems {
    match items
    case LastItem(_, form, _) => Elem(ValueOf(form), NoElem)
    case Item(_, form, _, rest) => Elem(ValueOf(form), ElemsOf(rest))
  }

  function MembersOf(es: Entries): Members {
    match es
    case LastEntry(_, name, _, _, form, _) => Member(Name(name), ValueOf(form), NoMember)
    case Entry(_, name, _, _, form, _, rest) => Member(Name(name), ValueOf(form), MembersOf(rest))
  }

  // ----- what the grammar asks for -----

  predicate AllDigits(t: Text) {
    t != [] && forall i :: 0 <= i < |t| ==> IsDigit(t[i])
  }

  /** White space of section 2 of RFC 8259. */
  predicate White(t: Text) {
    forall i :: 0 <= i < |t| ==> t[i] == SPACE || t[i] == TAB || t[i] == NEWLINE || t[i] == 13
  }

  /** A char of section 7; which bytes make up a character of UTF-8 is left open. */
  predicate ValidPiece(p: Piece) {
    match p
    case Plain(b) => b >= 32 && b != QUOTE && b != BACKSLASH
    case Short(letter) => G.EscapedByte(letter).Some?
    case Unit(text, u) => u < 0x1_0000 && IsUnit(text, u)
  }

  predicate ValidPieces(ps: seq<Piece>) {
    forall i :: 0 <= i < |ps| ==> ValidPiece(ps[i])
  }

  /** A number of section 6, of any length: no leading zeros, digits on both sides of the point. */
  predicate ValidNumber(negative: bool, whole: Text, fraction: Option<Text>, exponent: Option<Exponent>) {
    && AllDigits(whole) && (|whole| > 1 ==> whole[0] != ZERO) && (fraction.Some? ==> AllDigits(fraction.value))
    && (exponent.Some? ==>
          AllDigits(exponent.value.digits) && (exponent.value.sign.Some? ==> G.IsSign(exponent.value.sign.value)))
  }

  predicate ValidForm(f: Form) {
    match f
    case NumberForm(negative, whole, fraction, exponent) => ValidNumber(negative, whole, fraction, exponent)
    case StringForm(ps) => ValidPieces(ps)
    case EmptyArray(gap) => White(gap)
    case ArrayForm(items) => ValidItems(items)
    case EmptyObject(gap) => White(gap)
    case ObjectForm(entries) => ValidEntries(entries)
    case _ => true
  }

  predicate ValidItems(items: Items) {
    && White(items.before) && ValidForm(items.form) && White(items.after)
    && (items.Item? ==> ValidItems(items.rest))
  }

  predicate ValidEntries(es: Entries) {
    && White(es.before) && ValidPieces(es.name) && White(es.mid) && White(es.gap)
    && ValidForm(es.form) && White(es.after)
    && (es.Entry? ==> ValidEntries(es.rest))
  }

  // ----- what the parser asks for -----

  /** A \u sequence one of whose four bytes is no hexadecimal digit: it counts as U+0000. */
  predicate OddUnit(p: Piece) {
    p.Unit? && p.u == 0 && |p.text| == 6 && p.text[0] == BACKSLASH && p.text[1] == LETTER_U && HasOddDigit(p.text)
  }

  /** Control bytes are allowed. */
  predicate AcceptedPiece(p: Piece) {
    if p.Plain? then p.b != QUOTE && p.b != BACKSLASH else ValidPiece(p)
  }

  /**
   * Pieces that the two passes tell apart.  An odd sequence can swallow a backslash, so that
   * behind it a quote may stand by itself, and a backslash before the closing quote.
   */
  predicate AcceptedPieces(ps: seq<Piece>, odd: bool) {
    ps == [] ||
    (&& (AcceptedPiece(ps[0]) || OddUnit(ps[0])
         || (odd && (ps[0] == Plain(QUOTE) || (|ps| == 1 && ps[0] == Plain(BACKSLASH)))))
     && AcceptedPieces(ps[1..], odd || OddUnit(ps[0])))
  }

  /** Control bytes and odd sequences are allowed, as long as the closing quote is the one found. */
  predicate AcceptedName(ps: seq<Piece>) {
    AcceptedPieces(ps, false) && G.LiteralEnd(PiecesText(ps) + [QUOTE]) == Some(|PiecesText(ps)|)
  }

  predicate OnlyDigits(t: Text) {
    forall i :: 0 <= i < |t| ==> IsDigit(t[i])
  }

  /** Leading zeros are allowed, and digits may be missing on one side of the point. */
  predicate AcceptedNumber(negative: bool, whole: Text, fraction: Option<Text>, exponent: Option<Exponent>) {
    && OnlyDigits(whole) && (fraction.Some? ==> OnlyDigits(fraction.value))
    && (whole != [] || (negative && fraction.Some? && fraction.value != []))
    && (exponent.Some? ==>
          AllDigits(exponent.value.digits) && (exponent.value.sign.Some? ==> G.IsSign(exponent.value.sign.value)))
  }

  predicate AcceptedForm(f: Form) {
    match f
    case NumberForm(negative, whole, fraction, exponent) => AcceptedNumber(negative, whole, fraction, exponent)
    case StringForm(ps) => AcceptedName(ps)
    case EmptyArray(gap) => R.Blank(gap)
    case ArrayForm(items) => AcceptedItems(items)
    case EmptyObject(gap) => R.Blank(gap)
    case ObjectForm(entries) => AcceptedEntries(entries)
    case _ => true
  }

  predicate AcceptedItems(items: Items) {
    && R.Blank(items.before) && AcceptedForm(items.form) && R.Blank(items.after)
    && (items.Item? ==> AcceptedItems(items.rest))
  }

  predicate AcceptedEntries(es: Entries) {
    && R.Blank(es.before) && AcceptedName(es.name) && R.Blank(es.mid) && R.Blank(es.gap)
    && AcceptedForm(es.form) && R.Blank(es.after)
    && (es.Entry? ==> AcceptedEntries(es.rest))
  }

  /** Every text of the grammar is accepted. */
  lemma {:induction false} ValidIsAccepted(f: Form)
    requires ValidForm(f)
    ensures AcceptedForm(f)
    decreases f, 1
  {
    hide ValidPieces;
    hide AcceptedName;
    match f
    case EmptyArray(gap) => WhiteIsBlank(gap);
    case EmptyObject(gap) => WhiteIsBlank(gap);
    case StringForm(ps) => ValidNameIsAccepted(ps);
    case ArrayForm(items) => ValidItemsAreAccepted(items);
    case ObjectForm(entries) => ValidEntriesAreAccepted(entries);
    case _ =>
  }

  lemma {:induction false} ValidItemsAreAccepted(items: Items)
    requires ValidItems(items)
    ensures AcceptedItems(items)
    decreases items, 0
  {
    hide AcceptedForm;
    WhiteIsBlank(items.before);
    WhiteIsBlank(items.after);
    ValidIsAccepted(items.form);
    if items.Item? {
      ValidItemsAreAccepted(items.rest);
    }
  }

  lemma {:induction false} ValidEntriesAreAccepted(es: Entries)
    requires ValidEntries(es)
    ensures AcceptedEntries(es)
    decreases es, 0
  {
    hide AcceptedForm;
    hide AcceptedName;
    hide ValidPieces;
    WhiteIsBlank(es.before);
    WhiteIsBlank(es.mid);
    WhiteIsBlank(es.gap);
    WhiteIsBlank(es.after);
    ValidNameIsAccepted(es.name);
    ValidIsAccepted(es.form);
    if es.Entry? {
      ValidEntriesAreAccepted(es.rest);
    }
  }

  lemma WhiteIsBlank(t: Text)
    requires White(t)
    ensures R.Blank(t)
  {
  }

  lemma ValidNameIsAccepted(ps: seq<Piece>)
    requires ValidPieces(ps)
    ensures AcceptedName(ps)
  {
    hide ValidPiece;
    hide OddUnit;
    PiecesAreAccepted(ps, false);
    PiecesEnd(ps);
  }

  lemma {:induction false} PiecesAreAccepted(ps: seq<Piece>, odd: bool)
    requires ValidPieces(ps)
    ensures AcceptedPieces(ps, odd)
    decreases ps
  {
    hide OddUnit;
    hide IsUnit;
    if ps != [] {
      PiecesAreAccepted(ps[1..], odd || OddUnit(ps[0]));
    }
  }

  // ----- limits -----

  /** Bytes of a number that the parser looks at. */
  const NUMBER_LIMIT := 63

  /** No number in the text is longer than that. */
  predicate ShortNumbers(f: Form) {
    match f
    case NumberForm(negative, whole, fraction, exponent) =>
      |NumberText(negative, whole, fraction, exponent)| <= NUMBER_LIMIT
    case ArrayForm(items) => ShortItems(items)
    case ObjectForm(entries) => ShortEntries(entries)
    case _ => true
  }

  predicate ShortItems(items: Items) {
    ShortNumbers(items.form) && (items.Item? ==> ShortItems(items.rest))
  }

  predicate ShortEntries(es: Entries) {
    ShortNumbers(es.form) && (es.Entry? ==> ShortEntries(es.rest))
  }

  /** In every string and name of the text surrogates come in pairs. */
  predicate PairedUnits(f: Form) {
    match f
    case StringForm(ps) => Paired(ps)
    case ArrayForm(items) => PairedItems(items)
    case ObjectForm(entries) => PairedEntries(entries)
    case _ => true
  }

  predicate PairedItems(items: Items) {
    PairedUnits(items.form) && (items.Item? ==> PairedItems(items.rest))
  }

  predicate PairedEntries(es: Entries) {
    Paired(es.name) && PairedUnits(es.form) && (es.Entry? ==> PairedEntries(es.rest))
  }

  /** Both. */
  predicate Keeps(f: Form) {
    ShortNumbers(f) && PairedUnits(f)
  }

  predicate KeepsItems(items: Items) {
    ShortItems(items) && PairedItems(items)
  }

  predicate KeepsEntries(es: Entries) {
    ShortEntries(es) && PairedEntries(es)
  }

  // ----- what reading a text gives -----

  /** Refused, or left in the middle of a number. */
  predicate Misses<T>(r: G.Parsed<T>) {
    r.Err? || (r.rest != [] && G.IsNumberByte(r.rest[0]))
  }

  /** The value with what follows it, when the text keeps the limits; otherwise not that. */
  predicate Reads<T(==)>(r: G.Parsed<T>, value: T, rest: Text, fits: bool) {
    if fits then r == G.Ok(value, rest) else Misses(r)
  }

  // ----- strings -----

  lemma PlainStep(b: Byte, rest: Text)
    requires b != BACKSLASH && |rest| >= 1
    ensures G.Unescape([b] + rest) == G.Prepend([b], G.Unescape(rest))
  {
    hide G.Unescape;
    var t := [b] + rest;
    G.PlainStep(t);
    assert t[1..] == rest;
  }

  /** What the letter behind a backslash stands for: section 7 of RFC 8259. */
  lemma EscapeTable(letter: Byte)
    ensures letter as char in "\"\\/" ==> G.EscapedByte(letter) == Some(letter)
    ensures letter as char == 'b' ==> G.EscapedByte(letter) == Some(0x08)
    ensures letter as char == 'f' ==> G.EscapedByte(letter) == Some(0x0C)
    ensures letter as char == 'n' ==> G.EscapedByte(letter) == Some(0x0A)
    ensures letter as char == 'r' ==> G.EscapedByte(letter) == Some(0x0D)
    ensures letter as char == 't' ==> G.EscapedByte(letter) == Some(0x09)
    ensures letter as char !in "\"\\/bfnrt" ==> G.EscapedByte(letter) == None
  {
  }

  /** Which bytes are digits, signs, and bytes of a number. */
  lemma NumberCharacters(b: Byte)
    ensures IsDigit(b) <==> b as char in "0123456789"
    ensures G.IsSign(b) <==> b as char in "+-"
    ensures G.IsNumberByte(b) <==> b as char in "0123456789+-.eE"
  {
  }

  lemma Keywords()
    ensures NULL_TEXT == Ascii("null") && FALSE_TEXT == Ascii("false") && TRUE_TEXT == Ascii("true")
  {
  }

  lemma NotU(letter: Byte)
    requires G.EscapedByte(letter).Some?
    ensures letter != LETTER_U
  {
  }

  lemma ShortStep(letter: Byte, rest: Text)
    requires G.EscapedByte(letter).Some? && |rest| >= 1
    ensures G.Unescape([BACKSLASH, letter] + rest) == G.Prepend([G.EscapedByte(letter).value], G.Unescape(rest))
  {
    hide G.Unescape;
    hide G.EscapedByte;
    NotU(letter);
    var t := [BACKSLASH, letter] + rest;
    assert t[0] == BACKSLASH && t[1] == letter;
    G.EscapeStep(t);
    assert t[2..] == rest;
  }

  /** One unit, or two, that spell a scalar value. */
  lemma ScalarStep(text: Text, c: Scalar, rest: Text)
    requires IsScalar(text, c) && rest != []
    ensures G.Unescape(text + rest) == G.Prepend(G.Utf8(c), G.Unescape(rest))
  {
    hide G.Unescape;
    hide G.Utf16Literal;
    hide G.Utf8;
    hide IsScalar;
    var t := text + rest;
    ScalarDecoded(text, c, rest);
    assert t[0] == text[0] && t[1] == text[1];
    G.UnicodeStep(t);
    assert t[|text|..] == rest;
  }

  lemma OddStep(p: Piece, rest: Text)
    requires OddUnit(p) && rest != []
    ensures G.Unescape(p.text + rest) == G.Prepend([NUL], G.Unescape(rest))
  {
    hide G.Unescape;
    hide G.Utf16Literal;
    hide HasOddDigit;
    var t := p.text + rest;
    ReadAsNulExactly(p.text, rest);
    assert t[0] == p.text[0] && t[1] == p.text[1];
    G.UnicodeStep(t);
    assert t[6..] == rest && G.Utf8(0) == [NUL];
  }

  lemma PieceUnescapes(p: Piece, rest: Text)
    requires AcceptedPiece(p) && !HighUnit(p) && !LowUnit(p) && rest != []
    ensures G.Unescape(PieceText(p) + rest) == G.Prepend(PieceBytes(p), G.Unescape(rest))
  {
    hide G.Unescape;
    hide IsUnit;
    hide G.Utf8;
    hide G.EscapedByte;
    hide G.Prepend;
    match p
    case Plain(b) => PlainStep(b, rest);
    case Short(letter) => ShortStep(letter, rest);
    case Unit(text, u) => ScalarStep(text, u, rest);
  }

  /** Two surrogates in a row spell one scalar value. */
  lemma PairStep(high: Piece, low: Piece, rest: Text)
    requires AcceptedPiece(high) && AcceptedPiece(low) && HighUnit(high) && LowUnit(low) && rest != []
    ensures G.Unescape(high.text + (low.text + rest)) == G.Prepend(G.Utf8(PairOf(high, low)), G.Unescape(rest))
  {
    hide G.Unescape;
    hide IsUnit;
    hide G.Utf8;
    hide G.Prepend;
    var c := PairOf(high, low);
    var text := high.text + low.text;
    UnitLength(high);
    UnitLength(low);
    assert text[..6] == high.text && text[6..] == low.text;
    PairParts(high.u, low.u);
    assert IsScalar(text, c);
    ScalarStep(text, c, rest);
    assert text + rest == high.text + (low.text + rest);
  }

  lemma PairParts(high: nat, low: nat)
    requires 0xD800 <= high < 0xDC00 && 0xDC00 <= low < 0xE000
    ensures var c := (high - 0xD800) * 1024 + (low - 0xDC00);
      0 <= c < 0x10_0000 && 0xD800 + c / 1024 == high && 0xDC00 + c % 1024 == low
  {
  }

  lemma UnitLength(p: Piece)
    requires p.Unit? && (AcceptedPiece(p) || OddUnit(p))
    ensures |p.text| == 6 && p.text[0] == BACKSLASH && p.text[1] == LETTER_U
  {
  }

  lemma UnitRead(p: Piece)
    requires p.Unit? && (AcceptedPiece(p) || OddUnit(p))
    ensures |p.text| == 6 && G.Hex4(p.text[2..6]) == p.u
  {
    hide G.Hex4;
    UnitLength(p);
    if OddUnit(p) {
      Hex4IsZero(p.text);
    } else {
      UnitValue(p.text, p.u);
    }
  }

  /** A low surrogate that is not behind a high one is refused. */
  lemma LowRefused(p: Piece, rest: Text)
    requires AcceptedPiece(p) && LowUnit(p) && rest != []
    ensures G.Unescape(p.text + rest).Bad?
  {
    hide G.Unescape;
    hide G.Hex4;
    hide IsUnit;
    hide OddUnit;
    UnitLength(p);
    UnitRead(p);
    var t := p.text + rest;
    assert t[0] == p.text[0] && t[1] == p.text[1] && t[2..6] == p.text[2..6];
    G.UnicodeStep(t);
  }

  /** A high surrogate that no low one follows is refused. */
  lemma HighRefused(p: Piece, ps: seq<Piece>, odd: bool)
    requires AcceptedPiece(p) && HighUnit(p) && AcceptedPieces(ps, odd) && !(ps != [] && LowUnit(ps[0]))
    ensures G.Unescape(p.text + (PiecesText(ps) + [QUOTE])).Bad?
  {
    hide G.Unescape;
    hide G.Hex4;
    hide OddUnit;
    hide IsUnit;
    UnitLength(p);
    UnitRead(p);
    var rest := PiecesText(ps) + [QUOTE];
    var t := p.text + rest;
    assert t[0] == p.text[0] && t[1] == p.text[1] && t[2..6] == p.text[2..6];
    assert forall i :: 0 <= i < |rest| ==> t[6 + i] == rest[i];
    NoLowNext(ps, odd);
    if |t| >= 13 {
      assert t[8..12] == rest[2..6];
    }
    G.UnicodeStep(t);
  }

  /** What follows is too short, no \u sequence, or one that is no low surrogate. */
  lemma NoLowNext(ps: seq<Piece>, odd: bool)
    requires AcceptedPieces(ps, odd) && !(ps != [] && LowUnit(ps[0]))
    ensures var rest := PiecesText(ps) + [QUOTE];
      |rest| < 7 || rest[0] != BACKSLASH || rest[1] != LETTER_U || !(0xDC00 <= G.Hex4(rest[2..6]) < 0xE000)
  {
    hide G.Hex4;
    hide IsUnit;
    hide HasOddDigit;
    hide G.EscapedByte;
    if ps != [] {
      var p, rest := ps[0], PiecesText(ps) + [QUOTE];
      var more := PiecesText(ps[1..]) + [QUOTE];
      assert rest == PieceText(p) + more;
      match p {
        case Plain(b) =>
          assert rest[0] == b;
          assert b == BACKSLASH ==> ps[1..] == [] && |rest| == 2;
        case Short(letter) =>
          NotU(letter);
          assert rest[1] == letter;
        case Unit(text, u) =>
          UnitRead(p);
          assert rest[2..6] == text[2..6];
      }
    }
  }

  lemma PieceEnds(p: Piece, rest: Text)
    requires ValidPiece(p) && G.LiteralEnd(rest).Some?
    ensures G.LiteralEnd(PieceText(p) + rest) == Some(|PieceText(p)| + G.LiteralEnd(rest).value)
  {
    hide G.LiteralEnd;
    hide IsUnit;
    hide G.EscapedByte;
    match p
    case Plain(b) => PlainInLiteral(b, rest);
    case Short(letter) => PairInLiteral(letter, rest);
    case Unit(text, u) => UnitInLiteral(text, u, rest);
  }

  lemma {:induction false} PiecesEnd(ps: seq<Piece>)
    requires ValidPieces(ps)
    ensures G.LiteralEnd(PiecesText(ps) + [QUOTE]) == Some(|PiecesText(ps)|)
  {
    hide G.LiteralEnd;
    hide ValidPiece;
    hide PieceText;
    if ps == [] {
      QuoteEnds();
      assert [] + [QUOTE] == [QUOTE];
    } else {
      var rest := PiecesText(ps[1..]) + [QUOTE];
      PiecesEnd(ps[1..]);
      PieceEnds(ps[0], rest);
      assert PieceText(ps[0]) + rest == PiecesText(ps) + [QUOTE];
    }
  }

  /**
   * What decoding gives: a refusal unless surrogates come in pairs, else the bytes of the
   * pieces, as far as a C string shows them.
   */
  ghost predicate Decodes(ps: seq<Piece>, u: G.Unescaped, odd: bool) {
    (u.Done? <==> Paired(ps)) && (u.Done? && !odd ==> CString(u.bytes) == Name(ps))
  }

  /** The first piece is neither half of a pair. */
  lemma FirstDecodes(p: Piece, ps: seq<Piece>, u: G.Unescaped, odd: bool)
    requires Decodes(ps, u, odd) && !HighUnit(p) && !LowUnit(p)
    ensures Decodes([p] + ps, G.Prepend(PieceBytes(p), u), odd)
  {
    hide PieceBytes;
    hide CString;
    var all := [p] + ps;
    assert all[0] == p && all[1..] == ps;
    if !odd && u.Done? {
      CStringAfter(PieceBytes(p), u.bytes, PiecesBytes(ps));
    }
  }

  lemma PairDecodes(high: Piece, low: Piece, ps: seq<Piece>, u: G.Unescaped, odd: bool)
    requires Decodes(ps, u, odd) && HighUnit(high) && LowUnit(low)
    ensures Decodes([high, low] + ps, G.Prepend(G.Utf8(PairOf(high, low)), u), odd)
  {
    hide G.Utf8;
    hide CString;
    var all := [high, low] + ps;
    assert all[0] == high && all[1] == low && all[2..] == ps;
    if !odd && u.Done? {
      CStringAfter(G.Utf8(PairOf(high, low)), u.bytes, PiecesBytes(ps));
    }
  }

  lemma {:induction false} CStringAfter(front: Text, a: Text, b: Text)
    requires CString(a) == CString(b)
    ensures CString(front + a) == CString(front + b)
    decreases front
  {
    if front == [] {
      assert front + a == a && front + b == b;
    } else {
      assert (front + a)[1..] == front[1..] + a && (front + b)[1..] == front[1..] + b;
      CStringAfter(front[1..], a, b);
    }
  }

  lemma OddDecodes(p: Piece, ps: seq<Piece>, u: G.Unescaped, odd: bool)
    requires p.Unit? && p.u == 0 && Decodes(ps, u, true)
    ensures Decodes([p] + ps, G.Prepend([NUL], u), odd)
  {
    var all := [p] + ps;
    assert all[0] == p && all[1..] == ps;
    assert PiecesBytes(all) == [NUL] + PiecesBytes(all[1..]);
  }

  lemma LoneDecodes(p: Piece, ps: seq<Piece>, u: G.Unescaped, odd: bool)
    requires u.Bad? && (LowUnit(p) || (HighUnit(p) && !(ps != [] && LowUnit(ps[0]))))
    ensures Decodes([p] + ps, u, odd)
  {
    var all := [p] + ps;
    assert all[0] == p && (ps != [] ==> all[1] == ps[0]);
  }

  lemma {:induction false} PiecesDecode(ps: seq<Piece>, odd: bool)
    requires AcceptedPieces(ps, odd)
    ensures Decodes(ps, G.Unescape(PiecesText(ps) + [QUOTE]), odd)
    decreases |ps|
  {
    hide Decodes;
    hide AcceptedPiece;
    hide OddUnit;
    hide PieceText;
    hide PieceBytes;
    hide HighUnit;
    hide LowUnit;
    hide G.Unescape;
    if ps == [] {
      NothingDecodes();
      assert [] + [QUOTE] == [QUOTE];
    } else {
      var p, more, rest := ps[0], ps[1..], PiecesText(ps[1..]) + [QUOTE];
      assert ps == [p] + more;
      assert PieceText(p) + rest == PiecesText(ps) + [QUOTE];
      if OddUnit(p) {
        PiecesDecode(more, true);
        OddStep(p, rest);
        OddPiece(p);
        OddDecodes(p, more, G.Unescape(rest), odd);
      } else if !AcceptedPiece(p) {
        PiecesDecode(more, odd);
        LonePiece(p, more, rest);
      } else if HighUnit(p) && more != [] && LowUnit(more[0]) {
        LowIsAccepted(more, odd);
        PiecesDecode(ps[2..], odd);
        PairInPieces(ps, odd);
      } else if HighUnit(p) || LowUnit(p) {
        LoneSurrogate(p, more, rest, odd);
      } else {
        PiecesDecode(more, odd);
        PieceUnescapes(p, rest);
        FirstDecodes(p, more, G.Unescape(rest), odd);
      }
    }
  }

  lemma NothingDecodes()
    ensures Decodes([], G.Unescape([QUOTE]), false) && Decodes([], G.Unescape([QUOTE]), true)
  {
  }

  lemma OddPiece(p: Piece)
    requires OddUnit(p)
    ensures p.Unit? && p.u == 0 && PieceText(p) == p.text
  {
  }

  lemma LowIsAccepted(ps: seq<Piece>, odd: bool)
    requires ps != [] && AcceptedPieces(ps, odd) && LowUnit(ps[0])
    ensures AcceptedPiece(ps[0]) && AcceptedPieces(ps[1..], odd)
  {
    hide AcceptedPiece;
  }

  lemma PairInPieces(ps: seq<Piece>, odd: bool)
    requires |ps| > 1 && AcceptedPiece(ps[0]) && AcceptedPiece(ps[1]) && HighUnit(ps[0]) && LowUnit(ps[1])
    requires Decodes(ps[2..], G.Unescape(PiecesText(ps[2..]) + [QUOTE]), odd)
    ensures Decodes(ps, G.Unescape(PiecesText(ps) + [QUOTE]), odd)
  {
    hide Decodes;
    hide G.Unescape;
    hide AcceptedPiece;
    var high, low, rest := ps[0], ps[1], PiecesText(ps[2..]) + [QUOTE];
    assert ps[1..][1..] == ps[2..] && ps == [high, low] + ps[2..];
    assert PiecesText(ps) + [QUOTE] == high.text + (low.text + rest);
    PairStep(high, low, rest);
    PairDecodes(high, low, ps[2..], G.Unescape(rest), odd);
  }

  lemma LoneSurrogate(p: Piece, ps: seq<Piece>, rest: Text, odd: bool)
    requires rest == PiecesText(ps) + [QUOTE] && AcceptedPieces(ps, odd) && AcceptedPiece(p)
    requires LowUnit(p) || (HighUnit(p) && !(ps != [] && LowUnit(ps[0])))
    ensures Decodes([p] + ps, G.Unescape(PieceText(p) + rest), odd)
  {
    hide Decodes;
    hide G.Unescape;
    hide AcceptedPiece;
    if LowUnit(p) {
      LowRefused(p, rest);
    } else {
      HighRefused(p, ps, odd);
    }
    LoneDecodes(p, ps, G.Unescape(p.text + rest), odd);
  }

  /** A quote by itself, or a backslash before the closing quote. */
  lemma LonePiece(p: Piece, ps: seq<Piece>, rest: Text)
    requires rest != [] && Decodes(ps, G.Unescape(rest), true)
    requires p == Plain(QUOTE) || (p == Plain(BACKSLASH) && ps == [] && rest == [QUOTE])
    ensures Decodes([p] + ps, G.Unescape(PieceText(p) + rest), true)
  {
    if p == Plain(QUOTE) {
      PlainStep(QUOTE, rest);
      FirstDecodes(p, ps, G.Unescape(rest), true);
    } else {
      var t: Text := [BACKSLASH] + [QUOTE];
      assert t == [BACKSLASH, QUOTE] && t[2..] == [];
      assert G.Unescape(t).Done?;
      assert Paired([p] + ps);
    }
  }

  /** A string in any accepted spelling is read as its bytes exactly when surrogates come in pairs. */
  lemma NameReads(ps: seq<Piece>, post: Text)
    requires AcceptedName(ps)
    ensures if Paired(ps) then G.ParseString(NameText(ps) + post) == G.Ok(Name(ps), post)
            else G.ParseString(NameText(ps) + post).Err?
  {
    hide G.LiteralEnd;
    hide G.Unescape;
    hide CString;
    hide Paired;
    PiecesDecode(ps, false);
    var u := G.Unescape(PiecesText(ps) + [QUOTE]);
    if u.Done? {
      LiteralParses(PiecesText(ps), u.bytes, post);
    } else {
      LiteralFails(PiecesText(ps), post);
    }
  }

  // ----- numbers -----

  lemma {:induction false} DigitsRun(t: Text, i: nat, e: nat)
    requires i <= e <= |t| && (forall k :: i <= k < e ==> IsDigit(t[k])) && (e < |t| ==> !IsDigit(t[e]))
    ensures G.DigitsEnd(t, i) == e
    decreases e - i
  {
    if i < e {
      DigitsRun(t, i + 1, e);
    }
  }

  lemma FourParts(a: Text, b: Text, c: Text, d: Text)
    ensures var t := a + b + c + d;
      && t[..|a|] == a && t[|a|..|a| + |b|] == b
      && t[|a| + |b|..|a| + |b| + |c|] == c && t[|a| + |b| + |c|..] == d
      && t[|a| + |b|..] == c + d && |t| == |a| + |b| + |c| + |d|
  {
  }

  /** Positions in the rest of a text. */
  lemma InSuffix(t: Text, i: nat, u: Text)
    requires i <= |t| && t[i..] == u
    ensures |t| == i + |u| && forall k :: i <= k < |t| ==> t[k] == u[k - i]
  {
    assert forall k :: i <= k < |t| ==> t[k] == t[i..][k - i];
  }

  lemma ToTheEnd(t: Text, i: nat)
    requires i <= |t|
    ensures t[i..|t|] == t[i..]
  {
  }

  lemma ExponentReads(t: Text, i: nat, e: Option<Exponent>)
    requires i <= |t| && t[i..] == ExponentText(e)
    requires e.Some? ==> AllDigits(e.value.digits) && (e.value.sign.Some? ==> G.IsSign(e.value.sign.value))
    ensures G.Exponent(t, i) == (|ExponentText(e)|, ExponentValue(e))
  {
    hide G.DigitsValue;
    InSuffix(t, i, ExponentText(e));
    if e.Some? {
      var x, u := e.value, ExponentText(e);
      var first := if x.sign.Some? then i + 2 else i + 1;
      SignedDigits(x, u);
      assert t[i..][first - i..] == t[first..];
      InSuffix(t, first, x.digits);
      DigitsRun(t, first, |t|);
      hide G.DigitsEnd;
      ToTheEnd(t, first);
    }
  }

  lemma SignedDigits(x: Exponent, u: Text)
    requires u == ExponentText(Some(x)) && AllDigits(x.digits)
    ensures var n := if x.sign.Some? then 2 else 1;
      |u| == n + |x.digits| && u[n..] == x.digits && (u[0] == 101 || u[0] == 69)
      && u[1] == if x.sign.Some? then x.sign.value else x.digits[0]
  {
  }

  /** What `strtod` finds when it is told where the parts are. */
  lemma StrtodByParts(t: Text, negative: bool, whole: Text, digits: Text, point: nat, last: nat, e: (nat, int))
    requires var first := if negative then 1 else 0;
      && first <= point <= last <= |t| && t[first..point] == whole && whole + digits != []
      && (negative ==> t[0] == MINUS) && (!negative ==> t != [] && !G.IsSign(t[0]))
      && G.DigitsEnd(t, first) == point
    requires last == point ==> digits == [] && (point < |t| ==> t[point] != DOT)
    requires last > point ==> t[point] == DOT && G.DigitsEnd(t, point + 1) == last && t[point + 1..last] == digits
    requires G.Exponent(t, last) == e
    ensures var magnitude := G.Scaled(whole + digits, e.1 - |digits|);
      G.Strtod(t) == Some((last + e.0, if negative then -magnitude else magnitude))
  {
    hide G.DigitsEnd;
    hide G.Scaled;
    hide G.Exponent;
    assert whole + digits != [];
    var first := if t != [] && G.IsSign(t[0]) then 1 else 0;
    assert first == if negative then 1 else 0;
    var hasPoint := point < |t| && t[point] == DOT;
    assert hasPoint <==> last > point;
    var fraction := if hasPoint then t[point + 1..last] else [];
    assert fraction == digits;
    assert t[first..point] + fraction == whole + digits;
  }

  /** The parts behind the digits do not begin with a digit. */
  lemma PartsBegin(f: Option<Text>, e: Option<Exponent>)
    ensures ExponentText(e) != [] ==> !IsDigit(ExponentText(e)[0]) && ExponentText(e)[0] != DOT
    ensures !IsDigit(DOT)
    ensures f == None ==> FractionText(f) == []
    ensures f.Some? ==> FractionText(f) == [DOT] + f.value
  {
  }

  lemma NumberReads(negative: bool, whole: Text, fraction: Option<Text>, exponent: Option<Exponent>)
    requires AcceptedNumber(negative, whole, fraction, exponent)
    ensures var t := NumberText(negative, whole, fraction, exponent);
      G.Strtod(t) == Some((|t|, NumberValue(negative, whole, fraction, exponent)))
  {
    hide G.DigitsEnd;
    hide G.Scaled;
    hide G.Exponent;
    hide G.Strtod;
    hide ExponentText;
    hide FractionText;
    hide AllDigits;
    hide OnlyDigits;
    hide ExponentValue;
    var minus := if negative then [MINUS] else [];
    var f, x := FractionText(fraction), ExponentText(exponent);
    var t := NumberText(negative, whole, fraction, exponent);
    var digits := match fraction case None => [] case Some(ds) => ds;
    PartsBegin(fraction, exponent);
    FourParts(minus, whole, f, x);
    NumberByParts(t, negative, minus, whole, f, x, fraction, exponent, digits);
  }

  lemma NumberByParts(t: Text, negative: bool, minus: Text, whole: Text, f: Text, x: Text, fraction: Option<Text>,
                      exponent: Option<Exponent>, digits: Text)
    requires minus == (if negative then [MINUS] else []) && t == minus + whole + f + x
    requires f == FractionText(fraction) && x == ExponentText(exponent)
    requires AcceptedNumber(negative, whole, fraction, exponent)
    requires digits == match fraction case None => [] case Some(ds) => ds
    ensures G.Strtod(t) == Some((|t|, NumberValue(negative, whole, fraction, exponent)))
  {
    hide G.DigitsEnd;
    hide G.Scaled;
    hide G.Exponent;
    hide G.Strtod;
    hide ExponentText;
    hide FractionText;
    hide ExponentValue;
    hide NumberText;
    hide IsDigit;
    hide G.IsSign;
    hide OnlyDigits;
    hide AllDigits;
    FourParts(minus, whole, f, x);
    PartsBegin(fraction, exponent);
    var first, point := |minus|, |minus| + |whole|;
    var last := point + |f|;
    WholeEnds(t, first, point, whole, f + x);
    ExponentReads(t, last, exponent);
    NumberBegins(t, negative, first, point, whole);
    if fraction.Some? {
      FractionEnds(t, point, last, digits, x);
    }
    StrtodByParts(t, negative, whole, digits, point, last, (|x|, ExponentValue(exponent)));
  }

  lemma NumberBegins(t: Text, negative: bool, first: nat, point: nat, whole: Text)
    requires first == (if negative then 1 else 0) && first <= point <= |t| && t[first..point] == whole
    requires (negative ==> t[..first] == [MINUS]) && (!negative ==> whole != [] && OnlyDigits(whole))
    ensures t != [] && (negative ==> t[0] == MINUS) && (!negative ==> !G.IsSign(t[0]))
  {
    assert negative ==> t[..first][0] == MINUS;
    assert !negative ==> t[first..point][0] == t[0];
  }

  lemma WholeEnds(t: Text, first: nat, point: nat, whole: Text, rest: Text)
    requires first <= point <= |t| && t[first..point] == whole && OnlyDigits(whole) && t[point..] == rest
    requires rest != [] ==> !IsDigit(rest[0])
    ensures G.DigitsEnd(t, first) == point
    ensures point < |t| <==> rest != []
    ensures rest != [] ==> t[point] == rest[0]
  {
    InSuffix(t, point, rest);
    assert forall k :: first <= k < point ==> t[k] == t[first..point][k - first];
    DigitsRun(t, first, point);
  }

  lemma FractionEnds(t: Text, point: nat, last: nat, digits: Text, x: Text)
    requires point <= last <= |t| && t[point..last] == [DOT] + digits && OnlyDigits(digits) && t[last..] == x
    requires x != [] ==> !IsDigit(x[0])
    ensures point + 1 <= last && G.DigitsEnd(t, point + 1) == last && t[point + 1..last] == digits
  {
    assert |t[point..last]| == 1 + |digits|;
    assert t[point + 1..last] == t[point..last][1..] == digits;
    WholeEnds(t, point + 1, last, digits, x);
  }

  // ----- values -----

  lemma NumberFits(d: Text, post: Text)
    requires G.Strtod(d).Some? && G.Strtod(d).value.0 == |d| && |d| <= NUMBER_LIMIT && R.Delimited(post)
    requires forall i :: 0 <= i < |d| ==> G.IsNumberByte(d[i])
    ensures G.ParseNumber(d + post) == G.Ok(Number(G.Strtod(d).value.1), post)
  {
    hide G.Strtod;
    R.TokenIsWhole(d, post, NUMBER_LIMIT);
    assert (d + post)[|d|..] == post;
  }

  /** A run of more number bytes than the limit is left somewhere inside. */
  lemma LongNumberMisses(d: Text, post: Text)
    requires |d| > NUMBER_LIMIT && forall i :: 0 <= i < |d| ==> G.IsNumberByte(d[i])
    ensures Misses(G.ParseNumber(d + post)) && |G.ParseNumber(d + post).rest| > |post|
  {
    hide G.Strtod;
    hide G.NumberToken;
    var s := d + post;
    var token := G.NumberToken(s, NUMBER_LIMIT);
    var used := if G.Strtod(token).Some? then G.Strtod(token).value.0 else 0;
    assert used <= NUMBER_LIMIT;
    assert s[used..][0] == d[used];
  }

  /** There is a digit right behind the sign, or right behind a point there. */
  predicate BeginsNumber(t: Text) {
    var first := if t != [] && G.IsSign(t[0]) then 1 else 0;
    |t| > first + 1 && (IsDigit(t[first]) || (t[first] == DOT && IsDigit(t[first + 1])))
  }

  lemma BeginningIsNumber(t: Text)
    requires BeginsNumber(t)
    ensures G.Strtod(t).Some?
  {
    hide G.Scaled;
    hide G.Exponent;
  }

  lemma NumberBegun(negative: bool, whole: Text, fraction: Option<Text>, exponent: Option<Exponent>)
    requires AcceptedNumber(negative, whole, fraction, exponent)
    requires |NumberText(negative, whole, fraction, exponent)| > 2
    ensures BeginsNumber(NumberText(negative, whole, fraction, exponent))
  {
    hide AllDigits;
    hide ExponentText;
    var t := NumberText(negative, whole, fraction, exponent);
    var first := if negative then 1 else 0;
    if whole != [] {
      assert t[first] == whole[0];
    } else {
      assert t[first] == DOT && t[first + 1] == fraction.value[0];
    }
  }

  /** The first bytes of a number that is too long still make one. */
  lemma LongNumberBegins(d: Text, post: Text)
    requires |d| > NUMBER_LIMIT && (forall i :: 0 <= i < |d| ==> G.IsNumberByte(d[i])) && BeginsNumber(d)
    ensures G.ParseNumber(d + post).Ok?
  {
    hide G.Strtod;
    var token := G.NumberToken(d + post, NUMBER_LIMIT);
    assert |token| == NUMBER_LIMIT;
    assert forall i :: 0 <= i < |token| ==> token[i] == d[i];
    BeginningIsNumber(token);
  }

  /**
   * A number, with or without sign, fraction and exponent, is read as what it denotes
   * exactly when it has at most 63 bytes; a longer one is left in the middle.
   */
  lemma NumberReadExactly(negative: bool, whole: Text, fraction: Option<Text>, exponent: Option<Exponent>, post: Text)
    requires AcceptedNumber(negative, whole, fraction, exponent) && R.Delimited(post)
    ensures var t := NumberText(negative, whole, fraction, exponent);
      var value := Number(NumberValue(negative, whole, fraction, exponent));
      && (G.ParseNumber(t + post) == G.Ok(value, post) <==> |t| <= NUMBER_LIMIT)
      && Reads(G.ParseNumber(t + post), value, post, |t| <= NUMBER_LIMIT)
  {
    hide G.ParseNumber;
    var t := NumberText(negative, whole, fraction, exponent);
    NumberReads(negative, whole, fraction, exponent);
    NumberBytes(negative, whole, fraction, exponent);
    if |t| <= NUMBER_LIMIT {
      NumberFits(t, post);
    } else {
      LongNumberMisses(t, post);
    }
  }

  lemma NumberBytes(negative: bool, whole: Text, fraction: Option<Text>, exponent: Option<Exponent>)
    requires AcceptedNumber(negative, whole, fraction, exponent)
    ensures var t := NumberText(negative, whole, fraction, exponent);
      && (forall i :: 0 <= i < |t| ==> G.IsNumberByte(t[i]))
      && t != [] && (t[0] == MINUS || IsDigit(t[0]))
  {
  }

  lemma {:induction false} ScalarReads(f: Form, post: Text, open: nat)
    requires AcceptedForm(f) && (f.NumberForm? ==> R.Delimited(post))
    requires !f.ArrayForm? && !f.ObjectForm? && !f.EmptyArray? && !f.EmptyObject?
    ensures Reads(G.ParseValue(Write(f) + post, open), ValueOf(f), post, Keeps(f))
    ensures !f.NumberForm? ==> R.ParsesIf(G.ParseValue(Write(f) + post, open), ValueOf(f), post, Keeps(f))
  {
    hide G.ParseValue;
    hide G.ParseString;
    hide G.ParseNumber;
    match f
    case NullForm => R.KeywordRoundTrip(post, open);
    case FalseForm => R.KeywordRoundTrip(post, open);
    case TrueForm => R.KeywordRoundTrip(post, open);
    case NumberForm(negative, whole, fraction, exponent) =>
      var t := NumberText(negative, whole, fraction, exponent);
      NumberReadExactly(negative, whole, fraction, exponent, post);
      NumberBytes(negative, whole, fraction, exponent);
      assert (t + post)[0] == t[0];
      R.NumberDispatch(t + post, open);
    case StringForm(ps) =>
      NameReads(ps, post);
      assert (NameText(ps) + post)[0] == QUOTE;
      R.StringDispatch(NameText(ps) + post, open);
  }

  /** Texts begin with a byte that is neither blank nor a closing bracket. */
  lemma FirstByte(f: Form)
    requires AcceptedForm(f)
    ensures Write(f) != [] && Write(f)[0] > 32
    ensures Write(f)[0] != RBRACKET && Write(f)[0] != RBRACE && Write(f)[0] != 0xEF
  {
    if f.NumberForm? {
      NumberBytes(f.negative, f.whole, f.fraction, f.exponent);
    }
  }

  lemma BlankThenDark(blanks: Text, dark: Text)
    requires R.Blank(blanks) && R.Dark(dark)
    ensures G.SkipWhitespace(blanks + dark) == dark && G.SkipWhitespace(dark) == dark
    ensures R.Delimited(dark) && (dark[0] == COMMA || dark[0] == RBRACKET || dark[0] == RBRACE)
            ==> R.Delimited(blanks + dark)
  {
    R.SkipBlanks(blanks, dark);
    R.SkipNothing(dark);
  }

  // ----- containers -----

  lemma ArrayOpens(blanks: Text, body: Text, open: nat)
    requires R.Blank(blanks) && R.Dark(body) && body[0] != RBRACKET
    ensures G.ParseValue([LBRACKET] + (blanks + body), open) ==
      if open >= NESTING_LIMIT then G.Err([LBRACKET] + (blanks + body)) else
      match G.ParseElems(body, open + 1)
      case Err(rest) => G.Err(rest)
      case Ok(es, rest) => if rest == [] || rest[0] != RBRACKET then G.Err(rest) else G.Ok(Array(es), rest[1..])
  {
    hide G.ParseValue;
    hide G.ParseElems;
    var s := [LBRACKET] + (blanks + body);
    assert s[0] == LBRACKET && s[1..] == blanks + body;
    R.SkipBlanks(blanks, body);
    R.BracketDispatch(s, open);
  }

  lemma EmptyArrayReads(gap: Text, post: Text, open: nat)
    requires R.Blank(gap)
    ensures G.ParseValue([LBRACKET] + (gap + ([RBRACKET] + post)), open) ==
      if open >= NESTING_LIMIT then G.Err([LBRACKET] + (gap + ([RBRACKET] + post))) else G.Ok(Array(NoElem), post)
  {
    hide G.ParseValue;
    var body := [RBRACKET] + post;
    var s := [LBRACKET] + (gap + body);
    assert s[0] == LBRACKET && s[1..] == gap + body && body[1..] == post;
    R.SkipBlanks(gap, body);
    R.BracketDispatch(s, open);
  }

  /** One element in its white space, before a comma or the bracket. */
  lemma {:induction false} ElementReads(before: Text, form: Form, after: Text, tail: Text, open: nat)
    requires R.Blank(before) && AcceptedForm(form) && R.Blank(after) && open <= NESTING_LIMIT
    requires R.Dark(tail) && (tail[0] == COMMA || tail[0] == RBRACKET)
    ensures Reads(G.OneElem(before + (Write(form) + (after + tail)), open), ValueOf(form), tail,
                    open + Nesting(ValueOf(form)) <= NESTING_LIMIT && Keeps(form))
    decreases form, 6
  {
    hide G.ParseValue;
    hide G.SkipWhitespace;
    hide Write;
    FirstByte(form);
    BlankThenDark(before, Write(form) + (after + tail));
    BlankThenDark(after, tail);
    AcceptedReads(form, after + tail, open);
    MissedText(G.ParseValue(Write(form) + (after + tail), open));
  }

  /** What follows the first element: the others behind a comma, or the end. */
  function AfterItem(items: Items, tail: Text): Text {
    match items
    case LastItem(_, _, _) => tail
    case Item(_, _, _, more) => [COMMA] + (WriteItems(more) + tail)
  }

  /** The elements with other white space in front. */
  function ItemsText(lead: Text, items: Items, tail: Text): Text {
    lead + (Write(items.form) + (items.after + AfterItem(items, tail)))
  }

  lemma ItemsRegroup(items: Items, tail: Text)
    ensures WriteItems(items) + tail == ItemsText(items.before, items, tail)
    ensures ItemsText(items.before, items, tail) == items.before + ItemsText([], items, tail)
  {
    hide Write;
    match items {
      case LastItem(_, _, _) => ThreeParts(items.before, Write(items.form), items.after, tail);
      case Item(_, _, _, more) =>
        ThreeParts(items.before, Write(items.form), items.after + ([COMMA] + WriteItems(more)), tail);
        assert items.after + ([COMMA] + WriteItems(more)) + tail == items.after + ([COMMA] + (WriteItems(more) + tail));
    }
    NoLead(Write(items.form) + (items.after + AfterItem(items, tail)));
  }

  lemma ThreeParts(a: Text, b: Text, c: Text, tail: Text)
    ensures a + (b + c) + tail == a + (b + (c + tail))
  {
  }

  lemma {:induction false} ItemsRead(lead: Text, items: Items, tail: Text, open: nat)
    requires R.Blank(lead) && AcceptedItems(items) && open <= NESTING_LIMIT && R.Dark(tail) && tail[0] == RBRACKET
    ensures Reads(G.ParseElems(ItemsText(lead, items, tail), open), ElemsOf(items), tail,
                    open + NestingElems(ElemsOf(items)) <= NESTING_LIMIT && KeepsItems(items))
    decreases items, 3
  {
    hide G.ParseElems;
    hide G.OneElem;
    hide Write;
    hide AcceptedForm;
    var rest := AfterItem(items, tail);
    G.ElemsUnfold(ItemsText(lead, items, tail), open);
    ElementReads(lead, items.form, items.after, rest, open);
    if items.Item? {
      ItemsRead(items.rest.before, items.rest, tail, open);
      ItemsRegroup(items.rest, tail);
      assert rest[1..] == WriteItems(items.rest) + tail;
    }
  }

  lemma {:induction false} ArrayReads(items: Items, post: Text, open: nat)
    requires AcceptedItems(items) && open <= NESTING_LIMIT
    ensures R.ParsesIf(G.ParseValue(Write(ArrayForm(items)) + post, open), Array(ElemsOf(items)), post,
                       open + 1 + NestingElems(ElemsOf(items)) <= NESTING_LIMIT && KeepsItems(items))
    decreases items, 4
  {
    hide G.ParseElems;
    hide G.ParseValue;
    hide WriteItems;
    var tail := [RBRACKET] + post;
    var body := ItemsText([], items, tail);
    FirstByte(items.form);
    ItemsRegroup(items, tail);
    Bracketed(LBRACKET, WriteItems(items), RBRACKET, post);
    assert Write(ArrayForm(items)) + post == [LBRACKET] + (items.before + body);
    hide ItemsText;
    BodyBegins(items, tail);
    ArrayOpens(items.before, body, open);
    if open < NESTING_LIMIT {
      ItemsRead([], items, tail, open + 1);
      assert tail[1..] == post;
    }
  }

  lemma BodyBegins(items: Items, tail: Text)
    requires AcceptedItems(items)
    ensures R.Dark(ItemsText([], items, tail)) && ItemsText([], items, tail)[0] != RBRACKET
  {
    FirstByte(items.form);
    hide Write;
  }

  lemma Bracketed(open: Byte, inner: Text, close: Byte, post: Text)
    ensures [open] + (inner + [close]) + post == [open] + (inner + ([close] + post))
  {
  }

  /** One member in its white space, before a comma or the brace. */
  lemma {:induction false} MemberReads(lead: Text, e: Entries, tail: Text, open: nat)
    requires R.Blank(lead) && AcceptedEntries(e) && open <= NESTING_LIMIT
    requires R.Dark(tail) && (tail[0] == COMMA || tail[0] == RBRACE)
    ensures Reads(G.OneMember(EntryText(lead, e, tail), open), (Name(e.name), ValueOf(e.form)), tail,
                    open + Nesting(ValueOf(e.form)) <= NESTING_LIMIT && Paired(e.name) && Keeps(e.form))
    decreases e, 2
  {
    hide G.ParseValue;
    hide G.ParseString;
    hide G.SkipWhitespace;
    hide Write;
    hide AcceptedName;
    hide Name;
    var value := Write(e.form) + (e.after + tail);
    var colon := [COLON] + (e.gap + value);
    assert NameText(e.name)[0] == QUOTE;
    BlankThenDark(lead, NameText(e.name) + (e.mid + colon));
    NameReads(e.name, e.mid + colon);
    BlankThenDark(e.mid, colon);
    assert colon[1..] == e.gap + value;
    FirstByte(e.form);
    BlankThenDark(e.gap, value);
    BlankThenDark(e.after, tail);
    AcceptedReads(e.form, e.after + tail, open);
    MissedText(G.ParseValue(value, open));
  }

  /** The first member, other white space in front and this text behind. */
  function EntryText(lead: Text, e: Entries, tail: Text): (t: Text)
    ensures t != []
  {
    lead + (NameText(e.name) + (e.mid + ([COLON] + (e.gap + (Write(e.form) + (e.after + tail))))))
  }

  function AfterEntry(es: Entries, tail: Text): Text {
    match es
    case LastEntry(_, _, _, _, _, _) => tail
    case Entry(_, _, _, _, _, _, more) => [COMMA] + (WriteEntries(more) + tail)
  }

  lemma SixParts(a: Text, b: Text, c: Text, d: Text, e: Text, f: Text, g: Text, tail: Text)
    ensures a + (b + (c + (d + (e + (f + g))))) + tail == a + (b + (c + (d + (e + (f + (g + tail))))))
  {
  }

  lemma EntriesRegroup(es: Entries, tail: Text)
    ensures WriteEntries(es) + tail == EntryText(es.before, es, AfterEntry(es, tail))
    ensures EntryText(es.before, es, AfterEntry(es, tail)) == es.before + EntryText([], es, AfterEntry(es, tail))
  {
    hide Write;
    hide NameText;
    match es {
      case LastEntry(_, _, _, _, _, _) =>
        SixParts(es.before, NameText(es.name), es.mid, [COLON], es.gap, Write(es.form), es.after, tail);
      case Entry(_, _, _, _, _, _, more) =>
        SixParts(es.before, NameText(es.name), es.mid, [COLON], es.gap, Write(es.form),
                 es.after + ([COMMA] + WriteEntries(more)), tail);
        assert es.after + ([COMMA] + WriteEntries(more)) + tail == es.after + ([COMMA] + (WriteEntries(more) + tail));
    }
    NoLead(NameText(es.name) + (es.mid + ([COLON] + (es.gap + (Write(es.form) + (es.after + AfterEntry(es, tail)))))));
  }

  lemma NoLead(t: Text)
    ensures [] + t == t
  {
  }

  lemma {:induction false} EntriesRead(lead: Text, es: Entries, tail: Text, open: nat)
    requires R.Blank(lead) && AcceptedEntries(es) && open <= NESTING_LIMIT && R.Dark(tail) && tail[0] == RBRACE
    ensures Reads(G.ParseMembers(EntryText(lead, es, AfterEntry(es, tail)), open), MembersOf(es), tail,
                    open + NestingMembers(MembersOf(es)) <= NESTING_LIMIT && KeepsEntries(es))
    decreases es, 3
  {
    hide G.ParseMembers;
    hide G.OneMember;
    hide AcceptedForm;
    hide EntryText;
    hide Name;
    var rest := AfterEntry(es, tail);
    G.MembersUnfold(EntryText(lead, es, rest), open);
    MemberReads(lead, es, rest, open);
    if es.Entry? {
      EntriesRead(es.rest.before, es.rest, tail, open);
      EntriesRegroup(es.rest, tail);
      assert rest[1..] == WriteEntries(es.rest) + tail;
    }
  }

  lemma {:induction false} ObjectReads(es: Entries, post: Text, open: nat)
    requires AcceptedEntries(es) && open <= NESTING_LIMIT
    ensures R.ParsesIf(G.ParseValue(Write(ObjectForm(es)) + post, open), Object(MembersOf(es)), post,
                       open + 1 + NestingMembers(MembersOf(es)) <= NESTING_LIMIT && KeepsEntries(es))
    decreases es, 4
  {
    hide G.ParseMembers;
    hide G.ParseValue;
    hide WriteEntries;
    hide EntryText;
    hide AfterEntry;
    var tail := [RBRACE] + post;
    var body := EntryText([], es, AfterEntry(es, tail));
    EntriesRegroup(es, tail);
    Bracketed(LBRACE, WriteEntries(es), RBRACE, post);
    assert Write(ObjectForm(es)) + post == [LBRACE] + (es.before + body);
    NameFirst(es, AfterEntry(es, tail));
    R.ObjectStep(es.before, body, open);
    if open < NESTING_LIMIT {
      EntriesRead([], es, tail, open + 1);
      assert tail[1..] == post;
    }
  }

  lemma NameFirst(es: Entries, tail: Text)
    ensures EntryText([], es, tail)[0] == QUOTE
  {
    hide Write;
    NoLead(NameText(es.name) + (es.mid + ([COLON] + (es.gap + (Write(es.form) + (es.after + tail))))));
    assert NameText(es.name)[0] == QUOTE;
  }

  /**
   * Every accepted text is read as its value exactly when it nests within the limit, no
   * number in it is longer than the parser looks, and surrogates come in pairs.
   */
  lemma {:induction false} AcceptedReads(f: Form, post: Text, open: nat)
    requires AcceptedForm(f) && (f.NumberForm? ==> R.Delimited(post)) && open <= NESTING_LIMIT
    ensures var fits := open + Nesting(ValueOf(f)) <= NESTING_LIMIT && Keeps(f);
      && Reads(G.ParseValue(Write(f) + post, open), ValueOf(f), post, fits)
      && (!f.NumberForm? ==> R.ParsesIf(G.ParseValue(Write(f) + post, open), ValueOf(f), post, fits))
    decreases f, 5
  {
    hide G.ParseValue;
    match f
    case ArrayForm(items) => ArrayReads(items, post, open);
    case ObjectForm(es) => ObjectReads(es, post, open);
    case EmptyArray(gap) =>
      assert Write(f) + post == [LBRACKET] + (gap + ([RBRACKET] + post));
      EmptyArrayReads(gap, post, open);
    case EmptyObject(gap) =>
      assert Write(f) + post == [LBRACE] + (gap + ([RBRACE] + post));
      R.EmptyObjectStep(gap, post, open);
    case _ =>
      ScalarReads(f, post, open);
  }

  /**
   * Every JSON text is read as its value, with any white space, any escapes and any
   * decimal spelling, exactly when it nests within the limit, no number in it is longer
   * than the parser looks, and no surrogate in it is without its other half.
   */
  lemma FormReads(f: Form, post: Text, open: nat)
    requires ValidForm(f) && (f.NumberForm? ==> R.Delimited(post)) && open <= NESTING_LIMIT
    ensures var fits := open + Nesting(ValueOf(f)) <= NESTING_LIMIT && ShortNumbers(f) && PairedUnits(f);
      && Reads(G.ParseValue(Write(f) + post, open), ValueOf(f), post, fits)
      && (!f.NumberForm? ==> R.ParsesIf(G.ParseValue(Write(f) + post, open), ValueOf(f), post, fits))
  {
    ValidIsAccepted(f);
    AcceptedReads(f, post, open);
  }

  /** The text "\uD800" is one of JSON, and is refused. */
  lemma LoneSurrogateRefused(post: Text, open: nat)
    requires open <= NESTING_LIMIT
    ensures var f := StringForm([Unit([BACKSLASH, LETTER_U, 68, 56, 48, 48], 0xD800)]);
      && ValidForm(f) && !PairedUnits(f)
      && Write(f) == [QUOTE, BACKSLASH, LETTER_U, 68, 56, 48, 48, QUOTE]
      && G.ParseValue(Write(f) + post, open).Err?
  {
    hide G.ParseValue;
    var ps := [Unit([BACKSLASH, LETTER_U, 68, 56, 48, 48], 0xD800)];
    assert ps[1..] == [];
    assert PiecesText(ps) == ps[0].text + [];
    FormReads(StringForm(ps), post, open);
  }

  const BYTE_ORDER_MARK: Text := [0xEF, 0xBB, 0xBF]

  /** A text with white space around it, behind a byte order mark or not. */
  function Spelled(marked: bool, before: Text, f: Form, after: Text): Text {
    (if marked then BYTE_ORDER_MARK else []) + (before + (Write(f) + after))
  }

  /**
   * What a whole text gives, held as a C string: the tree of its value and where that ends
   * when it fits; else a failure, or, for a number by itself that is too long and with no
   * terminator asked for, the number cut.
   */
  ghost predicate ReadsText(marked: bool, before: Text, f: Form, after: Text, requireNul: bool, fits: bool) {
    var text := Spelled(marked, before, f, after);
    var end := if requireNul then |text| else |text| - |after|;
    var r := G.ParseCString(text, requireNul);
    if fits then r == G.Tree(ValueOf(f), end)
    else if requireNul || !f.NumberForm? then r.Failure?
    else r.Tree? && r.end < end
  }

  /** Every accepted text, with white space around it and behind a byte order mark or not. */
  lemma AcceptedTextReads(marked: bool, before: Text, f: Form, after: Text, requireNul: bool)
    requires R.Blank(before) && AcceptedForm(f) && R.Blank(after) && NulFree(before + (Write(f) + after))
    ensures ReadsText(marked, before, f, after, requireNul, Nesting(ValueOf(f)) <= NESTING_LIMIT && Keeps(f))
  {
    hide G.ParseValue;
    hide G.ParseCString;
    hide G.SkipWhitespace;
    hide G.FailureAt;
    hide Write;
    hide ValueOf;
    hide Spelled;
    hide AcceptedForm;
    hide Nesting;
    hide Keeps;
    var post := after + [NUL];
    var s := Write(f) + post;
    SpelledLength(marked, before, f, after);
    FailureIs(Spelled(marked, before, f, after) + [NUL]);
    SpelledParses(marked, before, f, after, requireNul);
    assert R.Blank(post);
    AcceptedReads(f, post, 0);
    MissedText(G.ParseValue(s, 0));
    BlankEnds(post);
    assert post[|post| - 1..] == [NUL];
    if f.NumberForm? {
      LongNumberLeft(f, post);
    }
  }

  lemma SpelledLength(marked: bool, before: Text, f: Form, after: Text)
    ensures |after| <= |Spelled(marked, before, f, after)|
  {
  }

  lemma FailureIs(content: Text)
    requires content != []
    ensures forall rest: Text :: |rest| <= |content| ==> G.FailureAt(content, rest).Failure?
  {
  }

  /** Mark and white space are skipped, and the value is read. */
  lemma SpelledParses(marked: bool, before: Text, f: Form, after: Text, requireNul: bool)
    requires R.Blank(before) && AcceptedForm(f) && NulFree(before + (Write(f) + after))
    ensures var text, s := Spelled(marked, before, f, after), Write(f) + (after + [NUL]);
      var r := G.ParseValue(s, 0);
      var tail := if r.Ok? && requireNul then G.SkipWhitespace(r.rest) else r.rest;
      && |tail| <= |text| + 1
      && G.ParseCString(text, requireNul) ==
         if r.Err? || (requireNul && (tail == [] || tail[0] != NUL)) then G.FailureAt(text + [NUL], tail)
         else G.Tree(r.value, |text| + 1 - |tail|)
  {
    hide G.ParseValue;
    hide G.SkipWhitespace;
    hide G.SkipBom;
    hide Write;
    var mark := if marked then BYTE_ORDER_MARK else [];
    var inner := before + (Write(f) + after);
    var text := mark + inner;
    var s := Write(f) + (after + [NUL]);
    NulFreeConcat(mark, inner);
    CStringIsWhole(text);
    FirstByte(f);
    assert inner + [NUL] == before + s;
    assert text + [NUL] == mark + (before + s);
    MarkSkipped(marked, before, s);
    BlankThenDark(before, s);
  }

  /** A number that is too long is left somewhere inside. */
  lemma LongNumberLeft(f: Form, post: Text)
    requires f.NumberForm? && AcceptedForm(f) && R.Delimited(post)
    ensures Nesting(ValueOf(f)) == 0
    ensures !Keeps(f) ==> var r := G.ParseValue(Write(f) + post, 0); r.Ok? && |r.rest| > |post|
  {
    hide G.ParseValue;
    hide G.ParseNumber;
    hide NumberText;
    hide NumberValue;
    hide AcceptedNumber;
    var t := Write(f);
    NumberBytes(f.negative, f.whole, f.fraction, f.exponent);
    assert (t + post)[0] == t[0];
    R.NumberDispatch(t + post, 0);
    if !Keeps(f) {
      NumberBegun(f.negative, f.whole, f.fraction, f.exponent);
      LongNumberMisses(t, post);
      LongNumberBegins(t, post);
    }
  }

  /** The same for every JSON text; it never holds a terminator. */
  lemma TextReads(marked: bool, before: Text, f: Form, after: Text, requireNul: bool)
    requires White(before) && ValidForm(f) && White(after)
    ensures ReadsText(marked, before, f, after, requireNul,
                      Nesting(ValueOf(f)) <= NESTING_LIMIT && ShortNumbers(f) && PairedUnits(f))
  {
    hide Write;
    hide ReadsText;
    ValidIsAccepted(f);
    WhiteIsBlank(before);
    WhiteIsBlank(after);
    FormNulFree(f);
    WhiteNulFree(before);
    WhiteNulFree(after);
    NulFreeConcat(Write(f), after);
    NulFreeConcat(before, Write(f) + after);
    AcceptedTextReads(marked, before, f, after, requireNul);
  }

  // ----- nesting -----

  /** Empty arrays one inside the other. */
  function Nested(n: nat): Form {
    if n == 0 then EmptyArray([]) else ArrayForm(LastItem([], Nested(n - 1), []))
  }

  function Repeated(b: Byte, n: nat): Text {
    seq(n, _ => b)
  }

  lemma {:induction false} NestedFacts(n: nat)
    ensures ValidForm(Nested(n)) && Keeps(Nested(n)) && Nesting(ValueOf(Nested(n))) == n + 1
    ensures Write(Nested(n)) == Repeated(LBRACKET, n + 1) + Repeated(RBRACKET, n + 1)
    decreases n
  {
    if n > 0 {
      NestedFacts(n - 1);
      NestedText(Nested(n - 1), n);
    } else {
      assert Write(Nested(0)) == [LBRACKET] + ([] + [RBRACKET]);
    }
  }

  lemma NestedText(f: Form, n: nat)
    requires Write(f) == Repeated(LBRACKET, n) + Repeated(RBRACKET, n)
    ensures Write(ArrayForm(LastItem([], f, []))) == Repeated(LBRACKET, n + 1) + Repeated(RBRACKET, n + 1)
  {
    var t := Write(f);
    assert WriteItems(LastItem([], f, [])) == [] + (t + []);
    assert [] + (t + []) == t;
    assert [LBRACKET] + Repeated(LBRACKET, n) == Repeated(LBRACKET, n + 1);
    assert Repeated(RBRACKET, n) + [RBRACKET] == Repeated(RBRACKET, n + 1);
  }

  /** A thousand brackets open at once are read, one more is not. */
  lemma DeepestNesting(n: nat)
    requires n > 0
    ensures G.ParseCString(Repeated(LBRACKET, n) + Repeated(RBRACKET, n), true).Tree? <==> n <= 1000
  {
    hide G.ParseCString;
    hide Write;
    var f := Nested(n - 1);
    NestedFacts(n - 1);
    TextReads(false, [], f, [], true);
    var t := Write(f);
    assert Spelled(false, [], f, []) == [] + ([] + (t + [])) == t;
  }

  // ----- no terminator inside -----

  lemma WhiteNulFree(t: Text)
    requires White(t)
    ensures NulFree(t)
  {
  }

  lemma {:induction false} FormNulFree(f: Form)
    requires ValidForm(f)
    ensures NulFree(Write(f))
    decreases f, 1
  {
    hide NameText;
    hide ValidPieces;
    hide NumberText;
    match f
    case NumberForm(negative, whole, fraction, exponent) =>
      NumberBytes(negative, whole, fraction, exponent);
    case StringForm(ps) => NameNulFree(ps);
    case ArrayForm(items) => ItemsNulFree(items);
    case ObjectForm(entries) => EntriesNulFree(entries);
    case _ =>
  }

  lemma {:induction false} ItemsNulFree(items: Items)
    requires ValidItems(items)
    ensures NulFree(WriteItems(items))
    decreases items, 0
  {
    hide Write;
    hide ValidForm;
    FormNulFree(items.form);
    WhiteNulFree(items.before);
    WhiteNulFree(items.after);
    if items.Item? {
      ItemsNulFree(items.rest);
    }
  }

  lemma {:induction false} EntriesNulFree(es: Entries)
    requires ValidEntries(es)
    ensures NulFree(WriteEntries(es))
    decreases es, 0
  {
    hide Write;
    hide ValidForm;
    hide NameText;
    hide ValidPieces;
    NameNulFree(es.name);
    FormNulFree(es.form);
    WhiteNulFree(es.before);
    WhiteNulFree(es.mid);
    WhiteNulFree(es.gap);
    WhiteNulFree(es.after);
    if es.Entry? {
      EntriesNulFree(es.rest);
    }
  }

  lemma NameNulFree(ps: seq<Piece>)
    requires ValidPieces(ps)
    ensures NulFree(NameText(ps))
  {
    PiecesNulFree(ps);
  }

  lemma {:induction false} PiecesNulFree(ps: seq<Piece>)
    requires ValidPieces(ps)
    ensures NulFree(PiecesText(ps))
  {
    hide ValidPiece;
    hide PieceText;
    if ps != [] {
      PieceNulFree(ps[0]);
      PiecesNulFree(ps[1..]);
    }
  }

  lemma PieceNulFree(p: Piece)
    requires ValidPiece(p)
    ensures NulFree(PieceText(p))
  {
  }

  /** What is left of a number is not skipped. */
  lemma MissedText<T>(r: G.Parsed<T>)
    ensures Misses(r) && r.Ok? ==> G.SkipWhitespace(r.rest) == r.rest && r.rest != [] && r.rest[0] != NUL
  {
    if Misses(r) && r.Ok? {
      R.SkipNothing(r.rest);
    }
  }

  /** A byte order mark is skipped, and nothing else is taken for one. */
  lemma MarkSkipped(marked: bool, before: Text, dark: Text)
    requires R.Blank(before) && |dark| > 1 && dark[0] != 0xEF
    ensures G.SkipBom((if marked then BYTE_ORDER_MARK else []) + (before + dark)) == before + dark
  {
    var rest := before + dark;
    if marked {
      assert (BYTE_ORDER_MARK + rest)[..3] == BYTE_ORDER_MARK;
    } else {
      assert [] + rest == rest;
      NoMark(rest, before, dark);
    }
  }

  /** Such a text does not begin with a byte order mark. */
  lemma NoMark(s: Text, before: Text, dark: Text)
    requires s == before + dark && R.Blank(before) && dark != [] && dark[0] != 0xEF
    ensures G.SkipBom(s) == s
  {
    assert |s| > 4 ==> s[..3][0] == s[0];
    assert before != [] ==> s[0] == before[0];
    assert before == [] ==> s[0] == dark[0];
  }

  /** Input that is blank to its end is left at its last byte. */
  lemma {:induction false} BlankEnds(s: Text)
    requires R.Blank(s) && s != []
    ensures G.DropWhitespace(s) == [] && G.SkipWhitespace(s) == s[|s| - 1..]
  {
    if |s| > 1 {
      BlankEnds(s[1..]);
    }
  }
}
