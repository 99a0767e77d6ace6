/**
 * JSON trees and the text the printer is meant to produce for them.
 * Children are kept as chains, the way the library links siblings through `next`.
 */
module JsonValue {
  import opened Bytes

  datatype Json =
    | Null
    | False
    | True
    | Number(value: real)
    | String(text: Text)
    | Array(elems: Elems)
    | Object(members: Members)

  datatype Elems = NoElem | Elem(head: Json, next: Elems)

  datatype Members = NoMember | Member(key: Text, value: Json, next: Members)

  const INT_MAX := 0x7FFF_FFFF
  const INT_MIN := -0x8000_0000
  const NESTING_LIMIT := 1000

  const NULL_TEXT: Text := [110, 117, 108, 108]
  const FALSE_TEXT: Text := [102, 97, 108, 115, 101]
  const TRUE_TEXT: Text := [116, 114, 117, 101]

  /** The integer field kept beside the number: truncated toward zero and saturated. */
  function ValueInt(d: real): int {
    if d >= INT_MAX as real then INT_MAX
    else if d <= INT_MIN as real then INT_MIN
    else if d >= 0.0 then d.Floor else -((-d).Floor)
  }

  /** The numbers that the printer writes with "%d". */
  predicate IsInt32(d: real) {
    d == ValueInt(d) as real
  }

  /** Trees of 32-bit integers and C strings, of any depth. */
  predicate Printable(j: Json) {
    match j
    case Null => true
    case False => true
    case True => true
    case Number(d) => IsInt32(d)
    case String(t) => NulFree(t)
    case Array(es) => PrintableElems(es)
    case Object(ms) => PrintableMembers(ms)
  }

  predicate PrintableElems(es: Elems) {
    es.NoElem? || (Printable(es.head) && PrintableElems(es.next))
  }

  predicate PrintableMembers(ms: Members) {
    ms.NoMember? || (NulFree(ms.key) && Printable(ms.value) && PrintableMembers(ms.next))
  }

  /** How many arrays and objects are open at the deepest point. */
  function Nesting(j: Json): nat {
    match j
    case Array(es) => 1 + NestingElems(es)
    case Object(ms) => 1 + NestingMembers(ms)
    case _ => 0
  }

  function Max(a: nat, b: nat): nat {
    if a >= b then a else b
  }

  function NestingElems(es: Elems): nat {
    if es.NoElem? then 0 else Max(Nesting(es.head), NestingElems(es.next))
  }

  function NestingMembers(ms: Members): nat {
    if ms.NoMember? then 0 else Max(Nesting(ms.value), NestingMembers(ms.next))
  }

  // ----- numbers -----

  function Digits(n: nat): (t: Text)
    ensures |t| > 0
    ensures forall i :: 0 <= i < |t| ==> IsDigit(t[i])
  {
    if n < 10 then [ZERO + n] else Digits(n / 10) + [ZERO + n % 10]
  }

  predicate IsDigit(b: Byte) {
    ZERO <= b <= ZERO + 9
  }

  /** "%d" */
  function Decimal(n: int): Text {
    if n < 0 then [MINUS] + Digits(-n) else Digits(n)
  }

  // ----- strings -----

  predicate ShortEscape(b: Byte) {
    b == QUOTE || b == BACKSLASH || b == 8 || b == 12 || b == 10 || b == 13 || b == 9
  }

  /** Extra bytes the first pass of the string printer reserves for one byte. */
  function EscapeCost(b: Byte): nat {
    if ShortEscape(b) then 1 else if b < 32 then 5 else 0
  }

  function EscapeCount(t: Text): nat {
    if t == [] then 0 else EscapeCost(t[0]) + EscapeCount(t[1..])
  }

  /** Lower-case hexadecimal digit, as "%04x" writes it. */
  function HexDigit(n: int): Byte
    requires 0 <= n < 16
  {
    if n < 10 then ZERO + n else 97 + n - 10
  }

  /** The letter that follows the backslash in a two-byte escape. */
  function EscapeLetter(b: Byte): Byte
    requires ShortEscape(b)
  {
    if b == 8 then 98 else if b == 12 then 102 else if b == 10 then 110
    else if b == 13 then 114 else if b == 9 then 116 else b
  }

  /** What the second pass writes for one byte. */
  function EscapeByte(b: Byte): (t: Text)
    ensures |t| == 1 + EscapeCost(b)
  {
    if b > 31 && b != QUOTE && b != BACKSLASH then [b]
    else if ShortEscape(b) then [BACKSLASH, EscapeLetter(b)]
    else [BACKSLASH, LETTER_U, ZERO, ZERO, HexDigit(b / 16), HexDigit(b % 16)]
  }

  function Escape(t: Text): Text {
    if t == [] then [] else EscapeByte(t[0]) + Escape(t[1..])
  }

  function Quoted(t: Text): Text {
    [QUOTE] + Escape(t) + [QUOTE]
  }

  // ----- whole trees -----

  function Tabs(n: nat): (t: Text)
    ensures |t| == n && forall i :: 0 <= i < n ==> t[i] == TAB
  {
    seq(n, _ => TAB)
  }

  /** The text of `j` when `depth` arrays and objects are already open. */
  function Render(j: Json, depth: nat, fmt: bool): Text {
    match j
    case Null => NULL_TEXT
    case False => FALSE_TEXT
    case True => TRUE_TEXT
    case Number(d) => Decimal(ValueInt(d))
    case String(t) => Quoted(t)
    case Array(es) => [LBRACKET] + RenderElems(es, depth + 1, fmt) + [RBRACKET]
    case Object(ms) => ObjectOpen(fmt) + RenderMembers(ms, depth + 1, fmt) + ObjectClose(depth, fmt)
  }

  function ObjectOpen(fmt: bool): Text {
    if fmt then [LBRACE, NEWLINE] else [LBRACE]
  }

  function ObjectClose(depth: nat, fmt: bool): Text {
    (if fmt then Tabs(depth) else []) + [RBRACE]
  }

  function ElemSeparator(last: bool, fmt: bool): Text {
    if last then [] else if fmt then [COMMA, SPACE] else [COMMA]
  }

  function RenderElems(es: Elems, depth: nat, fmt: bool): Text {
    if es.NoElem? then [] else
    Render(es.head, depth, fmt) + ElemSeparator(es.next.NoElem?, fmt) + RenderElems(es.next, depth, fmt)
  }

  function KeySeparator(fmt: bool): Text {
    if fmt then [COLON, TAB] else [COLON]
  }

  function MemberEnd(last: bool, fmt: bool): Text {
    (if last then [] else [COMMA]) + (if fmt then [NEWLINE] else [])
  }

  function RenderMembers(ms: Members, depth: nat, fmt: bool): Text {
    if ms.NoMember? then [] else
    (if fmt then Tabs(depth) else []) + Quoted(ms.key) + KeySeparator(fmt)
    + Render(ms.value, depth, fmt) + MemberEnd(ms.next.NoMember?, fmt)
    + RenderMembers(ms.next, depth, fmt)
  }

  /** The bytes that the two passes of the string printer agree on. */
  lemma {:induction false} EscapeLength(t: Text)
    ensures |Escape(t)| == |t| + EscapeCount(t)
  {
    if t != [] {
      EscapeLength(t[1..]);
    }
  }
}
