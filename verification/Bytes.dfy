/** Bytes, byte strings and the C-string view of a buffer. */
module Bytes {
  type Byte = x: int | 0 <= x < 256
  type Text = seq<Byte>

  datatype Option<+T> = None | Some(value: T)

  const NUL: Byte := 0
  const TAB: Byte := 9
  const NEWLINE: Byte := 10
  const SPACE: Byte := 32
  const QUOTE: Byte := 34
  const PLUS: Byte := 43
  const COMMA: Byte := 44
  const MINUS: Byte := 45
  const DOT: Byte := 46
  const SLASH: Byte := 47
  const ZERO: Byte := 48
  const COLON: Byte := 58
  const LBRACKET: Byte := 91
  const BACKSLASH: Byte := 92
  const RBRACKET: Byte := 93
  const LETTER_U: Byte := 117
  const LBRACE: Byte := 123
  const RBRACE: Byte := 125

  /** The bytes of a text in ASCII. */
  function Ascii(s: string): Text
    requires forall i :: 0 <= i < |s| ==> s[i] as int < 128
  {
    seq(|s|, i requires 0 <= i < |s| => s[i] as int)
  }

  /** The bytes by the characters that they stand for. */
  lemma NamedBytes()
    ensures [SPACE, QUOTE, PLUS, COMMA, MINUS, DOT, SLASH, ZERO, COLON] == Ascii(" \"+,-./0:")
    ensures [LBRACKET, BACKSLASH, RBRACKET, LETTER_U, LBRACE, RBRACE] == Ascii("[\\]u{}")
    ensures [NUL, TAB, NEWLINE] == Ascii("\0\t\n")
  {
  }

  /** No terminator inside: the text survives being held in a `char *`. */
  predicate NulFree(t: Text) {
    forall i :: 0 <= i < |t| ==> t[i] != NUL
  }

  /** What a `char *` to these bytes denotes: everything before the first NUL. */
  function CString(t: Text): (c: Text)
    ensures |c| <= |t| && c == t[..|c|] && NulFree(c)
    ensures |c| < |t| ==> t[|c|] == NUL
  {
    if t == [] || t[0] == NUL then [] else [t[0]] + CString(t[1..])
  }

  /** The C-string view loses nothing exactly when there is no NUL inside. */
  lemma CStringIsWhole(t: Text)
    ensures CString(t) == t <==> NulFree(t)
  {
  }

  /** `tolower` on one byte. */
  function Lower(b: Byte): Byte {
    if 65 <= b <= 90 then b + 32 else b
  }

  function LowerAll(t: Text): Text {
    seq(|t|, i requires 0 <= i < |t| => Lower(t[i]))
  }

  /** What two keys are compared by. */
  function Fold(key: Text, caseSensitive: bool): Text {
    if caseSensitive then key else LowerAll(key)
  }

  /** The same byte, or the same letter of the ASCII alphabet, one in upper and one in lower case. */
  predicate AlikeBytes(a: Byte, b: Byte) {
    a == b || (65 <= a <= 90 && b == a + 32) || (65 <= b <= 90 && a == b + 32)
  }

  /** Equal byte by byte, up to the case of letters where that does not count. */
  predicate Alike(a: Text, b: Text, caseSensitive: bool) {
    if caseSensitive then a == b else |a| == |b| && forall i :: 0 <= i < |a| ==> AlikeBytes(a[i], b[i])
  }

  /** Keys are compared by their folds. */
  lemma FoldsAgreeExactly(a: Text, b: Text, caseSensitive: bool)
    ensures Fold(a, caseSensitive) == Fold(b, caseSensitive) <==> Alike(a, b, caseSensitive)
  {
    if !caseSensitive {
      if LowerAll(a) == LowerAll(b) {
        assert |LowerAll(a)| == |LowerAll(b)|;
        assert forall i :: 0 <= i < |a| ==> Lower(a[i]) == LowerAll(a)[i] == LowerAll(b)[i] == Lower(b[i]);
      }
      if Alike(a, b, false) {
        assert forall i :: 0 <= i < |a| ==> AlikeBytes(a[i], b[i]) && Lower(a[i]) == Lower(b[i]);
        assert LowerAll(a) == LowerAll(b);
      }
    }
  }

  predicate StartsWith(t: Text, prefix: Text) {
    |prefix| <= |t| && t[..|prefix|] == prefix
  }

  lemma StartsWithAppend(prefix: Text, rest: Text)
    ensures StartsWith(prefix + rest, prefix)
    ensures (prefix + rest)[|prefix|..] == rest
  {
  }

  lemma NulFreeConcat(a: Text, b: Text)
    ensures NulFree(a + b) <==> NulFree(a) && NulFree(b)
  {
    if NulFree(a + b) {
      assert forall i :: 0 <= i < |a| ==> a[i] == (a + b)[i];
      assert forall i :: 0 <= i < |b| ==> b[i] == (a + b)[|a| + i];
    }
  }

  /** Two to the power of `n`. */
  function Pow2(n: nat): (p: nat)
    ensures p > 0
  {
    if n == 0 then 1 else 2 * Pow2(n - 1)
  }

  lemma {:induction false} Pow2Grows(j: nat, k: nat)
    requires j <= k
    ensures Pow2(j) <= Pow2(k)
  {
    if j < k {
      Pow2Grows(j, k - 1);
    }
  }
}
