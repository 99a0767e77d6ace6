/** The recursive-descent parser as it runs: a cursor moved over a buffer, proved against `JsonGrammar`. */
module JsonParser {
  import opened Bytes
  import opened JsonValue
  import opened JsonLiteral
  import opened JsonList
  import opened JsonForest
  import opened JsonNodes
  import G = JsonGrammar

  // ----- elements and members read so far -----

  /** Elements already read in front of those still to come. */
  function After(items: seq<Json>, p: G.Parsed<Elems>): G.Parsed<Elems> {
    match p
    case Err(rest) => G.Err(rest)
    case Ok(es, rest) => G.Ok(Chain(items, es), rest)
  }

  function AfterMembers(items: seq<(Text, Json)>, p: G.Parsed<Members>): G.Parsed<Members> {
    match p
    case Err(rest) => G.Err(rest)
    case Ok(ms, rest) => G.Ok(ChainMembers(items, ms), rest)
  }

  // ----- strings in place -----

  /** One step of the sizing pass: a byte, or a backslash with the byte after it. */
  lemma MeasureStep(content: Text, at: nat, w: nat)
    requires at < |content| && content[at] != QUOTE
    requires w == (if content[at] == BACKSLASH then 2 else 1) && at + w <= |content|
    ensures match G.LiteralEnd(content[at + w..])
      case None => G.LiteralEnd(content[at..]) == None
      case Some(m) =>
        && G.LiteralEnd(content[at..]) == Some(m + w)
        && G.EscapesBefore(content[at..], m + w) == G.EscapesBefore(content[at + w..], m) + w - 1
  {
    assert content[at..][w..] == content[at + w..];
  }

  /** The sizing pass: finds the closing quote and counts the escape pairs before it. */
  method MeasureLiteral(content: Text, from: nat) returns (closed: bool, end: nat, skipped: nat)
    requires from <= |content|
    ensures closed <==> G.LiteralEnd(content[from..]).Some?
    ensures closed ==>
      && from <= end < |content|
      && G.LiteralEnd(content[from..]) == Some(end - from)
      && skipped == G.EscapesBefore(content[from..], end - from)
  {
    hide G.LiteralEnd;
    hide G.EscapesBefore;
    end, skipped := from, 0;
    while end < |content| && content[end] != QUOTE
      invariant from <= end <= |content|
      invariant match G.LiteralEnd(content[end..])
        case None => G.LiteralEnd(content[from..]) == None
        case Some(m) =>
          && G.LiteralEnd(content[from..]) == Some(end - from + m)
          && G.EscapesBefore(content[from..], end - from + m) == skipped + G.EscapesBefore(content[end..], m)
    {
      ghost var at := end;
      if content[end] == BACKSLASH {
        if end + 1 >= |content| {
          LoneBackslash(content[end..]);
          return false, end, skipped;
        }
        skipped := skipped + 1;
        end := end + 1;
      }
      end := end + 1;
      MeasureStep(content, at, end - at);
    }
    MeasureEnd(content[end..]);
    closed := end < |content|;
  }

  lemma LoneBackslash(t: Text)
    requires t == [BACKSLASH]
    ensures G.LiteralEnd(t) == None
  {
  }

  lemma MeasureEnd(t: Text)
    requires t == [] || t[0] == QUOTE
    ensures t == [] ==> G.LiteralEnd(t) == None
    ensures t != [] ==> G.LiteralEnd(t) == Some(0) && G.EscapesBefore(t, 0) == 0
  {
  }

  /** What is left of a code point after dropping `k` groups of six bits. */
  function Dropped(c: nat, k: nat): nat {
    if k == 0 then c else Dropped(c, k - 1) / 64
  }

  function Mark(length: nat): nat {
    if length == 2 then 0xC0 else if length == 3 then 0xE0 else if length == 4 then 0xF0 else 0
  }

  lemma Utf8Bytes(c: nat)
    requires c < 0x11_0000
    ensures var u := G.Utf8(c);
      && |u| == (if c < 0x80 then 1 else if c < 0x800 then 2 else if c < 0x1_0000 then 3 else 4)
      && u[0] == Mark(|u|) + Dropped(c, |u| - 1)
      && forall k :: 1 <= k < |u| ==> u[k] == 0x80 + Dropped(c, |u| - 1 - k) % 64
  {
    hide Dropped;
    NoneDropped(c);
    DropSix(c, 0);
    DropSix(c, 1);
    DropSix(c, 2);
    assert c / 4096 == c / 64 / 64;
    assert c / 262144 == c / 64 / 64 / 64;
  }

  lemma NoneDropped(c: nat)
    ensures Dropped(c, 0) == c
  {
  }

  lemma DropSix(c: nat, k: nat)
    ensures Dropped(c, k + 1) == Dropped(c, k) / 64
  {
  }

  /** Writes `codepoint` as UTF-8, its last byte first. */
  method WriteUtf8(codepoint: nat, output: array<Byte>, at: nat) returns (length: nat)
    requires codepoint < 0x11_0000 && at + |G.Utf8(codepoint)| <= output.Length
    modifies output
    ensures length == |G.Utf8(codepoint)|
    ensures output[..at + length] == old(output[..at]) + G.Utf8(codepoint)
  {
    hide G.Utf8;
    hide Dropped;
    Utf8Bytes(codepoint);
    NoneDropped(codepoint);
    ghost var encoded := G.Utf8(codepoint);
    var mark := 0;
    if codepoint < 0x80 {
      length := 1;
    } else if codepoint < 0x800 {
      length, mark := 2, 0xC0;
    } else if codepoint < 0x1_0000 {
      length, mark := 3, 0xE0;
    } else {
      length, mark := 4, 0xF0;
    }
    var rest, position := codepoint, length - 1;
    while position > 0
      invariant 0 <= position < length
      invariant rest == Dropped(codepoint, length - 1 - position)
      invariant output[..at] == old(output[..at])
      invariant output[at + position + 1..at + length] == encoded[position + 1..]
    {
      DropSix(codepoint, length - 1 - position);
      ghost var tail := output[at + position + 1..at + length];
      output[at + position] := 0x80 + rest % 64;
      assert output[at + position..at + length] == [encoded[position]] + tail == encoded[position..];
      rest := rest / 64;
      position := position - 1;
    }
    output[at] := mark + rest;
    assert output[at..at + length] == encoded;
  }

  /** Value of the first `k` hexadecimal digits, if all are. */
  function HexPrefix(t: Text, k: nat): Option<nat>
    requires k <= |t|
  {
    if k == 0 then Some(0)
    else
      match HexPrefix(t, k - 1)
      case None => None
      case Some(h) => match G.HexValue(t[k - 1]) case None => None case Some(d) => Some(16 * h + d)
  }

  lemma HexPrefixIsHex4(t: Text, k: nat)
    requires |t| == 4 && k <= 4
    ensures HexPrefix(t, k) == None ==> HexPrefix(t, 4) == None
    ensures G.Hex4(t) == match HexPrefix(t, 4) case None => 0 case Some(h) => h
  {
    hide G.HexValue;
    assert HexPrefix(t, 0) == Some(0);
    assert HexPrefix(t, 1) == match G.HexValue(t[0]) case None => None case Some(d) => Some(16 * 0 + d);
    assert HexPrefix(t, 2) == match HexPrefix(t, 1) case None => None case Some(h) =>
      match G.HexValue(t[1]) case None => None case Some(d) => Some(16 * h + d);
    assert HexPrefix(t, 3) == match HexPrefix(t, 2) case None => None case Some(h) =>
      match G.HexValue(t[2]) case None => None case Some(d) => Some(16 * h + d);
  }

  method ParseHex4(content: Text, at: nat) returns (h: nat)
    requires at + 4 <= |content|
    ensures h == G.Hex4(content[at..at + 4])
  {
    hide G.Hex4;
    ghost var t := content[at..at + 4];
    h := 0;
    var i := 0;
    while i < 4
      invariant 0 <= i <= 4
      invariant match HexPrefix(t, i) case None => false case Some(v) => h == (if i == 0 || i == 4 then v else 16 * v)
    {
      HexPrefixIsHex4(t, i + 1);
      assert content[at + i] == t[i];
      if 48 <= content[at + i] <= 57 {
        h := h + content[at + i] - 48;
      } else if 65 <= content[at + i] <= 70 {
        h := h + 10 + content[at + i] - 65;
      } else if 97 <= content[at + i] <= 102 {
        h := h + 10 + content[at + i] - 97;
      } else {
        return 0;
      }
      if i < 3 {
        h := 16 * h;
      }
      i := i + 1;
    }
    HexPrefixIsHex4(t, 4);
  }

  lemma Subrange(s: Text, a: nat, b: nat, i: nat, j: nat)
    requires i <= j && a + j <= b <= |s|
    ensures s[a..b][i..j] == s[a + i..a + j]
  {
    assert forall k :: 0 <= k < j - i ==> s[a..b][i..j][k] == s[a..b][i + k] == s[a + i + k];
  }

  /** Decodes one or two \u sequences into `output`; answers the bytes of input used, or 0. */
  method Utf16ToUtf8(content: Text, pointer: nat, end: nat, output: array<Byte>, at: nat)
    returns (sequence: nat, length: nat)
    requires pointer < end < |content|
    requires var d := G.Utf16Literal(content[pointer..end + 1]);
      d.Some? ==> at + |G.Utf8(d.value.codepoint)| <= output.Length
    modifies output
    ensures match G.Utf16Literal(content[pointer..end + 1])
      case None => sequence == 0
      case Some(d) =>
        && sequence == d.length && length == |G.Utf8(d.codepoint)| && at + length <= output.Length
        && output[..at + length] == old(output[..at]) + G.Utf8(d.codepoint)
  {
    hide G.Hex4;
    hide G.Utf8;
    ghost var t := content[pointer..end + 1];
    if end - pointer < 6 {
      return 0, 0;
    }
    var first := ParseHex4(content, pointer + 2);
    Subrange(content, pointer, end + 1, 2, 6);
    if 0xDC00 <= first <= 0xDFFF {
      return 0, 0;
    }
    var codepoint;
    if 0xD800 <= first <= 0xDBFF {
      sequence := 12;
      if end - (pointer + 6) < 6 {
        return 0, 0;
      }
      if content[pointer + 6] != BACKSLASH || content[pointer + 7] != LETTER_U {
        return 0, 0;
      }
      var second := ParseHex4(content, pointer + 8);
      Subrange(content, pointer, end + 1, 8, 12);
      if second < 0xDC00 || second > 0xDFFF {
        return 0, 0;
      }
      codepoint := 0x1_0000 + first % 0x400 * 0x400 + second % 0x400;
    } else {
      sequence, codepoint := 6, first;
    }
    assert G.Utf16Literal(t) == Some(G.Decoded(sequence, codepoint));
    length := WriteUtf8(codepoint, output, at);
  }

  /** Input still to be decoded: from `pointer` up to and including the closing quote. */
  function Remaining(content: Text, pointer: nat, end: nat): Text
    requires end < |content|
  {
    if pointer <= end then content[pointer..end + 1] else []
  }

  /** The decoding pass, into a buffer of the size the sizing pass allows. */
  method DecodeLiteral(content: Text, from: nat, end: nat, output: array<Byte>)
    returns (ok: bool, length: nat, pointer: nat)
    requires from <= end < |content|
    requires OutputLength(content[from..end + 1]) < output.Length
    modifies output
    ensures match G.Unescape(content[from..end + 1])
      case Done(bytes) => ok && length == |bytes| < output.Length && output[..length] == bytes
      case Bad(t) => !ok && from <= pointer && |t| == end + 1 - pointer
  {
    hide G.Utf8;
    hide G.Utf16Literal;
    hide G.EscapedByte;
    hide G.Unescape;
    hide OutputLength;
    hide Remaining;
    pointer, length := from, 0;
    ghost var whole := content[from..end + 1];
    RemainingHead(content, from, end);
    while pointer < end
      invariant from <= pointer <= end + 1 && length < output.Length
      invariant G.Unescape(whole) == G.Prepend(output[..length], G.Unescape(Remaining(content, pointer, end)))
      invariant length + OutputLength(Remaining(content, pointer, end)) < output.Length
    {
      ghost var before := output[..length];
      ghost var t := Remaining(content, pointer, end);
      RemainingHead(content, pointer, end);
      if content[pointer] != BACKSLASH {
        PlainStep(t, before);
        output[length] := content[pointer];
        length, pointer := length + 1, pointer + 1;
        assert output[..length] == before + [t[0]];
      } else if content[pointer + 1] == LETTER_U {
        UnicodeStep(t, before);
        var sequence, wrote := Utf16ToUtf8(content, pointer, end, output, length);
        if sequence == 0 {
          return false, length, pointer;
        }
        length, pointer := length + wrote, pointer + sequence;
      } else {
        EscapeStep(t, before);
        var decoded := G.EscapedByte(content[pointer + 1]);
        if decoded.None? {
          return false, length, pointer;
        }
        output[length] := decoded.value;
        length, pointer := length + 1, pointer + 2;
        assert output[..length] == before + [decoded.value];
      }
    }
    RemainingTail(content, pointer, end);
    ok := true;
  }

  lemma RemainingHead(content: Text, pointer: nat, end: nat)
    requires pointer <= end < |content|
    ensures var t := Remaining(content, pointer, end);
      && t == content[pointer..end + 1] && |t| == end + 1 - pointer
      && (forall w :: 0 <= w <= |t| ==> t[w..] == Remaining(content, pointer + w, end))
    ensures G.Unescape(Remaining(content, pointer, end)) == G.Prepend([], G.Unescape(Remaining(content, pointer, end)))
  {
    hide G.Unescape;
    assert forall u :: G.Prepend([], u) == u;
  }

  lemma RemainingTail(content: Text, pointer: nat, end: nat)
    requires end < |content| && end <= pointer <= end + 1
    ensures G.Unescape(Remaining(content, pointer, end)) == G.Done([])
  {
  }

  lemma PrependTwice(a: Text, b: Text, u: G.Unescaped)
    ensures G.Prepend(a, G.Prepend(b, u)) == G.Prepend(a + b, u)
  {
    if u.Done? {
      assert a + (b + u.bytes) == a + b + u.bytes;
    }
  }

  lemma PlainStep(t: Text, before: Text)
    requires |t| > 1 && t[0] != BACKSLASH
    ensures OutputLength(t) == 1 + OutputLength(t[1..])
    ensures G.Prepend(before, G.Unescape(t)) == G.Prepend(before + [t[0]], G.Unescape(t[1..]))
  {
    G.PlainStep(t);
    PrependTwice(before, [t[0]], G.Unescape(t[1..]));
  }

  lemma UnicodeStep(t: Text, before: Text)
    requires |t| > 1 && t[0] == BACKSLASH && t[1] == LETTER_U
    ensures match G.Utf16Literal(t)
      case None => G.Unescape(t) == G.Prepend(before, G.Unescape(t)) == G.Bad(t)
      case Some(d) =>
        && d.length < |t|
        && OutputLength(t) == |G.Utf8(d.codepoint)| + OutputLength(t[d.length..])
        && G.Prepend(before, G.Unescape(t)) == G.Prepend(before + G.Utf8(d.codepoint), G.Unescape(t[d.length..]))
  {
    hide G.Utf8;
    hide G.Utf16Literal;
    if G.Utf16Literal(t).Some? {
      var d := G.Utf16Literal(t).value;
      PrependTwice(before, G.Utf8(d.codepoint), G.Unescape(t[d.length..]));
    }
  }

  lemma EscapeStep(t: Text, before: Text)
    requires |t| > 1 && t[0] == BACKSLASH && t[1] != LETTER_U
    ensures match G.EscapedByte(t[1])
      case None => G.Unescape(t) == G.Prepend(before, G.Unescape(t)) == G.Bad(t)
      case Some(b) =>
        && OutputLength(t) == 1 + OutputLength(t[2..])
        && G.Prepend(before, G.Unescape(t)) == G.Prepend(before + [b], G.Unescape(t[2..]))
  {
    hide G.EscapedByte;
    if G.EscapedByte(t[1]).Some? {
      PrependTwice(before, [G.EscapedByte(t[1]).value], G.Unescape(t[2..]));
    }
  }

  // ----- the parser -----

  class ParseBuffer {
    const content: Text
    var offset: nat
    var depth: nat

    predicate Valid()
      reads this
    {
      offset <= |content|
    }

    /** The unread input. */
    function Rest(): Text
      reads this
      requires Valid()
    {
      content[offset..]
    }

    lemma RestIs()
      requires Valid()
      ensures |Rest()| == |content| - offset && (Rest() != [] ==> Rest()[0] == content[offset])
    {
    }

    constructor (content: Text)
      ensures Valid() && this.content == content && Rest() == content && offset == 0 && depth == 0
    {
      this.content, offset, depth := content, 0, 0;
    }

    method SkipWhitespace()
      requires Valid()
      modifies this`offset
      ensures Valid() && Rest() == G.SkipWhitespace(old(Rest()))
    {
      if offset >= |content| {
        return;
      }
      ghost var start := Rest();
      while offset < |content| && content[offset] <= 32
        invariant Valid() && |Rest()| <= |start| && Rest() == start[|start| - |Rest()|..]
        invariant G.DropWhitespace(start) == G.DropWhitespace(Rest())
        decreases |content| - offset
      {
        assert Rest()[1..] == content[offset + 1..];
        offset := offset + 1;
      }
      if offset == |content| {
        offset := offset - 1;
      }
    }

    method SkipBom()
      requires Valid() && offset == 0
      modifies this`offset
      ensures Valid() && Rest() == G.SkipBom(content)
    {
      if offset + 4 < |content| && content[0] == 0xEF && content[1] == 0xBB && content[2] == 0xBF {
        assert content[..3] == [0xEF, 0xBB, 0xBF];
        offset := offset + 3;
      }
    }

    /** Fills the node with a number. */
    method ParseNumber(item: Node) returns (ok: bool)
      requires Valid()
      modifies this`offset, item`data
      ensures Valid()
      ensures match G.ParseNumber(old(Rest()))
        case Ok(j, rest) =>
          && ok && Rest() == rest && j.Number?
          && item.data == old(item.data).(kind := NumberKind, valueint := ValueInt(j.value), valuedouble := j.value)
        case Err(rest) => !ok && Rest() == rest
    {
      hide G.Strtod;
      hide G.NumberToken;
      var token, i := CopyNumber();
      var number := G.Strtod(token[..i]);
      if number.None? {
        return false;
      }
      var d := number.value.1;
      item.data := item.data.(valuedouble := d);
      if d >= INT_MAX as real {
        item.data := item.data.(valueint := INT_MAX);
      } else if d <= INT_MIN as real {
        item.data := item.data.(valueint := INT_MIN);
      } else {
        item.data := item.data.(valueint := if d >= 0.0 then d.Floor else -((-d).Floor));
      }
      item.data := item.data.(kind := NumberKind);
      offset := offset + number.value.0;
      ok := true;
    }

    /** Copies at most 63 number bytes and a terminator. */
    method CopyNumber() returns (token: array<Byte>, i: nat)
      requires Valid()
      ensures fresh(token) && token.Length == 64 && i <= 63 && token[..i] == G.NumberToken(Rest(), 63)
      ensures token[i] == NUL
    {
      hide G.NumberToken;
      hide G.IsNumberByte;
      ghost var s := Rest();
      token := new Byte[64];
      i := 0;
      while i < 63 && offset + i < |content| && G.IsNumberByte(content[offset + i])
        invariant 0 <= i <= 63 && offset + i <= |content|
        invariant token[..i] == s[..i]
        invariant forall k :: 0 <= k < i ==> G.IsNumberByte(s[k])
      {
        ghost var before := token[..i];
        token[i] := content[offset + i];
        i := i + 1;
        assert token[..i] == before + [s[i - 1]] == s[..i];
      }
      TokenFound(s, 63, i);
      token[i] := NUL;
      assert token[..i] == s[..i];
    }

    /** Fills the node with a string. */
    method ParseString(item: Node) returns (ok: bool)
      requires Valid() && offset < |content|
      modifies this`offset, item`data
      ensures Valid()
      ensures match G.ParseString(old(Rest()))
        case Ok(t, rest) =>
          ok && Rest() == rest && item.data == old(item.data).(kind := StringKind, valuestring := Some(t))
        case Err(rest) => !ok && Rest() == rest
    {
      hide G.LiteralEnd;
      hide G.Unescape;
      hide G.EscapesBefore;
      hide OutputLength;
      hide CString;
      hide G.ParseString;
      var input := offset + 1;
      StringFailsEarly(content, offset);
      if content[offset] != QUOTE {
        offset := input;
        return false;
      }
      var closed, end, skipped := MeasureLiteral(content, input);
      if !closed {
        offset := input;
        return false;
      }
      SizeSuffices(content, input, end);
      StringByPasses(content, offset, end);
      var allocation := end - offset - skipped;
      var output := new Byte[allocation + 1];
      var length, pointer;
      ok, length, pointer := DecodeLiteral(content, input, end, output);
      if !ok {
        offset := pointer;
        return false;
      }
      output[length] := NUL;
      Terminated(output[..], length);
      item.data := item.data.(kind := StringKind, valuestring := Some(CString(output[..])));
      offset := end + 1;
    }

    /**
     * Fills the node, and hangs new nodes under it, so that it stands for the value read.
     * Its own links to siblings are left alone.
     */
    method ParseValue(item: Node, ghost key: Option<Text>) returns (ok: bool, ghost g: Forest)
      requires Valid() && Unfilled(item, key)
      modifies this, item`data, item`child
      ensures Valid()
      ensures match G.ParseValue(old(Rest()), old(depth))
        case Ok(j, rest) =>
          ok && Rest() == rest && depth == old(depth) && IsBuilt(g, item, j, key) && fresh(g.nodes - {item})
        case Err(rest) => !ok && Rest() == rest
      decreases |content| - offset, 1
    {
      hide G.ParseArray;
      hide G.ParseObject;
      hide G.ParseString;
      hide G.ParseNumber;
      hide IsBuilt;
      g := NOTHING;
      if ComesNext(NULL_TEXT) {
        item.data := item.data.(kind := NullKind);
        offset := offset + 4;
        g := Filled(item, Null, key);
        return true, g;
      }
      if ComesNext(FALSE_TEXT) {
        item.data := item.data.(kind := FalseKind);
        offset := offset + 5;
        g := Filled(item, False, key);
        return true, g;
      }
      if ComesNext(TRUE_TEXT) {
        item.data := item.data.(kind := TrueKind, valueint := 1);
        offset := offset + 4;
        g := Filled(item, True, key);
        return true, g;
      }
      if offset < |content| && content[offset] == QUOTE {
        ghost var text := G.ParseString(Rest());
        ok := ParseString(item);
        if ok {
          g := Filled(item, String(text.value), key);
        }
        return;
      }
      if offset < |content| && (content[offset] == MINUS || IsDigit(content[offset])) {
        ghost var number := G.ParseNumber(Rest());
        ok := ParseNumber(item);
        if ok {
          g := Filled(item, number.value, key);
        }
        return;
      }
      if offset < |content| && content[offset] == LBRACKET {
        ok, g := ParseArray(item, key);
        return;
      }
      if offset < |content| && content[offset] == LBRACE {
        ok, g := ParseObject(item, key);
        return;
      }
      return false, NOTHING;
    }

    /** `can_read` and `strncmp` for one of the literal names. */
    function ComesNext(name: Text): (r: bool)
      reads this
      requires Valid()
      ensures r <==> StartsWith(Rest(), name)
    {
      offset + |name| <= |content| && content[offset..offset + |name|] == name
    }

    method ParseArray(item: Node, ghost key: Option<Text>) returns (ok: bool, ghost g: Forest)
      requires Valid() && offset < |content| && content[offset] == LBRACKET && Unfilled(item, key)
      modifies this, item`data, item`child
      ensures Valid()
      ensures match G.ParseArray(old(Rest()), old(depth))
        case Ok(j, rest) =>
          ok && Rest() == rest && depth == old(depth) && IsBuilt(g, item, j, key) && fresh(g.nodes - {item})
        case Err(rest) => !ok && Rest() == rest
      decreases |content| - offset, 0
    {
      hide G.ParseElems;
      hide G.SkipWhitespace;
      hide Gathered;
      hide IsBuilt;
      hide Bears;
      hide Built;
      hide BuiltElems;
      hide BuiltMembers;
      hide Unfilled;
      hide Blank;
      g := NOTHING;
      if depth >= NESTING_LIMIT {
        return false, NOTHING;
      }
      depth := depth + 1;
      offset := offset + 1;
      assert Rest() == old(Rest())[1..];
      SkipWhitespace();
      if offset < |content| && content[offset] == RBRACKET {
        NothingGathered();
        NothingBorne();
        BuiltContainer(NoElem, NoMember, key);
        depth := depth - 1;
        g := Close(item, key, ArrayKind, null, null, NOTHING, [], Array(NoElem));
        offset := offset + 1;
        return true, g;
      }
      if offset >= |content| {
        offset := offset - 1;
        return false, NOTHING;
      }
      ok, g := ParseElemsAndClose(item, key);
    }

    /** The elements of an array and its closing bracket. */
    method ParseElemsAndClose(item: Node, ghost key: Option<Text>) returns (ok: bool, ghost g: Forest)
      requires Valid() && 0 < offset < |content| && depth > 0 && Unfilled(item, key)
      modifies this, item`data, item`child
      ensures Valid()
      ensures match G.ParseElems(old(Rest()), old(depth))
        case Ok(es, rest) =>
          if rest == [] || rest[0] != RBRACKET then !ok && Rest() == rest
          else
            && ok && Rest() == rest[1..] && depth == old(depth) - 1
            && IsBuilt(g, item, Array(es), key) && fresh(g.nodes - {item})
        case Err(rest) => !ok && Rest() == rest
      decreases |content| - offset, 5
    {
      hide G.ParseElems;
      hide Gathered;
      hide IsBuilt;
      hide Bears;
      hide Built;
      hide BuiltElems;
      hide BuiltMembers;
      hide Unfilled;
      hide Blank;
      g := NOTHING;
      var head, last;
      ghost var h, roots, es;
      ok, head, last, h, roots, es := ParseElems();
      if !ok || offset >= |content| || content[offset] != RBRACKET {
        return false, NOTHING;
      }
      depth := depth - 1;
      BuiltContainer(es, NoMember, key);
      g := Close(item, key, ArrayKind, head, last, h, roots, Array(es));
      offset := offset + 1;
      ok := true;
    }

    /** The loop over elements; it begins one byte before the first of them. */
    method ParseElems()
      returns (ok: bool, head: Node?, last: Node?, ghost h: Forest, ghost roots: seq<Node>, ghost es: Elems)
      requires Valid() && 0 < offset < |content|
      modifies this
      ensures Valid()
      ensures match G.ParseElems(old(Rest()), old(depth))
        case Ok(elems, rest) =>
          && ok && Rest() == rest && depth == old(depth) && es == elems
          && fresh(h.nodes) && Gathered(h, roots) && Bears(h, roots, BuiltElems(es))
          && head == At(roots, 0) && last == At(roots, |roots| - 1)
        case Err(rest) => !ok && Rest() == rest
      decreases |content| - offset, 4
    {
      hide G.OneElem;
      hide G.ParseElems;
      hide Gathered;
      hide Bears;
      hide Built;
      hide BuiltElems;
      BuiltContainer(NoElem, NoMember, None);
      ghost var s, d := Rest(), depth;
      ghost var items: seq<Json> := [];
      var more := true;
      head, last, h, roots, es := null, null, NOTHING, [], NoElem;
      NothingGathered();
      NothingBorne();
      offset := offset - 1;
      while more
        invariant Valid() && depth == d
        invariant fresh(h.nodes) && Gathered(h, roots) && Bears(h, roots, BuiltElems(Chain(items, NoElem)))
        invariant head == At(roots, 0) && last == At(roots, |roots| - 1)
        invariant more ==>
          && old(offset) - 1 <= offset < |content|
          && G.ParseElems(s, d) == After(items, G.ParseElems(content[offset + 1..], d))
        invariant !more ==> G.ParseElems(s, d) == G.Ok(Chain(items, NoElem), Rest())
        decreases more, |content| - offset
      {
        offset := offset + 1;
        ghost var here := Rest();
        ElemsStep(items, here, d);
        var read, item;
        ghost var k;
        read, item, k := ParseElement(last, h, roots, BuiltElems(Chain(items, NoElem)));
        if !read {
          return false, head, last, h, roots, es;
        }
        head := if head == null then item else head;
        last, h, roots := item, k, roots + [item];
        BuiltChain(items, G.OneElem(here, d).value);
        items := items + [G.OneElem(here, d).value];
        more := offset < |content| && content[offset] == COMMA;
        if more {
          assert Rest()[1..] == content[offset + 1..];
        }
      }
      es := Chain(items, NoElem);
      ok := true;
    }

    /** One turn of the loop over elements: a new node, linked behind the others and then filled. */
    method ParseElement(last: Node?, ghost h: Forest, ghost roots: seq<Node>, ghost cs: seq<Content>)
      returns (ok: bool, item: Node, ghost k: Forest)
      requires Valid()
      requires Gathered(h, roots) && Bears(h, roots, cs) && last == At(roots, |roots| - 1)
      modifies this, h.nodes`next
      ensures Valid()
      ensures match G.OneElem(old(Rest()), old(depth))
        case Ok(j, rest) =>
          && ok && Rest() == rest && depth == old(depth) && fresh(k.nodes - h.nodes)
          && Gathered(k, roots + [item]) && Bears(k, roots + [item], cs + [Built(j, None)])
        case Err(rest) => !ok && Rest() == rest
      decreases |content| - offset, 3
    {
      hide G.OneElem;
      hide Gathered;
      hide Bears;
      hide Whole;
      hide Apart;
      hide Row;
      hide Built;
      hide IsBuilt;
      k := NOTHING;
      item := new Node();
      RootsKnown(h, roots);
      LinkItem(last, item, Step(h, roots, NOTHING, item));
      ghost var g, j;
      ok, g, j := ReadElement(item);
      if ok {
        JoinBuilt(Step(h, roots, g, item), cs, j, None);
        k := Union(h, g);
      }
    }

    /** Reads one element with the white space around it. */
    method ReadElement(item: Node) returns (ok: bool, ghost g: Forest, ghost j: Json)
      requires Valid() && Unfilled(item, None)
      modifies this, item`data, item`child
      ensures Valid()
      ensures match G.OneElem(old(Rest()), old(depth))
        case Ok(value, rest) =>
          ok && Rest() == rest && depth == old(depth) && j == value
          && IsBuilt(g, item, j, None) && fresh(g.nodes - {item})
        case Err(rest) => !ok && Rest() == rest
      decreases |content| - offset, 2
    {
      hide G.ParseValue;
      hide G.SkipWhitespace;
      hide IsBuilt;
      j := Null;
      SkipWhitespace();
      ghost var t := Rest();
      ok, g := ParseValue(item, None);
      if ok {
        j := G.ParseValue(t, depth).value;
        SkipWhitespace();
      }
    }

    method ParseObject(item: Node, ghost key: Option<Text>) returns (ok: bool, ghost g: Forest)
      requires Valid() && offset < |content| && content[offset] == LBRACE && Unfilled(item, key)
      modifies this, item`data, item`child
      ensures Valid()
      ensures match G.ParseObject(old(Rest()), old(depth))
        case Ok(j, rest) =>
          ok && Rest() == rest && depth == old(depth) && IsBuilt(g, item, j, key) && fresh(g.nodes - {item})
        case Err(rest) => !ok && Rest() == rest
      decreases |content| - offset, 0
    {
      hide G.ParseMembers;
      hide G.SkipWhitespace;
      hide Gathered;
      hide IsBuilt;
      hide Bears;
      hide Built;
      hide BuiltElems;
      hide BuiltMembers;
      hide Unfilled;
      hide Blank;
      g := NOTHING;
      if depth >= NESTING_LIMIT {
        return false, NOTHING;
      }
      depth := depth + 1;
      offset := offset + 1;
      assert Rest() == old(Rest())[1..];
      SkipWhitespace();
      if offset < |content| && content[offset] == RBRACE {
        NothingGathered();
        NothingBorne();
        BuiltContainer(NoElem, NoMember, key);
        depth := depth - 1;
        g := Close(item, key, ObjectKind, null, null, NOTHING, [], Object(NoMember));
        offset := offset + 1;
        return true, g;
      }
      if offset >= |content| {
        offset := offset - 1;
        return false, NOTHING;
      }
      ok, g := ParseMembersAndClose(item, key);
    }

    /** The members of an object and its closing brace. */
    method ParseMembersAndClose(item: Node, ghost key: Option<Text>) returns (ok: bool, ghost g: Forest)
      requires Valid() && 0 < offset < |content| && depth > 0 && Unfilled(item, key)
      modifies this, item`data, item`child
      ensures Valid()
      ensures match G.ParseMembers(old(Rest()), old(depth))
        case Ok(ms, rest) =>
          if rest == [] || rest[0] != RBRACE then !ok && Rest() == rest
          else
            && ok && Rest() == rest[1..] && depth == old(depth) - 1
            && IsBuilt(g, item, Object(ms), key) && fresh(g.nodes - {item})
        case Err(rest) => !ok && Rest() == rest
      decreases |content| - offset, 5
    {
      hide G.ParseMembers;
      hide Gathered;
      hide IsBuilt;
      hide Bears;
      hide Built;
      hide BuiltElems;
      hide BuiltMembers;
      hide Unfilled;
      hide Blank;
      g := NOTHING;
      var head, last;
      ghost var h, roots, ms;
      ok, head, last, h, roots, ms := ParseMembers();
      if !ok || offset >= |content| || content[offset] != RBRACE {
        return false, NOTHING;
      }
      depth := depth - 1;
      BuiltContainer(NoElem, ms, key);
      g := Close(item, key, ObjectKind, head, last, h, roots, Object(ms));
      offset := offset + 1;
      ok := true;
    }

    /** The loop over members; it begins one byte before the first of them. */
    method ParseMembers()
      returns (ok: bool, head: Node?, last: Node?, ghost h: Forest, ghost roots: seq<Node>, ghost ms: Members)
      requires Valid() && 0 < offset < |content|
      modifies this
      ensures Valid()
      ensures match G.ParseMembers(old(Rest()), old(depth))
        case Ok(members, rest) =>
          && ok && Rest() == rest && depth == old(depth) && ms == members
          && fresh(h.nodes) && Gathered(h, roots) && Bears(h, roots, BuiltMembers(ms))
          && head == At(roots, 0) && last == At(roots, |roots| - 1)
        case Err(rest) => !ok && Rest() == rest
      decreases |content| - offset, 3
    {
      hide G.OneMember;
      hide G.ParseMembers;
      hide Gathered;
      hide Bears;
      hide Built;
      hide BuiltMembers;
      BuiltContainer(NoElem, NoMember, None);
      ghost var s, d := Rest(), depth;
      ghost var items: seq<(Text, Json)> := [];
      var more := true;
      head, last, h, roots, ms := null, null, NOTHING, [], NoMember;
      NothingGathered();
      NothingBorne();
      offset := offset - 1;
      while more
        invariant Valid() && depth == d
        invariant fresh(h.nodes) && Gathered(h, roots) && Bears(h, roots, BuiltMembers(ChainMembers(items, NoMember)))
        invariant head == At(roots, 0) && last == At(roots, |roots| - 1)
        invariant more ==>
          && old(offset) - 1 <= offset < |content|
          && G.ParseMembers(s, d) == AfterMembers(items, G.MembersAfterComma(Rest(), d))
        invariant !more ==> G.ParseMembers(s, d) == G.Ok(ChainMembers(items, NoMember), Rest())
        decreases more, |content| - offset
      {
        if offset + 1 >= |content| {
          return false, head, last, h, roots, ms;
        }
        assert Rest()[1..] == content[offset + 1..];
        offset := offset + 1;
        ghost var here := Rest();
        MembersStep(items, here, d);
        var read, item;
        ghost var k;
        read, item, k := ParseMember(last, h, roots, BuiltMembers(ChainMembers(items, NoMember)));
        if !read {
          return false, head, last, h, roots, ms;
        }
        head := if head == null then item else head;
        last, h, roots := item, k, roots + [item];
        ghost var m := G.OneMember(here, d).value;
        BuiltMemberChain(items, m.0, m.1);
        items := items + [m];
        more := offset < |content| && content[offset] == COMMA;
      }
      ms := ChainMembers(items, NoMember);
      ok := true;
    }

    /** One turn of the loop over members: a new node, linked, then given its name and its value. */
    method ParseMember(last: Node?, ghost h: Forest, ghost roots: seq<Node>, ghost cs: seq<Content>)
      returns (ok: bool, item: Node, ghost k: Forest)
      requires Valid() && offset < |content|
      requires Gathered(h, roots) && Bears(h, roots, cs) && last == At(roots, |roots| - 1)
      modifies this, h.nodes`next
      ensures Valid()
      ensures match G.OneMember(old(Rest()), old(depth))
        case Ok(m, rest) =>
          && ok && Rest() == rest && depth == old(depth) && fresh(k.nodes - h.nodes)
          && Gathered(k, roots + [item]) && Bears(k, roots + [item], cs + [Built(m.1, Some(m.0))])
        case Err(rest) => !ok && Rest() == rest
      decreases |content| - offset, 2
    {
      hide G.ParseValue;
      hide G.ParseString;
      hide G.SkipWhitespace;
      hide Gathered;
      hide Bears;
      hide Whole;
      hide Apart;
      hide Row;
      hide IsBuilt;
      hide G.ValueOfMember;
      hide Built;
      k := NOTHING;
      item := new Node();
      RootsKnown(h, roots);
      LinkItem(last, item, Step(h, roots, NOTHING, item));
      ok := ParseName(item);
      if !ok {
        return;
      }
      ghost var key := item.data.key.value;
      ghost var j, g;
      ok, g, j := ParseMemberValue(item, key);
      if ok {
        JoinBuilt(Step(h, roots, g, item), cs, j, Some(key));
        k := Union(h, g);
      }
    }

    /** Reads the name of a member into its node. */
    method ParseName(item: Node) returns (ok: bool)
      requires Valid() && offset < |content| && Unfilled(item, None)
      modifies this`offset, item`data
      ensures Valid()
      ensures match G.ParseString(G.SkipWhitespace(old(Rest())))
        case Ok(name, rest) => ok && Rest() == G.SkipWhitespace(rest) && Unfilled(item, Some(name))
        case Err(rest) => !ok && Rest() == rest
    {
      hide G.ParseString;
      hide G.SkipWhitespace;
      SkipWhitespace();
      ok := ParseString(item);
      if ok {
        SkipWhitespace();
        item.data := item.data.(key := item.data.valuestring, valuestring := None);
      }
    }

    /** Reads the colon and the value of a member. */
    method ParseMemberValue(item: Node, ghost key: Text) returns (ok: bool, ghost g: Forest, ghost j: Json)
      requires Valid() && Unfilled(item, Some(key))
      modifies this, item`data, item`child
      ensures Valid()
      ensures match G.ValueOfMember(key, old(Rest()), old(depth))
        case Ok(m, rest) =>
          ok && Rest() == rest && depth == old(depth) && m == (key, j)
          && IsBuilt(g, item, j, Some(key)) && fresh(g.nodes - {item})
        case Err(rest) => !ok && Rest() == rest
      decreases |content| - offset, 2
    {
      hide G.ParseValue;
      hide G.SkipWhitespace;
      hide IsBuilt;
      g, j := NOTHING, Null;
      if offset >= |content| || content[offset] != COLON {
        return false, g, j;
      }
      assert Rest()[1..] == content[offset + 1..];
      offset := offset + 1;
      SkipWhitespace();
      ghost var t := Rest();
      ok, g := ParseValue(item, Some(key));
      if ok {
        j := G.ParseValue(t, depth).value;
        SkipWhitespace();
      }
    }
  }

  /** A node that has been given its key, and nothing else that would stay. */
  predicate Unfilled(item: Node, key: Option<Text>)
    reads item
  {
    item.child == null && item.data == Blank(item.data.kind, key)
  }

  /** The node is the root of a tree that stands for the value. */
  ghost predicate IsBuilt(g: Forest, item: Node, j: Json, key: Option<Text>)
    reads g.nodes
  {
    Tree(g, item) && g.content[item] == Built(j, key)
  }

  /** The end of an array or object: its kind is set and its children are hung under it. */
  method Close(item: Node, ghost key: Option<Text>, kind: Kind, head: Node?, last: Node?, ghost h: Forest,
               ghost roots: seq<Node>, ghost j: Json)
    returns (ghost g: Forest)
    requires Unfilled(item, key) && Gathered(h, roots) && item !in h.nodes
    requires Bears(h, roots, Built(j, key).kids) && Built(j, key).data == Blank(kind, key)
    requires head == At(roots, 0) && last == At(roots, |roots| - 1)
    modifies item`data, item`child, h.nodes`prev
    ensures IsBuilt(g, item, j, key) && g.nodes == h.nodes + {item}
  {
    hide Gathered;
    hide Tree;
    hide Bears;
    hide Built;
    item.data := item.data.(kind := kind);
    g := Complete(item, head, last, h, roots, Built(j, key).kids);
  }

  lemma BuiltContainer(es: Elems, ms: Members, key: Option<Text>)
    ensures Built(Array(es), key) == Content(Blank(ArrayKind, key), BuiltElems(es))
    ensures Built(Object(ms), key) == Content(Blank(ObjectKind, key), BuiltMembers(ms))
    ensures BuiltElems(NoElem) == [] && BuiltMembers(NoMember) == []
  {
  }

  /** A node without children that has been filled. */
  ghost method Filled(item: Node, j: Json, key: Option<Text>) returns (g: Forest)
    requires item.child == null && Built(j, key) == Content(item.data, [])
    ensures g.nodes == {item} && IsBuilt(g, item, j, key)
  {
    g := Forest({item}, map[item := []], map[item := Content(item.data, [])], map[]);
    LeafIsTree(item, g);
  }

  lemma JoinBuilt(s: Step, cs: seq<Content>, j: Json, key: Option<Text>)
    requires Whole(s.f) && Apart(s.f) && Roots(s.f, s.roots) && Row(s.roots + [s.added]) && Bears(s.f, s.roots, cs)
    requires IsBuilt(s.g, s.added, j, key) && s.f.nodes !! s.g.nodes
    ensures Gathered(Union(s.f, s.g), s.roots + [s.added])
    ensures Bears(Union(s.f, s.g), s.roots + [s.added], cs + [Built(j, key)])
  {
    hide Children;
    hide Holds;
    hide Row;
    hide Built;
    TreeIsClosed(s.g, s.added);
    UnionContains(s.f, s.g);
    JoinTrees(s);
    BearsMore(s.f, Union(s.f, s.g), s.roots, cs, s.added, Built(j, key));
  }

  lemma AfterOne(j: Json, p: G.Parsed<Elems>)
    ensures After([j], p) == match p case Err(rest) => G.Err(rest) case Ok(es, rest) => G.Ok(Elem(j, es), rest)
  {
    assert [] + [j] == [j];
    if p.Ok? {
      ChainLast([], j, p.value);
    }
  }

  lemma AfterTwice(items: seq<Json>, j: Json, p: G.Parsed<Elems>)
    ensures After(items, After([j], p)) == After(items + [j], p)
  {
    AfterOne(j, p);
    if p.Ok? {
      ChainLast(items, j, p.value);
    }
  }

  /** One turn of the loop over elements, `items` being those already read. */
  function ElemsTurn(items: seq<Json>, here: Text, depth: nat): G.Parsed<Elems> {
    match G.OneElem(here, depth)
    case Err(rest) => G.Err(rest)
    case Ok(j, t) =>
      if t == [] || t[0] != COMMA then G.Ok(Chain(items + [j], NoElem), t)
      else After(items + [j], G.ParseElems(t[1..], depth))
  }

  lemma ElemsStep(items: seq<Json>, here: Text, depth: nat)
    ensures After(items, G.ParseElems(here, depth)) == ElemsTurn(items, here, depth)
  {
    hide G.OneElem;
    hide G.ParseElems;
    G.ElemsUnfold(here, depth);
    var one := G.OneElem(here, depth);
    if one.Ok? {
      ChainLast(items, one.value, NoElem);
      if one.rest != [] {
        AfterOne(one.value, G.ParseElems(one.rest[1..], depth));
        AfterTwice(items, one.value, G.ParseElems(one.rest[1..], depth));
      }
    }
  }

  lemma AfterOneMember(key: Text, j: Json, p: G.Parsed<Members>)
    ensures AfterMembers([(key, j)], p) ==
      match p case Err(rest) => G.Err(rest) case Ok(ms, rest) => G.Ok(Member(key, j, ms), rest)
  {
    assert [] + [(key, j)] == [(key, j)];
    if p.Ok? {
      ChainMembersLast([], key, j, p.value);
    }
  }

  lemma AfterMembersTwice(items: seq<(Text, Json)>, key: Text, j: Json, p: G.Parsed<Members>)
    ensures AfterMembers(items, AfterMembers([(key, j)], p)) == AfterMembers(items + [(key, j)], p)
  {
    AfterOneMember(key, j, p);
    if p.Ok? {
      ChainMembersLast(items, key, j, p.value);
    }
  }

  /** One turn of the loop over members, `items` being those already read. */
  function MembersTurn(items: seq<(Text, Json)>, here: Text, depth: nat): G.Parsed<Members>
    requires here != []
  {
    match G.OneMember(here, depth)
    case Err(rest) => G.Err(rest)
    case Ok(m, u) =>
      if u == [] || u[0] != COMMA then G.Ok(ChainMembers(items + [m], NoMember), u)
      else AfterMembers(items + [m], G.MembersAfterComma(u, depth))
  }

  lemma MembersStep(items: seq<(Text, Json)>, here: Text, depth: nat)
    requires here != []
    ensures AfterMembers(items, G.ParseMembers(here, depth)) == MembersTurn(items, here, depth)
  {
    hide G.OneMember;
    hide G.ParseMembers;
    G.MembersUnfold(here, depth);
    var one := G.OneMember(here, depth);
    if one.Ok? {
      ChainMembersLast(items, one.value.0, one.value.1, NoMember);
      if one.rest != [] {
        AfterOneMember(one.value.0, one.value.1, G.MembersAfterComma(one.rest, depth));
        AfterMembersTwice(items, one.value.0, one.value.1, G.MembersAfterComma(one.rest, depth));
      }
    }
  }

  /** A run of number bytes, ended by another byte or by the size of the buffer. */
  lemma {:induction false} TokenFound(s: Text, limit: nat, i: nat)
    requires i <= |s| && i <= limit && forall k :: 0 <= k < i ==> G.IsNumberByte(s[k])
    requires i == limit || i == |s| || !G.IsNumberByte(s[i])
    ensures G.NumberToken(s, limit) == s[..i]
    decreases i
  {
    if i > 0 {
      TokenFound(s[1..], limit - 1, i - 1);
      assert s[..i] == [s[0]] + s[1..][..i - 1];
    }
  }

  lemma SizeSuffices(content: Text, input: nat, end: nat)
    requires input <= end < |content| && G.LiteralEnd(content[input..]) == Some(end - input)
    ensures OutputLength(content[input..end + 1]) <= end - input - G.EscapesBefore(content[input..], end - input)
  {
    hide G.LiteralEnd;
    hide G.EscapesBefore;
    hide OutputLength;
    var t := content[input..];
    assert t[0..] == t;
    assert t[..end - input + 1] == content[input..end + 1];
    OutputFits(t, end - input, false);
  }

  lemma StringFailsEarly(content: Text, offset: nat)
    requires offset < |content|
    ensures content[offset] != QUOTE || G.LiteralEnd(content[offset + 1..]) == None ==>
      G.ParseString(content[offset..]) == G.Err(content[offset + 1..])
  {
    hide G.LiteralEnd;
    assert content[offset..][1..] == content[offset + 1..];
  }

  lemma StringByPasses(content: Text, offset: nat, end: nat)
    requires offset < end < |content| && content[offset] == QUOTE
    requires G.LiteralEnd(content[offset + 1..]) == Some(end - offset - 1)
    ensures G.ParseString(content[offset..]) ==
      match G.Unescape(content[offset + 1..end + 1])
      case Bad(t) => G.Err(content[end + 1 - |t|..])
      case Done(bytes) => G.Ok(CString(bytes), content[end + 1..])
  {
    hide G.LiteralEnd;
    hide G.Unescape;
    hide CString;
    var s, n := content[offset..], end - offset - 1;
    assert s[1..] == content[offset + 1..];
    assert s[1..n + 2] == content[offset + 1..end + 1];
    UnescapeStaysInside(content[offset + 1..end + 1]);
    var u := G.Unescape(s[1..n + 2]);
    if u.Bad? {
      assert s[n + 2 - |u.rest|..] == content[end + 1 - |u.rest|..];
    } else {
      assert s[n + 2..] == content[end + 1..];
    }
  }

  lemma UnescapeStaysInside(t: Text)
    ensures G.Unescape(t).Bad? ==> |G.Unescape(t).rest| <= |t|
  {
  }

  lemma {:induction false} Terminated(t: Text, n: nat)
    requires n < |t| && t[n] == NUL
    ensures CString(t) == CString(t[..n])
    decreases n
  {
    if n > 0 && t[0] != NUL {
      assert t[1..][..n - 1] == t[..n][1..];
      Terminated(t[1..], n - 1);
    }
  }

  // ----- whole texts -----

  /**
   * Parses a buffer of bytes into a new tree of nodes; `position` is where parsing
   * ended, or where it failed.
   */
  method ParseWithLength(content: Text, requireNul: bool) returns (item: Node?, position: nat, ghost g: Forest)
    ensures match G.ParseWithLength(content, requireNul)
      case Tree(j, end) =>
        item != null && position == end && fresh(g.nodes) && IsBuilt(g, item, j, None)
        && item.next == null && item.prev == null
      case Failure(at) => item == null && position == at
  {
    hide G.ParseWithLength;
    hide ParseBuffer.Rest;
    hide G.ParseValue;
    hide G.SkipWhitespace;
    hide G.SkipBom;
    hide IsBuilt;
    g := NOTHING;
    if content == [] {
      NothingToParse(requireNul);
      return null, 0, g;
    }
    var buffer := new ParseBuffer(content);
    var root := new Node();
    buffer.SkipBom();
    buffer.SkipWhitespace();
    var ok;
    ghost var r := G.ParseValue(buffer.Rest(), 0);
    ok, g := buffer.ParseValue(root, None);
    if ok && requireNul {
      buffer.SkipWhitespace();
      buffer.RestIs();
      ok := buffer.offset < |content| && content[buffer.offset] == NUL;
    }
    buffer.RestIs();
    OutcomeOf(content, requireNul, r, buffer.Rest(), ok);
    item := if ok then root else null;
    position := if ok || buffer.offset < |content| then buffer.offset else |content| - 1;
  }

  lemma NothingToParse(requireNul: bool)
    ensures G.ParseWithLength([], requireNul) == G.Failure(0)
  {
  }

  lemma OutcomeOf(content: Text, requireNul: bool, r: G.Parsed<Json>, tail: Text, ok: bool)
    requires content != [] && r == G.ParseValue(G.SkipWhitespace(G.SkipBom(content)), 0)
    requires tail == (if r.Ok? && requireNul then G.SkipWhitespace(r.rest) else r.rest)
    requires ok <==> r.Ok? && (requireNul ==> tail != [] && tail[0] == NUL)
    ensures |tail| <= |content|
    ensures var position := if ok || tail != [] then |content| - |tail| else |content| - 1;
      G.ParseWithLength(content, requireNul) == if ok then G.Tree(r.value, position) else G.Failure(position)
  {
    hide G.ParseValue;
    hide G.SkipWhitespace;
  }

  /** Parses a C string, given as the bytes of the memory it lies in. */
  method ParseWithOpts(text: Text, requireNul: bool) returns (item: Node?, position: nat, ghost g: Forest)
    ensures match G.ParseCString(text, requireNul)
      case Tree(j, end) =>
        item != null && position == end && fresh(g.nodes) && IsBuilt(g, item, j, None)
        && item.next == null && item.prev == null
      case Failure(at) => item == null && position == at
  {
    item, position, g := ParseWithLength(CString(text) + [NUL], requireNul);
  }
}
