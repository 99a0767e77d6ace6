/** The printer as it runs: text built up in a buffer that grows, proved against `Render`. */
module JsonPrinter {
  import opened Bytes
  import opened JsonValue
  import opened JsonList
  import opened JsonForest
  import opened JsonNodes
  import G = JsonGrammar
  import P = JsonParser
  import R = JsonRoundTrip

  class PrintBuffer {
    var buffer: array<Byte>
    var offset: nat
    var depth: nat
    const noalloc: bool
    const format: bool

    /** The cursor is inside the buffer, or the buffer is still empty. */
    predicate Valid()
      reads this
    {
      && buffer.Length <= INT_MAX
      && (offset < buffer.Length || (offset == 0 && buffer.Length == 0))
    }

    /** How large the buffer may become. */
    function Limit(): nat
      reads this
    {
      if noalloc then buffer.Length else INT_MAX
    }

    function Written(): Text
      reads this, buffer
      requires Valid()
    {
      buffer[..offset]
    }

    /**
     * The buffer holds `t` as a C string; the cursor may lag behind its end, but what
     * lies between is free of terminators, so that its length can still be found.
     */
    predicate Pending(t: Text)
      reads this, buffer
    {
      && offset <= |t| < buffer.Length <= INT_MAX
      && buffer[..|t|] == t && buffer[|t|] == NUL
      && NulFree(t[offset..])
    }

    /**
     * The outcome of printing `text`: it succeeds exactly when the text with its
     * terminator and one spare byte stays within the limit, and then the text follows
     * what was written before.
     */
    twostate predicate Printed(ok: bool, text: Text)
      requires old(Valid())
      reads this, buffer
    {
      && Valid() && Limit() == old(Limit()) && (buffer == old(buffer) || (!noalloc && fresh(buffer)))
      && (ok <==> old(offset) + |text| + 2 <= Limit())
      && (ok ==> depth == old(depth) && old(offset) <= offset && Pending(old(Written()) + text))
    }

    constructor (buffer: array<Byte>, noalloc: bool, format: bool)
      requires buffer.Length <= INT_MAX
      ensures Valid() && this.buffer == buffer && offset == 0 && depth == 0
      ensures this.noalloc == noalloc && this.format == format
    {
      this.buffer, offset, depth := buffer, 0, 0;
      this.noalloc, this.format := noalloc, format;
    }

    /** Makes room for `needed` more bytes and a terminator; what was written stays. */
    method Ensure(needed: nat) returns (ok: bool)
      requires Valid()
      modifies this`buffer
      ensures Valid() && Limit() == old(Limit()) && (buffer == old(buffer) || (!noalloc && fresh(buffer)))
      ensures ok <==> offset + needed + 1 <= Limit()
      ensures ok ==> offset + needed + 1 <= buffer.Length
      ensures Written() == old(Written())
    {
      if buffer.Length > 0 && offset >= buffer.Length {
        return false;
      }
      if needed > INT_MAX {
        return false;
      }
      var total := needed + offset + 1;
      if total <= buffer.Length {
        return true;
      }
      if noalloc {
        return false;
      }
      var size;
      if total > INT_MAX / 2 {
        if total > INT_MAX {
          return false;
        }
        size := INT_MAX;
      } else {
        size := total * 2;
      }
      buffer := Reallocate(size);
      ok := true;
    }

    /** `realloc` to a larger size. */
    method Reallocate(size: nat) returns (larger: array<Byte>)
      requires Valid() && size > buffer.Length
      ensures fresh(larger) && larger.Length == size && larger[..buffer.Length] == buffer[..]
    {
      larger := new Byte[size];
      for i := 0 to buffer.Length
        invariant larger[..i] == buffer[..i]
      {
        larger[i] := buffer[i];
        assert larger[..i + 1] == larger[..i] + [buffer[i]];
      }
    }

    /** Copies bytes into the buffer. */
    method Store(at: nat, t: Text)
      requires at + |t| <= buffer.Length
      modifies buffer
      ensures buffer[..at + |t|] == old(buffer[..at]) + t
    {
      forall i | 0 <= i < |t| {
        buffer[at + i] := t[i];
      }
    }

    /** Moves the cursor to the end of the string it points into. */
    method UpdateOffset(ghost t: Text)
      requires Pending(t)
      modifies this`offset
      ensures Valid() && offset == |t| && Written() == t
    {
      assert forall k :: offset <= k < |t| ==> buffer[k] == t[offset..][k - offset];
      while buffer[offset] != NUL
        invariant buffer == old(buffer) && offset <= |t|
        invariant forall k :: offset <= k < |t| ==> buffer[k] != NUL
        decreases |t| - offset
      {
        offset := offset + 1;
      }
    }

    /** Writes a fixed text and its terminator, leaving the cursor in front of it. */
    method PrintLast(name: Text) returns (ok: bool)
      requires Valid() && NulFree(name)
      modifies this`buffer, buffer
      ensures Printed(ok, name)
    {
      ok := Ensure(|name| + 1);
      if ok {
        ghost var t := Written() + name;
        Store(offset, name + [NUL]);
        assert buffer[..offset + |name| + 1] == t + [NUL];
        PendingAt(t);
      }
    }

    /** The cursor stands where `t` has been begun, and `t` is there with its terminator. */
    lemma PendingAt(t: Text)
      requires offset <= |t| < buffer.Length <= INT_MAX
      requires buffer[..|t| + 1] == t + [NUL] && NulFree(t[offset..])
      ensures Valid() && Pending(t)
    {
      assert buffer[|t|] == buffer[..|t| + 1][|t|];
      assert buffer[..|t|] == buffer[..|t| + 1][..|t|];
    }

    /** Writes a number that its integer field stands for exactly, with "%d". */
    method PrintNumber(item: Node) returns (ok: bool)
      requires Valid() && item.data.valuedouble == item.data.valueint as real
      requires INT_MIN <= item.data.valueint <= INT_MAX
      modifies this, buffer
      ensures Printed(ok, Decimal(item.data.valueint))
    {
      var number := Decimal(item.data.valueint);
      DecimalIsShort(item.data.valueint);
      R.DecimalNulFree(item.data.valueint);
      if |number| > 25 {
        return false;
      }
      ok := Ensure(|number| + 1);
      if ok {
        ghost var t := Written() + number;
        Store(offset, number + [NUL]);
        offset := offset + |number|;
        assert buffer[..offset + 1] == t + [NUL];
        PendingAt(t);
      }
    }

    /** Extra bytes that escaping `t` takes: the first pass of the string printer. */
    method CountEscapes(t: Text) returns (count: nat)
      ensures count == EscapeCount(t)
    {
      count := 0;
      var i := 0;
      while i < |t|
        invariant 0 <= i <= |t|
        invariant count + EscapeCount(t[i..]) == EscapeCount(t)
      {
        assert t[i..][1..] == t[i + 1..];
        if ShortEscape(t[i]) {
          count := count + 1;
        } else if t[i] < 32 {
          count := count + 5;
        }
        i := i + 1;
      }
    }

    /** Writes one byte, escaped where it has to be. */
    method WriteByte(b: Byte, from: nat) returns (at: nat)
      requires from + |EscapeByte(b)| < buffer.Length
      modifies buffer
      ensures at == from + |EscapeByte(b)|
      ensures buffer[..at] == old(buffer[..from]) + EscapeByte(b)
    {
      at := from;
      if b > 31 && b != QUOTE && b != BACKSLASH {
        buffer[at] := b;
      } else {
        buffer[at] := BACKSLASH;
        at := at + 1;
        if ShortEscape(b) {
          buffer[at] := EscapeLetter(b);
        } else {
          var u: Text := [LETTER_U, ZERO, ZERO, HexDigit(b / 16), HexDigit(b % 16), NUL];
          Store(at, u);
          assert buffer[..at + 5] == buffer[..at + 6][..at + 5] == old(buffer[..from]) + [BACKSLASH] + u[..5];
          at := at + 4;
        }
      }
      at := at + 1;
    }

    /** The second pass: writes `t` with its escapes from `from` on. */
    method WriteEscaped(t: Text, from: nat) returns (at: nat)
      requires NulFree(t) && from + |t| + EscapeCount(t) < buffer.Length
      modifies buffer
      ensures at == from + |t| + EscapeCount(t)
      ensures buffer[..at] == old(buffer[..from]) + Escape(t)
    {
      hide EscapeCost;
      hide EscapeByte;
      at := from;
      ghost var all := old(buffer[..from]) + Escape(t);
      EscapeLength(t);
      assert t[0..] == t;
      var i := 0;
      while i < |t|
        invariant 0 <= i <= |t| && from <= at < buffer.Length
        invariant |all| < buffer.Length
        invariant buffer[..at] + Escape(t[i..]) == all
      {
        EscapeFirst(t, i, buffer[..at]);
        at := WriteByte(t[i], at);
        i := i + 1;
      }
    }

    /** Writes a quoted string. */
    method PrintString(t: Text) returns (ok: bool)
      requires Valid() && NulFree(t)
      modifies this, buffer
      ensures Printed(ok, Quoted(t))
    {
      hide EscapeCount;
      hide Escape;
      var escapes := CountEscapes(t);
      EscapeLength(t);
      ok := Ensure(|t| + escapes + 3);
      if ok {
        WriteQuoted(t, escapes);
      }
    }

    /** A null pointer is written as an empty string. */
    method PrintStringPtr(input: Option<Text>) returns (ok: bool)
      requires Valid() && (input.Some? ==> NulFree(input.value))
      modifies this, buffer
      ensures Printed(ok, Quoted(if input.Some? then input.value else []))
    {
      if input.None? {
        ok := Ensure(3);
        if ok {
          WriteQuoted([], 0);
        }
      } else {
        ok := PrintString(input.value);
      }
    }

    method WriteQuoted(t: Text, escapes: nat)
      requires Valid() && NulFree(t) && escapes == EscapeCount(t)
      requires offset + |t| + escapes + 3 < buffer.Length
      modifies buffer
      ensures Valid() && Pending(old(Written()) + Quoted(t))
    {
      hide EscapeCount;
      hide Escape;
      EscapeLength(t);
      R.EscapeNulFree(t);
      var length := |t| + escapes;
      ghost var before := Written();
      if escapes == 0 {
        NothingEscaped(t);
        Store(offset, [QUOTE] + t);
      } else {
        buffer[offset] := QUOTE;
        ghost var open := before + [QUOTE];
        assert buffer[..offset + 1] == open;
        var end := WriteEscaped(t, offset + 1);
        assert open + Escape(t) == before + ([QUOTE] + Escape(t));
      }
      buffer[offset + length + 1] := QUOTE;
      buffer[offset + length + 2] := NUL;
      QuotedPending(before, t);
    }

    lemma QuotedPending(before: Text, t: Text)
      requires offset == |before| && offset + |Escape(t)| + 2 < buffer.Length <= INT_MAX
      requires buffer[..offset + |Escape(t)| + 1] == before + ([QUOTE] + Escape(t)) && NulFree(Escape(t))
      requires buffer[offset + |Escape(t)| + 1] == QUOTE && buffer[offset + |Escape(t)| + 2] == NUL
      ensures Valid() && Pending(before + Quoted(t))
    {
      hide Escape;
      var whole := before + Quoted(t);
      assert whole == before + ([QUOTE] + Escape(t)) + [QUOTE];
      assert whole[offset..] == Quoted(t);
      assert buffer[..|whole| + 1] == whole + [NUL];
      PendingAt(whole);
    }

    /** Writes `t` and moves the cursor behind it; `needed` bytes are asked for. */
    method Put(t: Text, needed: nat) returns (ok: bool)
      requires Valid() && |t| <= needed <= |t| + 1
      modifies this`buffer, this`offset, buffer
      ensures Valid() && Limit() == old(Limit()) && (buffer == old(buffer) || (!noalloc && fresh(buffer)))
      ensures ok <==> old(offset) + needed + 1 <= Limit()
      ensures ok ==> offset == old(offset) + |t| && Written() == old(Written()) + t
    {
      ok := Ensure(needed);
      if ok {
        Store(offset, t);
        offset := offset + |t|;
      }
    }

    /** Prints the value that a node stands for. */
    method PrintValue(item: Node, ghost j: Json, ghost key: Option<Text>, ghost f: Forest) returns (ok: bool)
      requires Valid() && StandsFor(f, item, j, key) && Printable(j)
      modifies this, buffer
      ensures Printed(ok, Render(j, old(depth), format))
      decreases Nesting(j), 1
    {
      NodeHolds(f, item, j, key);
      hide StandsFor;
      match item.data.kind {
        case NullKind =>
          NamesAreNulFree();
          ok := PrintLast(NULL_TEXT);
        case FalseKind =>
          NamesAreNulFree();
          ok := PrintLast(FALSE_TEXT);
        case TrueKind =>
          NamesAreNulFree();
          ok := PrintLast(TRUE_TEXT);
        case NumberKind => ok := PrintNumber(item);
        case StringKind => ok := PrintStringPtr(item.data.valuestring);
        case ArrayKind => ok := PrintArray(item, j, key, f);
        case ObjectKind => ok := PrintObject(item, j, key, f);
        case _ => ok := false;
      }
    }

    // In what follows `all` is the text to be reached and `rest` what is still to come.

    twostate predicate Advanced(ok: bool, all: Text, rest: Text)
      requires old(Valid())
      reads this, buffer
    {
      && Valid() && Limit() == old(Limit()) && (buffer == old(buffer) || (!noalloc && fresh(buffer)))
      && if ok then depth == old(depth) && old(offset) <= offset && Written() + rest == all else |all| + 2 > Limit()
    }

    /** The whole text has been reached and is pending, exactly if it fits. */
    twostate predicate Reached(ok: bool, all: Text)
      requires old(Valid())
      reads this, buffer
    {
      && Valid() && Limit() == old(Limit()) && (buffer == old(buffer) || (!noalloc && fresh(buffer)))
      && (ok <==> |all| + 2 <= Limit())
      && (ok ==> depth == old(depth) && old(offset) <= offset && Pending(all))
    }

    method PutPiece(t: Text, needed: nat, ghost all: Text, ghost rest: Text) returns (ok: bool)
      requires Valid() && |t| <= needed <= |t| + 1 && rest != []
      requires Written() + (t + rest) == all
      modifies this, buffer
      ensures Advanced(ok, all, rest)
    {
      ghost var before := Written();
      ok := Put(t, needed);
      assert before + (t + rest) == before + t + rest;
    }

    method ValuePiece(
      item: Node, ghost j: Json, ghost key: Option<Text>, ghost f: Forest, ghost all: Text, ghost rest: Text)
      returns (ok: bool)
      requires Valid() && StandsFor(f, item, j, key) && Printable(j) && rest != []
      requires Written() + (Render(j, depth, format) + rest) == all
      modifies this, buffer
      ensures Advanced(ok, all, rest)
      decreases Nesting(j), 2
    {
      hide Render;
      hide StandsFor;
      ghost var before, text := Written(), Render(j, depth, format);
      assert before + (text + rest) == before + text + rest;
      ok := PrintValue(item, j, key, f);
      if ok {
        UpdateOffset(before + text);
      }
    }

    method StringPiece(input: Option<Text>, ghost all: Text, ghost rest: Text) returns (ok: bool)
      requires Valid() && input.Some? && NulFree(input.value) && rest != []
      requires Written() + (Quoted(input.value) + rest) == all
      modifies this, buffer
      ensures Advanced(ok, all, rest)
    {
      hide Quoted;
      ghost var before, t := Written(), input.value;
      assert before + (Quoted(t) + rest) == before + Quoted(t) + rest;
      ok := PrintStringPtr(input);
      if ok {
        UpdateOffset(before + Quoted(t));
      }
    }

    method LastPiece(t: Text, ghost all: Text) returns (ok: bool)
      requires Valid() && NulFree(t)
      requires Written() + t == all
      modifies this`buffer, buffer
      ensures Valid() && Limit() == old(Limit()) && (buffer == old(buffer) || (!noalloc && fresh(buffer)))
      ensures depth == old(depth) && (ok <==> |all| + 2 <= Limit())
      ensures ok ==> Pending(all) && offset == old(offset)
    {
      ok := PrintLast(t);
    }

    method PrintArray(item: Node, ghost j: Json, ghost key: Option<Text>, ghost f: Forest) returns (ok: bool)
      requires Valid() && StandsFor(f, item, j, key) && Printable(j) && j.Array?
      modifies this, buffer
      ensures Printed(ok, Render(j, old(depth), format))
      decreases Nesting(j), 0
    {
      hide StandsFor;
      hide Whole;
      hide Siblings;
      hide BuiltElems;
      ContainerHolds(f, item, j, key);
      hide Render;
      hide RenderElems;
      hide Built;
      ghost var all := Written() + Render(j, depth, format);
      RenderArray(j.elems, depth, format);
      ok := PutPiece([LBRACKET], 1, all, RenderElems(j.elems, depth + 1, format) + [RBRACKET]);
      if !ok {
        return;
      }
      ok := PrintElemsAndClose(item.child, j.elems, f, all);
    }

    /** The elements of an array one level deeper, and its closing bracket. */
    method PrintElemsAndClose(child: Node?, ghost es: Elems, ghost f: Forest, ghost all: Text) returns (ok: bool)
      requires Valid() && Whole(f) && Siblings(f, child, BuiltElems(es)) && PrintableElems(es)
      requires Written() + (RenderElems(es, depth + 1, format) + [RBRACKET]) == all
      modifies this, buffer
      ensures Reached(ok, all)
      decreases NestingElems(es), 5
    {
      hide RenderElems;
      hide Whole;
      hide Siblings;
      hide BuiltElems;
      depth := depth + 1;
      ok := PrintElems(child, es, f, all);
      if !ok {
        return;
      }
      ok := LastPiece([RBRACKET], all);
      depth := depth - 1;
    }

    /** The loop over elements. */
    method PrintElems(child: Node?, ghost elems: Elems, ghost f: Forest, ghost all: Text) returns (ok: bool)
      requires Valid() && Whole(f) && Siblings(f, child, BuiltElems(elems)) && PrintableElems(elems)
      requires Written() + (RenderElems(elems, depth, format) + [RBRACKET]) == all
      modifies this, buffer
      ensures Advanced(ok, all, [RBRACKET])
      decreases NestingElems(elems), 4
    {
      hide Render;
      hide RenderElems;
      hide Whole;
      hide Siblings;
      hide BuiltElems;
      ghost var es := elems;
      var current := child;
      ok := true;
      FirstElem(f, current, es);
      while current != null
        invariant Advanced(true, all, RenderElems(es, old(depth), format) + [RBRACKET])
        invariant Whole(f) && Siblings(f, current, BuiltElems(es)) && (current == null <==> es.NoElem?)
        invariant PrintableElems(es) && NestingElems(es) <= NestingElems(elems)
        decreases es
      {
        ok := PrintElem(current, es, f, all);
        if !ok {
          return;
        }
        FirstElem(f, current, es);
        current, es := current.next, es.next;
        FirstElem(f, current, es);
      }
      NoElems(depth, format);
    }

    /** One turn of the loop over elements. */
    method PrintElem(current: Node, ghost es: Elems, ghost f: Forest, ghost all: Text) returns (ok: bool)
      requires Valid() && es.Elem? && PrintableElems(es) && Whole(f) && Siblings(f, current, BuiltElems(es))
      requires Written() + (RenderElems(es, depth, format) + [RBRACKET]) == all
      modifies this, buffer
      ensures Advanced(ok, all, RenderElems(es.next, old(depth), format) + [RBRACKET])
      decreases NestingElems(es), 3
    {
      hide Render;
      hide RenderElems;
      hide Whole;
      hide Siblings;
      hide BuiltElems;
      hide Built;
      ghost var rest := RenderElems(es.next, depth, format) + [RBRACKET];
      ghost var separator := ElemSeparator(es.next.NoElem?, format);
      ElemsUnfold(es, depth, format);
      FirstElem(f, current, es);
      FirstElem(f, current.next, es.next);
      ok := ValuePiece(current, es.head, None, f, all, separator + rest);
      if ok {
        if current.next != null {
          var length := if format then 2 else 1;
          ok := PutPiece(if format then [COMMA, SPACE] else [COMMA], length + 1, all, rest);
        } else {
          assert [] + rest == rest;
        }
      }
    }

    method PrintObject(item: Node, ghost j: Json, ghost key: Option<Text>, ghost f: Forest) returns (ok: bool)
      requires Valid() && StandsFor(f, item, j, key) && Printable(j) && j.Object?
      modifies this, buffer
      ensures Printed(ok, Render(j, old(depth), format))
      decreases Nesting(j), 0
    {
      hide StandsFor;
      hide Whole;
      hide Siblings;
      hide BuiltMembers;
      ContainerHolds(f, item, j, key);
      hide Render;
      hide RenderMembers;
      hide ObjectClose;
      hide Built;
      ghost var all := Written() + Render(j, depth, format);
      RenderObject(j.members, depth, format);
      var length := if format then 2 else 1;
      ok := PutPiece(if format then [LBRACE, NEWLINE] else [LBRACE], length + 1, all,
                     RenderMembers(j.members, depth + 1, format) + ObjectClose(depth, format));
      if !ok {
        return;
      }
      ok := PrintMembersAndClose(item.child, j.members, f, all);
    }

    /** The members of an object one level deeper, and its closing brace. */
    method PrintMembersAndClose(child: Node?, ghost ms: Members, ghost f: Forest, ghost all: Text) returns (ok: bool)
      requires Valid() && Whole(f) && Siblings(f, child, BuiltMembers(ms)) && PrintableMembers(ms)
      requires Written() + (RenderMembers(ms, depth + 1, format) + ObjectClose(depth, format)) == all
      modifies this, buffer
      ensures Reached(ok, all)
      decreases NestingMembers(ms), 5
    {
      hide RenderMembers;
      hide ObjectClose;
      hide Whole;
      hide Siblings;
      hide BuiltMembers;
      CloseIsText(depth, format);
      depth := depth + 1;
      ok := PrintMembers(child, ms, f, all);
      if !ok {
        return;
      }
      ok := LastPiece(ObjectClose(depth - 1, format), all);
      depth := depth - 1;
    }

    /** The loop over members. */
    method PrintMembers(child: Node?, ghost members: Members, ghost f: Forest, ghost all: Text) returns (ok: bool)
      requires Valid() && depth > 0 && Whole(f)
      requires Siblings(f, child, BuiltMembers(members)) && PrintableMembers(members)
      requires Written() + (RenderMembers(members, depth, format) + ObjectClose(depth - 1, format)) == all
      modifies this, buffer
      ensures Advanced(ok, all, ObjectClose(old(depth) - 1, format))
      decreases NestingMembers(members), 4
    {
      hide Render;
      hide RenderMembers;
      hide ObjectClose;
      hide Whole;
      hide Siblings;
      hide BuiltMembers;
      ghost var ms := members;
      var current := child;
      ok := true;
      FirstMember(f, current, ms);
      while current != null
        invariant Advanced(true, all, RenderMembers(ms, old(depth), format) + ObjectClose(old(depth) - 1, format))
        invariant Whole(f) && Siblings(f, current, BuiltMembers(ms)) && (current == null <==> ms.NoMember?)
        invariant PrintableMembers(ms) && NestingMembers(ms) <= NestingMembers(members)
        decreases ms
      {
        ok := PrintMember(current, ms, f, all);
        if !ok {
          return;
        }
        FirstMember(f, current, ms);
        current, ms := current.next, ms.next;
        FirstMember(f, current, ms);
      }
      NoMembers(depth, format);
    }

    /** One turn of the loop over members. */
    method PrintMember(current: Node, ghost ms: Members, ghost f: Forest, ghost all: Text) returns (ok: bool)
      requires Valid() && depth > 0 && ms.Member? && PrintableMembers(ms)
      requires Whole(f) && Siblings(f, current, BuiltMembers(ms))
      requires Written() + (RenderMembers(ms, depth, format) + ObjectClose(depth - 1, format)) == all
      modifies this, buffer
      ensures Advanced(ok, all, RenderMembers(ms.next, old(depth), format) + ObjectClose(old(depth) - 1, format))
      decreases NestingMembers(ms), 3
    {
      hide Render;
      hide RenderMembers;
      hide Quoted;
      hide ObjectClose;
      hide Whole;
      hide Siblings;
      hide BuiltMembers;
      hide Built;
      ghost var after := RenderMembers(ms.next, depth, format) + ObjectClose(depth - 1, format);
      ghost var last := MemberEnd(ms.next.NoMember?, format) + after;
      ghost var value := Render(ms.value, depth, format) + last;
      ghost var colon := KeySeparator(format) + value;
      MembersUnfold(ms, depth, format);
      FirstMember(f, current, ms);
      FirstMember(f, current.next, ms.next);
      ghost var name := Quoted(ms.key) + colon;
      if format {
        ok := PutPiece(Tabs(depth), depth, all, name);
        if !ok {
          return;
        }
      }
      ok := StringPiece(current.data.key, all, colon);
      if !ok {
        return;
      }
      var length := if format then 2 else 1;
      ok := PutPiece(if format then [COLON, TAB] else [COLON], length, all, value);
      if !ok {
        return;
      }
      ok := ValuePiece(current, ms.value, Some(ms.key), f, all, last);
      if !ok {
        return;
      }
      var end := (if current.next != null then [COMMA] else []) + (if format then [NEWLINE] else []);
      ok := PutPiece(end, |end| + 1, all, after);
    }
  }

  /** Without escapes the text is written as it is. */
  lemma {:induction false} NothingEscaped(t: Text)
    requires EscapeCount(t) == 0
    ensures Escape(t) == t
  {
    if t != [] {
      NothingEscaped(t[1..]);
      assert t == [t[0]] + t[1..];
    }
  }

  lemma DecimalIsShort(n: int)
    requires INT_MIN <= n <= INT_MAX
    ensures |Decimal(n)| <= 11
  {
    assert R.Tens(10) == 10_000_000_000;
    R.DigitsLength(if n < 0 then -n else n, 10);
  }

  lemma EscapeFirst(t: Text, i: nat, done: Text)
    requires i < |t|
    ensures done + Escape(t[i..]) == done + EscapeByte(t[i]) + Escape(t[i + 1..])
    ensures |done| + |EscapeByte(t[i])| <= |done + Escape(t[i..])|
  {
    assert t[i..][1..] == t[i + 1..];
  }

  lemma NamesAreNulFree()
    ensures NulFree(NULL_TEXT) && NulFree(FALSE_TEXT) && NulFree(TRUE_TEXT)
  {
  }

  lemma RenderArray(es: Elems, depth: nat, fmt: bool)
    ensures Render(Array(es), depth, fmt) == [LBRACKET] + (RenderElems(es, depth + 1, fmt) + [RBRACKET])
  {
    hide RenderElems;
  }

  lemma NoElems(depth: nat, fmt: bool)
    ensures RenderElems(NoElem, depth, fmt) + [RBRACKET] == [RBRACKET]
  {
  }

  lemma ElemsUnfold(es: Elems, depth: nat, fmt: bool)
    requires es.Elem?
    ensures RenderElems(es, depth, fmt) + [RBRACKET] ==
      Render(es.head, depth, fmt)
      + (ElemSeparator(es.next.NoElem?, fmt) + (RenderElems(es.next, depth, fmt) + [RBRACKET]))
  {
    hide Render;
    hide ElemSeparator;
  }

  lemma RenderObject(ms: Members, depth: nat, fmt: bool)
    ensures Render(Object(ms), depth, fmt) ==
      ObjectOpen(fmt) + (RenderMembers(ms, depth + 1, fmt) + ObjectClose(depth, fmt))
    ensures NulFree(ObjectClose(depth, fmt)) && ObjectClose(depth, fmt) != []
  {
    hide RenderMembers;
  }

  lemma CloseIsText(depth: nat, fmt: bool)
    ensures NulFree(ObjectClose(depth, fmt)) && ObjectClose(depth, fmt) != []
  {
  }

  lemma NoMembers(depth: nat, fmt: bool)
    requires depth > 0
    ensures RenderMembers(NoMember, depth, fmt) + ObjectClose(depth - 1, fmt) == ObjectClose(depth - 1, fmt)
    ensures NulFree(ObjectClose(depth - 1, fmt))
  {
  }

  lemma MembersUnfold(ms: Members, depth: nat, fmt: bool)
    requires ms.Member? && depth > 0
    ensures var after := RenderMembers(ms.next, depth, fmt) + ObjectClose(depth - 1, fmt);
      var name := Quoted(ms.key) + (KeySeparator(fmt) + (Render(ms.value, depth, fmt)
                                    + (MemberEnd(ms.next.NoMember?, fmt) + after)));
      RenderMembers(ms, depth, fmt) + ObjectClose(depth - 1, fmt) == if fmt then Tabs(depth) + name else name
    ensures ObjectClose(depth - 1, fmt) != []
  {
    hide Render;
    hide Quoted;
    hide KeySeparator;
    hide MemberEnd;
    hide Tabs;
    assert ObjectClose(depth - 1, fmt) != [];
    hide ObjectClose;
    Regroup6(if fmt then Tabs(depth) else [], Quoted(ms.key), KeySeparator(fmt), Render(ms.value, depth, fmt),
             MemberEnd(ms.next.NoMember?, fmt), RenderMembers(ms.next, depth, fmt), ObjectClose(depth - 1, fmt));
  }

  lemma Regroup6(a: Text, b: Text, c: Text, d: Text, e: Text, f: Text, g: Text)
    ensures a + b + c + d + e + f + g == a + (b + (c + (d + (e + (f + g)))))
    ensures a == [] ==> a + (b + (c + (d + (e + (f + g))))) == b + (c + (d + (e + (f + g))))
  {
  }

  // ----- whole texts -----

  /**
   * Prints into a buffer of 256 bytes that grows; the result is trimmed to the text and
   * its terminator.  It fails only for a text too long to be measured by an `int`.
   */
  method Print(item: Node?, format: bool, ghost j: Json, ghost key: Option<Text>, ghost f: Forest)
    returns (printed: Option<array<Byte>>)
    requires item != null ==> StandsFor(f, item, j, key) && Printable(j)
    ensures printed.Some? <==> item != null && |Render(j, 0, format)| + 2 <= INT_MAX
    ensures printed.Some? ==> fresh(printed.value) && printed.value[..] == Render(j, 0, format) + [NUL]
  {
    hide Render;
    hide StandsFor;
    if item == null {
      return None;
    }
    var memory := new Byte[256];
    var p := new PrintBuffer(memory, false, format);
    var ok := p.PrintValue(item, j, key, f);
    if !ok {
      return None;
    }
    ghost var text := Render(j, 0, format);
    assert [] + text == text;
    p.UpdateOffset(text);
    var trimmed := new Byte[p.offset + 1];
    forall i | 0 <= i < p.offset + 1 {
      trimmed[i] := p.buffer[i];
    }
    assert trimmed[..] == p.buffer[..p.offset + 1] == text + [NUL];
    printed := Some(trimmed);
  }

  /** Prints into a buffer whose first size the caller chooses: any size gives the same text. */
  method PrintBuffered(
    item: Node?, prebuffer: int, format: bool, ghost j: Json, ghost key: Option<Text>, ghost f: Forest)
    returns (printed: Option<array<Byte>>)
    requires prebuffer <= INT_MAX && (item != null ==> StandsFor(f, item, j, key) && Printable(j))
    ensures printed.Some? <==> item != null && prebuffer >= 0 && |Render(j, 0, format)| + 2 <= INT_MAX
    ensures printed.Some? ==> fresh(printed.value) && CString(printed.value[..]) == Render(j, 0, format)
  {
    hide Render;
    hide StandsFor;
    if prebuffer < 0 || item == null {
      return None;
    }
    var memory := new Byte[prebuffer];
    var p := new PrintBuffer(memory, false, format);
    var ok := p.PrintValue(item, j, key, f);
    if !ok {
      return None;
    }
    R.RenderNulFree(j, 0, format);
    HeldAsCString(p.buffer[..], Render(j, 0, format));
    printed := Some(p.buffer);
  }

  /**
   * Prints into the caller's memory.  It succeeds exactly when the memory has room for the
   * text, its terminator and one byte more; the text is the one the growing buffer gives.
   */
  method PrintPreallocated(
    item: Node?, memory: array<Byte>, format: bool, ghost j: Json, ghost key: Option<Text>, ghost f: Forest)
    returns (ok: bool)
    requires memory.Length <= INT_MAX && (item != null ==> StandsFor(f, item, j, key) && Printable(j))
    modifies memory
    ensures ok <==> item != null && memory.Length >= |Render(j, 0, format)| + 2
    ensures ok ==> CString(memory[..]) == Render(j, 0, format)
  {
    hide Render;
    hide StandsFor;
    if item == null {
      return false;
    }
    var p := new PrintBuffer(memory, true, format);
    ok := p.PrintValue(item, j, key, f);
    if ok {
      R.RenderNulFree(j, 0, format);
      HeldAsCString(memory[..], Render(j, 0, format));
    }
  }

  lemma HeldAsCString(memory: Text, text: Text)
    requires |text| < |memory| && memory[..|text|] == [] + text && memory[|text|] == NUL && NulFree(text)
    ensures CString(memory) == text
  {
    P.Terminated(memory, |text|);
    assert [] + text == text;
    CStringIsWhole(text);
  }

  /**
   * Printing a tree of nodes and parsing the text again gives a new tree of nodes that
   * stands for the same value.
   */
  method PrintAndParse(
    item: Node, format: bool, requireNul: bool, ghost j: Json, ghost key: Option<Text>, ghost f: Forest)
    returns (copy: Node?, ghost g: Forest)
    requires StandsFor(f, item, j, key) && Printable(j)
    ensures copy != null <==> |Render(j, 0, format)| + 2 <= INT_MAX && Nesting(j) <= NESTING_LIMIT
    ensures copy != null ==> fresh(g.nodes) && P.IsBuilt(g, copy, j, None)
  {
    hide Render;
    hide StandsFor;
    hide P.IsBuilt;
    hide G.ParseCString;
    g := NOTHING;
    var printed := Print(item, format, j, key, f);
    if printed.None? {
      return null, g;
    }
    ghost var text := Render(j, 0, format);
    R.PrintParse(j, format, requireNul);
    HeldAsCString(printed.value[..], text);
    SameCString(printed.value[..], text, requireNul);
    var position;
    copy, position, g := P.ParseWithOpts(printed.value[..], requireNul);
  }

  lemma SameCString(memory: Text, text: Text, requireNul: bool)
    requires CString(memory) == text && NulFree(text)
    ensures G.ParseCString(memory, requireNul) == G.ParseCString(text, requireNul)
  {
    CStringIsWhole(text);
  }
}
