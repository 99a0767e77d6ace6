/** Cutting the TCP stream back into encrypted frames, however it arrives. */
module Framing {
  import opened Bytes

  const MAX_BUF_SIZE := 65536

  /** `crypto_decrypt`: the plain text, or nothing when it fails. */
  type Cipher = Text -> Option<Text>

  // ----- frames -----

  /** The big-endian length at the start of a frame. */
  function Head(b: Text): (n: nat)
    requires |b| >= 4
    ensures n < 0x1_0000_0000
  {
    ((b[0] as int * 256 + b[1]) * 256 + b[2]) * 256 + b[3]
  }

  predicate BadLength(n: nat) {
    n == 0 || n > MAX_BUF_SIZE
  }

  /** What the application is told about a frame: its plain text up to the first NUL, or nothing. */
  function Deliver(body: Text, decrypt: Cipher): seq<Text> {
    match decrypt(body)
    case None => []
    case Some(plain) => [CString(plain)]
  }

  datatype Drained = Drained(messages: seq<Text>, left: Text)

  /** All complete frames taken from the front of a buffer; a bad length empties it. */
  function Drain(b: Text, decrypt: Cipher): Drained
    decreases |b|
  {
    if |b| < 4 then Drained([], b)
    else if BadLength(Head(b)) then Drained([], [])
    else if |b| < 4 + Head(b) then Drained([], b)
    else
      var body := b[4..4 + Head(b)];
      var rest := Drain(b[4 + Head(b)..], decrypt);
      Drained(Deliver(body, decrypt) + rest.messages, rest.left)
  }

  /** Pieces handled one after the other. */
  function Run(left: Text, pieces: seq<Text>, decrypt: Cipher): Drained
    decreases pieces
  {
    if pieces == [] then Drained([], left)
    else
      var first := Drain(left + pieces[0], decrypt);
      var rest := Run(first.left, pieces[1..], decrypt);
      Drained(first.messages + rest.messages, rest.left)
  }

  function Concat(pieces: seq<Text>): Text {
    if pieces == [] then [] else pieces[0] + Concat(pieces[1..])
  }

  // ----- the receiving object -----

  class Receiver {
    const decrypt: Cipher
    var recvBuf: Text
    /** The messages signalled so far. */
    var received: seq<Text>

    constructor (decrypt: Cipher)
      ensures this.decrypt == decrypt && recvBuf == [] && received == []
    {
      this.decrypt, recvBuf, received := decrypt, [], [];
    }

    /** A new or lost connection forgets what was left of the old one. */
    method ConnectionChanged()
      modifies this`recvBuf
      ensures recvBuf == []
    {
      recvBuf := [];
    }

    method ReadyRead(data: Text)
      modifies this
      ensures recvBuf == Drain(old(recvBuf) + data, decrypt).left
      ensures received == old(received) + Drain(old(recvBuf) + data, decrypt).messages
    {
      hide Drain;
      hide Head;
      recvBuf := recvBuf + data;
      ghost var whole := Drain(recvBuf, decrypt);
      while |recvBuf| >= 4
        invariant received + Drain(recvBuf, decrypt).messages == old(received) + whole.messages
        invariant Drain(recvBuf, decrypt).left == whole.left
        decreases |recvBuf|
      {
        DrainUnfold(recvBuf, decrypt);
        var encLen := Head(recvBuf);
        if encLen <= 0 || encLen > MAX_BUF_SIZE {
          recvBuf := [];
          return;
        }
        if |recvBuf| < 4 + encLen {
          break;
        }
        var encData := recvBuf[4..4 + encLen];
        recvBuf := recvBuf[4 + encLen..];
        var plain := decrypt(encData);
        if plain.None? {
          continue;
        }
        received := received + [CString(plain.value)];
      }
      DrainUnfold(recvBuf, decrypt);
    }
  }

  /** One turn of the loop. */
  lemma DrainUnfold(b: Text, decrypt: Cipher)
    ensures Drain(b, decrypt) ==
      if |b| < 4 then Drained([], b)
      else if BadLength(Head(b)) then Drained([], [])
      else if |b| < 4 + Head(b) then Drained([], b)
      else After(Deliver(b[4..4 + Head(b)], decrypt), Drain(b[4 + Head(b)..], decrypt))
  {
    hide Head;
  }

  /** Messages in front of those still to come. */
  function After(messages: seq<Text>, d: Drained): Drained {
    Drained(messages + d.messages, d.left)
  }

  lemma AfterTwice(a: seq<Text>, b: seq<Text>, d: Drained)
    ensures After(a, After(b, d)) == After(a + b, d)
  {
    assert a + (b + d.messages) == a + b + d.messages;
  }

  lemma RunUnfold(left: Text, pieces: seq<Text>, decrypt: Cipher)
    ensures Run(left, pieces, decrypt) ==
      if pieces == [] then Drained([], left)
      else After(Drain(left + pieces[0], decrypt).messages,
                 Run(Drain(left + pieces[0], decrypt).left, pieces[1..], decrypt))
  {
    hide Drain;
  }

  // ----- connections that come and go -----

  /** Bytes are there to be read, or the connection is made or lost. */
  datatype Event = Arrives(data: Text) | Changes

  /** Reads and connection changes handled one after the other. */
  function Serve(left: Text, events: seq<Event>, decrypt: Cipher): Drained
    decreases events
  {
    if events == [] then Drained([], left)
    else
      match events[0]
      case Changes => Serve([], events[1..], decrypt)
      case Arrives(data) =>
        var d := Drain(left + data, decrypt);
        After(d.messages, Serve(d.left, events[1..], decrypt))
  }

  lemma ServeUnfold(left: Text, events: seq<Event>, decrypt: Cipher)
    ensures Serve(left, events, decrypt) ==
      if events == [] then Drained([], left)
      else if events[0].Changes? then Serve([], events[1..], decrypt)
      else After(Drain(left + events[0].data, decrypt).messages,
                 Serve(Drain(left + events[0].data, decrypt).left, events[1..], decrypt))
  {
    hide Drain;
  }

  /** Any sequence of reads and connection changes on the object. */
  method Listen(events: seq<Event>, decrypt: Cipher) returns (messages: seq<Text>, left: Text)
    ensures Drained(messages, left) == Serve([], events, decrypt)
  {
    hide Drain;
    hide Serve;
    var receiver := new Receiver(decrypt);
    assert events[0..] == events;
    var i := 0;
    while i < |events|
      invariant 0 <= i <= |events| && receiver.decrypt == decrypt
      invariant Serve([], events, decrypt) == After(receiver.received, Serve(receiver.recvBuf, events[i..], decrypt))
    {
      ghost var before, left := receiver.received, receiver.recvBuf;
      assert events[i..][1..] == events[i + 1..];
      ServeUnfold(left, events[i..], decrypt);
      match events[i] {
        case Arrives(data) =>
          receiver.ReadyRead(data);
          ghost var d := Drain(left + data, decrypt);
          AfterTwice(before, d.messages, Serve(d.left, events[i + 1..], decrypt));
        case Changes =>
          receiver.ConnectionChanged();
      }
      i := i + 1;
    }
    ServeUnfold(receiver.recvBuf, events[i..], decrypt);
    messages, left := receiver.received, receiver.recvBuf;
  }

  /** The reads of each connection, in order. */
  function Connections(events: seq<Event>): (cs: seq<seq<Text>>)
    ensures cs != []
  {
    if events == [] then [[]]
    else
      var cs := Connections(events[1..]);
      match events[0]
      case Changes => [[]] + cs
      case Arrives(data) => [[data] + cs[0]] + cs[1..]
  }

  /** Each connection handled by itself, the first one with what is left already. */
  function OneByOne(left: Text, cs: seq<seq<Text>>, decrypt: Cipher): Drained
    requires cs != []
    decreases cs
  {
    var d := Run(left, cs[0], decrypt);
    if |cs| == 1 then d else After(d.messages, OneByOne([], cs[1..], decrypt))
  }

  /** The messages are those of each connection's own reads in turn; nothing passes from one to the next. */
  lemma {:induction false} ConnectionsAreSeparate(left: Text, events: seq<Event>, decrypt: Cipher)
    ensures Serve(left, events, decrypt) == OneByOne(left, Connections(events), decrypt)
    decreases events
  {
    hide Drain;
    hide Run;
    if events == [] {
      RunUnfold(left, [], decrypt);
    } else {
      var cs := Connections(events[1..]);
      match events[0] {
        case Changes =>
          ConnectionsAreSeparate([], events[1..], decrypt);
          RunUnfold(left, [], decrypt);
          assert ([[]] + cs)[1..] == cs;
        case Arrives(data) =>
          var d := Drain(left + data, decrypt);
          ConnectionsAreSeparate(d.left, events[1..], decrypt);
          RunUnfold(left, [data] + cs[0], decrypt);
          assert ([data] + cs[0])[1..] == cs[0];
          var more: seq<seq<Text>> := [[data] + cs[0]] + cs[1..];
          assert more[1..] == cs[1..];
          if |cs| > 1 {
            AfterTwice(d.messages, Run(d.left, cs[0], decrypt).messages, OneByOne([], cs[1..], decrypt));
          }
      }
    }
  }

  // ----- segmentation -----

  /** No bad length is met, unless the stream ends right behind it. */
  predicate Harmless(s: Text)
    decreases |s|
  {
    |s| < 4 ||
    if BadLength(Head(s)) then |s| == 4
    else |s| < 4 + Head(s) || Harmless(s[4 + Head(s)..])
  }

  lemma {:induction false} DrainSplit(a: Text, b: Text, decrypt: Cipher)
    requires Harmless(a + b)
    ensures var d := Drain(a, decrypt);
      && Harmless(d.left + b)
      && Drain(a + b, decrypt) == After(d.messages, Drain(d.left + b, decrypt))
    decreases |a|
  {
    hide Drain;
    DrainUnfold(a, decrypt);
    DrainUnfold(a + b, decrypt);
    if |a| >= 4 {
      HeadOfPrefix(a, b);
      hide Head;
      if BadLength(Head(a)) {
        assert b == [];
        DrainUnfold([], decrypt);
      } else if |a| >= 4 + Head(a) {
        var n := 4 + Head(a);
        assert (a + b)[n..] == a[n..] + b;
        assert (a + b)[4..n] == a[4..n];
        DrainSplit(a[n..], b, decrypt);
        var d := Drain(a[n..], decrypt);
        AfterTwice(Deliver(a[4..n], decrypt), d.messages, Drain(d.left + b, decrypt));
      }
    }
  }

  lemma HeadOfPrefix(a: Text, b: Text)
    requires |a| >= 4
    ensures Head(a + b) == Head(a)
  {
  }

  lemma {:induction false} RunIsDrain(left: Text, pieces: seq<Text>, decrypt: Cipher)
    requires Harmless(left + Concat(pieces)) && Drain(left, decrypt) == Drained([], left)
    ensures Run(left, pieces, decrypt) == Drain(left + Concat(pieces), decrypt)
    decreases pieces
  {
    hide Drain;
    hide Harmless;
    if pieces == [] {
      assert left + [] == left;
    } else {
      var rest := Concat(pieces[1..]);
      assert left + Concat(pieces) == (left + pieces[0]) + rest;
      DrainSplit(left + pieces[0], rest, decrypt);
      LeftIsIncomplete(left + pieces[0], decrypt);
      RunIsDrain(Drain(left + pieces[0], decrypt).left, pieces[1..], decrypt);
    }
  }

  /** What stays in the buffer is less than one complete frame. */
  lemma {:induction false} LeftIsIncomplete(b: Text, decrypt: Cipher)
    ensures var left := Drain(b, decrypt).left;
      && (|left| < 4 || (!BadLength(Head(left)) && |left| < 4 + Head(left)))
      && Drain(left, decrypt) == Drained([], left)
    decreases |b|
  {
    if |b| >= 4 && !BadLength(Head(b)) && |b| >= 4 + Head(b) {
      LeftIsIncomplete(b[4 + Head(b)..], decrypt);
    }
  }

  lemma {:induction false} HarmfulEmpties(s: Text, decrypt: Cipher)
    requires !Harmless(s)
    ensures |s| > 4 && Drain(s, decrypt).left == [] && Drain(s[..|s| - 1], decrypt).left == []
    decreases |s|
  {
    var shorter := s[..|s| - 1];
    if BadLength(Head(s)) {
      assert Head(shorter) == Head(s);
    } else {
      var n := 4 + Head(s);
      HarmfulEmpties(s[n..], decrypt);
      assert Head(shorter) == Head(s);
      assert shorter[n..] == s[n..][..|s[n..]| - 1];
    }
  }

  /**
   * The stream gives the same messages and the same remainder in one piece as in any
   * others exactly when no bad length is met before its very end.
   */
  lemma SegmentationIndependence(s: Text, decrypt: Cipher)
    ensures Harmless(s) <==>
      forall pieces: seq<Text> :: Concat(pieces) == s ==> Run([], pieces, decrypt) == Drain(s, decrypt)
  {
    if Harmless(s) {
      forall pieces: seq<Text> | Concat(pieces) == s
        ensures Run([], pieces, decrypt) == Drain(s, decrypt)
      {
        assert [] + s == s;
        RunIsDrain([], pieces, decrypt);
      }
    } else {
      HarmfulEmpties(s, decrypt);
      var n := |s| - 1;
      LastByteAlone(s, decrypt);
      assert Concat([s[..n], s[n..]]) == s;
    }
  }

  lemma LastByteAlone(s: Text, decrypt: Cipher)
    requires |s| > 1 && Drain(s[..|s| - 1], decrypt).left == []
    ensures var pieces: seq<Text> := [s[..|s| - 1], s[|s| - 1..]];
      Concat(pieces) == s && Run([], pieces, decrypt).left == s[|s| - 1..]
  {
    var n := |s| - 1;
    var pieces: seq<Text> := [s[..n], s[n..]];
    assert pieces[1..] == [s[n..]];
    assert |pieces[1..][1..]| == 0;
    assert Concat(pieces[1..]) == s[n..] + [];
    assert [] + s[..n] == s[..n] && [] + s[n..] == s[n..];
    assert Run([], pieces[1..], decrypt).left == s[n..];
  }

  // ----- sending -----

  function NetworkOrder(n: nat): Text
    requires n < 0x1_0000_0000
  {
    [n / 0x100_0000, n / 0x1_0000 % 256, n / 256 % 256, n % 256]
  }

  lemma HeadReads(n: nat, rest: Text)
    requires n < 0x1_0000_0000
    ensures Head(NetworkOrder(n) + rest) == n
  {
    assert n / 0x1_0000 == n / 0x100_0000 * 256 + n / 0x1_0000 % 256;
    assert n / 256 == n / 0x1_0000 * 256 + n / 256 % 256;
    assert n == n / 256 * 256 + n % 256;
  }

  /** The bytes written for one message, given its encryption. */
  function Frame(body: Text): Text
    requires |body| < 0x8000_0000
  {
    NetworkOrder(|body|) + body
  }

  predicate Sendable(bodies: seq<Text>) {
    forall i :: 0 <= i < |bodies| ==> 1 <= |bodies[i]| <= 0x1_0000
  }

  function Stream(bodies: seq<Text>): Text
    requires Sendable(bodies)
  {
    if bodies == [] then [] else Frame(bodies[0]) + Stream(bodies[1..])
  }

  /** The messages of all frames that decrypt, in order; a frame that does not is left out alone. */
  function DeliverAll(bodies: seq<Text>, decrypt: Cipher): seq<Text> {
    if bodies == [] then [] else Deliver(bodies[0], decrypt) + DeliverAll(bodies[1..], decrypt)
  }

  lemma FrameDrains(body: Text, rest: Text, decrypt: Cipher)
    requires 1 <= |body| <= 0x1_0000
    ensures Drain(Frame(body) + rest, decrypt) ==
      Drained(Deliver(body, decrypt) + Drain(rest, decrypt).messages, Drain(rest, decrypt).left)
    ensures Harmless(Frame(body) + rest) <==> Harmless(rest)
  {
    var s := Frame(body) + rest;
    HeadReads(|body|, body + rest);
    assert s == NetworkOrder(|body|) + (body + rest);
    assert s[4..4 + |body|] == body && s[4 + |body|..] == rest;
  }

  predicate Partial(b: Text) {
    |b| < 4 || (!BadLength(Head(b)) && |b| < 4 + Head(b))
  }

  lemma PartialIsHarmless(b: Text)
    requires Partial(b)
    ensures Harmless(b)
  {
    hide Head;
  }

  lemma {:induction false} StreamDrains(bodies: seq<Text>, tail: Text, decrypt: Cipher)
    requires Sendable(bodies) && Partial(tail)
    ensures Drain(Stream(bodies) + tail, decrypt) == Drained(DeliverAll(bodies, decrypt), tail)
    ensures Harmless(Stream(bodies) + tail)
    decreases bodies
  {
    hide Drain;
    hide Head;
    hide Harmless;
    hide Frame;
    if bodies == [] {
      assert [] + tail == tail;
      DrainUnfold(tail, decrypt);
      PartialIsHarmless(tail);
    } else {
      StreamDrains(bodies[1..], tail, decrypt);
      FrameDrains(bodies[0], Stream(bodies[1..]) + tail, decrypt);
      assert Stream(bodies) + tail == Frame(bodies[0]) + (Stream(bodies[1..]) + tail);
    }
  }

  /**
   * Frames of valid length, followed by part of another, come out as their messages in
   * order with the part left over, however the stream was cut.
   */
  lemma FramesArrive(bodies: seq<Text>, tail: Text, pieces: seq<Text>, decrypt: Cipher)
    requires Sendable(bodies) && Partial(tail) && Concat(pieces) == Stream(bodies) + tail
    ensures Run([], pieces, decrypt) == Drained(DeliverAll(bodies, decrypt), tail)
  {
    StreamDrains(bodies, tail, decrypt);
    assert [] + Concat(pieces) == Concat(pieces);
    RunIsDrain([], pieces, decrypt);
  }

  /** What one connection brings: whole frames of valid length and part of another. */
  datatype Traffic = Traffic(bodies: seq<Text>, tail: Text)

  predicate Carries(pieces: seq<Text>, t: Traffic) {
    Sendable(t.bodies) && Partial(t.tail) && Concat(pieces) == Stream(t.bodies) + t.tail
  }

  function AllMessages(ts: seq<Traffic>, decrypt: Cipher): seq<Text> {
    if ts == [] then [] else DeliverAll(ts[0].bodies, decrypt) + AllMessages(ts[1..], decrypt)
  }

  /**
   * Over connections that come and go the messages are those of the whole frames of each,
   * in order: a frame that a lost connection cut short is dropped and joins nothing that
   * the next one brings.
   */
  lemma CutFramesAreDropped(events: seq<Event>, ts: seq<Traffic>, decrypt: Cipher)
    requires |ts| == |Connections(events)|
    requires forall i :: 0 <= i < |ts| ==> Carries(Connections(events)[i], ts[i])
    ensures Serve([], events, decrypt) == Drained(AllMessages(ts, decrypt), ts[|ts| - 1].tail)
  {
    ConnectionsAreSeparate([], events, decrypt);
    EachCarries(Connections(events), ts, decrypt);
  }

  lemma {:induction false} EachCarries(cs: seq<seq<Text>>, ts: seq<Traffic>, decrypt: Cipher)
    requires |ts| == |cs| > 0 && forall i :: 0 <= i < |ts| ==> Carries(cs[i], ts[i])
    ensures OneByOne([], cs, decrypt) == Drained(AllMessages(ts, decrypt), ts[|ts| - 1].tail)
    decreases cs
  {
    hide Run;
    hide Stream;
    hide DeliverAll;
    assert Carries(cs[0], ts[0]);
    FramesArrive(ts[0].bodies, ts[0].tail, cs[0], decrypt);
    if |cs| == 1 {
      assert ts[1..] == [];
      assert DeliverAll(ts[0].bodies, decrypt) + [] == DeliverAll(ts[0].bodies, decrypt);
    } else {
      EachCarries(cs[1..], ts[1..], decrypt);
    }
  }

  ghost predicate Inverts(encrypt: Text -> Text, decrypt: Cipher) {
    forall p: Text :: decrypt(encrypt(p)) == Some(p)
  }

  /**
   * One message arrives as it was sent exactly when its encryption has a length the
   * receiver accepts and it holds no NUL.
   */
  lemma SendReceive(plain: Text, encrypt: Text -> Text, decrypt: Cipher)
    requires Inverts(encrypt, decrypt) && |encrypt(plain)| < 0x8000_0000
    ensures Drain(Frame(encrypt(plain)), decrypt) == Drained([plain], []) <==>
      1 <= |encrypt(plain)| <= 0x1_0000 && NulFree(plain)
  {
    var body := encrypt(plain);
    assert decrypt(body) == Some(plain);
    CStringIsWhole(plain);
    var s := Frame(body);
    assert s + [] == s;
    if 1 <= |body| <= MAX_BUF_SIZE {
      FrameDrains(body, [], decrypt);
      assert Drain(s, decrypt).messages == [CString(plain)];
    } else {
      HeadReads(|body|, body);
    }
  }

  function EncryptAll(plains: seq<Text>, encrypt: Text -> Text): seq<Text> {
    seq(|plains|, i requires 0 <= i < |plains| => encrypt(plains[i]))
  }

  lemma {:induction false} AllDelivered(plains: seq<Text>, encrypt: Text -> Text, decrypt: Cipher)
    requires Inverts(encrypt, decrypt) && forall p :: p in plains ==> NulFree(p)
    ensures DeliverAll(EncryptAll(plains, encrypt), decrypt) == plains
  {
    if plains != [] {
      var bodies := EncryptAll(plains, encrypt);
      assert bodies[1..] == EncryptAll(plains[1..], encrypt);
      AllDelivered(plains[1..], encrypt, decrypt);
      assert decrypt(bodies[0]) == Some(plains[0]);
      CStringIsWhole(plains[0]);
      assert plains == [plains[0]] + plains[1..];
    }
  }

  /** Any number of messages, sent one after the other and received in any pieces. */
  lemma SendReceiveAll(plains: seq<Text>, encrypt: Text -> Text, decrypt: Cipher, pieces: seq<Text>)
    requires Inverts(encrypt, decrypt) && Sendable(EncryptAll(plains, encrypt))
    requires forall p :: p in plains ==> NulFree(p)
    requires Concat(pieces) == Stream(EncryptAll(plains, encrypt))
    ensures Run([], pieces, decrypt) == Drained(plains, [])
  {
    var bodies := EncryptAll(plains, encrypt);
    AllDelivered(plains, encrypt, decrypt);
    assert Stream(bodies) + [] == Stream(bodies);
    FramesArrive(bodies, [], pieces, decrypt);
  }
}
