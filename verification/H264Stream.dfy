/** What feeding a byte stream amounts to: splitting undoes joining, and pieces add up. */
module H264Stream {
  import opened Bytes
  import opened H264Bits
  import opened H264Sps
  import opened H264Feed

  predicate StartsWithCode(d: Text) {
    ShortCode(d) || LongCode(d)
  }

  /** The start code in front of `d`. */
  function CodeLength(d: Text): nat
    requires StartsWithCode(d)
  {
    if ShortCode(d) then 3 else 4
  }

  predicate EndsNonZero(d: Text) {
    d != [] && d[|d| - 1] != 0
  }

  // ----- start codes across a seam -----

  /** A start code cannot begin in `a` and end in `b` when `a` ends in a non-zero byte. */
  lemma NoCodeAcrossSeam(a: Text, b: Text)
    requires EndsNonZero(a)
    ensures ShortCode(a + b) <==> ShortCode(a)
    ensures LongCode(a + b) <==> LongCode(a)
  {
    var n := |a| - 1;
    assert (a + b)[n] == a[n];
    assert n < 3 ==> ShortCode(a + b) || LongCode(a + b) ==> n == 2 && a[2] == 1;
  }

  lemma {:induction false} FirstCodeAcrossSeam(a: Text, b: Text)
    requires a == [] || EndsNonZero(a)
    requires b == [] || StartsWithCode(b)
    ensures FirstCode(a + b) ==
      if FirstCode(a).Some? then FirstCode(a)
      else if b == [] then None else Some(Found(|a|, CodeLength(b)))
  {
    if a == [] {
      assert a + b == b;
    } else {
      NoCodeAcrossSeam(a, b);
      assert (a + b)[1..] == a[1..] + b;
      assert |a| == 1 ==> a[1..] == [];
      FirstCodeAcrossSeam(a[1..], b);
      ShortHasNoCode(a);
      ShortHasNoCode(a + b);
    }
  }

  lemma ShortHasNoCode(d: Text)
    requires d != []
    ensures FirstCode(d) ==
      if ShortCode(d) then Some(Found(0, 3))
      else if LongCode(d) then Some(Found(0, 4))
      else match FirstCode(d[1..]) case None => None case Some(f) => Some(Found(f.pos + 1, f.length))
  {
  }

  // ----- feeding is a homomorphism -----

  lemma TailEnds(a: Text, n: nat)
    requires EndsNonZero(a) && n <= |a|
    ensures a[n..] == [] || EndsNonZero(a[n..])
  {
  }

  lemma {:induction false} UnitsAcrossSeam(a: Text, b: Text)
    requires a == [] || EndsNonZero(a)
    requires StartsWithCode(b)
    ensures Units(a + b) == Units(a) + Units(b)
    decreases |a|
  {
    hide FirstCode;
    hide Units;
    hide UnitEnd;
    FirstCodeAcrossSeam(a, b);
    if FirstCode(a) == None {
      NothingBeforeSeam(a, b);
    } else {
      var f := FirstCode(a).value;
      FoundFits(a);
      var rest := a[f.pos + f.length..];
      TailEnds(a, f.pos + f.length);
      UnitEndAcrossSeam(rest, b);
      var e := UnitEnd(rest);
      TailAgain(a, f.pos + f.length, e);
      UnitsAcrossSeam(rest[e..], b);
      UnitBeforeSeam(a, b, f, rest, e);
    }
  }

  lemma NothingBeforeSeam(a: Text, b: Text)
    requires a == [] || EndsNonZero(a)
    requires StartsWithCode(b) && FirstCode(a) == None
    ensures Units(a + b) == Units(a) + Units(b)
  {
    hide FirstCode;
    hide Units;
    hide UnitEnd;
    FirstCodeAcrossSeam(a, b);
    var n := CodeLength(b);
    FirstCodeAcrossSeam([], b);
    assert [] + b == b;
    EmptyFirst();
    assert (a + b)[|a| + n..] == b[n..];
    UnitsUnfold(a + b, Found(|a|, n), b[n..]);
    UnitsUnfold(b, Found(0, n), b[n..]);
    NoUnits(a);
    assert [] + Units(b) == Units(b);
  }

  lemma UnitBeforeSeam(a: Text, b: Text, f: Found, rest: Text, e: nat)
    requires FirstCode(a) == FirstCode(a + b) == Some(f) && f.pos + f.length <= |a|
    requires rest == a[f.pos + f.length..] && UnitEnd(rest) == UnitEnd(rest + b) == e <= |rest|
    requires Units(rest[e..] + b) == Units(rest[e..]) + Units(b)
    ensures Units(a + b) == Units(a) + Units(b)
  {
    hide FirstCode;
    hide Units;
    hide UnitEnd;
    hide StartsWithCode;
    hide EndsNonZero;
    assert (a + b)[f.pos + f.length..] == rest + b;
    UnitsUnfold(a, f, rest);
    UnitsUnfold(a + b, f, rest + b);
    assert (rest + b)[..e] == rest[..e] && (rest + b)[e..] == rest[e..] + b;
    if e == 0 {
      assert rest[0..] == rest;
    } else {
      var u := Unit(f.length, rest[..e]);
      assert [u] + (Units(rest[e..]) + Units(b)) == [u] + Units(rest[e..]) + Units(b);
    }
  }

  lemma EmptyFirst()
    ensures FirstCode([]) == None
  {
  }

  lemma NoUnits(d: Text)
    requires FirstCode(d) == None
    ensures Units(d) == []
  {
  }

  lemma FoundFits(d: Text)
    requires FirstCode(d).Some?
    ensures 3 <= FirstCode(d).value.length && FirstCode(d).value.pos + FirstCode(d).value.length <= |d|
  {
  }

  lemma UnitEndAcrossSeam(rest: Text, b: Text)
    requires rest == [] || EndsNonZero(rest)
    requires StartsWithCode(b)
    ensures UnitEnd(rest + b) == UnitEnd(rest) <= |rest|
  {
    FirstCodeAcrossSeam(rest, b);
  }

  lemma TailAgain(a: Text, n: nat, e: nat)
    requires EndsNonZero(a) && n <= |a| && e <= |a| - n
    ensures a[n..][e..] == [] || EndsNonZero(a[n..][e..])
  {
  }

  lemma {:induction false} AcceptedConcat(us: seq<Unit>, vs: seq<Unit>)
    ensures Accepted(us + vs) == Accepted(us) + Accepted(vs)
  {
    if us == [] {
      assert us + vs == vs;
    } else {
      assert (us + vs)[1..] == us[1..] + vs;
      AcceptedConcat(us[1..], vs);
    }
  }

  lemma {:induction false} AccountConcat(p: State, us: seq<Unit>, vs: seq<Unit>)
    requires forall u :: u in us ==> u.nal != []
    requires forall u :: u in vs ==> u.nal != []
    ensures forall u :: u in us + vs ==> u.nal != []
    ensures AccountAll(p, us + vs) == AccountAll(AccountAll(p, us), vs)
    decreases us
  {
    hide Account;
    if us == [] {
      assert us + vs == vs;
    } else {
      assert (us + vs)[1..] == us[1..] + vs;
      AccountConcat(Account(p, us[0]), us[1..], vs);
    }
  }

  /**
   * A stream may be fed in pieces: when the first piece ends in a non-zero byte and the
   * second begins with a start code, feeding one after the other leaves the parser, its
   * callbacks and the total count as feeding both at once would.
   */
  lemma FeedInPieces(p: State, a: Text, b: Text)
    requires EndsNonZero(a) && StartsWithCode(b)
    ensures Fed(p, a + b) == Fed(Fed(p, a), b)
    ensures |Accepted(Units(a + b))| == |Accepted(Units(a))| + |Accepted(Units(b))|
  {
    hide Account;
    hide Units;
    UnitsAcrossSeam(a, b);
    AcceptedConcat(Units(a), Units(b));
    AccountConcat(p, Accepted(Units(a)), Accepted(Units(b)));
  }

  // ----- splitting undoes joining -----

  /** A NAL unit and the length of the start code to write before it. */
  function Coded(u: Unit): Text {
    (if u.codeLength == 3 then [0, 0, 1] else [0, 0, 0, 1]) + u.nal
  }

  function Join(us: seq<Unit>): Text {
    if us == [] then [] else Coded(us[0]) + Join(us[1..])
  }

  /** What the standard asks of a NAL unit: no start code prefix inside and no trailing zero byte. */
  predicate WellFormed(nal: Text) {
    && EndsNonZero(nal)
    && forall i :: 0 <= i < |nal| - 2 ==> !(nal[i] == 0 && nal[i + 1] == 0 && (nal[i + 2] == 0 || nal[i + 2] == 1))
  }

  lemma {:induction false} NoCodeInside(nal: Text)
    requires nal == [] || WellFormed(nal)
    ensures FirstCode(nal) == None
  {
    if nal != [] {
      var tail := nal[1..];
      forall i | 0 <= i < |tail| - 2
        ensures !(tail[i] == 0 && tail[i + 1] == 0 && (tail[i + 2] == 0 || tail[i + 2] == 1))
      {
        assert !(nal[i + 1] == 0 && nal[i + 2] == 0 && (nal[i + 3] == 0 || nal[i + 3] == 1));
      }
      NoCodeInside(tail);
      assert |nal| >= 3 ==> !(nal[0] == 0 && nal[1] == 0 && (nal[2] == 0 || nal[2] == 1));
    }
  }

  lemma CodedStarts(u: Unit, rest: Text)
    requires u.codeLength == 3 || u.codeLength == 4
    ensures StartsWithCode(Coded(u) + rest) && CodeLength(Coded(u) + rest) == u.codeLength
    ensures (Coded(u) + rest)[u.codeLength..] == u.nal + rest
    ensures FirstCode(Coded(u) + rest) == Some(Found(0, u.codeLength))
  {
    var d := Coded(u) + rest;
    assert d[0] == 0 && d[1] == 0;
    if u.codeLength == 3 {
      assert d[2] == 1;
    } else {
      assert d[2] == 0 && d[3] == 1;
    }
  }

  /** Splitting a stream of well-formed units gives back exactly those units, with their start codes. */
  lemma {:induction false} SplitJoin(us: seq<Unit>)
    requires forall u :: u in us ==> WellFormed(u.nal) && (u.codeLength == 3 || u.codeLength == 4)
    ensures Units(Join(us)) == us
    ensures us != [] ==> StartsWithCode(Join(us))
  {
    hide Units;
    hide FirstCode;
    if us == [] {
      EmptyFirst();
      NoUnits([]);
    } else {
      var u, rest := us[0], Join(us[1..]);
      assert u in us;
      SplitJoin(us[1..]);
      CodedStarts(u, rest);
      UnitsUnfold(Join(us), Found(0, u.codeLength), u.nal + rest);
      NoCodeInside(u.nal);
      FirstCodeAcrossSeam(u.nal, rest);
      assert |us| == 1 ==> us[1..] == [];
      assert UnitEnd(u.nal + rest) == |u.nal|;
      assert (u.nal + rest)[..|u.nal|] == u.nal && (u.nal + rest)[|u.nal|..] == rest;
      assert us == [u] + us[1..];
    }
  }

  // ----- zero bytes between units -----

  /** A unit behind two or more zero bytes and a one, as section B.1 of ITU-T H.264 allows. */
  datatype Padded = Padded(zeros: nat, nal: Text)

  function Zeros(n: nat): (t: Text)
    ensures |t| == n
  {
    seq(n, _ => 0)
  }

  /** Such units one after the other, and zero bytes behind the last. */
  function Stream(ps: seq<Padded>, tail: nat): Text {
    if ps == [] then Zeros(tail) else Zeros(ps[0].zeros) + ([1] + (ps[0].nal + Stream(ps[1..], tail)))
  }

  /** The zero bytes that are not taken for part of the next start code. */
  function Kept(ps: seq<Padded>, tail: nat): nat {
    if ps == [] then tail else if ps[0].zeros <= 3 then 0 else ps[0].zeros - 3
  }

  /** What the units come out as: each with the zero bytes behind it but for three at most. */
  function Delivered(ps: seq<Padded>, tail: nat): seq<Unit> {
    if ps == [] then []
    else
      [Unit(if ps[0].zeros == 2 then 3 else 4, ps[0].nal + Zeros(Kept(ps[1..], tail)))] + Delivered(ps[1..], tail)
  }

  /** Behind a stretch without codes that ends in a non-zero byte the first code is that of the rest. */
  lemma {:induction false} FirstCodeBehind(a: Text, b: Text)
    requires (a == [] || EndsNonZero(a)) && FirstCode(a) == None
    ensures FirstCode(a + b) ==
      match FirstCode(b) case None => None case Some(f) => Some(Found(|a| + f.pos, f.length))
  {
    hide FirstCode;
    if a == [] {
      assert a + b == b;
    } else {
      NoCodeAcrossSeam(a, b);
      assert (a + b)[1..] == a[1..] + b;
      assert |a| == 1 ==> a[1..] == [];
      ShortHasNoCode(a);
      ShortHasNoCode(a + b);
      FirstCodeBehind(a[1..], b);
    }
  }

  lemma {:induction false} CodeBehindZeros(z: nat, rest: Text)
    requires z >= 2
    ensures FirstCode(Zeros(z) + ([1] + rest)) == Some(if z == 2 then Found(0, 3) else Found(z - 3, 4))
    decreases z
  {
    var d := Zeros(z) + ([1] + rest);
    ShortHasNoCode(d);
    hide FirstCode;
    if z > 3 {
      assert d[1..] == Zeros(z - 1) + ([1] + rest);
      CodeBehindZeros(z - 1, rest);
    }
  }

  lemma {:induction false} ZerosHaveNoCode(z: nat)
    ensures FirstCode(Zeros(z)) == None
  {
    if z > 0 {
      assert Zeros(z)[1..] == Zeros(z - 1);
      ZerosHaveNoCode(z - 1);
    }
  }

  /** Where the next code is found, and where the unit before it ends. */
  lemma NextCode(nal: Text, ps: seq<Padded>, tail: nat)
    requires WellFormed(nal) && (forall p :: p in ps ==> p.zeros >= 2)
    ensures var rest := nal + Stream(ps, tail);
      UnitEnd(rest) == |nal| + Kept(ps, tail) <= |rest|
      && rest[..UnitEnd(rest)] == nal + Zeros(Kept(ps, tail))
      && rest[UnitEnd(rest)..] == Stream(ps, tail)[Kept(ps, tail)..]
  {
    hide FirstCode;
    NoCodeInside(nal);
    FirstCodeBehind(nal, Stream(ps, tail));
    if ps == [] {
      ZerosHaveNoCode(tail);
    } else {
      assert ps[0] in ps;
      CodeBehindZeros(ps[0].zeros, ps[0].nal + Stream(ps[1..], tail));
      assert Stream(ps, tail)[..Kept(ps, tail)] == Zeros(Kept(ps, tail));
    }
  }

  /**
   * For any number of zero bytes between and behind the units, each is delivered with all
   * that follow it but those of the next start code, which takes three at most.
   */
  lemma {:induction false} SplitPadded(ps: seq<Padded>, tail: nat)
    requires forall p :: p in ps ==> p.zeros >= 2 && WellFormed(p.nal)
    ensures Units(Stream(ps, tail)) == Delivered(ps, tail)
    decreases ps
  {
    hide Units;
    hide FirstCode;
    hide UnitEnd;
    hide WellFormed;
    if ps == [] {
      ZerosHaveNoCode(tail);
      NoUnits(Zeros(tail));
    } else {
      assert ps[0] in ps;
      SplitPadded(ps[1..], tail);
      var u, more := ps[0], Stream(ps[1..], tail);
      var d, rest := Stream(ps, tail), u.nal + more;
      CodeBehindZeros(u.zeros, rest);
      var f := FirstCode(d).value;
      assert d[f.pos + f.length..] == rest;
      UnitsUnfold(d, f, rest);
      NextCode(u.nal, ps[1..], tail);
      NalNotEmpty(u.nal);
      ZerosSkipped(ps[1..], tail);
    }
  }

  lemma NalNotEmpty(nal: Text)
    requires WellFormed(nal)
    ensures nal != []
  {
  }

  /** Zero bytes before a start code change nothing in the units behind it. */
  lemma ZerosSkipped(ps: seq<Padded>, tail: nat)
    requires forall p :: p in ps ==> p.zeros >= 2
    ensures Kept(ps, tail) <= |Stream(ps, tail)|
    ensures Units(Stream(ps, tail)[Kept(ps, tail)..]) == Units(Stream(ps, tail))
  {
    hide Units;
    hide FirstCode;
    var d, n := Stream(ps, tail), Kept(ps, tail);
    if ps == [] {
      assert d[n..] == [];
      EmptyFirst();
      NoUnits([]);
      ZerosHaveNoCode(tail);
      NoUnits(d);
    } else {
      assert ps[0] in ps;
      var z, rest := ps[0].zeros, ps[0].nal + Stream(ps[1..], tail);
      assert d[n..] == Zeros(z - n) + ([1] + rest);
      CodeBehindZeros(z, rest);
      CodeBehindZeros(z - n, rest);
      var f, g := FirstCode(d).value, FirstCode(d[n..]).value;
      assert d[f.pos + f.length..] == rest && d[n..][g.pos + g.length..] == rest;
      UnitsUnfold(d, f, rest);
      UnitsUnfold(d[n..], g, rest);
    }
  }

  lemma {:induction false} AllAccepted(us: seq<Unit>)
    requires forall u :: u in us ==> u.nal != [] && !Forbidden(u.nal)
    ensures Accepted(us) == us
  {
    if us != [] {
      assert us[0] in us;
      AllAccepted(us[1..]);
      assert us == [us[0]] + us[1..];
    }
  }

  function Nals(us: seq<Unit>): (r: seq<Nalu>)
    requires forall u :: u in us ==> u.nal != []
  {
    if us == [] then [] else [NaluOf(us[0].nal)] + Nals(us[1..])
  }

  lemma CallbackAdded(p: State, u: Unit)
    requires u.nal != []
    ensures Account(p, u).delivered == p.delivered + [NaluOf(u.nal)]
  {
    hide SpsOf;
    hide FrameOf;
    hide Tallied;
  }

  lemma {:induction false} CallbacksInOrder(p: State, us: seq<Unit>)
    requires forall u :: u in us ==> u.nal != []
    ensures AccountAll(p, us).delivered == p.delivered + Nals(us)
    decreases us
  {
    hide Account;
    hide NaluOf;
    if us != [] {
      CallbackAdded(p, us[0]);
      CallbacksInOrder(Account(p, us[0]), us[1..]);
      assert p.delivered + [NaluOf(us[0].nal)] + Nals(us[1..]) == p.delivered + ([NaluOf(us[0].nal)] + Nals(us[1..]));
    }
  }

  /**
   * For any list of well-formed NAL units with a clear forbidden bit, each behind a
   * three-byte or four-byte start code, feeding the stream calls back exactly those
   * units in that order, and as many as there are.
   */
  lemma FeedDeliversUnits(p: State, us: seq<Unit>)
    requires forall u :: u in us ==> u.nal != [] && WellFormed(u.nal) && (u.codeLength == 3 || u.codeLength == 4)
    requires forall u :: u in us ==> !Forbidden(u.nal)
    ensures |Accepted(Units(Join(us)))| == |us|
    ensures Fed(p, Join(us)).delivered == p.delivered + Nals(us)
  {
    hide Account;
    hide Units;
    hide FirstCode;
    hide NaluOf;
    SplitJoin(us);
    AllAccepted(us);
    CallbacksInOrder(p, us);
  }

  /** With zero bytes between and behind them the same units are called back, zero bytes included. */
  lemma FeedDeliversPadded(p: State, ps: seq<Padded>, tail: nat)
    requires forall u :: u in ps ==> u.zeros >= 2 && WellFormed(u.nal) && u.nal != [] && !Forbidden(u.nal)
    ensures forall u :: u in Delivered(ps, tail) ==> u.nal != []
    ensures |Accepted(Units(Stream(ps, tail)))| == |ps|
    ensures Fed(p, Stream(ps, tail)).delivered == p.delivered + Nals(Delivered(ps, tail))
  {
    hide Account;
    hide Units;
    hide FirstCode;
    hide NaluOf;
    SplitPadded(ps, tail);
    DeliveredAreAccepted(ps, tail);
    AllAccepted(Delivered(ps, tail));
    CallbacksInOrder(p, Delivered(ps, tail));
  }

  lemma {:induction false} DeliveredAreAccepted(ps: seq<Padded>, tail: nat)
    requires forall u :: u in ps ==> u.nal != [] && !Forbidden(u.nal)
    ensures |Delivered(ps, tail)| == |ps|
    ensures forall u :: u in Delivered(ps, tail) ==> u.nal != [] && !Forbidden(u.nal)
    decreases ps
  {
    if ps != [] {
      assert ps[0] in ps;
      DeliveredAreAccepted(ps[1..], tail);
      var first := Delivered(ps, tail)[0];
      assert first.nal[0] == ps[0].nal[0];
      assert Delivered(ps, tail) == [first] + Delivered(ps[1..], tail);
    }
  }

  /** The first byte of a NAL unit as section 7.3.1 of ITU-T H.264 writes it. */
  function Header(forbidden: nat, refIdc: nat, naluType: nat): Byte
    requires forbidden < 2 && refIdc < 4 && naluType < 32
  {
    128 * forbidden + 32 * refIdc + naluType
  }

  /**
   * A unit is dropped when its forbidden bit is set; otherwise the callback is given the
   * type and reference level of its header, its bytes, and the kind that goes with the type.
   */
  lemma HeaderRead(u: Unit, forbidden: nat, refIdc: nat, naluType: nat, payload: Text)
    requires forbidden < 2 && refIdc < 4 && naluType < 32
    requires u.nal == [Header(forbidden, refIdc, naluType)] + payload
    ensures Accepted([u]) == if forbidden == 1 then [] else [u]
    ensures var n := NaluOf(u.nal); n.naluType == naluType && n.refIdc == refIdc && n.data == u.nal
    ensures naluType == 7 ==> FrameOf(u.nal) == if payload == [] then Unknown else FrameSps
    ensures naluType == 8 ==> FrameOf(u.nal) == if payload == [] then Unknown else FramePps
    ensures naluType == 5 ==> FrameOf(u.nal) == FrameIdr
    ensures naluType == 6 ==> FrameOf(u.nal) == FrameSei
    ensures naluType == 0 || naluType > 8 ==> FrameOf(u.nal) == Unknown
    ensures 1 <= naluType <= 4 && payload == [] ==> FrameOf(u.nal) == Unknown
  {
    HeaderFields(forbidden, refIdc, naluType);
    assert u.nal[0] == Header(forbidden, refIdc, naluType) && u.nal[1..] == payload;
    hide Header;
    assert [u][1..] == [];
  }

  lemma HeaderFields(forbidden: nat, refIdc: nat, naluType: nat)
    requires forbidden < 2 && refIdc < 4 && naluType < 32
    ensures var b := Header(forbidden, refIdc, naluType);
      b / 128 % 2 == forbidden && b / 32 % 4 == refIdc && b % 32 == naluType
  {
    var b := Header(forbidden, refIdc, naluType);
    assert b == 32 * (4 * forbidden + refIdc) + naluType;
    assert b / 32 == 4 * forbidden + refIdc;
    assert b / 128 == b / 32 / 4;
  }

  /** Every byte is such a header. */
  lemma HeaderOf(b: Byte) returns (forbidden: nat, refIdc: nat, naluType: nat)
    ensures forbidden < 2 && refIdc < 4 && naluType < 32 && b == Header(forbidden, refIdc, naluType)
  {
    forbidden, refIdc, naluType := b / 128, b / 32 % 4, b % 32;
    assert b / 128 == b / 32 / 4;
  }

  /**
   * A slice written as section 7.3.3 of ITU-T H.264 begins, with its first macroblock
   * and slice type, is told apart as P, B or I; the types 5 to 9 mean the same as 0 to 4.
   */
  lemma SliceHeaderRead(
    u: Unit, refIdc: nat, naluType: nat, payload: Text, firstMb: nat, sliceType: nat, rest: Bits)
    requires refIdc < 4 && 1 <= naluType <= 4 && u.nal == [Header(0, refIdc, naluType)] + payload && payload != []
    requires firstMb <= UINT32 - 2 && sliceType <= 9
    requires BitsOf(payload) == UeBits(firstMb) + (UeBits(sliceType) + rest)
    ensures FrameOf(u.nal) ==
      if sliceType == 0 || sliceType == 5 then FrameP
      else if sliceType == 1 || sliceType == 6 then FrameB
      else if sliceType == 2 || sliceType == 7 then FrameI
      else Unknown
  {
    hide ReadUe;
    hide UeBits;
    hide BitsOf;
    hide Header;
    HeaderRead(u, 0, refIdc, naluType, payload);
    assert u.nal[1..] == payload;
    UeRoundTrip(firstMb, UeBits(sliceType) + rest);
    UeRoundTrip(sliceType, rest);
  }

  /** What a unit does to the statistics and the parameter sets, by the type in its header. */
  lemma UnitCounted(p: State, u: Unit, refIdc: nat, naluType: nat, payload: Text)
    requires refIdc < 4 && naluType < 32 && u.nal == [Header(0, refIdc, naluType)] + payload
    ensures var q := Account(p, u);
      && q.delivered == p.delivered + [NaluOf(u.nal)]
      && q.stats.totalNalus == p.stats.totalNalus + 1
      && q.stats.totalBytes == p.stats.totalBytes + |u.nal| + u.codeLength
      && q.stats.spsCount == p.stats.spsCount + (if naluType == 7 && payload != [] then 1 else 0)
      && q.stats.ppsCount == p.stats.ppsCount + (if naluType == 8 && payload != [] then 1 else 0)
      && q.stats.idrCount == p.stats.idrCount + (if naluType == 5 then 1 else 0)
      && q.stats.seiCount == p.stats.seiCount + (if naluType == 6 then 1 else 0)
      && q.framesSinceIdr == (if naluType == 5 then 0 else p.framesSinceIdr + if 1 <= naluType <= 4 then 1 else 0)
      && (q.ppsValid <==> p.ppsValid || (naluType == 8 && payload != []))
      && (q.sps == if naluType == 7 && payload != [] then Some(SpsOf(BitsOf(payload))) else p.sps)
  {
    hide SpsOf;
    hide BitsOf;
    hide Header;
    HeaderRead(u, 0, refIdc, naluType, payload);
    assert u.nal[1..] == payload;
    assert NaluType(u.nal) == naluType;
  }
}
