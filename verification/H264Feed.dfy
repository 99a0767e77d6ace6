/** Cutting an Annex B byte stream into NAL units and keeping statistics (section B.1 of ITU-T H.264). */
module H264Feed {
  import opened Bytes
  import opened H264Bits
  import opened H264Sps

  // ----- start codes -----

  /** A start code and how many bytes it takes. */
  datatype Found = Found(pos: nat, length: nat)

  predicate ShortCode(d: Text) {
    |d| >= 3 && d[0] == 0 && d[1] == 0 && d[2] == 1
  }

  predicate LongCode(d: Text) {
    |d| >= 4 && d[0] == 0 && d[1] == 0 && d[2] == 0 && d[3] == 1
  }

  /** The first position at which a three-byte or four-byte start code begins. */
  function FirstCode(d: Text): (r: Option<Found>)
    ensures r.Some? ==> (r.value.length == 3 || r.value.length == 4) && r.value.pos + r.value.length <= |d|
  {
    if |d| < 3 then None
    else if ShortCode(d) then Some(Found(0, 3))
    else if LongCode(d) then Some(Found(0, 4))
    else
      match FirstCode(d[1..])
      case None => None
      case Some(f) => Some(Found(f.pos + 1, f.length))
  }

  /** A unit with the length of the start code before it. */
  datatype Unit = Unit(codeLength: nat, nal: Text)

  /** Where the unit that starts `d` ends: at the next start code or with the data. */
  function UnitEnd(d: Text): (e: nat)
    ensures e <= |d|
  {
    match FirstCode(d)
    case None => |d|
    case Some(f) => f.pos
  }

  /** The non-empty units of a stream, in order. */
  function Units(d: Text): seq<Unit>
    decreases |d|
  {
    match FirstCode(d)
    case None => []
    case Some(f) =>
      var rest := d[f.pos + f.length..];
      var end := UnitEnd(rest);
      if end == 0 then Units(rest) else [Unit(f.length, rest[..end])] + Units(rest[end..])
  }

  // ----- one unit -----

  datatype FrameType = Unknown | FrameI | FrameP | FrameB | FrameIdr | FrameSps | FramePps | FrameSei

  datatype Nalu = Nalu(naluType: int, refIdc: int, frameType: FrameType, data: Text)

  predicate Forbidden(nal: Text)
    requires nal != []
  {
    nal[0] / 128 % 2 == 1
  }

  function NaluType(nal: Text): int
    requires nal != []
  {
    nal[0] % 32
  }

  predicate IsSlice(naluType: int) {
    1 <= naluType <= 4
  }

  /** The slice type behind first_mb_in_slice tells the kind of picture. */
  function SliceFrame(payload: Text): FrameType {
    if payload == [] then Unknown else
    var sliceType := ReadUe(ReadUe(BitsOf(payload)).rest).value;
    match sliceType % 5
    case 0 => FrameP
    case 1 => FrameB
    case 2 => FrameI
    case _ => Unknown
  }

  function FrameOf(nal: Text): FrameType
    requires nal != []
  {
    var t := NaluType(nal);
    if t == 7 then (if |nal| > 1 then FrameSps else Unknown)
    else if t == 8 then (if |nal| > 1 then FramePps else Unknown)
    else if t == 5 then FrameIdr
    else if IsSlice(t) then SliceFrame(nal[1..])
    else if t == 6 then FrameSei
    else Unknown
  }

  /** What the callback is given for a unit. */
  function NaluOf(nal: Text): Nalu
    requires nal != []
  {
    Nalu(NaluType(nal), nal[0] / 32 % 4, FrameOf(nal), nal)
  }

  // ----- statistics -----

  datatype Stats = Stats(
    totalBytes: int, totalNalus: int, spsCount: int, ppsCount: int, idrCount: int, iCount: int, pCount: int,
    bCount: int, seiCount: int, gopSize: int, maxGop: int, minGop: int, idrBytes: int, pBytes: int,
    width: int, height: int)

  const NO_STATS := Stats(0, 0, 0, 0, 0, 0, 0, 0, 0, 0, 0, 0, 0, 0, 0, 0)

  /** What the parser remembers between calls, with everything it has handed to the callback. */
  datatype State = State(
    sps: Option<SpsFields>, ppsValid: bool, stats: Stats, framesSinceIdr: int, delivered: seq<Nalu>)

  const FRESH := State(None, false, NO_STATS, 0, [])

  /** An IDR picture closes the group of pictures before it, if that has any. */
  function CloseGop(st: Stats, frames: int): Stats {
    if frames <= 0 then st
    else st.(gopSize := frames,
             maxGop := if frames > st.maxGop then frames else st.maxGop,
             minGop := if st.minGop == 0 || frames < st.minGop then frames else st.minGop)
  }

  function CountFrame(st: Stats, frame: FrameType, size: int): Stats {
    match frame
    case FrameI => st.(iCount := st.iCount + 1, idrBytes := st.idrBytes + size)
    case FrameP => st.(pCount := st.pCount + 1, pBytes := st.pBytes + size)
    case FrameB => st.(bCount := st.bCount + 1)
    case _ => st
  }

  /**
   * The statistics and parameter sets after a unit of `size` bytes and type `t`, for the
   * kind of frame it was found to be and the fields it holds if it is a parameter set.
   */
  function Tallied(p: State, size: nat, codeLength: nat, t: int, frame: FrameType, sps: SpsFields): State {
    var st := p.stats.(totalNalus := p.stats.totalNalus + 1, totalBytes := p.stats.totalBytes + size + codeLength);
    if t == 7 then
      if frame != FrameSps then p.(stats := st) else
      p.(sps := Some(sps), stats := st.(spsCount := st.spsCount + 1, width := sps.width, height := sps.height))
    else if t == 8 then
      if frame != FramePps then p.(stats := st) else p.(ppsValid := true, stats := st.(ppsCount := st.ppsCount + 1))
    else if t == 5 then
      var counted := st.(idrCount := st.idrCount + 1, idrBytes := st.idrBytes + size);
      p.(stats := CloseGop(counted, p.framesSinceIdr), framesSinceIdr := 0)
    else if IsSlice(t) then
      p.(stats := CountFrame(st, frame, size), framesSinceIdr := p.framesSinceIdr + 1)
    else if t == 6 then
      p.(stats := st.(seiCount := st.seiCount + 1))
    else p.(stats := st)
  }

  /** The parser after an accepted unit: the callback has seen it. */
  function Account(p: State, u: Unit): State
    requires u.nal != []
  {
    Tallied(p, |u.nal|, u.codeLength, NaluType(u.nal), FrameOf(u.nal), SpsOf(BitsOf(u.nal[1..])))
      .(delivered := p.delivered + [NaluOf(u.nal)])
  }

  function AccountAll(p: State, us: seq<Unit>): State
    requires forall u :: u in us ==> u.nal != []
    decreases us
  {
    if us == [] then p else AccountAll(Account(p, us[0]), us[1..])
  }

  /** The units that are not dropped for their forbidden bit. */
  function Accepted(us: seq<Unit>): (r: seq<Unit>)
    ensures forall u :: u in r ==> u in us && u.nal != [] && !Forbidden(u.nal)
  {
    if us == [] then []
    else if us[0].nal == [] || Forbidden(us[0].nal) then Accepted(us[1..])
    else [us[0]] + Accepted(us[1..])
  }

  /** The parser after being fed `d`. */
  function Fed(p: State, d: Text): State {
    AccountAll(p, Accepted(Units(d)))
  }

  /** Statistics cleared; the parameter sets stay. */
  function Reset(p: State): State {
    p.(stats := NO_STATS, framesSinceIdr := 0)
  }

  // ----- the parser itself -----

  method FindStartCode(d: Text, from: nat) returns (pos: int, length: nat)
    requires from <= |d|
    ensures match FirstCode(d[from..]) case None => pos == -1 case Some(f) => pos == f.pos && length == f.length
  {
    var i := from;
    length := 0;
    while i < |d| - 2
      invariant from <= i <= |d|
      invariant match FirstCode(d[i..])
        case None => FirstCode(d[from..]) == None
        case Some(f) => FirstCode(d[from..]) == Some(Found(f.pos + i - from, f.length))
    {
      if d[i] == 0 && d[i + 1] == 0 {
        if d[i + 2] == 1 {
          assert ShortCode(d[i..]);
          return i - from, 3;
        }
        if i + 3 < |d| && d[i + 2] == 0 && d[i + 3] == 1 {
          assert !ShortCode(d[i..]) && LongCode(d[i..]);
          return i - from, 4;
        }
      }
      assert d[i..][1..] == d[i + 1..];
      i := i + 1;
    }
    pos := -1;
  }

  class Parser {
    var sps: Option<SpsFields>
    var ppsValid: bool
    var stats: Stats
    var framesSinceIdr: int
    /** What the callback has been given. */
    var delivered: seq<Nalu>

    function Now(): State
      reads this
    {
      State(sps, ppsValid, stats, framesSinceIdr, delivered)
    }

    constructor ()
      ensures Now() == FRESH
    {
      sps, ppsValid, stats, framesSinceIdr, delivered := None, false, NO_STATS, 0, [];
    }

    method ResetStats()
      modifies this
      ensures Now() == Reset(old(Now()))
    {
      stats := NO_STATS;
      framesSinceIdr := 0;
    }

    method HandleSps(payload: Text) returns (frame: FrameType, fields: SpsFields)
      modifies this`sps, this`stats
      ensures frame == if payload == [] then Unknown else FrameSps
      ensures payload == [] ==> sps == old(sps) && stats == old(stats)
      ensures payload != [] ==>
        && fields == SpsOf(BitsOf(payload)) && sps == Some(fields)
        && stats == old(stats).(spsCount := old(stats).spsCount + 1, width := fields.width, height := fields.height)
    {
      frame := Unknown;
      var ok;
      ok, fields := ParseSps(payload);
      if ok {
        sps := Some(fields);
        stats := stats.(spsCount := stats.spsCount + 1);
        stats := stats.(width := fields.width, height := fields.height);
        frame := FrameSps;
      }
    }

    method HandleIdr(size: nat)
      modifies this`stats, this`framesSinceIdr
      ensures stats == CloseGop(
        old(stats).(idrCount := old(stats).idrCount + 1, idrBytes := old(stats).idrBytes + size),
                                old(framesSinceIdr))
      ensures framesSinceIdr == 0
    {
      stats := stats.(idrCount := stats.idrCount + 1, idrBytes := stats.idrBytes + size);
      if framesSinceIdr > 0 {
        var gop := framesSinceIdr;
        stats := stats.(gopSize := gop);
        if gop > stats.maxGop {
          stats := stats.(maxGop := gop);
        }
        if stats.minGop == 0 || gop < stats.minGop {
          stats := stats.(minGop := gop);
        }
      }
      framesSinceIdr := 0;
    }

    method HandleSlice(payload: Text, size: nat) returns (frame: FrameType)
      modifies this`stats, this`framesSinceIdr
      ensures frame == SliceFrame(payload)
      ensures stats == CountFrame(old(stats), frame, size)
      ensures framesSinceIdr == old(framesSinceIdr) + 1
    {
      frame := DetectFrameType(payload);
      framesSinceIdr := framesSinceIdr + 1;
      if frame == FrameI {
        stats := stats.(iCount := stats.iCount + 1, idrBytes := stats.idrBytes + size);
      } else if frame == FrameP {
        stats := stats.(pCount := stats.pCount + 1, pBytes := stats.pBytes + size);
      } else if frame == FrameB {
        stats := stats.(bCount := stats.bCount + 1);
      }
    }

    method Tally(naluType: int, payload: Text, codeLength: nat) returns (frame: FrameType, ghost fields: SpsFields)
      modifies this
      ensures Now() == Tallied(old(Now()), |payload| + 1, codeLength, naluType, frame, fields)
      ensures naluType == 7 ==> frame == if payload == [] then Unknown else FrameSps
      ensures naluType == 7 && payload != [] ==> fields == SpsOf(BitsOf(payload))
      ensures naluType == 8 ==> frame == if payload == [] then Unknown else FramePps
      ensures naluType == 5 ==> frame == FrameIdr
      ensures IsSlice(naluType) ==> frame == SliceFrame(payload)
      ensures naluType == 6 ==> frame == FrameSei
      ensures !IsSlice(naluType) && !(5 <= naluType <= 8) ==> frame == Unknown
    {
      hide SpsOf;
      var size := |payload| + 1;
      var sps' := EMPTY_SPS;
      frame := Unknown;
      stats := stats.(totalNalus := stats.totalNalus + 1, totalBytes := stats.totalBytes + size + codeLength);
      if naluType == 7 {
        frame, sps' := HandleSps(payload);
      } else if naluType == 8 {
        if size > 1 {
          ppsValid := true;
          stats := stats.(ppsCount := stats.ppsCount + 1);
          frame := FramePps;
        }
      } else if naluType == 5 {
        HandleIdr(size);
        frame := FrameIdr;
      } else if IsSlice(naluType) {
        frame := HandleSlice(payload, size);
      } else if naluType == 6 {
        stats := stats.(seiCount := stats.seiCount + 1);
        frame := FrameSei;
      }
      fields := sps';
    }

    /** Handles one unit and hands it to the callback. */
    method Handle(nal: Text, codeLength: nat)
      requires nal != []
      modifies this
      ensures Now() == Account(old(Now()), Unit(codeLength, nal))
    {
      hide SpsOf;
      ghost var p := Now();
      var frame;
      ghost var fields;
      frame, fields := Tally(NaluType(nal), nal[1..], codeLength);
      assert frame == FrameOf(nal);
      SameTally(p, |nal|, codeLength, NaluType(nal), frame, fields, SpsOf(BitsOf(nal[1..])));
      delivered := delivered + [Nalu(NaluType(nal), nal[0] / 32 % 4, frame, nal)];
    }

    /** Feeds a piece of the stream; counts the units handled, or answers -1 for no data. */
    method Feed(data: Text) returns (count: int)
      modifies this
      ensures data == [] ==> count == -1 && Now() == old(Now())
      ensures data != [] ==> count == |Accepted(Units(data))| && Now() == Fed(old(Now()), data)
    {
      if data == [] {
        return -1;
      }
      count := 0;
      var offset := 0;
      ghost var start := Now();
      ghost var done: seq<Unit> := [];
      ghost var pending := Accepted(Units(data));
      assert data[0..] == data;
      while offset < |data|
        invariant 0 <= offset <= |data| && count == |done|
        invariant forall u :: u in done ==> u.nal != []
        invariant pending == Accepted(Units(data[offset..]))
        invariant done + pending == Accepted(Units(data))
        invariant Now() == AccountAll(start, done)
        decreases |data| - offset
      {
        var begin, end, codeLength := CutUnit(data, offset);
        if begin < 0 {
          break;
        }
        if end - begin <= 0 {
          offset := begin;
          continue;
        }
        var nal := data[begin..end];
        offset := end;
        if Forbidden(nal) {
          continue;
        }
        Handle(nal, codeLength);
        ghost var u := Unit(codeLength, nal);
        AccountLast(start, done, u);
        pending := Accepted(Units(data[end..]));
        Shift(done, u, pending);
        done := done + [u];
        count := count + 1;
      }
      NothingLeft(data, offset);
      assert done + [] == done;
    }
  }

  /** The fields matter only for a parameter set that was parsed. */
  lemma SameTally(p: State, size: nat, codeLength: nat, t: int, frame: FrameType, a: SpsFields, b: SpsFields)
    requires t == 7 && frame == FrameSps ==> a == b
    ensures Tallied(p, size, codeLength, t, frame, a) == Tallied(p, size, codeLength, t, frame, b)
  {
  }

  lemma NoCodeNoUnits(d: Text)
    requires FirstCode(d) == None
    ensures Accepted(Units(d)) == []
  {
  }

  lemma Shift(done: seq<Unit>, u: Unit, pending: seq<Unit>)
    ensures done + ([u] + pending) == done + [u] + pending
  {
  }

  lemma NothingLeft(data: Text, offset: nat)
    requires offset <= |data|
    ensures offset == |data| ==> Accepted(Units(data[offset..])) == []
  {
  }

  /** Finds the next unit from `offset` on; a negative begin means there is no further start code. */
  method CutUnit(data: Text, offset: nat) returns (begin: int, end: int, codeLength: nat)
    requires offset <= |data|
    ensures begin < 0 ==> Accepted(Units(data[offset..])) == []
    ensures begin >= 0 ==>
      && offset < begin <= end <= |data|
      && if end == begin || Forbidden(data[begin..end])
         then Accepted(Units(data[offset..])) == Accepted(Units(data[end..]))
         else Accepted(Units(data[offset..])) == [Unit(codeLength, data[begin..end])] + Accepted(Units(data[end..]))
  {
    var pos;
    pos, codeLength := FindStartCode(data, offset);
    if pos < 0 {
      NoCodeNoUnits(data[offset..]);
      return -1, 0, 0;
    }
    begin, end := offset + pos + codeLength, |data|;
    var nextPos, nextLength := FindStartCode(data, begin);
    if nextPos >= 0 {
      end := begin + nextPos;
    }
    FirstUnit(data, offset, pos, codeLength, end);
  }

  /** One turn of the feed loop, in offsets into the whole buffer. */
  lemma FirstUnit(data: Text, offset: nat, pos: nat, codeLength: nat, end: nat)
    requires offset <= |data| && FirstCode(data[offset..]) == Some(Found(pos, codeLength))
    requires offset + pos + codeLength <= |data|
    requires end == offset + pos + codeLength + UnitEnd(data[offset + pos + codeLength..])
    ensures end <= |data|
    ensures var begin := offset + pos + codeLength;
      Accepted(Units(data[offset..])) ==
        (if end == begin || Forbidden(data[begin..end]) then [] else [Unit(codeLength, data[begin..end])])
        + Accepted(Units(data[end..]))
  {
    hide FirstCode;
    hide Units;
    hide UnitEnd;
    hide Accepted;
    var here := data[offset..];
    var begin := offset + pos + codeLength;
    var rest := data[begin..];
    assert here[pos + codeLength..] == rest;
    UnitsUnfold(here, Found(pos, codeLength), rest);
    if end > begin {
      assert rest[..end - begin] == data[begin..end] && rest[end - begin..] == data[end..];
      AcceptedCons(Unit(codeLength, data[begin..end]), Units(data[end..]));
    }
  }

  lemma UnitsUnfold(d: Text, f: Found, rest: Text)
    requires FirstCode(d) == Some(f) && f.pos + f.length <= |d| && rest == d[f.pos + f.length..]
    ensures Units(d) == if UnitEnd(rest) == 0 then Units(rest)
                        else [Unit(f.length, rest[..UnitEnd(rest)])] + Units(rest[UnitEnd(rest)..])
  {
  }

  method DetectFrameType(payload: Text) returns (frame: FrameType)
    ensures frame == SliceFrame(payload)
  {
    if payload == [] {
      return Unknown;
    }
    var bs := new Bitstream(payload);
    var firstMb := bs.ReadUnsigned();
    var sliceType := bs.ReadUnsigned();
    match sliceType % 5 {
      case 0 => frame := FrameP;
      case 1 => frame := FrameB;
      case 2 => frame := FrameI;
      case _ => frame := Unknown;
    }
  }

  lemma AcceptedCons(u: Unit, us: seq<Unit>)
    ensures Accepted([u] + us) == (if u.nal == [] || Forbidden(u.nal) then [] else [u]) + Accepted(us)
  {
    assert ([u] + us)[1..] == us;
  }

  lemma {:induction false} AccountLast(p: State, us: seq<Unit>, u: Unit)
    requires u.nal != [] && forall v :: v in us ==> v.nal != []
    ensures AccountAll(p, us + [u]) == Account(AccountAll(p, us), u)
    decreases us
  {
    if us == [] {
      assert us + [u] == [u] && [u][1..] == [];
    } else {
      assert (us + [u])[1..] == us[1..] + [u];
      AccountLast(Account(p, us[0]), us[1..], u);
    }
  }
}
