/** Statistics over whole runs of feeds and resets, stated from what the callback was given. */
module H264Statistics {
  import opened Bytes
  import opened H264Bits
  import opened H264Sps
  import opened H264Feed
  import opened H264Stream

  datatype Event = FeedData(data: Text) | ResetStats

  function After(p: State, e: Event): State {
    match e
    case FeedData(d) => Fed(p, d)
    case ResetStats => Reset(p)
  }

  function RunFrom(p: State, events: seq<Event>): State
    decreases events
  {
    if events == [] then p else RunFrom(After(p, events[0]), events[1..])
  }

  // ----- what the statistics should be -----

  /** The units of the run that came after its last reset. */
  function SinceReset(events: seq<Event>): seq<Unit> {
    if events == [] then []
    else
      match events[|events| - 1]
      case ResetStats => []
      case FeedData(d) => SinceReset(events[..|events| - 1]) + Accepted(Units(d))
  }

  /** How many bytes came after the last reset. */
  function BytesSinceReset(events: seq<Event>): nat {
    if events == [] then 0
    else
      match events[|events| - 1]
      case ResetStats => 0
      case FeedData(d) => BytesSinceReset(events[..|events| - 1]) + |d|
  }

  predicate Whole(us: seq<Unit>) {
    forall u :: u in us ==> u.nal != []
  }

  /** How many of the units are frames of this kind. */
  function HowMany(us: seq<Unit>, frame: FrameType): nat
    requires Whole(us)
  {
    if us == [] then 0
    else HowMany(us[..|us| - 1], frame) + if FrameOf(us[|us| - 1].nal) == frame then 1 else 0
  }

  /** How many bytes the units that are frames of this kind take. */
  function SizeOf(us: seq<Unit>, frame: FrameType): nat
    requires Whole(us)
  {
    if us == [] then 0
    else SizeOf(us[..|us| - 1], frame) + if FrameOf(us[|us| - 1].nal) == frame then |us[|us| - 1].nal| else 0
  }

  function StreamSize(us: seq<Unit>): nat {
    if us == [] then 0 else StreamSize(us[..|us| - 1]) + |us[|us| - 1].nal| + us[|us| - 1].codeLength
  }

  function Slices(us: seq<Unit>): nat
    requires Whole(us)
  {
    if us == [] then 0 else Slices(us[..|us| - 1]) + if IsSlice(NaluType(us[|us| - 1].nal)) then 1 else 0
  }

  predicate IsIdr(u: Unit) {
    u.nal != [] && NaluType(u.nal) == 5
  }

  /** The last IDR picture among the units. */
  function LastIdr(us: seq<Unit>): (r: Option<nat>)
    ensures r.Some? ==> r.value < |us| && IsIdr(us[r.value])
    ensures forall i :: (if r.Some? then r.value + 1 else 0) <= i < |us| ==> !IsIdr(us[i])
  {
    if us == [] then None
    else if IsIdr(us[|us| - 1]) then Some(|us| - 1)
    else LastIdr(us[..|us| - 1])
  }

  /** The slices after the last IDR picture: the group still open. */
  function OpenGop(us: seq<Unit>): nat
    requires Whole(us)
  {
    match LastIdr(us)
    case None => Slices(us)
    case Some(i) => Slices(us[i + 1..])
  }

  /** The sizes of the closed groups of pictures that hold a slice, oldest first. */
  function Gops(us: seq<Unit>): seq<nat>
    requires Whole(us)
  {
    match LastIdr(us)
    case None => []
    case Some(i) =>
      var open := OpenGop(us[..i]);
      if open == 0 then Gops(us[..i]) else Gops(us[..i]) + [open]
  }

  predicate IsMax(m: int, s: seq<nat>) {
    (exists i :: 0 <= i < |s| && s[i] == m) && forall i :: 0 <= i < |s| ==> s[i] <= m
  }

  predicate IsMin(m: int, s: seq<nat>) {
    (exists i :: 0 <= i < |s| && s[i] == m) && forall i :: 0 <= i < |s| ==> s[i] >= m
  }

  /** Width and height that the last parameter set among the units gives, or none. */
  function LastSize(us: seq<Unit>): (int, int)
    requires Whole(us)
  {
    if us == [] then (0, 0)
    else
      var nal := us[|us| - 1].nal;
      if NaluType(nal) == 7 && |nal| > 1 then (SpsOf(BitsOf(nal[1..])).width, SpsOf(BitsOf(nal[1..])).height)
      else LastSize(us[..|us| - 1])
  }

  /** The statistics describe exactly the units `us`. */
  predicate Describes(st: Stats, open: int, us: seq<Unit>)
    requires Whole(us)
  {
    && Counts(st, us)
    && Groups(st, open, us)
    && (st.width, st.height) == LastSize(us)
  }

  predicate Counts(st: Stats, us: seq<Unit>)
    requires Whole(us)
  {
    && st.totalNalus == |us|
    && st.totalBytes == StreamSize(us)
    && st.spsCount == HowMany(us, FrameSps)
    && st.ppsCount == HowMany(us, FramePps)
    && st.idrCount == HowMany(us, FrameIdr)
    && st.iCount == HowMany(us, FrameI)
    && st.pCount == HowMany(us, FrameP)
    && st.bCount == HowMany(us, FrameB)
    && st.seiCount == HowMany(us, FrameSei)
    && st.idrBytes == SizeOf(us, FrameIdr) + SizeOf(us, FrameI)
    && st.pBytes == SizeOf(us, FrameP)
  }

  predicate Groups(st: Stats, open: int, us: seq<Unit>)
    requires Whole(us)
  {
    var gops := Gops(us);
    && open == OpenGop(us)
    && (forall i :: 0 <= i < |gops| ==> gops[i] > 0)
    && if gops == [] then st.gopSize == 0 && st.maxGop == 0 && st.minGop == 0
       else st.gopSize == gops[|gops| - 1] && IsMax(st.maxGop, gops) && IsMin(st.minGop, gops)
  }

  // ----- one more unit -----

  lemma Last(us: seq<Unit>, u: Unit)
    ensures (us + [u])[..|us + [u]| - 1] == us && (us + [u])[|us + [u]| - 1] == u
  {
  }

  lemma CountsGrow(p: State, us: seq<Unit>, u: Unit)
    requires Whole(us) && u.nal != [] && Counts(p.stats, us)
    ensures Whole(us + [u]) && Counts(Account(p, u).stats, us + [u])
  {
    hide SpsOf;
    hide SliceFrame;
    hide BitsOf;
    Last(us, u);
    SliceKinds(u.nal[1..]);
  }

  lemma SliceKinds(payload: Text)
    ensures SliceFrame(payload) in {FrameP, FrameB, FrameI, Unknown}
  {
  }

  lemma SizeGrows(p: State, us: seq<Unit>, u: Unit)
    requires Whole(us) && u.nal != [] && (p.stats.width, p.stats.height) == LastSize(us)
    ensures Whole(us + [u])
    ensures (Account(p, u).stats.width, Account(p, u).stats.height) == LastSize(us + [u])
  {
    hide SpsOf;
    hide SliceFrame;
    hide BitsOf;
    Last(us, u);
  }

  lemma LastIdrGrows(us: seq<Unit>, u: Unit)
    ensures LastIdr(us + [u]) == if IsIdr(u) then Some(|us|) else LastIdr(us)
  {
    Last(us, u);
  }

  lemma SlicesGrow(us: seq<Unit>, u: Unit)
    requires Whole(us) && u.nal != []
    ensures Whole(us + [u])
    ensures Slices(us + [u]) == Slices(us) + if IsSlice(NaluType(u.nal)) then 1 else 0
  {
    Last(us, u);
  }

  lemma GopsGrow(us: seq<Unit>, u: Unit)
    requires Whole(us) && u.nal != []
    ensures Whole(us + [u])
    ensures OpenGop(us + [u]) == if IsIdr(u) then 0 else OpenGop(us) + if IsSlice(NaluType(u.nal)) then 1 else 0
    ensures Gops(us + [u]) == if IsIdr(u) && OpenGop(us) > 0 then Gops(us) + [OpenGop(us)] else Gops(us)
  {
    hide NaluType;
    hide IsSlice;
    hide LastIdr;
    hide Slices;
    hide IsIdr;
    var vs := us + [u];
    LastIdrGrows(us, u);
    if IsIdr(u) {
      assert vs[..|us|] == us;
      EmptySlices();
      assert vs[|us| + 1..] == [];
    } else {
      SameGroups(us, u);
    }
  }

  lemma EmptySlices()
    ensures Slices([]) == 0
  {
  }

  lemma SameGroups(us: seq<Unit>, u: Unit)
    requires Whole(us) && u.nal != [] && Whole(us + [u]) && LastIdr(us + [u]) == LastIdr(us)
    ensures OpenGop(us + [u]) == OpenGop(us) + if IsSlice(NaluType(u.nal)) then 1 else 0
    ensures Gops(us + [u]) == Gops(us)
  {
    hide NaluType;
    hide IsSlice;
    hide Slices;
    hide IsIdr;
    hide LastIdr;
    var vs := us + [u];
    match LastIdr(us) {
      case None => SlicesGrow(us, u);
      case Some(i) =>
        LastIdrInside(us);
        assert vs[i + 1..] == us[i + 1..] + [u];
        SlicesGrow(us[i + 1..], u);
        assert vs[..i] == us[..i];
    }
  }

  lemma LastIdrInside(us: seq<Unit>)
    ensures LastIdr(us).Some? ==> LastIdr(us).value < |us|
  {
  }

  lemma MaxGrows(m: int, s: seq<nat>, x: nat)
    requires IsMax(m, s) || (m == 0 && s == [])
    ensures IsMax(if s == [] || x > m then x else m, s + [x])
  {
    var t := s + [x];
    assert t[|s|] == x;
    assert forall i :: 0 <= i < |s| ==> t[i] == s[i];
  }

  lemma MinGrows(m: int, s: seq<nat>, x: nat)
    requires IsMin(m, s) || s == []
    ensures IsMin(if s == [] || x < m then x else m, s + [x])
  {
    var t := s + [x];
    assert t[|s|] == x;
    assert forall i :: 0 <= i < |s| ==> t[i] == s[i];
  }

  lemma GroupsGrow(p: State, us: seq<Unit>, u: Unit)
    requires Whole(us) && u.nal != [] && Groups(p.stats, p.framesSinceIdr, us)
    ensures Whole(us + [u])
    ensures Groups(Account(p, u).stats, Account(p, u).framesSinceIdr, us + [u])
  {
    hide SpsOf;
    hide SliceFrame;
    hide BitsOf;
    hide Gops;
    hide OpenGop;
    hide LastIdr;
    GopsGrow(us, u);
    var gops, open := Gops(us), OpenGop(us);
    if IsIdr(u) && open > 0 {
      MaxGrows(p.stats.maxGop, gops, open);
      MinGrows(p.stats.minGop, gops, open);
    }
  }

  lemma {:induction false} AllGrow(p: State, us: seq<Unit>, vs: seq<Unit>)
    requires Whole(us) && Whole(vs) && Describes(p.stats, p.framesSinceIdr, us)
    ensures Whole(us + vs)
    ensures Describes(AccountAll(p, vs).stats, AccountAll(p, vs).framesSinceIdr, us + vs)
    decreases vs
  {
    hide Account;
    hide Counts;
    hide Groups;
    hide LastSize;
    if vs == [] {
      assert us + vs == us;
    } else {
      CountsGrow(p, us, vs[0]);
      GroupsGrow(p, us, vs[0]);
      SizeGrows(p, us, vs[0]);
      AllGrow(Account(p, vs[0]), us + [vs[0]], vs[1..]);
      assert us + [vs[0]] + vs[1..] == us + vs;
    }
  }

  // ----- whole runs -----

  lemma {:induction false} WholeSinceReset(events: seq<Event>)
    ensures Whole(SinceReset(events))
  {
    if events != [] {
      WholeSinceReset(events[..|events| - 1]);
    }
  }

  lemma {:induction false} RunLast(p: State, events: seq<Event>, e: Event)
    ensures RunFrom(p, events + [e]) == After(RunFrom(p, events), e)
    decreases events
  {
    hide After;
    if events == [] {
      assert [e][1..] == [] && events + [e] == [e];
    } else {
      assert (events + [e])[1..] == events[1..] + [e];
      RunLast(After(p, events[0]), events[1..], e);
    }
  }

  /**
   * After any run of feeds and resets the statistics describe exactly the units
   * accepted since the last reset: every count, every byte total, and the last, the
   * largest and the smallest closed group of pictures.
   */
  lemma {:induction false} RunStatistics(events: seq<Event>)
    ensures Whole(SinceReset(events))
    ensures Describes(RunFrom(FRESH, events).stats, RunFrom(FRESH, events).framesSinceIdr, SinceReset(events))
  {
    hide AccountAll;
    hide Units;
    hide Accepted;
    hide Describes;
    WholeSinceReset(events);
    if events == [] {
      NothingDescribed(NO_STATS, []);
    } else {
      var n := |events| - 1;
      var before, e := events[..n], events[n];
      assert events == before + [e];
      RunLast(FRESH, before, e);
      RunStatistics(before);
      match e {
        case FeedData(d) =>
          AcceptedAreWhole(d);
          AllGrow(RunFrom(FRESH, before), SinceReset(before), Accepted(Units(d)));
        case ResetStats => NothingDescribed(NO_STATS, []);
      }
    }
  }

  lemma AcceptedAreWhole(d: Text)
    ensures Whole(Accepted(Units(d)))
  {
  }

  lemma NothingDescribed(st: Stats, us: seq<Unit>)
    requires st == NO_STATS && us == []
    ensures Describes(st, 0, us)
  {
    hide FrameOf;
    hide NaluType;
    assert LastIdr(us) == None;
    assert Gops(us) == [];
  }

  // ----- consequences -----

  lemma {:induction false} KindsAreDisjoint(us: seq<Unit>)
    requires Whole(us)
    ensures HowMany(us, FrameSps) + HowMany(us, FramePps) + HowMany(us, FrameIdr) + HowMany(us, FrameI)
            + HowMany(us, FrameP) + HowMany(us, FrameB) + HowMany(us, FrameSei) + HowMany(us, Unknown) == |us|
    ensures SizeOf(us, FrameIdr) + SizeOf(us, FrameI) + SizeOf(us, FrameP) <= StreamSize(us)
  {
    hide FrameOf;
    if us != [] {
      KindsAreDisjoint(us[..|us| - 1]);
    }
  }

  lemma {:induction false} StreamSizeAppend(us: seq<Unit>, vs: seq<Unit>)
    ensures StreamSize(us + vs) == StreamSize(us) + StreamSize(vs)
  {
    if vs == [] {
      assert us + vs == us;
    } else {
      var n := |vs| - 1;
      assert (us + vs)[..|us + vs| - 1] == us + vs[..n];
      StreamSizeAppend(us, vs[..n]);
    }
  }

  /** The units of a piece of data and their start codes fit into it. */
  lemma {:induction false} UnitsFit(d: Text)
    ensures StreamSize(Accepted(Units(d))) <= |d|
    decreases |d|
  {
    hide FirstCode;
    hide Units;
    hide UnitEnd;
    match FirstCode(d)
    case None => NoUnits(d);
    case Some(f) =>
      FoundFits(d);
      var rest := d[f.pos + f.length..];
      UnitsUnfold(d, f, rest);
      var e := UnitEnd(rest);
      UnitEndInside(rest);
      UnitsFit(rest[e..]);
      if e == 0 {
        assert rest[0..] == rest;
      } else {
        var u := Unit(f.length, rest[..e]);
        AcceptedCons(u, Units(rest[e..]));
        StreamSizeAppend([u], Accepted(Units(rest[e..])));
        Last([], u);
        assert [] + [u] == [u];
        assert StreamSize([u]) == e + f.length;
        assert [] + Accepted(Units(rest[e..])) == Accepted(Units(rest[e..]));
      }
  }

  lemma UnitEndInside(rest: Text)
    ensures UnitEnd(rest) <= |rest|
  {
  }

  lemma {:induction false} BytesFit(events: seq<Event>)
    ensures StreamSize(SinceReset(events)) <= BytesSinceReset(events)
  {
    hide Units;
    if events != [] {
      BytesFit(events[..|events| - 1]);
      match events[|events| - 1] {
        case FeedData(d) =>
          UnitsFit(d);
          StreamSizeAppend(SinceReset(events[..|events| - 1]), Accepted(Units(d)));
        case ResetStats =>
      }
    }
  }

  /** Totals bound their parts in every run: units by kind, and bytes by what was fed. */
  lemma RunTotals(events: seq<Event>)
    ensures var st := RunFrom(FRESH, events).stats;
      && st.spsCount + st.ppsCount + st.idrCount + st.iCount + st.pCount + st.bCount + st.seiCount <= st.totalNalus
      && st.idrBytes + st.pBytes <= st.totalBytes <= BytesSinceReset(events)
  {
    hide RunFrom;
    hide Account;
    RunStatistics(events);
    KindsAreDisjoint(SinceReset(events));
    BytesFit(events);
  }

  /** The run on the parser object: any number of feeds and resets. */
  method Play(events: seq<Event>) returns (parser: Parser)
    ensures parser.Now() == RunFrom(FRESH, events)
  {
    parser := new Parser();
    for i := 0 to |events|
      invariant parser.Now() == RunFrom(FRESH, events[..i])
    {
      RunLast(FRESH, events[..i], events[i]);
      assert events[..i + 1] == events[..i] + [events[i]];
      match events[i] {
        case FeedData(d) => var n := parser.Feed(d); EmptyFeed(parser.Now());
        case ResetStats => parser.ResetStats();
      }
    }
    assert events[..|events|] == events;
  }

  lemma EmptyFeed(p: State)
    ensures Fed(p, []) == p
  {
    EmptyFirst();
    NoUnits([]);
  }
}
