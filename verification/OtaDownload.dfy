/** Downloading an update chunk by chunk, up to the point where its installation is scheduled. */
module OtaDownload {
  import opened Bytes

  // ----- the world around the updater -----

  /** Hash of a file's contents in hexadecimal, or nothing when it cannot be computed. */
  type Hash = Text -> Option<Text>

  /** Where a download is put, from its type, version and file name. */
  type Place = (int, Text, Text) -> Text

  const OTA_TYPE_APP := 0
  const OTA_TYPE_SYSTEM := 1

  /** What the server announces about an update. */
  datatype Offer = Offer(version: Text, filename: Text, sha256: Text, fileSize: int, kind: int)

  datatype Signal =
    | Requested(version: Text, filename: Text)
    | Progress(percent: int)
    | Available(version: Text)
    | Failed

  /** An installation waiting for its timer. */
  datatype Install = Install(path: Text, kind: int)

  /** Everything that the slots read and change. */
  datatype State = State(
    downloading: bool, offer: Offer, totalChunks: int, expected: int, open: bool, path: Text,
    files: map<Text, Text>, signals: seq<Signal>, scheduled: seq<Install>)

  datatype Event =
    | Start(offer: Offer, opens: bool)
    | Chunk(index: int, total: int, data: Text, written: int)

  /** Division of C++: toward zero. */
  function Quotient(a: int, b: int): int
    requires b != 0
  {
    if a >= 0 then a / b else -((-a) / b)
  }

  function KindOf(kind: int): int {
    if kind == OTA_TYPE_SYSTEM then OTA_TYPE_SYSTEM else OTA_TYPE_APP
  }

  /** Toward zero: the multiple of the divisor that is nearest to the dividend and no further from zero. */
  lemma QuotientExactly(a: int, b: int) returns (p: int)
    requires b != 0
    ensures Quotient(a, b) * b == (if a < 0 then -p else p)
    ensures var n := if a < 0 then -a else a; 0 <= n - p < if b < 0 then -b else b
  {
    var n := if a < 0 then -a else a;
    p := n / b * b;
    RemainderLeft(n, b);
    if a < 0 {
      NegatedProduct(n / b, b);
    }
  }

  lemma RemainderLeft(n: nat, b: int)
    requires b != 0
    ensures 0 <= n - n / b * b < if b < 0 then -b else b
  {
    assert n - n / b * b == n % b;
  }

  lemma NegatedProduct(q: int, b: int)
    ensures -q * b == -(q * b)
  {
  }

  /** 1 is a system update, and everything else counts as 0, an application update. */
  lemma KindExactly(kind: int)
    ensures KindOf(kind) == if kind == 1 then 1 else 0
  {
  }

  predicate SameHash(hash: Option<Text>, wanted: Text) {
    hash.Some? && LowerAll(CString(hash.value)) == LowerAll(CString(wanted))
  }

  /** As C strings, and up to the case of letters. */
  lemma SameHashExactly(hash: Option<Text>, wanted: Text)
    ensures SameHash(hash, wanted) <==> hash.Some? && Alike(CString(hash.value), CString(wanted), false)
  {
    hide CString;
    hide Alike;
    hide LowerAll;
    if hash.Some? {
      FoldsAgreeExactly(CString(hash.value), CString(wanted), false);
    }
  }

  function Contents(files: map<Text, Text>, path: Text): Text {
    if path in files then files[path] else []
  }

  // ----- one event -----

  function Begin(s: State, offer: Offer, opens: bool, place: Place): State {
    var kind := KindOf(offer.kind);
    var path := place(kind, offer.version, offer.filename);
    var begun := s.(offer := offer.(kind := kind), totalChunks := 0, expected := 0, path := path);
    if !opens then begun.(downloading := false, open := false, signals := s.signals + [Failed])
    else begun.(downloading := true, open := true, files := s.files[path := []],
                signals := s.signals + [Requested(offer.version, offer.filename)])
  }

  /** The download ends without success and its file goes. */
  function Abort(s: State): State {
    s.(downloading := false, open := false, files := s.files - {s.path}, signals := s.signals + [Failed])
  }

  predicate Complete(s: State, hash: Hash) {
    |Contents(s.files, s.path)| == s.offer.fileSize && SameHash(hash(Contents(s.files, s.path)), s.offer.sha256)
  }

  function Finish(s: State, hash: Hash): State {
    if !Complete(s, hash) then Abort(s)
    else s.(downloading := false, open := false, signals := s.signals + [Available(s.offer.version)],
            scheduled := s.scheduled + [Install(s.path, s.offer.kind)])
  }

  /** The state after a chunk; nothing when the process dies of a division by zero. */
  function Receive(s: State, index: int, total: int, data: Text, written: int, hash: Hash): Option<State> {
    if !s.downloading then Some(s)
    else if index != s.expected then Some(Abort(s))
    else if s.open && written != |data| then Some(Abort(s.(totalChunks := total)))
    else if total == 0 then None
    else
      var stored := s.(totalChunks := total,
                       files := if s.open then s.files[s.path := Contents(s.files, s.path) + data] else s.files,
                       expected := s.expected + 1,
                       signals := s.signals + [Progress(Quotient((index + 1) * 100, total))]);
      if index + 1 < total then Some(stored)
      else if stored.expected != total then Some(Abort(stored))
      else Some(Finish(stored, hash))
  }

  function Step(s: State, e: Event, place: Place, hash: Hash): Option<State> {
    match e
    case Start(offer, opens) => Some(Begin(s, offer, opens, place))
    case Chunk(index, total, data, written) => Receive(s, index, total, data, written, hash)
  }

  // ----- the updater itself -----

  class OtaUpdater {
    const place: Place
    const hash: Hash
    var downloading: bool
    var offer: Offer
    var totalChunks: int
    var expectedChunkIndex: int
    var tempOpen: bool
    var tempPath: Text
    /** The file system, as far as the updater sees it. */
    var files: map<Text, Text>
    var signals: seq<Signal>
    var scheduled: seq<Install>

    function Now(): State
      reads this
    {
      State(downloading, offer, totalChunks, expectedChunkIndex, tempOpen, tempPath, files, signals, scheduled)
    }

    constructor (place: Place, hash: Hash, files: map<Text, Text>)
      ensures this.place == place && this.hash == hash && Now() == Idle(files)
    {
      this.place, this.hash := place, hash;
      downloading, offer, totalChunks, expectedChunkIndex := false, Offer([], [], [], 0, OTA_TYPE_APP), 0, 0;
      tempOpen, tempPath, this.files, signals, scheduled := false, [], files, [], [];
    }

    method StartTcpDownload(version: Text, filename: Text, sha256: Text, fileSize: int, kind: int, opens: bool)
      modifies this
      ensures Now() == Begin(old(Now()), Offer(version, filename, sha256, fileSize, kind), opens, place)
    {
      downloading := true;
      offer := Offer(version, filename, sha256, fileSize, KindOf(kind));
      totalChunks, expectedChunkIndex := 0, 0;
      if tempOpen {
        tempOpen := false;
      }
      tempPath := place(offer.kind, version, filename);
      if !opens {
        downloading := false;
        signals := signals + [Failed];
        return;
      }
      tempOpen := true;
      files := files[tempPath := []];
      signals := signals + [Requested(version, filename)];
    }

    method Drop()
      modifies this`downloading, this`tempOpen, this`files, this`signals
      ensures Now() == Abort(old(Now()))
    {
      downloading := false;
      if tempOpen {
        tempOpen := false;
      }
      files := files - {tempPath};
      signals := signals + [Failed];
    }

    /** Answers whether the process is still alive: the progress is divided by the total unchecked. */
    method ReceiveChunk(chunkIndex: int, total: int, data: Text, written: int) returns (alive: bool)
      modifies this
      ensures match Receive(old(Now()), chunkIndex, total, data, written, hash)
        case None => !alive
        case Some(after) => alive && Now() == after
    {
      hide Contents;
      alive := true;
      if !downloading {
        return;
      }
      if chunkIndex != expectedChunkIndex {
        Drop();
        return;
      }
      totalChunks := total;
      if tempOpen {
        if written != |data| {
          Drop();
          return;
        }
        files := files[tempPath := Contents(files, tempPath) + data];
      }
      expectedChunkIndex := expectedChunkIndex + 1;
      if total == 0 {
        return false;
      }
      signals := signals + [Progress(Quotient((chunkIndex + 1) * 100, total))];
      if chunkIndex + 1 >= total {
        downloading := false;
        if expectedChunkIndex != total {
          Drop();
          return;
        }
        CheckAndSchedule();
      }
    }

    /** The checks on the finished file. */
    method CheckAndSchedule()
      modifies this
      ensures Now() == Finish(old(Now()), hash)
    {
      downloading := false;
      tempOpen := false;
      var contents := Contents(files, tempPath);
      if |contents| != offer.fileSize {
        Drop();
        return;
      }
      var actual := hash(contents);
      if !SameHash(actual, offer.sha256) {
        Drop();
        return;
      }
      signals := signals + [Available(offer.version)];
      scheduled := scheduled + [Install(tempPath, offer.kind)];
    }
  }

  /** A run on the updater object, up to its end or the event that kills the process. */
  method Play(files: map<Text, Text>, events: seq<Event>, place: Place, hash: Hash)
    returns (updater: OtaUpdater, alive: bool)
    ensures match Run(files, events, place, hash)
      case None => !alive
      case Some(s) => alive && updater.Now() == s
  {
    hide Begin;
    hide Receive;
    updater := new OtaUpdater(place, hash, files);
    alive := true;
    for i := 0 to |events|
      invariant fresh(updater) && updater.place == place && updater.hash == hash
      invariant Run(files, events[..i], place, hash) == Some(updater.Now())
    {
      assert events[..i + 1] == events[..i] + [events[i]];
      assert events[..i + 1][..i] == events[..i];
      match events[i] {
        case Start(o, opens) =>
          updater.StartTcpDownload(o.version, o.filename, o.sha256, o.fileSize, o.kind, opens);
        case Chunk(index, total, data, written) =>
          alive := updater.ReceiveChunk(index, total, data, written);
          if !alive {
            DeadStaysDead(files, events, i + 1, place, hash);
            return;
          }
      }
    }
    assert events[..|events|] == events;
  }

  lemma {:induction false} DeadStaysDead(files: map<Text, Text>, events: seq<Event>, i: nat, place: Place, hash: Hash)
    requires i <= |events| && Run(files, events[..i], place, hash) == None
    ensures Run(files, events, place, hash) == None
    decreases |events|
  {
    if i < |events| {
      var before := events[..|events| - 1];
      assert before[..i] == events[..i];
      DeadStaysDead(files, before, i, place, hash);
    } else {
      assert events[..i] == events;
    }
  }

  function Idle(files: map<Text, Text>): State {
    State(false, Offer([], [], [], 0, OTA_TYPE_APP), 0, 0, false, [], files, [], [])
  }

  // ----- whole runs -----

  /** The state after these events; nothing when one of them killed the process. */
  function Run(files: map<Text, Text>, events: seq<Event>, place: Place, hash: Hash): Option<State> {
    if events == [] then Some(Idle(files))
    else
      match Run(files, events[..|events| - 1], place, hash)
      case None => None
      case Some(s) => Step(s, events[|events| - 1], place, hash)
  }

  lemma RunLast(files: map<Text, Text>, before: seq<Event>, e: Event, place: Place, hash: Hash)
    ensures Run(files, before + [e], place, hash) ==
      match Run(files, before, place, hash) case None => None case Some(s) => Step(s, e, place, hash)
  {
    hide Step;
    assert (before + [e])[..|before|] == before;
  }

  /** An offer and the chunks accepted for it so far. */
  datatype Download = Download(offer: Offer, chunks: seq<Text>)

  /**
   * The download under way after these events, by the order of the events alone: it began
   * with the last start, and every event since is the next chunk, wholly written and not the last.
   */
  function UnderWay(events: seq<Event>): Option<Download> {
    if events == [] then None
    else
      match events[|events| - 1]
      case Start(offer, opens) => if opens then Some(Download(offer, [])) else None
      case Chunk(index, total, data, written) =>
        match UnderWay(events[..|events| - 1])
        case None => None
        case Some(d) =>
          if index == |d.chunks| && written == |data| && index + 1 < total then Some(d.(chunks := d.chunks + [data]))
          else None
  }

  function Concat(chunks: seq<Text>): Text {
    if chunks == [] then [] else Concat(chunks[..|chunks| - 1]) + chunks[|chunks| - 1]
  }

  function PlaceOf(offer: Offer, place: Place): Text {
    place(KindOf(offer.kind), offer.version, offer.filename)
  }

  /** The state that goes with a download under way. */
  predicate Holds(s: State, d: Download, place: Place) {
    && s.downloading && s.open
    && s.offer == d.offer.(kind := KindOf(d.offer.kind)) && s.path == PlaceOf(d.offer, place)
    && s.expected == |d.chunks|
    && s.path in s.files && s.files[s.path] == Concat(d.chunks)
  }

  lemma ConcatLast(chunks: seq<Text>, data: Text)
    ensures Concat(chunks + [data]) == Concat(chunks) + data
  {
    assert (chunks + [data])[..|chunks|] == chunks;
  }

  /**
   * In every run that has not died the updater is downloading exactly when the events
   * say so, and then the temporary file is the concatenation of the chunks accepted so far.
   */
  lemma {:induction false} FileIsChunks(files: map<Text, Text>, events: seq<Event>, place: Place, hash: Hash)
    ensures match Run(files, events, place, hash)
      case None => true
      case Some(s) => Fits(s, UnderWay(events), place)
  {
    if events != [] {
      var before, e := events[..|events| - 1], events[|events| - 1];
      FileIsChunks(files, before, place, hash);
      if e.Chunk? && UnderWay(before).Some? {
        ConcatLast(UnderWay(before).value.chunks, e.data);
      }
    }
  }

  predicate Fits(s: State, d: Option<Download>, place: Place) {
    match d
    case None => !s.downloading && !s.open
    case Some(under) => Holds(s, under, place)
  }

  // ----- division by zero -----

  /** The next chunk of a download, wholly written. */
  predicate Stores(before: seq<Event>, e: Event) {
    e.Chunk? && UnderWay(before).Some? && e.index == |UnderWay(before).value.chunks| && e.written == |e.data|
  }

  /** Such a chunk that announces zero chunks. */
  predicate Kills(before: seq<Event>, e: Event) {
    Stores(before, e) && e.total == 0
  }

  /** One step divides by zero exactly when a zero total comes with the chunk that is expected and stored. */
  lemma StepDividesByZero(s: State, e: Event, place: Place, hash: Hash)
    ensures Step(s, e, place, hash) == None <==>
      e.Chunk? && e.total == 0 && s.downloading && e.index == s.expected && (s.open ==> e.written == |e.data|)
  {
  }

  predicate Deadly(events: seq<Event>) {
    exists i :: 0 <= i < |events| && Kills(events[..i], events[i])
  }

  lemma DeadlyLast(before: seq<Event>, e: Event)
    ensures Deadly(before + [e]) <==> Deadly(before) || Kills(before, e)
  {
    hide Kills;
    var all := before + [e];
    assert all[..|before|] == before && all[|before|] == e;
    assert forall i :: 0 <= i < |before| ==> all[..i] == before[..i] && all[i] == before[i];
    if Deadly(before) {
      var i :| 0 <= i < |before| && Kills(before[..i], before[i]);
      assert Kills(all[..i], all[i]);
    }
    if Kills(before, e) {
      assert Kills(all[..|before|], all[|before|]);
    }
  }

  /** A run dies exactly when some event is such a chunk, as the events before it tell. */
  lemma {:induction false} RunDiesExactly(files: map<Text, Text>, events: seq<Event>, place: Place, hash: Hash)
    ensures Run(files, events, place, hash) == None <==> Deadly(events)
  {
    hide Deadly;
    if events == [] {
      NothingDeadly();
    } else {
      var n := |events| - 1;
      var before, e := events[..n], events[n];
      assert events == before + [e];
      RunDiesExactly(files, before, place, hash);
      DeadlyLast(before, e);
      var r := Run(files, before, place, hash);
      if r.Some? {
        FileIsChunks(files, before, place, hash);
        StepDividesByZero(r.value, e, place, hash);
        hide Step;
      }
    }
  }

  lemma NothingDeadly()
    ensures !Deadly([])
  {
  }

  /** Two events are enough: a start, and a first chunk of zero. */
  lemma ZeroTotalKills(files: map<Text, Text>, offer: Offer, data: Text, place: Place, hash: Hash)
    ensures Run(files, [Start(offer, true), Chunk(0, 0, data, |data|)], place, hash) == None
  {
    hide Run;
    var start, first := [Start(offer, true)], Chunk(0, 0, data, |data|);
    StartedUnderWay(start, offer);
    assert start + [first] == [Start(offer, true), first];
    DeadlyLast(start, first);
    RunDiesExactly(files, start + [first], place, hash);
  }

  lemma StartedUnderWay(start: seq<Event>, offer: Offer)
    requires start == [Start(offer, true)]
    ensures UnderWay(start) == Some(Download(offer, []))
  {
  }

  // ----- installing -----

  /** The last chunk of a download: everything arrived, in order, with the declared size and hash. */
  predicate Delivers(before: seq<Event>, e: Event, hash: Hash) {
    e.Chunk? && UnderWay(before).Some? &&
    (var d := UnderWay(before).value;
     var whole := Concat(d.chunks + [e.data]);
     && e.index == |d.chunks| && e.total == |d.chunks| + 1 && e.written == |e.data|
     && |whole| == d.offer.fileSize && SameHash(hash(whole), d.offer.sha256))
  }

  /**
   * An event schedules an installation exactly when it completes a download; the file to
   * be installed is then all the chunks, in order.
   */
  lemma ScheduledExactly(files: map<Text, Text>, before: seq<Event>, e: Event, place: Place, hash: Hash)
    requires Run(files, before + [e], place, hash).Some?
    ensures Run(files, before, place, hash).Some?
    ensures var s, t := Run(files, before, place, hash).value, Run(files, before + [e], place, hash).value;
      if Delivers(before, e, hash) then
        var d := UnderWay(before).value;
        && t.scheduled == s.scheduled + [Install(PlaceOf(d.offer, place), KindOf(d.offer.kind))]
        && t.path == PlaceOf(d.offer, place)
        && t.path in t.files && t.files[t.path] == Concat(d.chunks + [e.data])
        && !t.downloading
      else t.scheduled == s.scheduled
  {
    RunLast(files, before, e, place, hash);
    FileIsChunks(files, before, place, hash);
    hide Run;
    if e.Chunk? && UnderWay(before).Some? {
      ConcatLast(UnderWay(before).value.chunks, e.data);
    }
  }

  /**
   * A chunk that arrives during a download, and does not kill the process, keeps it going,
   * schedules its installation, or ends it with the file removed and a failure signalled;
   * nothing else can happen.
   */
  lemma EndsCleanly(files: map<Text, Text>, before: seq<Event>, e: Event, place: Place, hash: Hash)
    requires Run(files, before + [e], place, hash).Some? && e.Chunk? && UnderWay(before).Some?
    ensures Run(files, before, place, hash).Some?
    ensures var s, t := Run(files, before, place, hash).value, Run(files, before + [e], place, hash).value;
      || (t.downloading && UnderWay(before + [e]).Some? && e.index == s.expected)
      || (!t.downloading && Delivers(before, e, hash) && |t.scheduled| == |s.scheduled| + 1)
      || (!t.downloading && t.path == s.path && t.path !in t.files && t.scheduled == s.scheduled
          && t.signals != [] && t.signals[|t.signals| - 1] == Failed)
    ensures var s, t := Run(files, before, place, hash).value, Run(files, before + [e], place, hash).value;
      e.index != s.expected ==> !t.downloading && t.path !in t.files && t.scheduled == s.scheduled
  {
    hide Quotient;
    hide Delivers;
    hide SameHash;
    hide Concat;
    ScheduledExactly(files, before, e, place, hash);
    FileIsChunks(files, before, place, hash);
    FileIsChunks(files, before + [e], place, hash);
    RunLast(files, before, e, place, hash);
    hide Run;
    assert (before + [e])[..|before|] == before;
  }

  // ----- progress -----

  /** The total is not a hundredth or more below the chunks that have arrived, or is far below zero. */
  predicate Fair(index: int, total: int) {
    if total > 0 then (index + 1) * 100 < 101 * total else (index + 1) * 100 < -total
  }

  /** The quotient is a percentage exactly for a fair total, and 100 exactly from the last chunk on. */
  lemma PercentExactly(index: nat, total: int)
    requires total != 0
    ensures 0 <= Quotient((index + 1) * 100, total) <= 100 <==> Fair(index, total)
    ensures Quotient((index + 1) * 100, total) == 100 <==> 0 < total <= index + 1 && Fair(index, total)
  {
    var n := (index + 1) * 100;
    if total > 0 {
      DivisionBounds(n, total, n / total);
      NotLess(n / total, 101, total);
      NotLess(100, n / total + 1, total);
      NotLess(99, n / total, total);
    } else {
      assert n / total == -(n / -total);
      DivisionBounds(n, -total, n / -total);
      NotLess(n / -total, 1, -total);
    }
  }

  /** What an event adds to the signals: a stored chunk shows one progress, nothing else shows any. */
  lemma ProgressShown(files: map<Text, Text>, before: seq<Event>, e: Event, place: Place, hash: Hash)
    requires Run(files, before + [e], place, hash).Some?
    ensures Run(files, before, place, hash).Some?
    ensures var s, t := Run(files, before, place, hash).value, Run(files, before + [e], place, hash).value;
      && s.signals <= t.signals
      && (Stores(before, e) ==> e.total != 0)
      && forall p :: Progress(p) in t.signals[|s.signals|..] <==>
           Stores(before, e) && e.total != 0 && p == Quotient((e.index + 1) * 100, e.total)
  {
    RunLast(files, before, e, place, hash);
    FileIsChunks(files, before, place, hash);
    hide Run;
    hide Quotient;
    hide Complete;
    hide UnderWay;
    var s, t := Run(files, before, place, hash).value, Run(files, before + [e], place, hash).value;
    var added := t.signals[|s.signals|..];
    if Stores(before, e) {
      assert added[0] == Progress(Quotient((e.index + 1) * 100, e.total));
    }
    assert |added| <= 2;
  }

  /** Every progress among the signals is a percentage. */
  predicate Percentages(signals: seq<Signal>) {
    forall i :: 0 <= i < |signals| && signals[i].Progress? ==> 0 <= signals[i].percent <= 100
  }

  /** A chunk that is stored announces an unfair total. */
  predicate Unfair(before: seq<Event>, e: Event) {
    Stores(before, e) && !Fair(e.index, e.total)
  }

  predicate AllFair(events: seq<Event>) {
    forall i :: 0 <= i < |events| ==> !Unfair(events[..i], events[i])
  }

  lemma AllFairLast(before: seq<Event>, e: Event)
    ensures AllFair(before + [e]) <==> AllFair(before) && !Unfair(before, e)
  {
    hide Unfair;
    var all := before + [e];
    assert all[..|before|] == before && all[|before|] == e;
    assert forall i :: 0 <= i < |before| ==> all[..i] == before[..i] && all[i] == before[i];
    if AllFair(all) {
      forall i | 0 <= i < |before| ensures !Unfair(before[..i], before[i]) {
        assert !Unfair(all[..i], all[i]);
      }
      assert !Unfair(all[..|before|], all[|before|]);
    }
  }

  /** In a run that does not die the progress shown is a percentage throughout exactly when all totals are fair. */
  lemma {:induction false} ProgressIsPercentage(files: map<Text, Text>, events: seq<Event>, place: Place, hash: Hash)
    requires Run(files, events, place, hash).Some?
    ensures Percentages(Run(files, events, place, hash).value.signals) <==> AllFair(events)
    decreases |events|
  {
    hide Step;
    hide AllFair;
    hide Fair;
    hide Quotient;
    if events == [] {
      NothingShown();
    } else {
      var n := |events| - 1;
      var before, e := events[..n], events[n];
      assert events == before + [e];
      ProgressShown(files, before, e, place, hash);
      ProgressIsPercentage(files, before, place, hash);
      AllFairLast(before, e);
      var s, t := Run(files, before, place, hash).value, Run(files, events, place, hash).value;
      PercentagesJoin(s.signals, t.signals[|s.signals|..]);
      assert s.signals + t.signals[|s.signals|..] == t.signals;
      hide Run;
      if Stores(before, e) {
        PercentExactly(e.index, e.total);
        OneShown(t.signals[|s.signals|..], Quotient((e.index + 1) * 100, e.total));
      } else {
        NoneShown(t.signals[|s.signals|..]);
      }
    }
  }

  lemma NothingShown()
    ensures AllFair([]) && Percentages([])
  {
  }

  lemma NoneShown(added: seq<Signal>)
    requires forall p :: Progress(p) !in added
    ensures Percentages(added)
  {
    forall i | 0 <= i < |added| ensures !added[i].Progress? {
      assert added[i] in added;
    }
  }

  lemma OneShown(added: seq<Signal>, percent: int)
    requires forall p :: Progress(p) in added <==> p == percent
    ensures Percentages(added) <==> 0 <= percent <= 100
  {
    assert Progress(percent) in added;
    forall i | 0 <= i < |added| && added[i].Progress? ensures added[i].percent == percent {
      assert Progress(added[i].percent) in added;
    }
  }

  lemma PercentagesJoin(shown: seq<Signal>, added: seq<Signal>)
    ensures Percentages(shown + added) <==> Percentages(shown) && Percentages(added)
  {
    var all := shown + added;
    assert forall i :: 0 <= i < |shown| ==> all[i] == shown[i];
    assert forall i :: 0 <= i < |added| ==> all[|shown| + i] == added[i];
  }

  /** A second chunk that comes with a total of one shows 200, a first one with minus one shows -100. */
  lemma ProgressOffTheScale(files: map<Text, Text>, offer: Offer, data: Text, place: Place, hash: Hash)
    ensures
      var events := [Start(offer, true), Chunk(0, 2, data, |data|), Chunk(1, 1, data, |data|)];
      var r := Run(files, events, place, hash);
      r.Some? && Progress(200) in r.value.signals
    ensures var r := Run(files, [Start(offer, true), Chunk(0, -1, data, |data|)], place, hash);
      r.Some? && Progress(-100) in r.value.signals
  {
    hide Run;
    var start, first, second := [Start(offer, true)], Chunk(0, 2, data, |data|), Chunk(1, 1, data, |data|);
    var negative := Chunk(0, -1, data, |data|);
    StartedUnderWay(start, offer);
    FirstUnderWay(start, offer, first);
    assert start + [first] + [second] == [Start(offer, true), first, second];
    assert start + [negative] == [Start(offer, true), negative];
    NothingDeadly();
    DeadlyLast([], Start(offer, true));
    DeadlyLast(start, first);
    DeadlyLast(start + [first], second);
    DeadlyLast(start, negative);
    assert [] + [Start(offer, true)] == start;
    RunDiesExactly(files, start + [first] + [second], place, hash);
    RunDiesExactly(files, start + [negative], place, hash);
    ProgressShown(files, start + [first], second, place, hash);
    ProgressShown(files, start, negative, place, hash);
  }

  lemma FirstUnderWay(start: seq<Event>, offer: Offer, first: Event)
    requires start == [Start(offer, true)] && first.Chunk?
    requires first.index == 0 && first.total == 2 && first.written == |first.data|
    ensures UnderWay(start + [first]) == Some(Download(offer, [first.data]))
  {
    StartedUnderWay(start, offer);
    assert (start + [first])[..1] == start && [] + [first.data] == [first.data];
  }

  lemma DivisionBounds(n: nat, d: nat, q: nat)
    requires d > 0 && q == n / d
    ensures q * d <= n < (q + 1) * d
  {
    assert n == q * d + n % d;
    assert (q + 1) * d == q * d + d;
  }

  lemma NotLess(a: nat, b: nat, d: nat)
    ensures a >= b ==> a * d >= b * d
  {
  }

  // ----- an undisturbed download -----

  /** The events of a server that sends every chunk once and in order. */
  function Deliveries(chunks: seq<Text>, n: nat): seq<Event>
    requires n <= |chunks|
  {
    if n == 0 then []
    else Deliveries(chunks, n - 1) + [Chunk(n - 1, |chunks|, chunks[n - 1], |chunks[n - 1]|)]
  }

  lemma {:induction false} DeliveriesArrive(events: seq<Event>, offer: Offer, chunks: seq<Text>, n: nat)
    requires n < |chunks|
    ensures UnderWay(events + [Start(offer, true)] + Deliveries(chunks, n)) == Some(Download(offer, chunks[..n]))
  {
    var start := events + [Start(offer, true)];
    var all := start + Deliveries(chunks, n);
    if n == 0 {
      assert all == start;
      assert start[..|start| - 1] == events;
    } else {
      DeliveriesArrive(events, offer, chunks, n - 1);
      assert all[..|all| - 1] == start + Deliveries(chunks, n - 1);
      assert chunks[..n] == chunks[..n - 1] + [chunks[n - 1]];
    }
  }

  /** A start and chunks in order neither kill the process nor schedule anything before the last. */
  lemma {:induction false} DeliveriesSchedule(
    files: map<Text, Text>, events: seq<Event>, offer: Offer, chunks: seq<Text>, n: nat, place: Place, hash: Hash)
    requires Run(files, events, place, hash).Some? && n < |chunks|
    ensures var r := Run(files, events + [Start(offer, true)] + Deliveries(chunks, n), place, hash);
      r.Some? && r.value.scheduled == Run(files, events, place, hash).value.scheduled
  {
    hide Run;
    var start := events + [Start(offer, true)];
    if n == 0 {
      assert start + [] == start;
      RunLast(files, events, Start(offer, true), place, hash);
    } else {
      var before := start + Deliveries(chunks, n - 1);
      var e := Chunk(n - 1, |chunks|, chunks[n - 1], |chunks[n - 1]|);
      DeliveriesSchedule(files, events, offer, chunks, n - 1, place, hash);
      DeliveriesArrive(events, offer, chunks, n - 1);
      assert start + Deliveries(chunks, n) == before + [e];
      RunLast(files, before, e, place, hash);
      StepDividesByZero(Run(files, before, place, hash).value, e, place, hash);
      hide Step;
      ScheduledExactly(files, before, e, place, hash);
    }
  }

  /**
   * After any run that is still alive, a download whose chunks all arrive in order is
   * scheduled for installation, once and from its own file, exactly when it has the
   * declared size and hash.
   */
  lemma GoodDownloadIsInstalled(
    files: map<Text, Text>, events: seq<Event>, offer: Offer, chunks: seq<Text>, place: Place, hash: Hash)
    requires Run(files, events, place, hash).Some? && chunks != []
    ensures var r := Run(files, events + [Start(offer, true)] + Deliveries(chunks, |chunks|), place, hash);
      var good := |Concat(chunks)| == offer.fileSize && SameHash(hash(Concat(chunks)), offer.sha256);
      && r.Some?
      && r.value.scheduled == Run(files, events, place, hash).value.scheduled
                              + (if good then [Install(PlaceOf(offer, place), KindOf(offer.kind))] else [])
      && (good ==> PlaceOf(offer, place) in r.value.files
                   && r.value.files[PlaceOf(offer, place)] == Concat(chunks))
  {
    hide Run;
    var n := |chunks| - 1;
    var before := events + [Start(offer, true)] + Deliveries(chunks, n);
    var e := Chunk(n, |chunks|, chunks[n], |chunks[n]|);
    DeliveriesSchedule(files, events, offer, chunks, n, place, hash);
    DeliveriesArrive(events, offer, chunks, n);
    assert chunks[..n] + [chunks[n]] == chunks;
    assert events + [Start(offer, true)] + Deliveries(chunks, |chunks|) == before + [e];
    RunLast(files, before, e, place, hash);
    StepDividesByZero(Run(files, before, place, hash).value, e, place, hash);
    hide Step;
    ScheduledExactly(files, before, e, place, hash);
  }
}
