/** The log ring is a bounded first-in first-out queue, in every interleaving. */
module LogRingQueue {
  import opened Bytes
  import opened LogRing
  import opened LogRingInvariant

  lemma StepKeeps(s: State, a: Step, u: State)
    requires Inv(s) && Next(s, a) == Some(u)
    ensures Inv(u)
  {
    match a
    case Call(_, _) => CallKeeps(s, a, u);
    case LoadHead(_) => CallKeeps(s, a, u);
    case CheckRoom(_) => CallKeeps(s, a, u);
    case Swap(_) => SwapKeeps(s, a, u);
    case CopyWord(_) => CopyWordKeeps(s, a, u);
    case Publish(_) => PublishKeeps(s, a, u);
    case ClearReady(_) => ClearReadyKeeps(s, a, u);
    case StoreTail(_) => StoreTailKeeps(s, a, u);
    case Unlock(_) => UnlockKeeps(s, a, u);
    case _ => ConsumerMoves(s, a, u);
  }

  lemma {:induction false} RunKeeps(s: State, steps: seq<Step>, u: State)
    requires Inv(s) && Run(s, steps) == Some(u)
    ensures Inv(u)
    decreases steps
  {
    if steps != [] {
      var v := Next(s, steps[0]).value;
      StepKeeps(s, steps[0], v);
      RunKeeps(v, steps[1..], u);
    }
  }

  lemma {:induction false} LogsAreEvents(s: State, steps: seq<Step>, u: State)
    requires Shaped(s) && Run(s, steps) == Some(u)
    ensures u.won == s.won + Entered(s, steps)
    ensures u.popped == s.popped + Left(s, steps)
    decreases steps
  {
    hide Next;
    hide Entering;
    hide Leaving;
    if steps != [] {
      var v := Next(s, steps[0]).value;
      LogStep(s, steps[0], v);
      LogsAreEvents(v, steps[1..], u);
    }
  }

  lemma LogStep(s: State, a: Step, u: State)
    requires Shaped(s) && Next(s, a) == Some(u)
    ensures u.won == s.won + Entering(s, a)
    ensures u.popped == s.popped + Leaving(s, a)
  {
  }

  /**
   * In every run from the empty ring, whatever the threads and their interleaving,
   * pops return whole entries in the order in which the pushes won their slots:
   * nothing is lost, repeated, torn or overtaken.  The entries not yet returned are at
   * most the ones in the ring and the one a consumer is carrying out.
   */
  lemma FirstInFirstOut(bits: nat, width: nat, steps: seq<Step>, u: State)
    requires Pow2(bits) <= MAX_SIZE && Run(Init(bits, width), steps) == Some(u)
    ensures Left(Init(bits, width), steps) <= Entered(Init(bits, width), steps)
    ensures |Entered(Init(bits, width), steps)| <= |Left(Init(bits, width), steps)| + u.size + 1
    ensures u.tail <= u.head <= u.tail + u.size
  {
    InitHolds(bits, width);
    RunKeeps(Init(bits, width), steps, u);
    LogsAreEvents(Init(bits, width), steps, u);
    assert u.won == Entered(Init(bits, width), steps);
    assert u.popped == Left(Init(bits, width), steps);
    assert u.popped == u.won[..|u.popped|];
  }

  /** Once a push has returned 0 its entry is in the ring, in a consumer's hands, or returned. */
  lemma PublishedIsNotLost(bits: nat, width: nat, steps: seq<Step>, u: State, c: nat)
    requires Pow2(bits) <= MAX_SIZE && Run(Init(bits, width), steps) == Some(u) && c in u.published
    ensures c < u.head == |u.won|
    ensures
      || (c < |u.popped| && u.popped[c] == u.won[c])
      || (u.tail <= c && u.ready[Slot(u.size, c)] && u.ring[Slot(u.size, c)] == u.won[c])
      || (u.lock.Some? && u.C(u.lock.value) == Cleared(c, u.won[c]))
      || (u.lock.Some? && u.C(u.lock.value) == Took(u.won[c]))
  {
    InitHolds(bits, width);
    RunKeeps(Init(bits, width), steps, u);
    if u.tail <= c && !u.ready[Slot(u.size, c)] {
      assert ProducerOk(u, u.winner[c]);
      assert Retiring(u, c);
      assert ConsumerOk(u, u.lock.value);
    }
    if u.lock.Some? {
      assert ConsumerOk(u, u.lock.value);
    }
  }

  /** Two producers that are still copying hold different slots, neither of them ready. */
  lemma SlotsAreExclusive(bits: nat, width: nat, steps: seq<Step>, u: State, t: Tid, x: Tid)
    requires Pow2(bits) <= MAX_SIZE && Run(Init(bits, width), steps) == Some(u)
    requires u.P(t).CopyingIn? && u.P(x).CopyingIn? && t != x
    ensures Slot(u.size, u.P(t).slot) != Slot(u.size, u.P(x).slot)
    ensures !u.ready[Slot(u.size, u.P(t).slot)]
  {
    InitHolds(bits, width);
    RunKeeps(Init(bits, width), steps, u);
    assert ProducerOk(u, t) && ProducerOk(u, x);
    WindowSlots(u.bits, u.size, u.tail);
    var c, d := u.P(t).slot, u.P(x).slot;
    assert c != d;
    assert c < d ==> Slot(u.size, c) != Slot(u.size, d);
    assert d < c ==> Slot(u.size, d) != Slot(u.size, c);
  }

  // ----- the queue that the ring implements -----

  function Queue(s: State): seq<Entry>
    requires s.tail <= |s.won|
  {
    s.won[s.tail..]
  }

  /** Every step enqueues at the back, dequeues at the front, or leaves the queue alone. */
  lemma StepRefinesQueue(s: State, a: Step, u: State)
    requires Inv(s) && Next(s, a) == Some(u)
    ensures Inv(u) && |Queue(u)| <= u.size
    ensures Entering(s, a) != [] ==> |Queue(s)| < s.size && Queue(u) == Queue(s) + Entering(s, a)
    ensures a.StoreTail? ==> u.C(a.t).Took? && Queue(s) == [u.C(a.t).buffer] + Queue(u)
    ensures Entering(s, a) == [] && !a.StoreTail? ==> Queue(u) == Queue(s)
  {
    StepKeeps(s, a, u);
    LogStep(s, a, u);
    if Entering(s, a) != [] {
      SwapWins(s, a, u);
      QueueGrows(s, u, Entering(s, a));
    } else {
      TailStep(s, a, u);
    }
  }

  lemma QueueGrows(s: State, u: State, more: seq<Entry>)
    requires s.tail <= |s.won| && u.tail == s.tail && u.won == s.won + more
    ensures Queue(u) == Queue(s) + more
  {
  }

  lemma TailStep(s: State, a: Step, u: State)
    requires Inv(s) && Next(s, a) == Some(u)
    ensures a.StoreTail? ==> s.tail < s.head && u.tail == s.tail + 1 && u.C(a.t) == Took(s.won[s.tail])
    ensures !a.StoreTail? ==> u.tail == s.tail
  {
    assert ConsumerOk(s, a.t);
  }

  /**
   * A refused push: when nobody has won a slot since its load of head, it is refused
   * exactly when the ring is full at that instant; only a stale load can refuse it wrongly.
   */
  lemma RefusalIsGenuine(s: State, t: Tid)
    requires Inv(s) && s.P(t).LoadedHead? && s.P(t).head == s.head
    ensures Next(s, CheckRoom(t)).value.P(t).Resting? <==> s.head - s.tail == s.size
  {
  }

  /** A load of head older than the tail makes the unsigned difference wrap: the push is refused. */
  lemma StaleHeadIsRefused(s: State, t: Tid)
    requires Inv(s) && s.P(t).LoadedHead? && s.P(t).head < s.tail <= COUNTERS - s.size
    ensures Next(s, CheckRoom(t)).value.P(t).Resting?
  {
  }

  // ----- how a push and a pop end -----

  /** The record that a producer is pushing. */
  function Pushing(p: Producer): Option<Entry> {
    match p
    case Resting => None
    case Starting(e) => Some(e)
    case LoadedHead(e, _) => Some(e)
    case SawRoom(e, _) => Some(e)
    case CopyingIn(e, _, _) => Some(e)
  }

  /**
   * A push ends in two ways only: its record is published, or the load of head is as far
   * ahead of the tail, in unsigned arithmetic, as the ring has slots.  Until then, however
   * often another thread wins the swap, it goes on with the same record.
   */
  lemma PushEndsTwoWays(s: State, a: Step, u: State, t: Tid)
    requires Inv(s) && Next(s, a) == Some(u)
    ensures !s.P(t).Resting? && u.P(t).Resting? ==>
      || (a == Publish(t) && s.P(t).CopyingIn? && s.P(t).slot in u.published
          && s.P(t).slot < |s.won| && s.won[s.P(t).slot] == s.P(t).entry)
      || (a == CheckRoom(t) && s.P(t).LoadedHead?
          && var d := s.P(t).head - s.tail; (if d < 0 then d + 0x1_0000_0000_0000_0000 else d) >= s.size)
    ensures s.P(t).Resting? && !u.P(t).Resting? ==> a.Call? && a.t == t && Pushing(u.P(t)) == Some(a.entry)
    ensures !s.P(t).Resting? && !u.P(t).Resting? ==> Pushing(u.P(t)) == Pushing(s.P(t))
  {
    hide ConsumerOk;
    hide OccupiedOk;
    hide FreeOk;
    hide PoppedOk;
    hide PublishedOk;
    RecordKept(s, a, u, t);
    if a == Publish(t) || a == CheckRoom(t) {
      assert ProducerOk(s, t);
    }
  }

  /** Only these two steps end a push, and only a call begins one. */
  lemma RecordKept(s: State, a: Step, u: State, t: Tid)
    requires Shaped(s) && Next(s, a) == Some(u)
    ensures !s.P(t).Resting? && u.P(t).Resting? ==> a == Publish(t) || a == CheckRoom(t)
    ensures s.P(t).Resting? && !u.P(t).Resting? ==> a.Call? && a.t == t && Pushing(u.P(t)) == Some(a.entry)
    ensures !s.P(t).Resting? && !u.P(t).Resting? ==> Pushing(u.P(t)) == Pushing(s.P(t))
  {
  }

  /**
   * A pop ends in two ways only: it returns the record it copied, or it found the ring
   * empty, or the oldest slot not ready, and returns nothing.
   */
  lemma PopEndsTwoWays(s: State, a: Step, u: State, t: Tid)
    requires Inv(s) && Next(s, a) == Some(u)
    ensures !s.C(t).Away? && u.C(t).Away? ==>
      a == Unlock(t) && u.popped == s.popped + (if s.C(t).Took? then [s.C(t).buffer] else [])
      && (s.C(t).Took? || s.C(t).Failed?)
    ensures !s.C(t).Failed? && u.C(t).Failed? ==>
      || (a == CheckEmpty(t) && s.head == s.tail)
      || (a == CheckReady(t) && s.tail < s.head && !s.ready[Slot(s.size, s.tail)])
    ensures s.C(t).Away? && !u.C(t).Away? ==> a == TryLock(t) && s.lock == None && u.lock == Some(t)
  {
    assert ConsumerOk(s, t);
  }

  // ----- is the ring empty? -----

  lemma {:induction false} CountersGrow(s: State, steps: seq<Step>, u: State)
    requires Inv(s) && Run(s, steps) == Some(u)
    ensures s.head <= u.head && s.tail <= u.tail
    decreases steps
  {
    if steps != [] {
      var v := Next(s, steps[0]).value;
      StepKeeps(s, steps[0], v);
      TailStep(s, steps[0], v);
      LogStep(s, steps[0], v);
      CountersGrow(v, steps[1..], u);
    }
  }

  /** Loading tail and then head: when they agree the ring was empty at the first load. */
  lemma EmptyWhenTailReadFirst(s: State, steps: seq<Step>, u: State)
    requires Inv(s) && Run(s, steps) == Some(u) && s.tail == u.head
    ensures s.head == s.tail
  {
    CountersGrow(s, steps, u);
  }

  /**
   * Loading head and then tail: when they agree, everything that had won a slot at the
   * first load has left the ring, and pops have returned it but for one entry in hand.
   */
  lemma LeftWhenHeadReadFirst(s: State, steps: seq<Step>, u: State)
    requires Inv(s) && Run(s, steps) == Some(u) && u.tail == s.head
    ensures s.won <= u.won && Queue(u) == u.won[|s.won|..]
    ensures u.popped == s.won ||
      (s.won != [] && u.popped == s.won[..|s.won| - 1] && u.lock.Some? && u.C(u.lock.value) == Took(s.won[|s.won| - 1]))
  {
    hide Inv;
    hide Next;
    Bounds(s);
    RunKeeps(s, steps, u);
    LogsAreEvents(s, steps, u);
    PoppedBehind(u);
    assert s.won == u.won[..u.tail];
  }

  /** Pops have returned what is behind the tail, but for one entry in hand. */
  lemma PoppedBehind(u: State)
    requires Inv(u)
    ensures u.tail <= |u.won|
    ensures u.popped == u.won[..u.tail] ||
      (u.tail > 0 && u.popped == u.won[..u.tail - 1] && u.lock.Some? && u.C(u.lock.value) == Took(u.won[u.tail - 1]))
  {
    if u.lock.Some? {
      assert ConsumerOk(u, u.lock.value);
    }
  }

  /** There is an entry in the ring before and after each of these steps. */
  predicate NeverEmpty(s: State, steps: seq<Step>)
    requires Shaped(s)
    decreases steps
  {
    s.tail < s.head && (steps != [] && Next(s, steps[0]).Some? ==> NeverEmpty(Next(s, steps[0]).value, steps[1..]))
  }

  /** A tail that never reaches the first head leaves the ring occupied. */
  lemma {:induction false} OccupiedThroughout(s: State, steps: seq<Step>, u: State)
    requires Inv(s) && Run(s, steps) == Some(u) && u.tail < s.head
    ensures NeverEmpty(s, steps)
    decreases steps
  {
    CountersGrow(s, steps, u);
    hide ProducerOk;
    hide ConsumerOk;
    hide OccupiedOk;
    hide FreeOk;
    hide PoppedOk;
    hide Next;
    if steps != [] {
      var v := Next(s, steps[0]).value;
      StepKeeps(s, steps[0], v);
      HeadGrows(s, steps[0], v);
      OccupiedThroughout(v, steps[1..], u);
    }
  }

  lemma HeadGrows(s: State, a: Step, u: State)
    requires Inv(s) && Next(s, a) == Some(u)
    ensures s.head <= u.head
  {
    StepKeeps(s, a, u);
    LogStep(s, a, u);
  }

  lemma {:induction false} NeverEmptyConcat(s: State, a: seq<Step>, b: seq<Step>, v: State)
    requires Shaped(s) && Run(s, a) == Some(v) && NeverEmpty(s, a) && NeverEmpty(v, b)
    ensures NeverEmpty(s, a + b)
    decreases a
  {
    hide Next;
    if a == [] {
      assert a + b == b;
    } else {
      assert (a + b)[1..] == a[1..] + b;
      NeverEmptyConcat(Next(s, a[0]).value, a[1..], b, v);
    }
  }

  // ----- a push that runs undisturbed -----

  function Copies(t: Tid, n: nat): seq<Step> {
    if n == 0 then [] else [CopyWord(t)] + Copies(t, n - 1)
  }

  /** One uninterrupted `ring_push`. */
  function PushSteps(t: Tid, entry: Entry): seq<Step> {
    [Call(t, entry)] + Attempt(t, |entry|)
  }

  /** One turn of its loop that wins the swap, and what follows. */
  function Attempt(t: Tid, width: nat): seq<Step> {
    [LoadHead(t), CheckRoom(t), Swap(t)] + Copies(t, width) + [Publish(t)]
  }

  /** The two states differ in one producer and the words of the slots at most. */
  ghost predicate OnlyCopied(s: State, u: State, t: Tid) {
    u == s.(producers := u.producers, ring := u.ring) && forall x: Tid :: x != t ==> u.P(x) == s.P(x)
  }

  lemma {:induction false} CopyAll(s: State, t: Tid, e: Entry, c: nat, k: nat, n: nat) returns (u: State)
    requires Inv(s) && s.P(t) == CopyingIn(e, c, k) && k + n == s.width == |e|
    ensures Run(s, Copies(t, n)) == Some(u) && Inv(u)
    ensures OnlyCopied(s, u, t) && u.P(t) == CopyingIn(e, c, s.width)
    decreases n
  {
    if n == 0 {
      u := s;
    } else {
      var v := CopyOne(s, t, e, c, k);
      hide Inv;
      hide Next;
      u := CopyAll(v, t, e, c, k + 1, n - 1);
      assert Copies(t, n)[1..] == Copies(t, n - 1);
    }
  }

  lemma CopyOne(s: State, t: Tid, e: Entry, c: nat, k: nat) returns (u: State)
    requires Inv(s) && s.P(t) == CopyingIn(e, c, k) && k < s.width == |e|
    ensures Next(s, CopyWord(t)) == Some(u) && Inv(u)
    ensures OnlyCopied(s, u, t) && u.P(t) == CopyingIn(e, c, k + 1)
  {
    u := Next(s, CopyWord(t)).value;
    StepKeeps(s, CopyWord(t), u);
  }

  /** The first steps: find room and win the slot. */
  lemma AttemptBegins(s: State, t: Tid, e: Entry) returns (u: State)
    requires Inv(s) && s.P(t) == Starting(e) && s.head - s.tail < s.size && s.head + 1 < COUNTERS
    ensures Run(s, [LoadHead(t), CheckRoom(t), Swap(t)]) == Some(u) && Inv(u)
    ensures u == s.SetP(t, CopyingIn(e, s.head, 0)).(head := s.head + 1, won := s.won + [e], winner := s.winner + [t])
  {
    hide ProducerOk;
    hide ConsumerOk;
    hide OccupiedOk;
    hide FreeOk;
    hide PoppedOk;
    var s2 := s.SetP(t, LoadedHead(e, s.head));
    var s3 := s2.SetP(t, SawRoom(e, s.head));
    u := s.SetP(t, CopyingIn(e, s.head, 0)).(head := s.head + 1, won := s.won + [e], winner := s.winner + [t]);
    assert Next(s, LoadHead(t)) == Some(s2);
    assert u.producers == s3.producers[t := CopyingIn(e, s.head, 0)];
    assert Next(s2, CheckRoom(t)) == Some(s3) && Next(s3, Swap(t)) == Some(u);
    RunThree(s, LoadHead(t), CheckRoom(t), Swap(t), s2, s3, u);
    RunKeeps(s, [LoadHead(t), CheckRoom(t), Swap(t)], u);
  }

  lemma PushEnds(s: State, t: Tid, e: Entry, c: nat) returns (u: State)
    requires Inv(s) && s.P(t) == CopyingIn(e, c, s.width)
    ensures Run(s, [Publish(t)]) == Some(u) && Inv(u)
    ensures u == s.SetP(t, Resting).(ready := s.ready[Slot(s.size, c) := true], published := s.published + {c})
  {
    u := Next(s, Publish(t)).value;
    StepKeeps(s, Publish(t), u);
    assert Run(u, []) == Some(u) && [Publish(t)][1..] == [];
  }

  /** A turn that runs undisturbed where there is room puts the record behind the others, published. */
  lemma UndisturbedAttempt(s: State, t: Tid, e: Entry) returns (u: State)
    requires Inv(s) && s.P(t) == Starting(e) && s.head - s.tail < s.size && s.head + 1 < COUNTERS
    ensures Run(s, Attempt(t, |e|)) == Some(u) && Inv(u)
    ensures u.head == s.head + 1 && u.tail == s.tail && u.won == s.won + [e] && u.popped == s.popped
    ensures u.lock == s.lock && u.width == s.width && u.size == s.size && u.published == s.published + {s.head}
    ensures u.P(t).Resting? && forall x: Tid :: x != t ==> u.P(x) == s.P(x)
  {
    var v := AttemptBegins(s, t, e);
    RecordFits(s, t);
    hide Inv;
    hide Next;
    var w := CopyAll(v, t, e, s.head, 0, s.width);
    u := PushEnds(w, t, e, s.head);
    forall x: Tid | x != t ensures u.P(x) == s.P(x) {
      assert u.P(x) == w.P(x) == v.P(x);
    }
    var first := [LoadHead(t), CheckRoom(t), Swap(t)];
    RunConcat(s, first, Copies(t, s.width), v);
    RunConcat(s, first + Copies(t, s.width), [Publish(t)], w);
  }

  lemma RecordFits(s: State, t: Tid)
    requires Inv(s) && s.P(t).Starting?
    ensures |s.P(t).entry| == s.width
  {
    assert ProducerOk(s, t);
  }

  /** A push that runs undisturbed where there is room puts its entry behind the others, ready. */
  lemma UndisturbedPush(s: State, t: Tid, e: Entry) returns (u: State)
    requires Inv(s) && s.P(t).Resting? && |e| == s.width
    requires s.head - s.tail < s.size && s.head + 1 < COUNTERS
    ensures Run(s, PushSteps(t, e)) == Some(u) && Inv(u)
    ensures u.head == s.head + 1 && u.tail == s.tail && u.won == s.won + [e] && u.popped == s.popped
    ensures u.lock == s.lock && u.width == s.width && u.size == s.size && u.published == s.published + {s.head}
    ensures forall x: Tid :: u.P(x) == s.P(x)
  {
    hide Run;
    hide Inv;
    hide Attempt;
    Bounds(s);
    var v := s.SetP(t, Starting(e));
    assert Next(s, Call(t, e)) == Some(v);
    StepKeeps(s, Call(t, e), v);
    u := UndisturbedAttempt(v, t, e);
    forall x: Tid ensures u.P(x) == s.P(x) {
      assert x != t ==> u.P(x) == v.P(x);
    }
    RunOne(s, Call(t, e), v);
    RunConcat(s, [Call(t, e)], Attempt(t, |e|), v);
  }

  /** A push that has lost the swap and is disturbed no more puts its record in, where there is room. */
  lemma LostPushSucceeds(s: State, t: Tid) returns (u: State)
    requires Inv(s) && s.P(t).SawRoom? && s.head != s.P(t).head
    requires s.head - s.tail < s.size && s.head + 1 < COUNTERS
    ensures var e := s.P(t).entry;
      && Run(s, [Swap(t)] + Attempt(t, |e|)) == Some(u) && Inv(u)
      && u.won == s.won + [e] && u.published == s.published + {s.head} && u.tail == s.tail
      && u.P(t).Resting? && forall x: Tid :: x != t ==> u.P(x) == s.P(x)
  {
    hide Run;
    hide Inv;
    hide Attempt;
    Bounds(s);
    var e := s.P(t).entry;
    var v := s.SetP(t, Starting(e));
    assert Next(s, Swap(t)) == Some(v);
    StepKeeps(s, Swap(t), v);
    u := UndisturbedAttempt(v, t, e);
    forall x: Tid | x != t ensures u.P(x) == s.P(x) {
      assert u.P(x) == v.P(x);
    }
    RunOne(s, Swap(t), v);
    RunConcat(s, [Swap(t)], Attempt(t, |e|), v);
  }

  /**
   * Head first, the two loads can agree although there was an entry in the ring at every
   * moment between them: one push, and then pops of all that was there before.
   */
  lemma HeadFirstMisleads(s: State, t: Tid, x: Tid, e: Entry) returns (steps: seq<Step>, u: State)
    requires Inv(s) && Quiet(s) && s.P(t).Resting? && |e| == s.width
    requires 0 < s.head - s.tail < s.size && s.head + 1 < COUNTERS
    ensures Run(s, steps) == Some(u) && NeverEmpty(s, steps) && u.tail == s.head
  {
    hide Next;
    hide PopSteps;
    hide PushSteps;
    hide ProducerOk;
    hide ConsumerOk;
    hide OccupiedOk;
    hide FreeOk;
    hide PoppedOk;
    var v := UndisturbedPush(s, t, e);
    QuietIsReady(v, v.tail);
    var n := s.head - s.tail;
    u := PopSome(v, x, n);
    OccupiedThroughout(s, PushSteps(t, e), v);
    OccupiedThroughout(v, Drain(x, s.width, n), u);
    RunConcat(s, PushSteps(t, e), Drain(x, s.width, n), v);
    NeverEmptyConcat(s, PushSteps(t, e), Drain(x, s.width, n), v);
    steps := PushSteps(t, e) + Drain(x, s.width, n);
  }

  /** Such a state is there after the first push into a ring of at least two slots. */
  lemma FirstPushIsEnough(bits: nat, t: Tid, e: Entry) returns (s: State)
    requires 0 < bits && Pow2(bits) <= MAX_SIZE
    ensures Run(Init(bits, |e|), PushSteps(t, e)) == Some(s)
    ensures Inv(s) && Quiet(s) && s.P(t).Resting? && |e| == s.width
    ensures 0 < s.head - s.tail < s.size && s.head + 1 < COUNTERS
  {
    InitHolds(bits, |e|);
    s := UndisturbedPush(Init(bits, |e|), t, e);
  }

  // ----- a consumer left alone empties the ring -----

  function Fetches(t: Tid, n: nat): seq<Step> {
    if n == 0 then [] else [FetchWord(t)] + Fetches(t, n - 1)
  }

  /** One uninterrupted `ring_pop`. */
  function PopSteps(t: Tid, width: nat): seq<Step> {
    [TryLock(t), LoadTail(t), CheckEmpty(t), CheckReady(t)] + Fetches(t, width)
    + [ClearReady(t), StoreTail(t), Unlock(t)]
  }

  lemma {:induction false} RunConcat(s: State, a: seq<Step>, b: seq<Step>, u: State)
    requires Shaped(s) && Run(s, a) == Some(u)
    ensures Run(s, a + b) == Run(u, b)
    decreases a
  {
    if a == [] {
      assert a + b == b;
    } else {
      assert (a + b)[1..] == a[1..] + b;
      RunConcat(Next(s, a[0]).value, a[1..], b, u);
    }
  }

  lemma {:induction false} FetchAll(s: State, t: Tid, n: nat)
    requires Inv(s) && s.C(t).CopyingOut? && |s.C(t).buffer| + n == s.width
    ensures s.tail < s.head
    ensures Run(s, Fetches(t, n)) == Some(s.SetC(t, CopyingOut(s.tail, s.won[s.tail])))
    decreases n
  {
    assert ConsumerOk(s, t);
    var b := s.C(t).buffer;
    if n == 0 {
      assert b == s.won[s.tail];
      assert s.SetC(t, s.C(t)) == s;
    } else {
      var w := CopyingOut(s.tail, b + [s.ring[Slot(s.size, s.tail)][|b|]]);
      var v := s.SetC(t, w);
      assert Next(s, FetchWord(t)) == Some(v);
      StepKeeps(s, FetchWord(t), v);
      FetchAll(v, t, n - 1);
      assert Fetches(t, n)[1..] == Fetches(t, n - 1);
      assert v.SetC(t, CopyingOut(s.tail, s.won[s.tail])) == s.SetC(t, CopyingOut(s.tail, s.won[s.tail]));
    }
  }

  /** The first steps of a pop: lock the ring and find its oldest entry ready. */
  lemma PopBegins(s: State, t: Tid) returns (u: State)
    requires Inv(s) && s.lock == None && s.tail < s.head && s.ready[Slot(s.size, s.tail)]
    ensures Run(s, [TryLock(t), LoadTail(t), CheckEmpty(t), CheckReady(t)]) == Some(u) && Inv(u)
    ensures u == s.SetC(t, CopyingOut(s.tail, [])).(lock := Some(t))
  {
    hide ProducerOk;
    hide OccupiedOk;
    hide FreeOk;
    hide PoppedOk;
    assert ConsumerOk(s, t);
    var s1 := s.SetC(t, Locked).(lock := Some(t));
    var s2 := s1.SetC(t, LoadedTail(s.tail));
    var s3 := s2.SetC(t, SawEntry(s.tail));
    u := s3.SetC(t, CopyingOut(s.tail, []));
    assert Next(s, TryLock(t)) == Some(s1) && Next(s1, LoadTail(t)) == Some(s2);
    assert Next(s2, CheckEmpty(t)) == Some(s3) && Next(s3, CheckReady(t)) == Some(u);
    RunFour(s, TryLock(t), LoadTail(t), CheckEmpty(t), CheckReady(t), s1, s2, s3, u);
    RunKeeps(s, [TryLock(t), LoadTail(t), CheckEmpty(t), CheckReady(t)], u);
  }

  /** The last steps of a pop: release the slot, move the tail, return the copy. */
  lemma PopEnds(s: State, t: Tid, b: Entry) returns (u: State)
    requires Inv(s) && s.C(t) == CopyingOut(s.tail, b) && |b| == s.width
    ensures Run(s, [ClearReady(t), StoreTail(t), Unlock(t)]) == Some(u) && Inv(u)
    ensures u.popped == s.popped + [b] && u.tail == s.tail + 1
    ensures u.lock == None && u.head == s.head && u.won == s.won && u.producers == s.producers && u.width == s.width
    ensures u.size == s.size && u.ready == s.ready[Slot(s.size, s.tail) := false]
  {
    var s1 := s.SetC(t, Cleared(s.tail, b)).(ready := s.ready[Slot(s.size, s.tail) := false]);
    var s2 := s1.SetC(t, Took(b)).(tail := s.tail + 1);
    u := s2.SetC(t, Away).(lock := None, popped := s.popped + [b]);
    assert Next(s, ClearReady(t)) == Some(s1) && Next(s1, StoreTail(t)) == Some(s2) && Next(s2, Unlock(t)) == Some(u);
    RunThree(s, ClearReady(t), StoreTail(t), Unlock(t), s1, s2, u);
    RunKeeps(s, [ClearReady(t), StoreTail(t), Unlock(t)], u);
  }

  /** A pop that runs undisturbed on a ready entry returns the oldest entry and frees its slot. */
  lemma UndisturbedPop(s: State, t: Tid) returns (u: State)
    requires Inv(s) && s.lock == None && s.tail < s.head && s.ready[Slot(s.size, s.tail)]
    ensures Run(s, PopSteps(t, s.width)) == Some(u) && Inv(u)
    ensures u.popped == s.popped + [s.won[s.tail]] && u.tail == s.tail + 1
    ensures u.lock == None && u.head == s.head && u.won == s.won && u.producers == s.producers && u.width == s.width
    ensures u.size == s.size && u.ready == s.ready[Slot(s.size, s.tail) := false]
  {
    var v := PopBegins(s, t);
    var first := [TryLock(t), LoadTail(t), CheckEmpty(t), CheckReady(t)];
    FetchAll(v, t, s.width);
    var w := v.SetC(t, CopyingOut(s.tail, s.won[s.tail]));
    RunConcat(s, first, Fetches(t, s.width), v);
    RunKeeps(v, Fetches(t, s.width), w);
    u := PopEnds(w, t, s.won[s.tail]);
    RunConcat(s, first + Fetches(t, s.width), [ClearReady(t), StoreTail(t), Unlock(t)], w);
  }

  lemma RunThree(s: State, a: Step, b: Step, c: Step, s1: State, s2: State, s3: State)
    requires Shaped(s) && Next(s, a) == Some(s1) && Next(s1, b) == Some(s2) && Next(s2, c) == Some(s3)
    ensures Run(s, [a, b, c]) == Some(s3)
  {
    assert [a, b, c][1..] == [b, c] && [b, c][1..] == [c] && [c][1..] == [];
    assert Run(s3, []) == Some(s3);
    assert Run(s2, [c]) == Some(s3);
    assert Run(s1, [b, c]) == Some(s3);
  }

  lemma RunFour(s: State, a: Step, b: Step, c: Step, d: Step, s1: State, s2: State, s3: State, s4: State)
    requires Shaped(s) && Next(s, a) == Some(s1) && Next(s1, b) == Some(s2)
    requires Next(s2, c) == Some(s3) && Next(s3, d) == Some(s4)
    ensures Run(s, [a, b, c, d]) == Some(s4)
  {
    RunThree(s1, b, c, d, s2, s3, s4);
    assert [a, b, c, d][1..] == [b, c, d];
  }

  function Drain(t: Tid, width: nat, n: nat): seq<Step> {
    if n == 0 then [] else PopSteps(t, width) + Drain(t, width, n - 1)
  }

  // ----- a pop that finds nothing -----

  /** One uninterrupted `ring_pop` that finds the ring empty, or its oldest slot not ready. */
  function RefusedPop(t: Tid, empty: bool): seq<Step> {
    [TryLock(t), LoadTail(t), CheckEmpty(t)] + (if empty then [] else [CheckReady(t)]) + [Unlock(t)]
  }

  lemma RefusalBegins(s: State, t: Tid) returns (u: State)
    requires Inv(s) && s.lock == None
    ensures Run(s, [TryLock(t), LoadTail(t), CheckEmpty(t)]) == Some(u)
    ensures u == s.(lock := Some(t), consumers := u.consumers)
    ensures u.C(t) == if s.tail == s.head then Failed else SawEntry(s.tail)
  {
    assert ConsumerOk(s, t);
    hide Inv;
    var s1 := s.SetC(t, Locked).(lock := Some(t));
    var s2 := s1.SetC(t, LoadedTail(s.tail));
    u := s2.SetC(t, if s.tail == s.head then Failed else SawEntry(s.tail));
    assert Next(s, TryLock(t)) == Some(s1) && Next(s1, LoadTail(t)) == Some(s2) && Next(s2, CheckEmpty(t)) == Some(u);
    RunThree(s, TryLock(t), LoadTail(t), CheckEmpty(t), s1, s2, u);
  }

  lemma UndisturbedRefusal(s: State, t: Tid) returns (u: State)
    requires Inv(s) && s.lock == None && (s.tail < s.head ==> !s.ready[Slot(s.size, s.tail)])
    ensures Run(s, RefusedPop(t, s.tail == s.head)) == Some(u) && u == s.(consumers := u.consumers)
  {
    hide Inv;
    hide Run;
    Bounds(s);
    var v := RefusalBegins(s, t);
    var w := v.SetC(t, Failed);
    u := v.SetC(t, Away).(lock := None);
    assert u == w.SetC(t, Away).(lock := None);
    assert Next(w, Unlock(t)) == Some(u);
    assert s.tail < s.head ==> Next(v, CheckReady(t)) == Some(w);
    assert s.tail == s.head ==> Next(v, Unlock(t)) == Some(u);
    var first := [TryLock(t), LoadTail(t), CheckEmpty(t)];
    if s.tail == s.head {
      RunOne(v, Unlock(t), u);
      assert first + [] == first;
      RunConcat(s, first, [Unlock(t)], v);
    } else {
      RunOne(v, CheckReady(t), w);
      RunOne(w, Unlock(t), u);
      RunConcat(s, first, [CheckReady(t)], v);
      RunConcat(s, first + [CheckReady(t)], [Unlock(t)], w);
    }
  }

  lemma RunOne(s: State, a: Step, u: State)
    requires Shaped(s) && Next(s, a) == Some(u)
    ensures Run(s, [a]) == Some(u)
  {
    assert [a][1..] == [] && Run(u, []) == Some(u);
  }

  // ----- popping until a pop fails -----

  /** The number of counters from `c` on, up to the head, whose slots are ready without a gap. */
  function ReadyAhead(s: State, c: nat): (n: nat)
    requires Shaped(s)
    ensures c <= s.head ==> c + n <= s.head
    ensures c + n < s.head ==> !s.ready[Slot(s.size, c + n)]
    decreases s.head - c
  {
    if c < s.head && s.ready[Slot(s.size, c)] then 1 + ReadyAhead(s, c + 1) else 0
  }

  /** Releasing a slot in front changes none of those behind it. */
  lemma {:induction false} StillReady(s: State, u: State, c: nat)
    requires Shaped(s) && Shaped(u) && s.tail < c && s.head <= s.tail + s.size
    requires u.head == s.head && u.size == s.size && u.ready == s.ready[Slot(s.size, s.tail) := false]
    ensures ReadyAhead(u, c) == ReadyAhead(s, c)
    decreases s.head - c
  {
    hide Slot;
    if c < s.head {
      SlotsDiffer(s.bits, s.tail, c);
      StillReady(s, u, c + 1);
    }
  }

  lemma Bounds(s: State)
    requires Inv(s)
    ensures Shaped(s) && s.tail <= s.head <= s.tail + s.size && |s.won| == s.head
  {
  }

  lemma OneReady(s: State, c: nat)
    requires Shaped(s) && c <= s.head
    ensures c + ReadyAhead(s, c) <= s.head
    ensures ReadyAhead(s, c) > 0 ==>
      c < s.head && s.ready[Slot(s.size, c)] && ReadyAhead(s, c + 1) == ReadyAhead(s, c) - 1
  {
  }

  lemma EmptyRun(s: State)
    requires Shaped(s)
    ensures Run(s, []) == Some(s)
  {
  }

  /** In `u` the next `n` entries have been returned, and nothing else has happened since `s`. */
  ghost predicate Returned(s: State, u: State, n: nat) {
    && s.tail + n <= |s.won| && u.popped == s.popped + s.won[s.tail..s.tail + n] && u.tail == s.tail + n
    && u.lock == None && u.head == s.head && u.won == s.won && u.producers == s.producers
    && u.size == s.size && u.width == s.width
  }

  lemma NothingReturned(s: State)
    requires Inv(s) && s.lock == None
    ensures Returned(s, s, 0)
  {
    assert s.popped + s.won[s.tail..s.tail] == s.popped;
  }

  lemma ReturnedThen(s: State, v: State, u: State, n: nat)
    requires n > 0 && Returned(s, v, 1) && Returned(v, u, n - 1)
    ensures Returned(s, u, n)
  {
    assert s.won[s.tail..s.tail + 1] == [s.won[s.tail]];
    TakenOneByOne(s.popped, s.won, s.tail, s.tail + n);
  }

  lemma PopOne(s: State, t: Tid) returns (u: State)
    requires Inv(s) && s.lock == None && 0 < ReadyAhead(s, s.tail)
    ensures Run(s, PopSteps(t, s.width)) == Some(u) && Inv(u) && Returned(s, u, 1)
    ensures ReadyAhead(u, u.tail) == ReadyAhead(s, s.tail) - 1 && u.lock == None && u.width == s.width
  {
    hide Inv;
    hide Shaped;
    hide Run;
    hide PopSteps;
    hide ReadyAhead;
    hide Slot;
    Bounds(s);
    OneReady(s, s.tail);
    u := UndisturbedPop(s, t);
    Bounds(u);
    StillReady(s, u, u.tail);
    assert s.won[s.tail..s.tail + 1] == [s.won[s.tail]];
  }

  /** As many pops as there are ready entries. */
  lemma {:induction false} PopSome(s: State, t: Tid, n: nat) returns (u: State)
    requires Inv(s) && s.lock == None && n <= ReadyAhead(s, s.tail)
    ensures Run(s, Drain(t, s.width, n)) == Some(u) && Inv(u) && Returned(s, u, n)
    ensures ReadyAhead(u, u.tail) == ReadyAhead(s, s.tail) - n
    decreases n
  {
    hide Inv;
    hide Shaped;
    hide PopSteps;
    hide Run;
    hide ReadyAhead;
    hide Returned;
    Bounds(s);
    if n == 0 {
      EmptyRun(s);
      NothingReturned(s);
      u := s;
    } else {
      var v := PopOne(s, t);
      u := PopSome(v, t, n - 1);
      ReturnedThen(s, v, u, n);
      RunConcat(s, PopSteps(t, s.width), Drain(t, s.width, n - 1), v);
    }
  }

  lemma TakenOneByOne(popped: seq<Entry>, won: seq<Entry>, c: nat, d: nat)
    requires c < d <= |won|
    ensures popped + [won[c]] + won[c + 1..d] == popped + won[c..d]
  {
  }

  /** Pops one after the other, up to and with the first that fails. */
  function Flush(t: Tid, width: nat, n: nat, empty: bool): seq<Step> {
    Drain(t, width, n) + RefusedPop(t, empty)
  }

  /**
   * A flush while every other thread stands still, wherever that is outside a pop: its
   * loop returns the entries up to the first that is not published, in order, and then
   * ends, leaving the others and the ring's counters as they are.
   */
  lemma FlushReturnsReady(s: State, t: Tid) returns (u: State)
    requires Inv(s) && s.lock == None
    ensures s.tail <= s.head
    ensures var n := ReadyAhead(s, s.tail);
      && Run(s, Flush(t, s.width, n, s.tail + n == s.head)) == Some(u)
      && u.popped == s.popped + s.won[s.tail..s.tail + n] && u.tail == s.tail + n
      && u.head == s.head && u.won == s.won && u.producers == s.producers && u.lock == None
  {
    hide ProducerOk;
    hide ConsumerOk;
    hide OccupiedOk;
    hide FreeOk;
    hide PoppedOk;
    hide PopSteps;
    hide RefusedPop;
    hide Next;
    var n := ReadyAhead(s, s.tail);
    var v := PopSome(s, t, n);
    u := UndisturbedRefusal(v, t);
    RunConcat(s, Drain(t, s.width, n), RefusedPop(t, v.tail == v.head), v);
  }

  /** No push is between its swap and its return, and no pop is under way. */
  ghost predicate Quiet(s: State) {
    s.lock == None && forall t: Tid :: !s.P(t).CopyingIn?
  }

  /** With no push between its swap and its return, everything in the ring is ready. */
  lemma {:induction false} QuietIsReady(s: State, c: nat)
    requires Inv(s) && Quiet(s) && s.tail <= c <= s.head
    ensures ReadyAhead(s, c) == s.head - c
    decreases s.head - c
  {
    if c < s.head {
      assert !InFlight(s, c);
      QuietIsReady(s, c + 1);
    }
  }

  /** With the producers at rest, a flush takes out everything that ever went in. */
  lemma FlushReturnsEverything(s: State, t: Tid) returns (u: State)
    requires Inv(s) && Quiet(s)
    ensures s.tail <= s.head && Run(s, Flush(t, s.width, s.head - s.tail, true)) == Some(u)
    ensures u.popped == s.won == u.won && u.tail == u.head == s.head
  {
    hide Run;
    hide ReadyAhead;
    hide Flush;
    QuietIsReady(s, s.tail);
    u := FlushReturnsReady(s, t);
    assert s.popped + s.won[s.tail..s.head] == s.won;
  }
}
