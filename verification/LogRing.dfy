/**
 * The log ring as a state machine: any number of producers and consumers, one
 * atomic load, store, compare-and-swap, lock operation or copied word a step.
 */
module LogRing {
  import opened Bytes

  type Tid = nat

  /** A log record is a fixed number of words, copied one word at a time. */
  type Entry = seq<int>

  /** The largest power of two in a signed 32-bit size. */
  const MAX_SIZE := 0x4000_0000

  const COUNTERS := 0x1_0000_0000_0000_0000

  /** Where a thread stands inside `ring_push`. */
  datatype Producer =
    | Resting
    | Starting(entry: Entry)
    | LoadedHead(entry: Entry, head: nat)
    | SawRoom(entry: Entry, head: nat)
    | CopyingIn(entry: Entry, slot: nat, words: nat)

  /** Where a thread stands inside `ring_pop`. */
  datatype Consumer =
    | Away
    | Locked
    | LoadedTail(tail: nat)
    | SawEntry(tail: nat)
    | CopyingOut(tail: nat, buffer: Entry)
    | Cleared(tail: nat, buffer: Entry)
    | Took(buffer: Entry)
    | Failed

  /**
   * Shared memory, the threads and three logs: the entries in the order their
   * compare-and-swap won, who won each counter, and what pops have returned.
   */
  datatype State = State(
    bits: nat, size: nat, width: nat,
    head: nat, tail: nat, ring: seq<Entry>, ready: seq<bool>, lock: Option<Tid>,
    producers: map<Tid, Producer>, consumers: map<Tid, Consumer>,
    won: seq<Entry>, winner: seq<Tid>, published: set<nat>, popped: seq<Entry>)
  {
    function P(t: Tid): Producer {
      if t in producers then producers[t] else Resting
    }

    function C(t: Tid): Consumer {
      if t in consumers then consumers[t] else Away
    }

    function SetP(t: Tid, p: Producer): State {
      this.(producers := producers[t := p])
    }

    function SetC(t: Tid, c: Consumer): State {
      this.(consumers := consumers[t := c])
    }
  }

  datatype Step =
    | Call(t: Tid, entry: Entry)
    | LoadHead(t: Tid)
    | CheckRoom(t: Tid)
    | Swap(t: Tid)
    | CopyWord(t: Tid)
    | Publish(t: Tid)
    | TryLock(t: Tid)
    | LoadTail(t: Tid)
    | CheckEmpty(t: Tid)
    | CheckReady(t: Tid)
    | FetchWord(t: Tid)
    | ClearReady(t: Tid)
    | StoreTail(t: Tid)
    | Unlock(t: Tid)

  // ----- the slot of a counter -----

  /** Bitwise and of two naturals. */
  function And(x: nat, y: nat): (z: nat)
    ensures z <= y
  {
    if x == 0 || y == 0 then 0
    else 2 * And(x / 2, y / 2) + (if x % 2 == 1 && y % 2 == 1 then 1 else 0)
  }

  /** Masking with a power of two less one is the remainder by that power. */
  lemma {:induction false} MaskIsRemainder(x: nat, k: nat)
    ensures And(x, Pow2(k) - 1) == x % Pow2(k)
  {
    if k > 0 {
      var m := Pow2(k - 1);
      MaskIsRemainder(x / 2, k - 1);
      assert (2 * m - 1) / 2 == m - 1;
      assert x / 2 % m == x / 2 - m * (x / 2 / m);
      HalfRemainder(x, m);
      if x == 0 || m == 1 {
        assert m == 1 ==> And(x / 2, 0) == 0;
      }
    }
  }

  lemma HalfRemainder(x: nat, m: nat)
    requires m > 0
    ensures x % (2 * m) == 2 * (x / 2 % m) + x % 2
  {
    var q, r := x / 2 / m, x / 2 % m;
    assert x == 2 * (m * q + r) + x % 2;
    assert x == (2 * m) * q + (2 * r + x % 2);
    RemainderUnique(x, 2 * m, q, 2 * r + x % 2);
  }

  lemma RemainderUnique(x: int, n: int, q: int, r: int)
    requires n > 0 && x == n * q + r && 0 <= r < n
    ensures x % n == r && x / n == q
  {
    var d := x / n - q;
    assert n * d == r - x % n by {
      assert x == n * (x / n) + x % n;
      assert n * (x / n - q) == n * (x / n) - n * q;
    }
    assert d > 0 ==> n * d >= n;
    assert d < 0 ==> n * d <= -n;
  }

  lemma {:induction false} PowersGrow(j: nat, k: nat)
    ensures Pow2(j) < Pow2(k) ==> j < k
  {
    if j >= k && k > 0 {
      PowersGrow(j - 1, k - 1);
    }
  }

  /**
   * The rounded-up ring size: the least power of two not below the request, unless the
   * doubling leaves the signed 32-bit range.
   */
  method RingSize(size: int) returns (realSize: int, overflows: bool, ghost k: nat)
    ensures overflows <==> size > MAX_SIZE
    ensures !overflows ==> size <= realSize == Pow2(k) <= MAX_SIZE && (k > 0 ==> Pow2(k - 1) < size)
  {
    realSize, overflows, k := 1, false, 0;
    assert Pow2(10) == 1024 && Pow2(20) == 1024 * 1024 && Pow2(30) == MAX_SIZE;
    while realSize < size
      invariant realSize == Pow2(k) <= MAX_SIZE
      invariant k > 0 ==> Pow2(k - 1) < size
      decreases size - realSize
    {
      if realSize > 0x7FFF_FFFF / 2 {
        PowersGrow(k, 30);
        PowersGrow(30, k);
        return realSize, true, k;
      }
      PowersGrow(k, 30);
      Pow2Grows(k + 1, 30);
      realSize, k := 2 * realSize, k + 1;
    }
  }

  /** `counter & mask`, where the mask is one less than the size. */
  function Slot(size: nat, counter: nat): (i: nat)
    requires size > 0
    ensures i < size
  {
    And(counter, size - 1)
  }

  // ----- one step -----

  function Init(bits: nat, width: nat): (s: State)
    requires Pow2(bits) <= MAX_SIZE
    ensures Shaped(s)
  {
    var size := Pow2(bits);
    State(bits, size, width, 0, 0, seq(size, _ => seq(width, _ => 0)), seq(size, _ => false), None,
          map[], map[], [], [], {}, [])
  }

  /** The occupied count as unsigned 64-bit subtraction gives it. */
  function Occupied(head: nat, tail: nat): nat {
    (head - tail) % COUNTERS
  }

  predicate Shaped(s: State) {
    s.size == Pow2(s.bits) && s.size <= MAX_SIZE && |s.ring| == s.size && |s.ready| == s.size
    && forall i :: 0 <= i < s.size ==> |s.ring[i]| == s.width
  }

  /** Producer steps. */
  function Push(s: State, a: Step): (r: Option<State>)
    requires Shaped(s)
    ensures r.Some? ==> Shaped(r.value)
  {
    var t := a.t;
    match (a, s.P(t))
    case (Call(_, e), Resting) =>
      if |e| == s.width then Some(s.SetP(t, Starting(e))) else None
    case (LoadHead(_), Starting(e)) =>
      Some(s.SetP(t, LoadedHead(e, s.head)))
    case (CheckRoom(_), LoadedHead(e, h)) =>
      Some(s.SetP(t, if Occupied(h, s.tail) >= s.size then Resting else SawRoom(e, h)))
    case (Swap(_), SawRoom(e, h)) =>
      if s.head != h then Some(s.SetP(t, Starting(e)))
      else if h + 1 == COUNTERS then None
      else Some(s.SetP(t, CopyingIn(e, h, 0)).(head := h + 1, won := s.won + [e], winner := s.winner + [t]))
    case (CopyWord(_), CopyingIn(e, h, k)) =>
      if k >= s.width || |e| != s.width then None else
      var i := Slot(s.size, h);
      Some(s.SetP(t, CopyingIn(e, h, k + 1)).(ring := s.ring[i := s.ring[i][k := e[k]]]))
    case (Publish(_), CopyingIn(e, h, k)) =>
      if k < s.width then None
      else Some(s.SetP(t, Resting).(ready := s.ready[Slot(s.size, h) := true], published := s.published + {h}))
    case _ => None
  }

  /** Consumer steps. */
  function Pop(s: State, a: Step): (r: Option<State>)
    requires Shaped(s)
    ensures r.Some? ==> Shaped(r.value)
  {
    var t := a.t;
    match (a, s.C(t))
    case (TryLock(_), Away) =>
      if s.lock.Some? then Some(s) else Some(s.SetC(t, Locked).(lock := Some(t)))
    case (LoadTail(_), Locked) =>
      Some(s.SetC(t, LoadedTail(s.tail)))
    case (CheckEmpty(_), LoadedTail(tl)) =>
      Some(s.SetC(t, if tl == s.head then Failed else SawEntry(tl)))
    case (CheckReady(_), SawEntry(tl)) =>
      Some(s.SetC(t, if s.ready[Slot(s.size, tl)] then CopyingOut(tl, []) else Failed))
    case (FetchWord(_), CopyingOut(tl, b)) =>
      if |b| >= s.width then None
      else Some(s.SetC(t, CopyingOut(tl, b + [s.ring[Slot(s.size, tl)][|b|]])))
    case (ClearReady(_), CopyingOut(tl, b)) =>
      if |b| < s.width then None
      else Some(s.SetC(t, Cleared(tl, b)).(ready := s.ready[Slot(s.size, tl) := false]))
    case (StoreTail(_), Cleared(tl, b)) =>
      Some(s.SetC(t, Took(b)).(tail := tl + 1))
    case (Unlock(_), Took(b)) =>
      Some(s.SetC(t, Away).(lock := None, popped := s.popped + [b]))
    case (Unlock(_), Failed) =>
      Some(s.SetC(t, Away).(lock := None))
    case _ => None
  }

  predicate IsPush(a: Step) {
    a.Call? || a.LoadHead? || a.CheckRoom? || a.Swap? || a.CopyWord? || a.Publish?
  }

  /** The state after a step, if the thread can take it. */
  function Next(s: State, a: Step): (r: Option<State>)
    requires Shaped(s)
    ensures r.Some? ==> Shaped(r.value)
  {
    if IsPush(a) then Push(s, a) else Pop(s, a)
  }

  // ----- runs -----

  /** The state after a sequence of steps, if every step can be taken in turn. */
  function Run(s: State, steps: seq<Step>): (r: Option<State>)
    requires Shaped(s)
    ensures r.Some? ==> Shaped(r.value)
    decreases steps
  {
    if steps == [] then Some(s) else
    match Next(s, steps[0])
    case None => None
    case Some(u) => Run(u, steps[1..])
  }

  /** The entry that enters the ring with this step: a compare-and-swap that succeeds. */
  function Entering(s: State, a: Step): seq<Entry> {
    if a.Swap? && s.P(a.t).SawRoom? && s.head == s.P(a.t).head then [s.P(a.t).entry] else []
  }

  /** The entry that a pop hands to its caller with this step. */
  function Leaving(s: State, a: Step): seq<Entry> {
    if a.Unlock? && s.C(a.t).Took? then [s.C(a.t).buffer] else []
  }

  /** Entries in the order their compare-and-swap won. */
  function Entered(s: State, steps: seq<Step>): seq<Entry>
    requires Shaped(s)
    decreases steps
  {
    if steps == [] || Next(s, steps[0]).None? then []
    else Entering(s, steps[0]) + Entered(Next(s, steps[0]).value, steps[1..])
  }

  /** Entries in the order pops returned them. */
  function Left(s: State, steps: seq<Step>): seq<Entry>
    requires Shaped(s)
    decreases steps
  {
    if steps == [] || Next(s, steps[0]).None? then []
    else Leaving(s, steps[0]) + Left(Next(s, steps[0]).value, steps[1..])
  }
}
