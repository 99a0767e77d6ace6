/** What every interleaving of pushes and pops keeps. */
module LogRingInvariant {
  import opened Bytes
  import opened LogRing

  ghost predicate CountersOk(s: State) {
    && Shaped(s)
    && s.tail <= s.head <= s.tail + s.size && s.head < COUNTERS
    && |s.won| == s.head && |s.winner| == s.head
    && forall c :: 0 <= c < s.head ==> |s.won[c]| == s.width
  }

  /** Counter `c` is held by the producer that won it and has not published it yet. */
  predicate InFlight(s: State, c: nat)
    requires c < |s.winner|
  {
    var p := s.P(s.winner[c]);
    p.CopyingIn? && p.slot == c
  }

  ghost predicate ProducerOk(s: State, t: Tid)
    requires CountersOk(s)
  {
    match s.P(t)
    case Resting => true
    case Starting(e) => |e| == s.width
    case LoadedHead(e, h) => |e| == s.width && h <= s.head
    // A stale view of the ring is harmless: it only matters while head is still `h`.
    case SawRoom(e, h) => |e| == s.width && h <= s.head && (h == s.head ==> s.head - s.tail < s.size)
    case CopyingIn(e, c, k) =>
      && s.tail <= c < s.head && s.winner[c] == t && s.won[c] == e && k <= s.width
      && !s.ready[Slot(s.size, c)] && s.ring[Slot(s.size, c)][..k] == e[..k]
      && c !in s.published
  }

  /** The slots of the occupied counters: written and ready, or still owned by their producer. */
  ghost predicate OccupiedOk(s: State)
    requires CountersOk(s)
  {
    forall c :: s.tail <= c < s.head ==>
      && (s.ready[Slot(s.size, c)] ==> s.ring[Slot(s.size, c)] == s.won[c] && c in s.published)
      && (!s.ready[Slot(s.size, c)] ==> InFlight(s, c) || Retiring(s, c))
  }

  /** The consumer in charge has cleared the slot of `c` and not moved the tail yet. */
  predicate Retiring(s: State, c: nat) {
    s.lock.Some? && s.C(s.lock.value).Cleared? && s.C(s.lock.value).tail == c
  }

  ghost predicate FreeOk(s: State)
    requires CountersOk(s)
  {
    forall c :: s.head <= c < s.tail + s.size ==> !s.ready[Slot(s.size, c)]
  }

  ghost predicate PublishedOk(s: State) {
    forall c :: c in s.published ==> c < s.head
  }

  ghost predicate ConsumerOk(s: State, t: Tid)
    requires CountersOk(s)
  {
    && (s.C(t).Away? <==> s.lock != Some(t))
    && match s.C(t)
       case Away => true
       case Locked => true
       case Failed => true
       case LoadedTail(tl) => tl == s.tail
       case SawEntry(tl) => tl == s.tail && tl < s.head
       case CopyingOut(tl, b) =>
         && tl == s.tail && tl < s.head && s.ready[Slot(s.size, tl)]
         && |b| <= s.width && b == s.won[tl][..|b|]
       case Cleared(tl, b) =>
         && tl == s.tail && tl < s.head && !s.ready[Slot(s.size, tl)] && b == s.won[tl] && tl in s.published
       case Took(b) => s.tail > 0 && b == s.won[s.tail - 1]
  }

  /** Pops have returned the first entries in winning order; a pop about to return holds the last of them. */
  ghost predicate PoppedOk(s: State)
    requires CountersOk(s)
  {
    if s.lock.Some? && s.C(s.lock.value).Took?
    then s.tail > 0 && s.popped == s.won[..s.tail - 1]
    else s.popped == s.won[..s.tail]
  }

  ghost predicate Inv(s: State) {
    && CountersOk(s)
    && (forall t: Tid :: ProducerOk(s, t))
    && OccupiedOk(s) && FreeOk(s) && PublishedOk(s)
    && (forall t: Tid :: ConsumerOk(s, t))
    && PoppedOk(s)
  }

  // ----- slots of nearby counters differ -----

  lemma RemaindersDiffer(n: nat, a: nat, b: nat)
    requires n > 0 && a < b < a + n
    ensures a % n != b % n
  {
    var d := b / n - a / n;
    assert a == n * (a / n) + a % n;
    assert b == n * (b / n) + b % n;
    assert n * (b / n) - n * (a / n) == n * d;
    assert d <= 0 ==> n * d <= 0;
    assert d >= 1 ==> n * d >= n;
  }

  lemma RemainderWraps(n: nat, a: nat)
    requires n > 0
    ensures (a + n) % n == a % n
  {
    assert n * (a / n + 1) == n * (a / n) + n;
    RemainderUnique(a + n, n, a / n + 1, a % n);
  }

  lemma SlotsDiffer(bits: nat, a: nat, b: nat)
    requires a < b < a + Pow2(bits)
    ensures Slot(Pow2(bits), a) != Slot(Pow2(bits), b)
  {
    MaskIsRemainder(a, bits);
    MaskIsRemainder(b, bits);
    RemaindersDiffer(Pow2(bits), a, b);
  }

  lemma SlotWraps(bits: nat, a: nat)
    ensures Slot(Pow2(bits), a + Pow2(bits)) == Slot(Pow2(bits), a)
  {
    MaskIsRemainder(a, bits);
    MaskIsRemainder(a + Pow2(bits), bits);
    RemainderWraps(Pow2(bits), a);
  }

  /** Within one window of `size` counters every counter has its own slot. */
  lemma WindowSlots(bits: nat, size: nat, from: nat)
    requires size == Pow2(bits)
    ensures forall a, b {:trigger Slot(size, a), Slot(size, b)} :: from <= a < b < from + size ==>
      Slot(size, a) != Slot(size, b)
    ensures Slot(size, from + size) == Slot(size, from)
  {
    forall a, b {:trigger Slot(size, a), Slot(size, b)} | from <= a < b < from + size
      ensures Slot(size, a) != Slot(size, b)
    {
      SlotsDiffer(bits, a, b);
    }
    SlotWraps(bits, from);
  }

  lemma InitHolds(bits: nat, width: nat)
    requires Pow2(bits) <= MAX_SIZE
    ensures Inv(Init(bits, width))
  {
  }

  // ----- steps that change only the thread that takes them -----

  /** A step of one producer that touches nothing shared. */
  lemma ProducerMoves(s: State, t: Tid, p: Producer)
    requires Inv(s)
    requires !s.P(t).CopyingIn? && !p.CopyingIn?
    requires ProducerOk(s.SetP(t, p), t)
    ensures Inv(s.SetP(t, p))
  {
    var u := s.SetP(t, p);
    forall x: Tid ensures ProducerOk(u, x) {
      assert ProducerOk(s, x);
    }
    forall x: Tid ensures ConsumerOk(u, x) {
      assert ConsumerOk(s, x);
    }
    assert forall c :: s.tail <= c < s.head && InFlight(s, c) ==> InFlight(u, c);
  }

  lemma CallKeeps(s: State, a: Step, u: State)
    requires Inv(s) && (a.Call? || a.LoadHead? || a.CheckRoom?) && Next(s, a) == Some(u)
    ensures Inv(u)
  {
    assert ProducerOk(s, a.t);
    ProducerMoves(s, a.t, u.P(a.t));
    assert u == s.SetP(a.t, u.P(a.t));
  }

  lemma SwapThreads(s: State, a: Step, u: State)
    requires Inv(s) && a.Swap? && Next(s, a) == Some(u) && u.P(a.t).CopyingIn?
    ensures s.head - s.tail < s.size
    ensures CountersOk(u) && (forall t: Tid :: ProducerOk(u, t)) && (forall t: Tid :: ConsumerOk(u, t))
  {
    WindowSlots(s.bits, s.size, s.tail);
    assert ProducerOk(s, a.t);
    forall x: Tid ensures ProducerOk(u, x) {
      assert ProducerOk(s, x);
    }
    forall x: Tid ensures ConsumerOk(u, x) {
      assert ConsumerOk(s, x);
    }
  }

  /** Winning the swap: the check made earlier still stands, so the slot is free. */
  lemma SwapWins(s: State, a: Step, u: State)
    requires Inv(s) && a.Swap? && Next(s, a) == Some(u) && u.P(a.t).CopyingIn?
    ensures Inv(u)
    ensures s.head - s.tail < s.size && !s.ready[Slot(s.size, s.head)]
  {
    SwapThreads(s, a, u);
    WindowSlots(s.bits, s.size, s.tail);
    assert ProducerOk(s, a.t);
    forall c | u.tail <= c < u.head
      ensures !u.ready[Slot(u.size, c)] ==> InFlight(u, c) || Retiring(u, c)
    {
      if c < s.head {
        assert InFlight(s, c) ==> InFlight(u, c);
      } else {
        assert InFlight(u, c);
      }
    }
  }

  lemma SwapKeeps(s: State, a: Step, u: State)
    requires Inv(s) && a.Swap? && Next(s, a) == Some(u)
    ensures Inv(u)
  {
    if u.P(a.t).CopyingIn? {
      SwapWins(s, a, u);
    } else {
      assert ProducerOk(s, a.t);
      ProducerMoves(s, a.t, u.P(a.t));
      assert u == s.SetP(a.t, u.P(a.t));
    }
  }

  lemma CopyWordThreads(s: State, a: Step, u: State)
    requires Inv(s) && a.CopyWord? && Next(s, a) == Some(u)
    ensures CountersOk(u) && (forall t: Tid :: ProducerOk(u, t)) && (forall t: Tid :: ConsumerOk(u, t))
  {
    WindowSlots(s.bits, s.size, s.tail);
    assert ProducerOk(s, a.t);
    forall x: Tid ensures ProducerOk(u, x) {
      assert ProducerOk(s, x);
    }
    forall x: Tid ensures ConsumerOk(u, x) {
      assert ConsumerOk(s, x);
    }
  }

  lemma CopyWordKeeps(s: State, a: Step, u: State)
    requires Inv(s) && a.CopyWord? && Next(s, a) == Some(u)
    ensures Inv(u)
  {
    CopyWordThreads(s, a, u);
    WindowSlots(s.bits, s.size, s.tail);
    assert ProducerOk(s, a.t);
    assert forall c :: s.tail <= c < s.head && InFlight(s, c) ==> InFlight(u, c);
  }

  lemma PublishThreads(s: State, a: Step, u: State)
    requires Inv(s) && a.Publish? && Next(s, a) == Some(u)
    ensures CountersOk(u) && (forall t: Tid :: ProducerOk(u, t)) && (forall t: Tid :: ConsumerOk(u, t))
  {
    WindowSlots(s.bits, s.size, s.tail);
    assert ProducerOk(s, a.t);
    forall x: Tid ensures ProducerOk(u, x) {
      assert ProducerOk(s, x);
    }
    forall x: Tid ensures ConsumerOk(u, x) {
      assert ConsumerOk(s, x);
    }
  }

  lemma PublishKeeps(s: State, a: Step, u: State)
    requires Inv(s) && a.Publish? && Next(s, a) == Some(u)
    ensures Inv(u)
  {
    PublishThreads(s, a, u);
    WindowSlots(s.bits, s.size, s.tail);
    assert ProducerOk(s, a.t);
    var h := s.P(a.t).slot;
    forall c | u.tail <= c < u.head
      ensures u.ready[Slot(u.size, c)] ==> u.ring[Slot(u.size, c)] == u.won[c] && c in u.published
      ensures !u.ready[Slot(u.size, c)] ==> InFlight(u, c) || Retiring(u, c)
    {
      if c == h {
        assert u.ring[Slot(u.size, c)][..u.width] == u.won[c];
      } else {
        assert c < h ==> Slot(s.size, c) != Slot(s.size, h);
        assert h < c ==> Slot(s.size, h) != Slot(s.size, c);
        assert InFlight(s, c) ==> InFlight(u, c);
        assert Retiring(s, c) ==> Retiring(u, c);
      }
    }
  }

  // ----- consumer steps -----

  lemma ConsumerMoves(s: State, a: Step, u: State)
    requires Inv(s) && (a.TryLock? || a.LoadTail? || a.CheckEmpty? || a.CheckReady? || a.FetchWord?)
    requires Next(s, a) == Some(u)
    ensures Inv(u)
  {
    assert ConsumerOk(s, a.t);
    forall x: Tid ensures ProducerOk(u, x) {
      assert ProducerOk(s, x);
    }
    forall x: Tid ensures ConsumerOk(u, x) {
      assert ConsumerOk(s, x);
    }
    assert forall c :: s.tail <= c < s.head && InFlight(s, c) ==> InFlight(u, c);
  }

  lemma UnlockKeeps(s: State, a: Step, u: State)
    requires Inv(s) && a.Unlock? && Next(s, a) == Some(u)
    ensures Inv(u)
  {
    assert ConsumerOk(s, a.t);
    forall x: Tid ensures ProducerOk(u, x) {
      assert ProducerOk(s, x);
    }
    forall x: Tid ensures ConsumerOk(u, x) {
      assert ConsumerOk(s, x);
    }
    assert forall c :: s.tail <= c < s.head && InFlight(s, c) ==> InFlight(u, c);
  }

  lemma ClearReadyKeeps(s: State, a: Step, u: State)
    requires Inv(s) && a.ClearReady? && Next(s, a) == Some(u)
    ensures Inv(u)
  {
    WindowSlots(s.bits, s.size, s.tail);
    assert ConsumerOk(s, a.t);
    forall x: Tid ensures ProducerOk(u, x) {
      assert ProducerOk(s, x);
    }
    forall x: Tid ensures ConsumerOk(u, x) {
      assert ConsumerOk(s, x);
    }
    assert forall c :: s.tail <= c < s.head && InFlight(s, c) ==> InFlight(u, c);
  }

  lemma StoreTailKeeps(s: State, a: Step, u: State)
    requires Inv(s) && a.StoreTail? && Next(s, a) == Some(u)
    ensures Inv(u)
  {
    WindowSlots(s.bits, s.size, s.tail);
    assert ConsumerOk(s, a.t);
    forall x: Tid ensures ProducerOk(u, x) {
      assert ProducerOk(s, x);
    }
    forall x: Tid ensures ConsumerOk(u, x) {
      assert ConsumerOk(s, x);
    }
    assert forall c :: s.tail <= c < s.head && InFlight(s, c) ==> InFlight(u, c);
  }
}
