/**
 What a transmit queue zeroed while the kernel's head is 0 does from then on: it reaps one
 descriptor behind the NIC for ever, and the first mbuf stays in its slot.
 */
module TxBehind {
  import opened Ring
  import opened TxRing

  /** What the slot of position `p` holds: the first mbuf once more, if position `n` did not overwrite it. */
  function Holds(owners: seq<Mbuf>, n: nat, p: nat): Mbuf {
    var own := if p < |owners| then owners[p] else NULL;
    if p == n && own == NULL && owners != [] then owners[0] else own
  }

  /** What the walk found at the positions after the first. */
  function Taken(owners: seq<Mbuf>, n: nat, reaped: nat): seq<Mbuf> {
    seq(reaped, i requires 0 <= i < reaped => Holds(owners, n, i + 1))
  }

  ghost predicate SlotsHold(s: State)
    requires Shaped(s)
  {
    forall p | s.reaped < p <= s.reaped + s.N() :: s.inflight[At(s, p)] == Holds(s.owners, s.N(), p)
  }

  /** The counts of `TxRing.Inv` with one position not reaped although it is finished. */
  ghost predicate OneShort(s: State) {
    var posted := |s.owners|;
    && Shaped(s)
    && s.reaped <= s.done <= s.rung <= posted && (0 < s.done ==> s.reaped < s.done)
    && s.count == posted - s.reaped <= s.N() - RESERVE
    && s.head == At(s, posted)
    && s.lastFreed == At(s, s.reaped)
    && (forall i | 0 <= i < |s.events| :: s.reaped < s.events[i] <= s.done)
    && (forall i, j | 0 <= i < j < |s.events| :: s.events[i] <= s.events[j])
  }

  ghost predicate Behind(s: State) {
    OneShort(s) && SlotsHold(s) && s.freed == Mbufs(Taken(s.owners, s.N(), s.reaped))
  }

  lemma ZeroedIsBehind(k: nat, base: nat)
    requires k <= 16 && RESERVE <= Pow2(k) && Slot(base, Pow2(k)) == 0
    ensures Behind(Idle(k, base, 0))
  {}

  lemma PostedBehind(s: State, m: Mbuf)
    requires Behind(s) && s.count < s.N() - RESERVE
    ensures Behind(Posted(s, m))
  {
    PostedCounts(s, m);
    PostedSlots(s, m);
    assert Taken(s.owners + [m], s.N(), s.reaped) == Taken(s.owners, s.N(), s.reaped);
  }

  lemma PostedCounts(s: State, m: Mbuf)
    requires OneShort(s) && s.count < s.N() - RESERVE
    ensures OneShort(Posted(s, m))
  {
    SlotAdd(s.base + |s.owners|, 1, s.N());
  }

  lemma PostedSlots(s: State, m: Mbuf)
    requires Shaped(s) && SlotsHold(s) && s.head == At(s, |s.owners|)
    requires s.reaped <= |s.owners| < s.reaped + s.N() && (s.owners == [] || s.reaped < |s.owners|)
    ensures SlotsHold(Posted(s, m))
  {
    var posted, n, s' := |s.owners|, s.N(), Posted(s, m);
    SlotPeriod(s.base, 1, n);
    forall p | s.reaped < p <= s.reaped + n
      ensures s'.inflight[At(s', p)] == Holds(s'.owners, n, p)
    {
      assert At(s', p) == At(s, p);
      if p < posted {
        SlotDistinct(s.base + p, s.base + posted, n);
      } else if posted < p < posted + n {
        SlotDistinct(s.base + posted, s.base + p, n);
      }
    }
  }

  lemma ReapOneBehind(s: State)
    requires Behind(s) && s.reaped + 1 < s.done
    requires forall i | 0 <= i < |s.events| :: s.reaped + 1 < s.events[i]
    ensures Behind(ReapOne(s))
  {
    ReapedCounts(s);
    ReapedSlots(s);
    ReapedFrees(s);
  }

  lemma ReapedCounts(s: State)
    requires OneShort(s) && s.reaped + 1 < s.done
    requires forall i | 0 <= i < |s.events| :: s.reaped + 1 < s.events[i]
    ensures OneShort(ReapOne(s))
  {
    SlotAdd(s.base + s.reaped, 1, s.N());
  }

  lemma ReapedFrees(s: State)
    requires Shaped(s) && SlotsHold(s) && s.lastFreed == At(s, s.reaped)
    requires s.freed == Mbufs(Taken(s.owners, s.N(), s.reaped))
    ensures ReapOne(s).freed == Mbufs(Taken(s.owners, s.N(), s.reaped + 1))
  {
    var n, p := s.N(), s.reaped + 1;
    SlotAdd(s.base + s.reaped, 1, n);
    assert s.inflight[At(s, p)] == Holds(s.owners, n, p);
    var taken := Taken(s.owners, n, p);
    assert taken[..p - 1] == Taken(s.owners, n, s.reaped) && taken[p - 1] == Holds(s.owners, n, p);
  }

  lemma ReapedSlots(s: State)
    requires Shaped(s) && SlotsHold(s) && s.lastFreed == At(s, s.reaped) && s.reaped + 1 < |s.owners| <= s.reaped + s.N()
    ensures SlotsHold(ReapOne(s))
  {
    var n, p0, s' := s.N(), s.reaped + 1, ReapOne(s);
    SlotAdd(s.base + s.reaped, 1, n);
    SlotPeriod(s.base + p0, 1, n);
    forall p | p0 < p <= p0 + n
      ensures s'.inflight[At(s', p)] == Holds(s'.owners, n, p)
    {
      assert At(s', p) == At(s, p);
      if p < p0 + n {
        SlotDistinct(s.base + p0, s.base + p, n);
      }
    }
  }

  /** The walk ends one position short of the event's count. */
  lemma {:induction false} ReapBehind(s: State, upTo: nat)
    requires Behind(s) && s.reaped < upTo <= s.done
    requires forall i | 0 <= i < |s.events| :: upTo <= s.events[i]
    ensures var s' := Reap(s, Slot(EventIndex(s.base, upTo), s.N())); Behind(s') && s'.reaped == upTo - 1 && s'.done == s.done
    decreases upTo - s.reaped
  {
    var target := Slot(EventIndex(s.base, upTo), s.N());
    WalkTarget(s, upTo);
    if s.reaped == upTo - 1 {
      ReapDone(s, target);
    } else {
      ReapOneBehind(s);
      ReapNext(s, target);
      ReapBehind(ReapOne(s), upTo);
    }
  }

  lemma WalkTarget(s: State, upTo: nat)
    requires OneShort(s) && s.reaped < upTo <= s.done
    ensures Slot(EventIndex(s.base, upTo), s.N()) == s.lastFreed <==> s.reaped == upTo - 1
  {
    SlotOfTruncated(s.base + upTo - 1, s.k);
    if s.reaped < upTo - 1 {
      SlotDistinct(s.base + s.reaped, s.base + upTo - 1, s.N());
    }
  }

  lemma OtherBehind(s: State, s': State)
    requires Behind(s) && s' == s.(rung := s'.rung, done := s'.done, events := s'.events)
    requires s.done <= s'.done <= s'.rung <= |s.owners|
    requires forall i | 0 <= i < |s'.events| :: s.reaped < s'.events[i] <= s'.done
    requires forall i, j | 0 <= i < j < |s'.events| :: s'.events[i] <= s'.events[j]
    ensures Behind(s')
  {
    assert forall p: nat :: At(s', p) == At(s, p);
  }

  lemma StepBehind(s: State, step: Step)
    requires Behind(s) && Enabled(s, step) && (step.Post? ==> Counted(step.pkt))
    ensures Behind(Apply(s, step))
    ensures step.ReapEvent? ==> Apply(s, step).reaped == s.events[0] - 1
  {
    match step
    case Post(pkt, copyMode) =>
      TransmitBehind(s, pkt, copyMode);
    case Flush => OtherBehind(s, Apply(s, step));
    case NicFinish(more) => OtherBehind(s, Apply(s, step));
    case NicEvent => OtherBehind(s, Apply(s, step));
    case ReapEvent => ReapEventBehind(s);
  }

  lemma TransmitBehind(s: State, pkt: Packet, copyMode: bool)
    requires Behind(s) && Counted(pkt)
    ensures Behind(Transmit(s, pkt, copyMode))
  {
    if Judge(s, pkt) == Sent {
      PostedBehind(s, if Copies(pkt, copyMode) then NULL else pkt.m);
    }
  }

  lemma ReapEventBehind(s: State)
    requires Behind(s) && s.events != []
    ensures Behind(Apply(s, ReapEvent)) && Apply(s, ReapEvent).reaped == s.events[0] - 1
  {
    var s1 := s.(events := s.events[1..]);
    OtherBehind(s, s1);
    ReapBehind(s1, s.events[0]);
  }

  lemma {:induction false} RunBehind(s: State, steps: seq<Step>)
    requires Behind(s) && Runs(s, steps) && AllCounted(steps)
    ensures Behind(Final(s, steps))
    decreases |steps|
  {
    if steps != [] {
      StepBehind(s, steps[0]);
      CountedTail(steps);
      RunBehind(Apply(s, steps[0]), steps[1..]);
    }
  }

  /**
   The last finished descriptor is not reaped, the count does not return to 0, and the first mbuf stays in slot 0
   until position `n` is posted. If that one rides on an mbuf of its own, the first is in no slot and was not freed:
   freed are the mbufs of the later positions, once each and in order.
   */
  ghost predicate FirstMbufIsLost(s: State)
    requires Shaped(s) && s.reaped <= |s.owners| && (s.owners != [] ==> s.reaped < |s.owners|)
  {
    var n := s.N();
    && (0 < s.done ==> s.reaped < s.done)
    && (s.owners != [] ==> 0 < s.count)
    && (0 < |s.owners| <= n ==> s.inflight[0] == s.owners[0] && s.freed == Mbufs(s.owners[1..s.reaped + 1]))
    && (n < |s.owners| && s.owners[n] != NULL ==>
          && s.freed == Mbufs(s.owners[1..s.reaped + 1])
          && forall i | 0 <= i < n && s.inflight[i] != NULL :: s.inflight[i] in s.owners[1..])
  }

  /** After every run without chains from a queue zeroed at head 0. */
  lemma OneBehindForEver(k: nat, base: nat, steps: seq<Step>)
    requires k <= 16 && RESERVE <= Pow2(k) && Slot(base, Pow2(k)) == 0
    requires Runs(Idle(k, base, 0), steps) && AllCounted(steps)
    ensures var s := Final(Idle(k, base, 0), steps);
            Behind(s) && s.k == k && s.base == base && FirstMbufIsLost(s)
  {
    ZeroedIsBehind(k, base);
    RunBehind(Idle(k, base, 0), steps);
    SameRing(Idle(k, base, 0), steps);
    Consequences(Final(Idle(k, base, 0), steps));
  }

  lemma {:induction false} SameRing(s: State, steps: seq<Step>)
    requires Shaped(s) && Runs(s, steps)
    ensures Final(s, steps).k == s.k && Final(s, steps).base == s.base
    decreases |steps|
  {
    if steps != [] {
      if steps[0].ReapEvent? {
        SameBase(s.(events := s.events[1..]), Slot(EventIndex(s.base, s.events[0]), s.N()));
      }
      SameRing(Apply(s, steps[0]), steps[1..]);
    }
  }

  lemma {:induction false} SameBase(s: State, target: nat)
    requires Shaped(s) && target < s.N()
    ensures Reap(s, target).base == s.base
    decreases Ahead(s.lastFreed, target, s.N())
  {
    if s.lastFreed == target {
      ReapDone(s, target);
    } else {
      AheadStep(s.lastFreed, target, s.N());
      ReapNext(s, target);
      SameBase(ReapOne(s), target);
    }
  }

  lemma Consequences(s: State)
    requires Behind(s) && At(s, 0) == 0
    ensures FirstMbufIsLost(s)
  {
    var n := s.N();
    SlotPeriod(s.base, 1, n);
    assert At(s, n) == 0;
    if 0 < |s.owners| <= n || (n < |s.owners| && s.owners[n] != NULL) {
      assert Taken(s.owners, n, s.reaped) == s.owners[1..s.reaped + 1];
    }
    if n < |s.owners| && s.owners[n] != NULL {
      SlotsHoldLaterMbufs(s);
    }
  }

  lemma SlotsHoldLaterMbufs(s: State)
    requires Behind(s) && s.N() < |s.owners| && s.owners[s.N()] != NULL
    ensures forall i | 0 <= i < s.N() && s.inflight[i] != NULL :: s.inflight[i] in s.owners[1..]
  {
    var n := s.N();
    forall i | 0 <= i < n && s.inflight[i] != NULL
      ensures s.inflight[i] in s.owners[1..]
    {
      var p := PositionOf(i, s.base + s.reaped + 1, n) - s.base;
      assert i == At(s, p) && s.inflight[i] == Holds(s.owners, n, p);
      assert s.inflight[i] == s.owners[p] == s.owners[1..][p - 1];
    }
  }
}
