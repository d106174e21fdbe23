/**
 The transmit side of the DPDK driver. An mbuf handed to the NIC is freed when a
 completion event covers its descriptor. Completions are merged: an event carries
 the low 16 bits of a free-running count, and stands for every descriptor up to it.
 Positions count descriptors from the start of the session; position 0 has the
 NIC's count `base`.
 */
module TxRing {
  import opened Ring

  type Mbuf = nat

  const NULL: Mbuf := 0
  const BUFFER_SIZE: nat := 2048
  const MIN_FRAME: nat := 60
  const RESERVE: nat := 16

  /**
   The driver's fields, then the history: `owners` has the mbuf riding on each
   position (NULL for a frame that was copied), `rung` and `done` are how many
   positions the doorbell covers and the NIC has finished, `events` the counts of
   the completion events not yet read, `reaped` how many positions were taken back,
   and `freed` the mbufs freed by that, in order.
   */
  datatype State = State(
    k: nat, base: nat, head: nat, lastFreed: nat, count: nat, inflight: seq<Mbuf>,
    owners: seq<Mbuf>, rung: nat, done: nat, events: seq<nat>, reaped: nat, freed: seq<Mbuf>)
  {
    /** The ring size, 2^k. */
    function N(): (n: nat)
      ensures n > 0
    {
      Pow2(k)
    }
  }

  predicate Shaped(s: State) {
    s.k <= 16 && RESERVE <= s.N() && s.head < s.N() && s.lastFreed < s.N() && |s.inflight| == s.N()
  }

  function At(s: State, p: nat): (i: nat)
    ensures i < s.N()
  {
    Slot(s.base + p, s.N())
  }

  /** The mbufs among the owners. */
  function Mbufs(owners: seq<Mbuf>): seq<Mbuf> {
    if owners == [] then []
    else
      var last := owners[|owners| - 1];
      Mbufs(owners[..|owners| - 1]) + (if last == NULL then [] else [last])
  }

  ghost predicate Inv(s: State) {
    var posted, n := |s.owners|, s.N();
    && Shaped(s)
    && s.reaped <= s.done <= s.rung <= posted
    && s.count == posted - s.reaped <= n - RESERVE
    && s.head == At(s, posted)
    && s.lastFreed == At(s, s.reaped + n - 1)
    && (forall p | s.reaped <= p < posted :: s.inflight[At(s, p)] == s.owners[p])
    && (forall p | posted <= p < s.reaped + n :: s.inflight[At(s, p)] == NULL)
    && s.freed == Mbufs(s.owners[..s.reaped])
    && (forall i | 0 <= i < |s.events| :: s.reaped <= s.events[i] <= s.done && 0 < s.events[i])
    && (forall i, j | 0 <= i < j < |s.events| :: s.events[i] <= s.events[j])
  }

  // ----- posting -----

  datatype Packet = Packet(m: Mbuf, len: nat, segs: nat)

  datatype Verdict = Sent | Linearised | Dropped | Refused

  /** One descriptor more, with `m` riding on it; a copying post rings the doorbell itself. */
  function Posted(s: State, m: Mbuf): State
    requires Shaped(s)
  {
    s.(head := Slot(s.head + 1, s.N()), count := s.count + 1,
       inflight := if m == NULL then s.inflight else s.inflight[s.head := m],
       owners := s.owners + [m],
       rung := if m == NULL then |s.owners| + 1 else s.rung)
  }

  /** What the loop of `eth_capio_tx` does with one packet. `Refused` ends the burst. */
  function Judge(s: State, pkt: Packet): Verdict {
    if pkt.segs != 1 then if pkt.len <= BUFFER_SIZE then Linearised else Dropped
    else if s.count >= s.N() - RESERVE then Refused
    else if pkt.len >= MIN_FRAME && pkt.len > BUFFER_SIZE then Refused
    else Sent
  }

  /** Runts are padded and, like everything in copy mode, copied; only the rest rides on its mbuf. */
  predicate Copies(pkt: Packet, copyMode: bool) {
    pkt.len < MIN_FRAME || copyMode
  }

  function Transmit(s: State, pkt: Packet, copyMode: bool): State
    requires Shaped(s)
  {
    match Judge(s, pkt)
    case Sent => Posted(s, if Copies(pkt, copyMode) then NULL else pkt.m)
    case Linearised => Posted(s, NULL).(count := s.count)
    case Dropped => s
    case Refused => s
  }

  // ----- reaping -----

  /** One turn of the reaping loop. */
  function ReapOne(s: State): (s': State)
    requires Shaped(s)
    ensures Shaped(s') && s'.k == s.k && s'.lastFreed == Slot(s.lastFreed + 1, s.N())
  {
    var f := Slot(s.lastFreed + 1, s.N());
    s.(lastFreed := f,
       inflight := s.inflight[f := NULL],
       count := if s.count > 0 then s.count - 1 else 0,
       reaped := s.reaped + 1,
       freed := if s.inflight[f] == NULL then s.freed else s.freed + [s.inflight[f]])
  }

  /** How many slots the loop walks from `f` to `target`. */
  function Ahead(f: nat, target: nat, n: nat): nat
    requires f < n && target < n
  {
    if f <= target then target - f else target + n - f
  }

  lemma AheadStep(f: nat, target: nat, n: nat)
    requires f < n && target < n && f != target
    ensures Ahead(Slot(f + 1, n), target, n) == Ahead(f, target, n) - 1
  {
    Unfold(f + 1, n);
    Unfold(0, n);
  }

  /** The reaping loop. The definition takes three calls per turn, so that a proof unfolds it by `ReapNext` or `ReapDone`. */
  function Reap(s: State, target: nat): (s': State)
    requires Shaped(s) && target < s.N()
    ensures Shaped(s') && s'.k == s.k && s.reaped <= s'.reaped
    decreases Ahead(s.lastFreed, target, s.N()), 2
  {
    ReapFrom(s, target)
  }

  function ReapFrom(s: State, target: nat): (s': State)
    requires Shaped(s) && target < s.N()
    ensures Shaped(s') && s'.k == s.k && s.reaped <= s'.reaped
    decreases Ahead(s.lastFreed, target, s.N()), 1
  {
    ReapTurns(s, target)
  }

  function ReapTurns(s: State, target: nat): (s': State)
    requires Shaped(s) && target < s.N()
    ensures Shaped(s') && s'.k == s.k && s.reaped <= s'.reaped
    decreases Ahead(s.lastFreed, target, s.N()), 0
  {
    if s.lastFreed == target then s
    else
      AheadStep(s.lastFreed, target, s.N());
      Reap(ReapOne(s), target)
  }

  lemma ReapNext(s: State, target: nat)
    requires Shaped(s) && target < s.N() && s.lastFreed != target
    ensures Reap(ReapOne(s), target) == Reap(s, target)
  {
    assert Reap(s, target) == ReapFrom(s, target) == ReapTurns(s, target);
  }

  lemma ReapDone(s: State, target: nat)
    requires Shaped(s) && target < s.N() && s.lastFreed == target
    ensures Reap(s, target) == s
  {
    assert Reap(s, target) == ReapFrom(s, target) == ReapTurns(s, target);
  }

  lemma TurnIsOne(s: State, s': State, target: nat, goal: State)
    requires Shaped(s) && target < s.N() && s.lastFreed != target && Reap(s, target) == goal && s' == ReapOne(s)
    ensures Shaped(s') && s'.k == s.k && Reap(s', target) == goal && s'.reaped == s.reaped + 1
  {
    ReapNext(s, target);
  }

  /** The index an event carries for the count `done`: that of the last finished descriptor, in 16 bits. */
  function EventIndex(base: nat, done: nat): (i: nat)
    requires 0 < done
  {
    (base + done - 1) % 65536
  }

  // ----- steps and runs -----

  datatype Step =
    | Post(pkt: Packet, copyMode: bool)
    | Flush
    | NicFinish(more: nat)
    | NicEvent
    | ReapEvent

  predicate Enabled(s: State, step: Step) {
    match step
    case Post(pkt, _) => pkt.m != NULL
    case Flush => true
    case NicFinish(more) => s.done + more <= s.rung
    case NicEvent => 0 < s.done
    case ReapEvent => s.events != [] && 0 < s.events[0]
  }

  function Apply(s: State, step: Step): State
    requires Shaped(s) && Enabled(s, step)
  {
    match step
    case Post(pkt, copyMode) => Transmit(s, pkt, copyMode)
    case Flush => s.(rung := |s.owners|)
    case NicFinish(more) => s.(done := s.done + more)
    case NicEvent => s.(events := s.events + [s.done])
    case ReapEvent => Reap(s.(events := s.events[1..]), Slot(EventIndex(s.base, s.events[0]), s.N()))
  }

  lemma PostedInv(s: State, m: Mbuf)
    requires Inv(s) && s.count < s.N() - RESERVE
    ensures Inv(Posted(s, m))
  {
    var posted, n, s' := |s.owners|, s.N(), Posted(s, m);
    SlotAdd(s.base + posted, 1, n);
    forall p | s.reaped <= p < s.reaped + n && p != posted
      ensures At(s, p) != s.head
    {
      if p < posted { SlotDistinct(s.base + p, s.base + posted, n); }
      else { SlotDistinct(s.base + posted, s.base + p, n); }
    }
    assert s'.owners[..s.reaped] == s.owners[..s.reaped];
    assert s.inflight[At(s, posted)] == NULL;
    assert forall p: nat :: At(s', p) == At(s, p);
  }

  lemma ReapOneInv(s: State)
    requires Inv(s) && s.reaped < s.done
    requires forall i | 0 <= i < |s.events| :: s.reaped < s.events[i]
    ensures Inv(ReapOne(s))
  {
    var n, p0, s' := s.N(), s.reaped, ReapOne(s);
    SlotAdd(s.base + p0 + n - 1, 1, n);
    SlotPeriod(s.base + p0, 1, n);
    assert s'.lastFreed == At(s, p0);
    forall p | p0 < p < p0 + n
      ensures At(s, p) != At(s, p0)
    {
      SlotDistinct(s.base + p0, s.base + p, n);
    }
    assert At(s, p0 + n) == At(s, p0);
    assert s.owners[..p0 + 1][..p0] == s.owners[..p0];
    assert s.inflight[At(s, p0)] == s.owners[p0];
    assert forall p: nat :: At(s', p) == At(s, p);
  }

  /**
   The walk from the last freed slot to the masked index of the event takes back
   exactly the positions up to the event's count, however often the counter wrapped.
   */
  lemma {:induction false} ReapInv(s: State, upTo: nat)
    requires Inv(s) && 0 < upTo && s.reaped <= upTo <= s.done
    requires forall i | 0 <= i < |s.events| :: upTo <= s.events[i]
    ensures var s' := Reap(s, Slot(EventIndex(s.base, upTo), s.N()));
            Inv(s') && s' == s.(lastFreed := s'.lastFreed, inflight := s'.inflight, count := s'.count, reaped := upTo, freed := s'.freed)
    decreases upTo - s.reaped
  {
    var target := Slot(EventIndex(s.base, upTo), s.N());
    TargetSlot(s, upTo);
    if s.reaped == upTo {
      ReapDone(s, target);
    } else {
      ReapOneInv(s);
      ReapNext(s, target);
      ReapInv(ReapOne(s), upTo);
    }
  }

  /** The masked index of an event is the slot of its last descriptor, and differs from the last freed one until reached. */
  lemma TargetSlot(s: State, upTo: nat)
    requires Inv(s) && 0 < upTo && s.reaped <= upTo <= s.done
    ensures var target := Slot(EventIndex(s.base, upTo), s.N());
            target == At(s, upTo + s.N() - 1) && (target == s.lastFreed <==> s.reaped == upTo)
  {
    var n := s.N();
    SlotOfTruncated(s.base + upTo - 1, s.k);
    SlotPeriod(s.base + upTo - 1, 1, n);
    if s.reaped < upTo {
      SlotDistinct(s.base + s.reaped + n - 1, s.base + upTo + n - 1, n);
    }
  }

  /** Not a chain that is small enough to be sent linearised. */
  predicate Counted(pkt: Packet) {
    pkt.segs == 1 || pkt.len > BUFFER_SIZE
  }

  lemma StepInv(s: State, step: Step)
    requires Inv(s) && Enabled(s, step) && (step.Post? ==> Counted(step.pkt))
    ensures Inv(Apply(s, step))
  {
    match step
    case Post(pkt, copyMode) => TransmitIsCounted(s, pkt, copyMode);
    case Flush => OtherInv(s, Apply(s, step));
    case NicFinish(more) => OtherInv(s, Apply(s, step));
    case NicEvent => OtherInv(s, Apply(s, step));
    case ReapEvent =>
      ReapEventInv(s);
  }

  lemma ReapEventInv(s: State)
    requires Inv(s) && s.events != []
    ensures Inv(Apply(s, ReapEvent))
  {
    var s1 := s.(events := s.events[1..]);
    OtherInv(s, s1);
    ReapInv(s1, s.events[0]);
  }

  /** Steps that leave the slots alone. */
  lemma OtherInv(s: State, s': State)
    requires Inv(s) && s' == s.(rung := s'.rung, done := s'.done, events := s'.events)
    requires s.done <= s'.done <= s'.rung <= |s.owners|
    requires forall i | 0 <= i < |s'.events| :: s.reaped <= s'.events[i] <= s'.done && 0 < s'.events[i]
    requires forall i, j | 0 <= i < j < |s'.events| :: s'.events[i] <= s'.events[j]
    ensures Inv(s')
  {
    assert forall p: nat :: At(s', p) == At(s, p);
  }

  ghost predicate Runs(s: State, steps: seq<Step>)
    requires Shaped(s)
    decreases |steps|
  {
    steps == [] || (Enabled(s, steps[0]) && Shaped(Apply(s, steps[0])) && Runs(Apply(s, steps[0]), steps[1..]))
  }

  ghost function Final(s: State, steps: seq<Step>): State
    requires Shaped(s) && Runs(s, steps)
    decreases |steps|
  {
    if steps == [] then s else Final(Apply(s, steps[0]), steps[1..])
  }

  ghost predicate AllCounted(steps: seq<Step>) {
    forall i | 0 <= i < |steps| && steps[i].Post? :: Counted(steps[i].pkt)
  }

  /** The bookkeeping is right before the run and after each of its steps. */
  ghost predicate Throughout(s: State, steps: seq<Step>)
    requires Shaped(s) && Runs(s, steps)
    decreases |steps|
  {
    Inv(s) && (steps == [] || Throughout(Apply(s, steps[0]), steps[1..]))
  }

  lemma CountedTail(steps: seq<Step>)
    requires steps != [] && (steps[0].Post? ==> Counted(steps[0].pkt))
    ensures AllCounted(steps) <==> AllCounted(steps[1..])
  {
    var rest := steps[1..];
    assert forall i | 0 <= i < |rest| :: rest[i] == steps[i + 1];
    assert forall i | 0 < i < |steps| :: steps[i] == rest[i - 1];
  }

  /** A run keeps the bookkeeping right throughout if and only if no packet in it is sent as a linearised chain. */
  lemma {:induction false} ExactIff(s: State, steps: seq<Step>)
    requires Inv(s) && Runs(s, steps)
    ensures Throughout(s, steps) <==> AllCounted(steps)
    ensures AllCounted(steps) ==> Inv(Final(s, steps))
    decreases |steps|
  {
    if steps != [] {
      if steps[0].Post? && !Counted(steps[0].pkt) {
        TransmitIsCounted(s, steps[0].pkt, steps[0].copyMode);
        assert !Inv(Apply(s, steps[0]));
      } else {
        StepInv(s, steps[0]);
        ExactIff(Apply(s, steps[0]), steps[1..]);
        CountedTail(steps);
      }
    }
  }

  /**
   After any run without such a packet, completions merged or not: every mbuf freed so
   far rode on a descriptor that the NIC has finished, each was freed once and in
   posting order, and none that is still in flight was. The counter is the distance
   from the last freed slot to the head, and leaves the reserve free.
   */
  lemma FreedExactlyOnceAfterCompletion(s0: State, steps: seq<Step>)
    requires Inv(s0) && Runs(s0, steps) && AllCounted(steps)
    ensures var s := Final(s0, steps);
            && Shaped(s) && s.reaped <= s.done <= |s.owners|
            && s.freed == Mbufs(s.owners[..s.reaped])
            && (forall p | s.reaped <= p < |s.owners| :: s.inflight[At(s, p)] == s.owners[p])
            && s.count == Ahead(Slot(s.lastFreed + 1, s.N()), s.head, s.N()) <= s.N() - RESERVE
  {
    ExactIff(s0, steps);
    InvMeans(Final(s0, steps));
  }

  lemma InvMeans(s: State)
    requires Inv(s)
    ensures s.reaped <= s.done <= |s.owners| && s.freed == Mbufs(s.owners[..s.reaped])
    ensures forall p | s.reaped <= p < |s.owners| :: s.inflight[At(s, p)] == s.owners[p]
    ensures s.count == Ahead(Slot(s.lastFreed + 1, s.N()), s.head, s.N()) <= s.N() - RESERVE
  {
    CountIsDistance(s);
  }

  lemma CountIsDistance(s: State)
    requires Inv(s)
    ensures s.count == Ahead(Slot(s.lastFreed + 1, s.N()), s.head, s.N())
  {
    var n := s.N();
    SlotAdd(s.base + s.reaped + n - 1, 1, n);
    SlotPeriod(s.base + s.reaped, 1, n);
    assert Slot(s.lastFreed + 1, n) == At(s, s.reaped);
    SlotAdd(s.base + s.reaped, s.count, n);
    Unfold(At(s, s.reaped) + s.count, n);
    if At(s, s.reaped) + s.count >= n {
      Unfold(At(s, s.reaped) + s.count - n, n);
    }
  }

  // ----- where the bookkeeping starts, and what breaks it -----

  /** A queue at count `base` with nothing posted and the given last freed slot. */
  function Idle(k: nat, base: nat, lastFreed: nat): State {
    State(k, base, Slot(base, Pow2(k)), lastFreed, 0, seq(Pow2(k), _ => NULL), [], 0, 0, [], 0, [])
  }

  /** An idle queue is consistent if and only if the last freed slot is the one before the head. */
  lemma IdleIsConsistent(k: nat, base: nat, lastFreed: nat)
    requires k <= 16 && RESERVE <= Pow2(k) && lastFreed < Pow2(k)
    ensures Inv(Idle(k, base, lastFreed)) <==> Slot(lastFreed + 1, Pow2(k)) == Slot(base, Pow2(k))
  {
    var s, n := Idle(k, base, lastFreed), Pow2(k);
    assert At(s, 0) == s.head;
    var before := At(s, n - 1);
    SlotAdd(base + n - 1, 1, n);
    SlotPeriod(base, 1, n);
    assert Slot(before + 1, n) == Slot(base, n);
    if before < lastFreed { SlotDistinct(before + 1, lastFreed + 1, n); }
    if lastFreed < before { SlotDistinct(lastFreed + 1, before + 1, n); }
  }

  /** The device as `eth_dev_capio_create` zeroes it is consistent only when the kernel hands over head 1. */
  lemma ZeroedQueue(k: nat, base: nat)
    requires k <= 16 && RESERVE <= Pow2(k)
    ensures Inv(Idle(k, base, 0)) <==> Slot(base, Pow2(k)) == 1
  {
    IdleIsConsistent(k, base, 0);
    Unfold(1, Pow2(k));
  }

  /** `eth_stats_reset`. */
  function StatsReset(s: State): State {
    s.(lastFreed := s.N() - 1, count := 0)
  }

  /** A statistics reset keeps the bookkeeping if and only if nothing is in flight and the head is at slot 0. */
  lemma StatsResetIsSafe(s: State)
    requires Inv(s)
    ensures Inv(StatsReset(s)) <==> s.count == 0 && s.head == 0
  {
    var n, s' := s.N(), StatsReset(s);
    assert forall p: nat :: At(s', p) == At(s, p);
    SlotAdd(s.base + s.reaped + n - 1, 1, n);
    SlotPeriod(s.base + s.reaped, 1, n);
    assert Slot(s.lastFreed + 1, n) == At(s, s.reaped);
    Unfold(s.lastFreed + 1, n);
    Unfold(0, n);
  }

  /** Posting one packet keeps the bookkeeping if and only if it does not go out as a linearised chain. */
  lemma TransmitIsCounted(s: State, pkt: Packet, copyMode: bool)
    requires Inv(s) && pkt.m != NULL
    ensures Inv(Transmit(s, pkt, copyMode)) <==> Counted(pkt)
  {
    if Judge(s, pkt) == Sent {
      PostedInv(s, if Copies(pkt, copyMode) then NULL else pkt.m);
    }
  }

  // ----- the driver's side, in place -----

  datatype Burst = Burst(s: State, taken: nat)

  /** The loop of `eth_capio_tx` from packet `i` on: the state it leaves, and the index it stops at. */
  function TransmitAll(s: State, pkts: seq<Packet>, copyMode: bool, i: nat): (b: Burst)
    requires Shaped(s) && i <= |pkts|
    ensures Shaped(b.s) && i <= b.taken <= |pkts|
    decreases |pkts| - i
  {
    if i == |pkts| || Judge(s, pkts[i]) == Refused then Burst(s, i)
    else TransmitAll(Transmit(s, pkts[i], copyMode), pkts, copyMode, i + 1)
  }

  ghost predicate AllSingle(pkts: seq<Packet>) {
    forall i | 0 <= i < |pkts| :: pkts[i].segs == 1 && pkts[i].m != NULL
  }

  lemma {:induction false} TransmitAllInv(s: State, pkts: seq<Packet>, copyMode: bool, i: nat)
    requires Inv(s) && i <= |pkts| && AllSingle(pkts)
    ensures Inv(TransmitAll(s, pkts, copyMode, i).s)
    decreases |pkts| - i
  {
    if i < |pkts| && Judge(s, pkts[i]) != Refused {
      TransmitIsCounted(s, pkts[i], copyMode);
      TransmitAllInv(Transmit(s, pkts[i], copyMode), pkts, copyMode, i + 1);
    }
  }

  /** The transmit queue, with the NIC's view of it beside it. */
  class TxQueue {
    const k: nat
    const inflight: array<Mbuf>
    var head: nat
    var lastFreed: nat
    var count: nat
    var txPkts: nat
    var txDropped: nat
    ghost const base: nat
    ghost var owners: seq<Mbuf>
    ghost var rung: nat
    ghost var done: nat
    ghost var events: seq<nat>
    ghost var reaped: nat
    ghost var freed: seq<Mbuf>

    ghost function Abs(): State
      reads this, inflight
    {
      State(k, base, head, lastFreed, count, inflight[..], owners, rung, done, events, reaped, freed)
    }

    ghost predicate Valid()
      reads this, inflight
    {
      Inv(Abs())
    }

    constructor (k: nat, base: nat)
      requires k <= 16 && RESERVE <= Pow2(k)
      ensures Valid() && fresh(inflight) && Abs() == Idle(k, base, Slot(base + Pow2(k) - 1, Pow2(k)))
    {
      this.k, this.base := k, base;
      inflight := new Mbuf[Pow2(k)](_ => NULL);
      head, lastFreed, count := Slot(base, Pow2(k)), Slot(base + Pow2(k) - 1, Pow2(k)), 0;
      txPkts, txDropped := 0, 0;
      owners, rung, done, events, reaped, freed := [], 0, 0, [], 0, [];
      new;
      assert inflight[..] == Idle(k, base, lastFreed).inflight;
      SlotAdd(base + Pow2(k) - 1, 1, Pow2(k));
      SlotPeriod(base, 1, Pow2(k));
      IdleIsConsistent(k, base, lastFreed);
    }

    /** One turn of the reaping loop. */
    method ReapSlot()
      requires Shaped(Abs())
      modifies this`lastFreed, this`count, this`reaped, this`freed, inflight
      ensures Abs() == ReapOne(old(Abs()))
    {
      lastFreed := Slot(lastFreed + 1, Pow2(k));
      if inflight[lastFreed] != NULL {
        freed := freed + [inflight[lastFreed]];
        inflight[lastFreed] := NULL;
      }
      if count > 0 {
        count := count - 1;
      }
      reaped := reaped + 1;
      assert inflight[..] == old(inflight[..])[lastFreed := NULL];
    }

    /** The reaping loop: from the last freed slot up to `target`. */
    method ReapTo(target: nat)
      requires Shaped(Abs()) && target < Pow2(k)
      modifies this`lastFreed, this`count, this`reaped, this`freed, inflight
      ensures Abs() == Reap(old(Abs()), target)
    {
      ghost var goal := Reap(Abs(), target);
      while lastFreed != target
        invariant Shaped(Abs()) && Reap(Abs(), target) == goal
        decreases goal.reaped - reaped
      {
        ReapTurn(target, goal);
      }
      ReapDone(Abs(), target);
    }

    /** One turn of the loop takes back one slot and leaves the outcome the same. */
    method ReapTurn(target: nat, ghost goal: State)
      requires Shaped(Abs()) && target < Pow2(k) && lastFreed != target && Reap(Abs(), target) == goal
      modifies this`lastFreed, this`count, this`reaped, this`freed, inflight
      ensures Shaped(Abs()) && Reap(Abs(), target) == goal && reaped == old(reaped) + 1
    {
      ghost var s := Abs();
      ReapSlot();
      TurnIsOne(s, Abs(), target, goal);
    }

    /** The completion branch of `eth_capio_rx`: everything up to the event's count is taken back, and nothing else. */
    method ReapEvent(index: nat)
      requires Valid() && events != [] && index == EventIndex(base, events[0])
      modifies this`lastFreed, this`count, this`events, this`reaped, this`freed, inflight
      ensures Valid() && Abs() == Apply(old(Abs()), Step.ReapEvent)
      ensures reaped == old(events[0])
    {
      StepInv(Abs(), Step.ReapEvent);
      OtherInv(Abs(), Abs().(events := events[1..]));
      ReapInv(Abs().(events := events[1..]), events[0]);
      events := events[1..];
      ReapTo(Slot(index, Pow2(k)));
    }

    /** A post through `sfc7120_tx_post` (no mbuf) or `sfc7120_tx_post_paddr_nodbl`. */
    method PostOne(m: Mbuf)
      requires Shaped(Abs())
      modifies this`head, this`count, this`owners, this`rung, inflight
      ensures Abs() == Posted(old(Abs()), m)
    {
      if m == NULL {
        rung := |owners| + 1;
      } else {
        inflight[head] := m;
      }
      owners := owners + [m];
      head := Slot(head + 1, Pow2(k));
      count := count + 1;
    }

    /** The loop body of `eth_capio_tx`; `more` is false when it breaks out of the burst. */
    method TransmitOne(pkt: Packet, copyMode: bool) returns (more: bool)
      requires Shaped(Abs())
      modifies this`head, this`count, this`owners, this`rung, this`txPkts, this`txDropped, inflight
      ensures Abs() == Transmit(old(Abs()), pkt, copyMode)
      ensures more <==> Judge(old(Abs()), pkt) != Refused
      ensures txPkts + txDropped == old(txPkts) + old(txDropped) + 1
    {
      if pkt.segs != 1 {
        if pkt.len <= BUFFER_SIZE {
          var counted := count;
          PostOne(NULL);
          count := counted;
          txPkts := txPkts + 1;
        } else {
          txDropped := txDropped + 1;
        }
        return true;
      }
      if count >= Pow2(k) - RESERVE {
        txDropped := txDropped + 1;
        return false;
      }
      if pkt.len < MIN_FRAME {
        PostOne(NULL);
      } else if pkt.len > BUFFER_SIZE {
        txDropped := txDropped + 1;
        return false;
      } else if copyMode {
        PostOne(NULL);
      } else {
        PostOne(pkt.m);
      }
      txPkts := txPkts + 1;
      return true;
    }

    /** `eth_capio_tx`: a burst of single-segment packets keeps the bookkeeping, and everything posted is rung. */
    method TransmitBurst(pkts: seq<Packet>, copyMode: bool) returns (taken: nat)
      requires Valid()
      modifies this, inflight
      ensures taken == TransmitAll(old(Abs()), pkts, copyMode, 0).taken
      ensures var s := TransmitAll(old(Abs()), pkts, copyMode, 0).s;
              Abs() == if taken > 0 then s.(rung := |s.owners|) else s
      ensures AllSingle(pkts) ==> Valid()
    {
      taken := TransmitLoop(pkts, copyMode);
      ghost var s := Abs();
      if taken > 0 {
        rung := |owners|;
      }
      if AllSingle(pkts) {
        TransmitAllInv(old(Abs()), pkts, copyMode, 0);
        OtherInv(s, Abs());
      }
    }

    method TransmitLoop(pkts: seq<Packet>, copyMode: bool) returns (taken: nat)
      requires Shaped(Abs())
      modifies this`head, this`count, this`owners, this`rung, this`txPkts, this`txDropped, inflight
      ensures Burst(Abs(), taken) == TransmitAll(old(Abs()), pkts, copyMode, 0)
    {
      taken := 0;
      while taken < |pkts|
        invariant taken <= |pkts| && Shaped(Abs())
        invariant TransmitAll(Abs(), pkts, copyMode, taken) == TransmitAll(old(Abs()), pkts, copyMode, 0)
      {
        var more := TransmitOne(pkts[taken], copyMode);
        if !more {
          return;
        }
        taken := taken + 1;
      }
    }
  }
}
