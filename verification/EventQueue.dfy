/**
 The data event queue: the NIC writes 64-bit events into a ring, the driver reads
 them with `sfc7120_poll`. There is no shared count. A slot holds an event unless
 it is all ones (never written) or zero (already consumed), and the only feedback
 to the NIC is the read pointer written to a doorbell.
 */
module EventQueue {
  import opened Descriptor
  import opened Ring

  const ALL_ONES: Word := 0xffff_ffff_ffff_ffff
  const RPTR_FIELD: nat := 0x8000

  predicate Empty(ev: Word) {
    ev == ALL_ONES || ev == 0
  }

  datatype Kind = RxEvent | TxEvent | OtherEvent

  datatype Event = Event(kind: Kind, txDescIdx: nat, rxBytes: nat, raw: Word)

  function Decode(ev: Word): Event {
    var code := ev / 0x1000_0000_0000_0000;
    if code == 0 then Event(RxEvent, 0, ev % 0x4000, ev)
    else if code == 2 then Event(TxEvent, ev % 0x1_0000, 0, ev)
    else Event(OtherEvent, 0, 0, ev)
  }

  function DecodeAll(evs: seq<Word>): (r: seq<Event>) {
    seq(|evs|, i requires 0 <= i < |evs| => Decode(evs[i]))
  }

  /**
   The ring and its two owners. `written` and `returned` are the histories: every
   event the NIC wrote and every event handed to the driver. `acked` is how many
   events the NIC believes were consumed, rebuilt from the doorbell.
   */
  datatype State = State(
    n: nat, ring: seq<Word>, rptr: nat,
    written: seq<Word>, returned: seq<Word>, acked: nat)

  predicate Shaped(s: State) {
    0 < s.n <= RPTR_FIELD && |s.ring| == s.n && s.rptr < s.n
  }

  /** The freshly primed ring. */
  function Primed(n: nat): State {
    State(n, seq(n, _ => ALL_ONES), 0, [], [], 0)
  }

  datatype Step = NicWrite(ev: Word) | Take | Ack

  /** The NIC never writes an empty marker and never more than a ring ahead of the acked pointer. */
  predicate Enabled(s: State, step: Step) {
    step.NicWrite? ==> !Empty(step.ev) && |s.written| < s.acked + s.n
  }

  function Apply(s: State, step: Step): (s': State)
    requires Shaped(s)
    ensures Shaped(s') && s'.n == s.n
  {
    match step
    case NicWrite(ev) =>
      s.(ring := s.ring[Slot(|s.written|, s.n) := ev], written := s.written + [ev])
    case Take =>
      var ev := s.ring[s.rptr];
      if Empty(ev) then s
      else s.(ring := s.ring[s.rptr := 0], rptr := Slot(s.rptr + 1, s.n), returned := s.returned + [ev])
    case Ack =>
      s.(acked := NicCount(s.acked, s.rptr % RPTR_FIELD, s.n))
  }

  /** What the NIC makes of a doorbell value: the next count that has this slot. */
  function NicCount(acked: nat, value: nat, n: nat): nat
    requires value < n
  {
    PositionOf(value, acked, n)
  }

  ghost predicate Inv(s: State) {
    var c := |s.returned|;
    && Shaped(s)
    && c <= |s.written| <= s.acked + s.n
    && s.acked <= c
    && s.returned == s.written[..c]
    && s.rptr == Slot(c, s.n)
    && (forall p | c <= p < |s.written| :: s.ring[Slot(p, s.n)] == s.written[p] && !Empty(s.written[p]))
    && (forall p | |s.written| <= p < c + s.n :: Empty(s.ring[Slot(p, s.n)]))
  }

  lemma PrimedInv(n: nat)
    requires 0 < n <= RPTR_FIELD
    ensures Inv(Primed(n))
  {}

  lemma NicWriteInv(s: State, ev: Word)
    requires Inv(s) && Enabled(s, NicWrite(ev))
    ensures Inv(Apply(s, NicWrite(ev)))
  {
    var w := |s.written|;
    forall p | |s.returned| <= p < |s.returned| + s.n && p != w
      ensures Slot(p, s.n) != Slot(w, s.n)
    {
      if p < w { SlotDistinct(p, w, s.n); } else { SlotDistinct(w, p, s.n); }
    }
  }

  lemma TakeInv(s: State)
    requires Inv(s)
    ensures Inv(Apply(s, Take))
    ensures |s.returned| < |s.written| ==> Apply(s, Take).returned == s.returned + [s.written[|s.returned|]]
    ensures |s.returned| == |s.written| ==> Apply(s, Take) == s
  {
    var c, n, s' := |s.returned|, s.n, Apply(s, Take);
    if c < |s.written| {
      assert s.ring[Slot(c, n)] == s.written[c];
      SlotAdd(c, 1, n);
      SlotPeriod(c, 1, n);
      forall p | c < p <= c + n
        ensures if p < |s.written| then s'.ring[Slot(p, n)] == s.written[p] else Empty(s'.ring[Slot(p, n)])
      {
        if p < c + n { SlotDistinct(c, p, n); }
      }
    } else {
      assert Empty(s.ring[Slot(c, n)]);
    }
  }

  /** The ack reaches the NIC as the true count if and only if less than a whole ring was consumed since the last one. */
  lemma AckInv(s: State)
    requires Inv(s)
    ensures Inv(Apply(s, Ack))
    ensures Apply(s, Ack).acked == |s.returned| <==> |s.returned| < s.acked + s.n
    ensures |s.returned| == s.acked + s.n ==> Apply(s, Ack) == s
  {
    assert s.rptr % RPTR_FIELD == s.rptr;
    PositionOfSlot(|s.returned|, s.acked, s.n);
  }

  // ----- whole runs -----

  ghost predicate Runs(s: State, steps: seq<Step>)
    requires Shaped(s)
    decreases |steps|
  {
    steps == [] || (Enabled(s, steps[0]) && Runs(Apply(s, steps[0]), steps[1..]))
  }

  function Final(s: State, steps: seq<Step>): (s': State)
    requires Shaped(s)
    ensures Shaped(s') && s'.n == s.n
    decreases |steps|
  {
    if steps == [] then s else Final(Apply(s, steps[0]), steps[1..])
  }

  lemma {:induction false} RunInv(s: State, steps: seq<Step>)
    requires Inv(s) && Runs(s, steps)
    ensures Inv(Final(s, steps))
    decreases |steps|
  {
    if steps != [] {
      match steps[0] {
        case NicWrite(ev) => NicWriteInv(s, ev);
        case Take => TakeInv(s);
        case Ack => AckInv(s);
      }
      RunInv(Apply(s, steps[0]), steps[1..]);
    }
  }

  /** However NIC writes, slot reads and acks interleave, what the driver has seen is a prefix of what the NIC wrote. */
  lemma EventsAreAPrefix(n: nat, steps: seq<Step>)
    requires 0 < n <= RPTR_FIELD && Runs(Primed(n), steps)
    ensures var s := Final(Primed(n), steps);
            s.returned <= s.written && s.rptr == Slot(|s.returned|, n)
  {
    PrimedInv(n);
    RunInv(Primed(n), steps);
  }

  // ----- the queue that stops for ever -----

  lemma {:induction false} RunsAppend(s: State, a: seq<Step>, b: seq<Step>)
    requires Shaped(s) && Runs(s, a) && Runs(Final(s, a), b)
    ensures Runs(s, a + b) && Final(s, a + b) == Final(Final(s, a), b)
    decreases |a|
  {
    if a == [] {
      assert a + b == b;
    } else {
      assert (a + b)[1..] == a[1..] + b;
      RunsAppend(Apply(s, a[0]), a[1..], b);
    }
  }

  lemma RunsOneMore(s: State, a: seq<Step>, step: Step)
    requires Shaped(s) && Runs(s, a) && Enabled(Final(s, a), step)
    ensures Runs(s, a + [step]) && Final(s, a + [step]) == Apply(Final(s, a), step)
  {
    assert [step][1..] == [];
    RunsAppend(s, a, [step]);
  }

  /** The NIC writes the first `k` of `evs`. */
  function Writes(evs: seq<Word>, k: nat): (steps: seq<Step>)
    requires k <= |evs|
  {
    if k == 0 then [] else Writes(evs, k - 1) + [NicWrite(evs[k - 1])]
  }

  function Takes(k: nat): (steps: seq<Step>)
    ensures |steps| == k
  {
    if k == 0 then [] else [Take] + Takes(k - 1)
  }

  lemma {:induction false} WritesRun(s: State, evs: seq<Word>, k: nat)
    requires Shaped(s) && k <= |evs| && |s.written| + k <= s.acked + s.n && forall i | 0 <= i < |evs| :: !Empty(evs[i])
    ensures Runs(s, Writes(evs, k))
    ensures var s' := Final(s, Writes(evs, k));
            s'.written == s.written + evs[..k] && s'.returned == s.returned && s'.acked == s.acked
  {
    if k > 0 {
      WritesRun(s, evs, k - 1);
      RunsOneMore(s, Writes(evs, k - 1), NicWrite(evs[k - 1]));
      assert evs[..k] == evs[..k - 1] + [evs[k - 1]];
    }
  }

  /** Nothing is lost: from any state of any run, reading on returns exactly the events still outstanding, in order. */
  lemma {:induction false} DrainReturnsTheRest(s: State, k: nat)
    requires Inv(s) && k >= |s.written| - |s.returned|
    ensures Runs(s, Takes(k))
    ensures var s' := Final(s, Takes(k));
            Inv(s') && s'.returned == s.written == s'.written && s'.acked == s.acked
    decreases k
  {
    TakeInv(s);
    if k > 0 {
      assert Takes(k)[1..] == Takes(k - 1);
      DrainReturnsTheRest(Apply(s, Take), k - 1);
    }
  }

  /** A whole ring consumed between two acks: the second one changes nothing. */
  ghost predicate Stuck(s: State) {
    Inv(s) && |s.returned| == s.acked + s.n
  }

  lemma StuckStays(s: State, step: Step)
    requires Stuck(s) && Enabled(s, step)
    ensures !step.NicWrite? && Apply(s, step) == s
  {
    if step.Take? {
      TakeInv(s);
    } else {
      AckInv(s);
    }
  }

  /** From then on, in every run, the NIC writes nothing, reading returns nothing and no ack changes that. */
  lemma {:induction false} StuckForEver(s: State, steps: seq<Step>)
    requires Stuck(s) && Runs(s, steps)
    ensures Final(s, steps) == s && forall i | 0 <= i < |steps| :: !steps[i].NicWrite?
    decreases |steps|
  {
    if steps != [] {
      StuckStays(s, steps[0]);
      StuckForEver(s, steps[1..]);
    }
  }

  /** The run that leads there: the NIC fills the ring, the driver reads all of it, and acks once. */
  lemma FullRingSticks(n: nat, evs: seq<Word>) returns (steps: seq<Step>)
    requires 0 < n <= RPTR_FIELD && |evs| == n && forall i | 0 <= i < n :: !Empty(evs[i])
    ensures steps == Writes(evs, n) + Takes(n) + [Ack]
    ensures Runs(Primed(n), steps)
    ensures var s := Final(Primed(n), steps);
            Stuck(s) && s.acked == 0 && s.returned == s.written == evs
  {
    var s0 := Primed(n);
    PrimedInv(n);
    WritesRun(s0, evs, n);
    RunInv(s0, Writes(evs, n));
    assert evs[..n] == evs && s0.written + evs == evs;
    var s1 := Final(s0, Writes(evs, n));
    DrainReturnsTheRest(s1, n);
    RunsAppend(s0, Writes(evs, n), Takes(n));
    var s2 := Final(s1, Takes(n));
    StuckStays(s2, Ack);
    RunsOneMore(s0, Writes(evs, n) + Takes(n), Ack);
    steps := Writes(evs, n) + Takes(n) + [Ack];
  }

  // ----- the driver's side, in place -----

  /**
   The mapped ring with the NIC beside it. The read pointer is the reader's own: the kernel has one and
   the user library another, and only one of them is that of the events returned so far.
   */
  class DataEvq {
    const n: nat
    const ring: array<Word>
    var written: seq<Word>        // the NIC's side: what it wrote,
    var acked: nat                // and what it takes to be consumed
    ghost var returned: seq<Word>

    ghost predicate Fits() {
      0 < n <= RPTR_FIELD && ring.Length == n
    }

    ghost function Abs(rptr: nat): State
      reads this, ring
    {
      State(n, ring[..], rptr, written, returned, acked)
    }

    /** `rptr` is the true read pointer, and the ring holds exactly the events outstanding. */
    ghost predicate Valid(rptr: nat)
      reads this, ring
    {
      Inv(Abs(rptr))
    }

    constructor (n: nat)
      requires 0 < n <= RPTR_FIELD
      ensures Fits() && Valid(0) && fresh(ring) && this.n == n && Abs(0) == Primed(n)
    {
      this.n := n;
      ring := new Word[n](_ => ALL_ONES);
      written, returned, acked := [], [], 0;
      new;
      assert ring[..] == Primed(n).ring;
      PrimedInv(n);
    }

    /** The NIC acts: it writes any events it likes, as far as the acked pointer lets it. */
    method NicActs(ghost rptr: nat)
      requires Fits()
      modifies ring, this`written
      ensures old(written) <= written && (old(Valid(rptr)) ==> Valid(rptr))
    {
      var batch: seq<Word> := *;
      for i := 0 to |batch|
        invariant old(written) <= written && returned == old(returned) && acked == old(acked)
        invariant old(Valid(rptr)) ==> Valid(rptr)
      {
        NicWriteOne(batch[i], rptr);
      }
    }

    method NicWriteOne(ev: Word, ghost rptr: nat)
      requires Fits()
      modifies ring, this`written
      ensures old(written) <= written && (old(Valid(rptr)) ==> Valid(rptr))
    {
      if !Empty(ev) && |written| < acked + n {
        ghost var before := Abs(rptr);
        ring[Slot(|written|, n)] := ev;
        written := written + [ev];
        if Inv(before) {
          assert Abs(rptr) == Apply(before, NicWrite(ev));
          NicWriteInv(before, ev);
        }
      }
    }

    /** Reads the slot at the read pointer and consumes the event in it, if there is one. */
    method TakeSlot(rptr: nat) returns (ev: Word, next: nat)
      requires Fits() && rptr < n
      modifies ring, this`returned
      ensures Abs(next) == Apply(old(Abs(rptr)), Take)
      ensures returned == old(returned) + (if Empty(ev) then [] else [ev])
      ensures next == if Empty(ev) then rptr else Slot(rptr + 1, n)
      ensures old(Valid(rptr)) ==> Valid(next) && returned <= written && (Empty(ev) <==> old(returned) == written)
    {
      ghost var before := Abs(rptr);
      ev, next := ring[rptr], rptr;
      if !Empty(ev) {
        ring[rptr] := 0;
        next := Slot(rptr + 1, n);
        returned := returned + [ev];
      }
      assert Abs(next) == Apply(before, Take);
      if Inv(before) {
        TakeInv(before);
      }
    }

    /** Writes the read pointer to the doorbell. */
    method Acknowledge(rptr: nat)
      requires Fits() && rptr < n
      modifies this`acked
      ensures Abs(rptr) == Apply(old(Abs(rptr)), Ack)
      ensures old(Valid(rptr)) ==> Valid(rptr) && (acked == |returned| <==> |returned| < old(acked) + n)
    {
      if Inv(Abs(rptr)) {
        AckInv(Abs(rptr));
      }
      acked := NicCount(acked, rptr % RPTR_FIELD, n);
    }

    /** One turn of the poll loop: the NIC may act, then the slot at the read pointer is read. */
    method PollSlot(rptr: nat) returns (ev: Word, next: nat)
      requires Fits() && rptr < n
      modifies ring, this`written, this`returned
      ensures old(written) <= written && next == if Empty(ev) then rptr else Slot(rptr + 1, n)
      ensures returned == old(returned) + (if Empty(ev) then [] else [ev])
      ensures old(Valid(rptr)) ==> Valid(next) && (Empty(ev) ==> |returned| >= |old(written)|)
    {
      NicActs(rptr);
      ev, next := TakeSlot(rptr);
    }

    /**
     The loop of `sfc7120_poll`: the pointer moves once per event handed over. With the true pointer, a
     short count means that everything the NIC had written when the call began has been handed over.
     */
    method Drain(rptr: nat, evs: array<Event>, maxEvs: nat) returns (got: nat, next: nat)
      requires Fits() && rptr < n && maxEvs <= evs.Length
      modifies ring, evs, this`written, this`returned
      ensures got <= maxEvs && next == Slot(rptr + got, n)
      ensures old(written) <= written && old(returned) <= returned && |returned| == |old(returned)| + got
      ensures evs[..got] == DecodeAll(returned[|old(returned)|..])
      ensures old(Valid(rptr)) ==> Valid(next) && (got < maxEvs ==> |returned| >= |old(written)|)
    {
      got, next := 0, rptr;
      Unfold(rptr, n);
      var more := true;
      ghost var seen: seq<Word> := [];
      while got < maxEvs && more
        invariant got <= maxEvs && got == |seen| && next == Slot(rptr + got, n)
        invariant old(written) <= written && returned == old(returned) + seen
        invariant evs[..got] == DecodeAll(seen)
        invariant old(Valid(rptr)) ==> Valid(next) && (!more ==> |returned| >= |old(written)|)
        decreases maxEvs - got, more
      {
        SlotAdd(rptr + got, 1, n);
        var ev;
        ev, next := PollSlot(next);
        if Empty(ev) {
          more := false;
        } else {
          Store(evs, got, ev, seen);
          seen := seen + [ev];
          got := got + 1;
        }
      }
      assert returned[|old(returned)|..] == seen;
    }

    /** The decoded event joins those handed over before it. */
    static method Store(evs: array<Event>, got: nat, ev: Word, ghost seen: seq<Word>)
      requires got < evs.Length && evs[..got] == DecodeAll(seen)
      modifies evs
      ensures evs[..got + 1] == DecodeAll(seen + [ev])
    {
      evs[got] := Decode(ev);
      DecodeNext(seen, ev);
    }

    /** `sfc7120_poll`: the next events in order, decoded, and one ack for all of them. */
    method Poll(rptr: nat, mapped: bool, evs: array?<Event>, maxEvs: int) returns (got: int, next: nat)
      requires Fits() && rptr < n
      requires evs != null ==> maxEvs <= evs.Length
      modifies this, ring, evs
      ensures got == -1 <==> evs == null || maxEvs <= 0 || !mapped
      ensures got == -1 ==> Abs(rptr) == old(Abs(rptr)) && next == rptr
      ensures got != -1 ==>
                && 0 <= got <= maxEvs && next == Slot(rptr + got, n)
                && old(written) <= written && old(returned) <= returned && |returned| == |old(returned)| + got
                && evs[..got] == DecodeAll(returned[|old(returned)|..])
      ensures got == 0 ==> acked == old(acked)
      ensures old(Valid(rptr)) ==>
                && Valid(next) && returned <= written
                && (0 <= got < maxEvs ==> |returned| >= |old(written)|)
                && (got > 0 ==> (acked == |returned| <==> |returned| < old(acked) + n))
    {
      got, next := -1, rptr;
      if evs != null && maxEvs > 0 && mapped {
        got, next := Drain(rptr, evs, maxEvs);
        if got > 0 {
          Acknowledge(next);
        }
      }
    }
  }

  lemma DecodeNext(evs: seq<Word>, ev: Word)
    ensures DecodeAll(evs + [ev]) == DecodeAll(evs) + [Decode(ev)]
  {}
}
