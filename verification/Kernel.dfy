/**
 The kernel's own data path: priming of the receive ring at attach, and the blocking
 transmit and receive ioctls, which poll the data event queue themselves.
 */
module Kernel {
  import opened Descriptor
  import opened EventQueue
  import opened Ring
  import RxRing

  // ----- the receive ring -----

  /** A frame handed to the caller: which receive event was consumed for it, and which slot was copied out. */
  datatype Delivery = Delivery(event: nat, slot: nat)

  /**
   The ring as the receive ioctl drives it, with the NIC beside it. `filled` counts the frames the NIC
   received, each with one event; `consumed` those events that an ioctl took off the queue; `frames` the
   slots given back. Frame `k` is in slot `Slot(k, n)`.
   */
  datatype RxState = RxState(
    n: nat, paddr: nat, desc: seq<Word>, head: nat, doorbell: nat,
    frames: nat, consumed: nat, filled: nat, log: seq<Delivery>)

  datatype RxOutcome = Delivered | CopyFailed | TimedOut

  /** The NIC receives a frame; a receive ioctl; a transmit ioctl that drains receive events on its way. */
  datatype RxStep = NicFill | Receive(outcome: RxOutcome) | Transmit(drained: nat)

  predicate RxShaped(s: RxState) {
    0 < s.n && |s.desc| == s.n && s.head < s.n && s.doorbell < s.n
  }

  /** `sfc7120_post_rx_buffers`: every slot populated, all but one advertised. */
  function RxPrimed(n: nat, paddr: nat): RxState
    requires 0 < n
  {
    RxState(n, paddr, seq(n, i requires 0 <= i < n => RxRing.Identity(paddr, i)), 0, n - 1, 0, 0, 0, [])
  }

  /** The NIC stops at the doorbell; events are consumed only if there are some. */
  predicate RxEnabled(s: RxState, step: RxStep)
    requires RxShaped(s)
  {
    match step
    case NicFill => Slot(s.filled, s.n) != s.doorbell
    case Receive(outcome) => outcome != TimedOut ==> s.consumed < s.filled
    case Transmit(drained) => s.consumed + drained <= s.filled
  }

  /** Only a delivered frame gives its slot back and moves the head. */
  function RxApply(s: RxState, step: RxStep): (s': RxState)
    requires RxShaped(s)
    ensures RxShaped(s') && s'.n == s.n && s'.paddr == s.paddr
  {
    match step
    case NicFill => s.(filled := s.filled + 1)
    case Receive(Delivered) =>
      s.(desc := s.desc[s.head := RxRing.Identity(s.paddr, s.head)], doorbell := s.head, head := Slot(s.head + 1, s.n),
         frames := s.frames + 1, consumed := s.consumed + 1, log := s.log + [Delivery(s.consumed, s.head)])
    case Receive(CopyFailed) => s.(consumed := s.consumed + 1)
    case Receive(TimedOut) => s
    case Transmit(drained) => s.(consumed := s.consumed + drained)
  }

  /** The driver's side: head and doorbell are one apart, and every descriptor is that of its slot. */
  ghost predicate DriverInv(s: RxState) {
    && RxShaped(s)
    && s.head == Slot(s.frames, s.n) && s.doorbell == Slot(s.frames + s.n - 1, s.n)
    && forall i | 0 <= i < s.n :: s.desc[i] == RxRing.Identity(s.paddr, i)
  }

  ghost predicate RxInv(s: RxState) {
    DriverInv(s) && s.frames <= s.consumed <= s.filled < s.frames + s.n
  }

  lemma RxPrimedInv(n: nat, paddr: nat)
    requires 0 < n
    ensures RxInv(RxPrimed(n, paddr))
  {
    Unfold(n - 1, n);
    Unfold(0, n);
  }

  lemma DeliveredInv(s: RxState)
    requires DriverInv(s)
    ensures DriverInv(RxApply(s, Receive(Delivered)))
  {
    SlotAdd(s.frames, 1, s.n);
    SlotPeriod(s.frames, 1, s.n);
  }

  lemma RxStepInv(s: RxState, step: RxStep)
    requires RxInv(s) && RxEnabled(s, step)
    ensures RxInv(RxApply(s, step))
  {
    if step == Receive(Delivered) {
      DeliveredInv(s);
    }
  }

  ghost predicate RxRuns(s: RxState, steps: seq<RxStep>)
    requires RxShaped(s)
    decreases |steps|
  {
    steps == [] || (RxEnabled(s, steps[0]) && RxRuns(RxApply(s, steps[0]), steps[1..]))
  }

  function RxRun(s: RxState, steps: seq<RxStep>): (s': RxState)
    requires RxShaped(s)
    ensures RxShaped(s') && s'.n == s.n && s'.paddr == s.paddr
    decreases |steps|
  {
    if steps == [] then s else RxRun(RxApply(s, steps[0]), steps[1..])
  }

  /** Receive events consumed without a delivery: failed copies, and what transmit ioctls drained. */
  function Dropped(steps: seq<RxStep>): nat
    decreases |steps|
  {
    if steps == [] then 0
    else
      Dropped(steps[1..]) + match steps[0] {
        case NicFill => 0
        case Receive(outcome) => if outcome == CopyFailed then 1 else 0
        case Transmit(drained) => drained
      }
  }

  lemma {:induction false} RxRunInv(s: RxState, steps: seq<RxStep>)
    requires RxInv(s) && RxRuns(s, steps)
    ensures var s' := RxRun(s, steps);
            RxInv(s') && s'.consumed - s'.frames == s.consumed - s.frames + Dropped(steps)
    decreases |steps|
  {
    if steps != [] {
      RxStepInv(s, steps[0]);
      RxRunInv(RxApply(s, steps[0]), steps[1..]);
    }
  }

  /** Descriptor `i` reads back as the buffer of slot `i`. */
  predicate OwnSlot(paddr: nat, i: nat, word: Word) {
    Address(word) == paddr + i * RxRing.BUFFER_SIZE && Count(word) == RxRing.BUFFER_SIZE
  }

  lemma IdentityReadsBack(n: nat, paddr: nat, i: nat)
    requires i < n && paddr + n * RxRing.BUFFER_SIZE <= ADDR_LIMIT
    ensures OwnSlot(paddr, i, RxRing.Identity(paddr, i))
  {
    RoundTrip(paddr + i * RxRing.BUFFER_SIZE, RxRing.BUFFER_SIZE);
  }

  /** What the NIC may still fill: it stops exactly when it is a ring less one ahead of the slots given back. */
  lemma FillIff(s: RxState)
    requires RxInv(s)
    ensures RxEnabled(s, NicFill) <==> s.filled < s.frames + s.n - 1
  {
    if s.filled < s.frames + s.n - 1 {
      SlotDistinct(s.filled, s.frames + s.n - 1, s.n);
    }
  }

  /**
   From attach through any run of fills, receive ioctls and transmit ioctls: producer and consumer never
   meet, every descriptor reads back as the 2048-byte buffer of its own slot, and the NIC owns every slot
   but one of those that hold no frame waiting to be delivered.
   */
  lemma RingStaysFull(n: nat, paddr: nat, steps: seq<RxStep>)
    requires 1 < n && paddr + n * RxRing.BUFFER_SIZE <= ADDR_LIMIT && RxRuns(RxPrimed(n, paddr), steps)
    ensures var s := RxRun(RxPrimed(n, paddr), steps);
            && s.doorbell != s.head
            && (RxEnabled(s, NicFill) <==> s.filled < s.frames + n - 1)
            && (forall i | 0 <= i < n :: OwnSlot(paddr, i, s.desc[i]))
  {
    RxPrimedInv(n, paddr);
    RxRunInv(RxPrimed(n, paddr), steps);
    var s := RxRun(RxPrimed(n, paddr), steps);
    FillIff(s);
    SlotDistinct(s.frames, s.frames + n - 1, n);
    forall i | 0 <= i < n ensures OwnSlot(paddr, i, s.desc[i]) {
      IdentityReadsBack(n, paddr, i);
    }
  }

  /**
   After any run, the next receive ioctl copies out the frame of the event it consumed if and only if no
   receive event was consumed before without a delivery.
   */
  lemma RightFrameIff(n: nat, paddr: nat, steps: seq<RxStep>)
    requires 0 < n && RxRuns(RxPrimed(n, paddr), steps)
    requires RxEnabled(RxRun(RxPrimed(n, paddr), steps), Receive(Delivered))
    ensures var s := RxRun(RxPrimed(n, paddr), steps);
            var d := RxApply(s, Receive(Delivered)).log[|s.log|];
            d.slot == Slot(d.event, n) <==> Dropped(steps) == 0
  {
    RxPrimedInv(n, paddr);
    RxRunInv(RxPrimed(n, paddr), steps);
    var s := RxRun(RxPrimed(n, paddr), steps);
    if s.frames < s.consumed {
      SlotDistinct(s.frames, s.consumed, n);
    }
  }

  /** A failed copy, then a delivery: the event is the second frame's, the bytes are the first's. */
  lemma WrongFrame(n: nat, paddr: nat)
    requires 2 < n
    ensures var steps := [NicFill, NicFill, Receive(CopyFailed), Receive(Delivered)];
            RxRuns(RxPrimed(n, paddr), steps) && RxRun(RxPrimed(n, paddr), steps).log == [Delivery(1, 0)]
  {
    Unfold(0, n);
    Unfold(1, n);
    var s0 := RxPrimed(n, paddr);
    var s1 := RxApply(s0, NicFill);
    var s2 := RxApply(s1, NicFill);
    var s3 := RxApply(s2, Receive(CopyFailed));
    var steps := [NicFill, NicFill, Receive(CopyFailed), Receive(Delivered)];
    assert steps[1..] == [NicFill, Receive(CopyFailed), Receive(Delivered)];
    assert steps[1..][1..] == [Receive(CopyFailed), Receive(Delivered)];
    assert steps[1..][1..][1..] == [Receive(Delivered)];
    assert RxRuns(s3, [Receive(Delivered)]) && RxRun(s3, [Receive(Delivered)]).log == [Delivery(1, 0)];
    assert RxRuns(s2, [Receive(CopyFailed), Receive(Delivered)]);
    assert RxRuns(s1, [NicFill, Receive(CopyFailed), Receive(Delivered)]);
  }

  /** Once a ring less one of events was lost that way, the NIC is out of descriptors and nothing arrives again. */
  lemma {:induction false} DeadForEver(s: RxState, steps: seq<RxStep>)
    requires RxInv(s) && s.consumed == s.frames + s.n - 1 && RxRuns(s, steps)
    ensures RxRun(s, steps) == s
    decreases |steps|
  {
    if steps != [] {
      FillIff(s);
      assert RxApply(s, steps[0]) == s;
      DeadForEver(s, steps[1..]);
    }
  }

  /** Frames that arrive one by one and whose copies all fail. */
  function FailedCopies(k: nat): seq<RxStep> {
    if k == 0 then [] else [NicFill, Receive(CopyFailed)] + FailedCopies(k - 1)
  }

  /** Such a state is reached from every one in which no event waits: as many failed copies as descriptors are left. */
  lemma {:induction false} FailedCopiesKill(s: RxState, k: nat)
    requires RxInv(s) && s.consumed == s.filled && s.filled + k == s.frames + s.n - 1
    ensures RxRuns(s, FailedCopies(k))
    ensures var s' := RxRun(s, FailedCopies(k)); RxInv(s') && s'.n == s.n && s'.consumed == s'.frames + s'.n - 1
    decreases k
  {
    if k > 0 {
      var steps, s1 := FailedCopies(k), RxApply(s, NicFill);
      var s2 := RxApply(s1, Receive(CopyFailed));
      FillIff(s);
      assert steps[0] == NicFill && steps[1..][0] == Receive(CopyFailed);
      assert steps[1..][1..] == FailedCopies(k - 1);
      FailedCopiesKill(s2, k - 1);
      assert RxRuns(s1, steps[1..]) && RxRun(s1, steps[1..]) == RxRun(s2, FailedCopies(k - 1));
    }
  }

  /** Two buffers of the ring share no byte, and none reaches outside. */
  lemma BuffersAreDisjoint(n: nat, paddr: nat, i: nat, j: nat, byte: nat)
    requires i < n && j < n && paddr + i * RxRing.BUFFER_SIZE <= byte < paddr + (i + 1) * RxRing.BUFFER_SIZE
    ensures paddr <= byte < paddr + n * RxRing.BUFFER_SIZE
    ensures paddr + j * RxRing.BUFFER_SIZE <= byte < paddr + (j + 1) * RxRing.BUFFER_SIZE <==> i == j
  {}

  // ----- the ioctls, in place -----

  datatype Errno = Ok | EINVAL | EPERM | EFAULT | ETIMEDOUT

  /** No event of `evs` satisfies `stop`, except possibly the last. */
  ghost predicate StopsAt(evs: seq<Word>, stop: Event -> bool, found: bool) {
    && (found ==> evs != [] && stop(Decode(evs[|evs| - 1])))
    && (forall i | 0 <= i < |evs| - (if found then 1 else 0) :: !stop(Decode(evs[i])))
  }

  lemma StopsNext(evs: seq<Word>, stop: Event -> bool, ev: Word)
    requires StopsAt(evs, stop, false)
    ensures StopsAt(evs + [ev], stop, stop(Decode(ev)))
  {}

  predicate IsRx(e: Event) {
    e.kind == RxEvent
  }

  /** How many of the events are receive events. */
  function RxCount(evs: seq<Word>): (c: nat)
    ensures c <= |evs|
  {
    if evs == [] then 0 else RxCount(evs[..|evs| - 1]) + if IsRx(Decode(evs[|evs| - 1])) then 1 else 0
  }

  lemma {:induction false} RxCountConcat(a: seq<Word>, b: seq<Word>)
    ensures RxCount(a + b) == RxCount(a) + RxCount(b)
  {
    if b == [] {
      assert a + b == a;
    } else {
      assert (a + b)[..|a + b| - 1] == a + b[..|b| - 1];
      RxCountConcat(a, b[..|b| - 1]);
    }
  }

  lemma {:induction false} NoneCounted(evs: seq<Word>)
    requires forall i | 0 <= i < |evs| :: !IsRx(Decode(evs[i]))
    ensures RxCount(evs) == 0
  {
    if evs != [] {
      NoneCounted(evs[..|evs| - 1]);
    }
  }

  /** Polling for a receive event consumes one if it succeeds and none if it does not. */
  lemma OneCounted(evs: seq<Word>, found: bool)
    requires StopsAt(evs, IsRx, found)
    ensures RxCount(evs) == if found then 1 else 0
  {
    if found {
      NoneCounted(evs[..|evs| - 1]);
    } else {
      NoneCounted(evs);
    }
  }

  /** The checks of `SFC7120_TX` on the caller's buffer, in their order. */
  function TxCheck(tagged: bool, loadable: bool, capLen: nat, length: nat): Errno {
    if !tagged then EINVAL
    else if !loadable then EPERM
    else if length == 0 || length > RxRing.BUFFER_SIZE then EINVAL
    else if capLen < length then EINVAL
    else Ok
  }

  class Softc {
    const n: nat
    const rxPaddr: nat
    const txPaddr: nat
    const evq: DataEvq
    const rxDesc: array<Word>
    const txDesc: array<Word>
    var evqReadPtr: nat
    var rxHead: nat
    var rxDoorbell: nat
    var txHead: nat
    var txDoorbell: nat
    ghost var frames: nat
    ghost var log: seq<Delivery>

    ghost function Rx(): RxState
      reads this, rxDesc, evq
    {
      RxState(n, rxPaddr, rxDesc[..], rxHead, rxDoorbell, frames, RxCount(evq.returned), RxCount(evq.written), log)
    }

    /** Everything has its size and every cursor is in range. */
    ghost predicate Shape()
      reads this
    {
      && evq.Fits() && evq.n == n && rxDesc.Length == txDesc.Length == n
      && rxDesc != txDesc && rxDesc != evq.ring && txDesc != evq.ring
      && evqReadPtr < n && rxHead < n && rxDoorbell < n && txHead < n
    }

    /** Attach: the rings are allocated and the receive ring is primed. */
    constructor (n: nat, rxPaddr: nat, txPaddr: nat)
      requires 0 < n <= RPTR_FIELD
      ensures Shape() && fresh(evq) && fresh(evq.ring) && fresh(rxDesc) && fresh(txDesc) && this.n == n
      ensures Rx() == RxPrimed(n, rxPaddr) && txHead == evqReadPtr == 0 && evq.Abs(0) == EventQueue.Primed(n)
    {
      this.n, this.rxPaddr, this.txPaddr := n, rxPaddr, txPaddr;
      evq := new DataEvq(n);
      rxDesc := new Word[n](_ => 0);
      txDesc := new Word[n](_ => 0);
      evqReadPtr, txHead, txDoorbell, rxHead, rxDoorbell, frames, log := 0, 0, 0, 0, 0, 0, [];
      new;
      PostRxBuffers();
    }

    /** `sfc7120_post_rx_buffers`. */
    method PostRxBuffers()
      requires 0 < n == rxDesc.Length && frames == 0 && log == [] && evq.returned == evq.written == []
      modifies rxDesc, this`rxHead, this`rxDoorbell
      ensures Rx() == RxPrimed(n, rxPaddr)
    {
      for i := 0 to n
        invariant forall j | 0 <= j < i :: rxDesc[j] == RxRing.Identity(rxPaddr, j)
      {
        rxDesc[i] := RxRing.Identity(rxPaddr, i);
      }
      rxDoorbell, rxHead := n - 1, 0;
      assert rxDesc[..] == RxPrimed(n, rxPaddr).desc;
    }

    /**
     The poll loop of both ioctls: consume events of any type until one satisfies
     `stop` or the tries run out, then ack. The NIC may act before every try.
     */
    method PollUntil(stop: Event -> bool, tries: nat) returns (found: bool, last: Word, ghost seen: seq<Word>)
      requires Shape()
      modifies this`evqReadPtr, evq, evq.ring
      ensures Shape() && evqReadPtr == Slot(old(evqReadPtr) + |seen|, n)
      ensures evq.returned == old(evq.returned) + seen && old(evq.written) <= evq.written
      ensures StopsAt(seen, stop, found) && (found ==> last == seen[|seen| - 1])
      ensures old(evq.Valid(evqReadPtr)) ==> evq.Valid(evqReadPtr)
    {
      var consumed;
      found, last, consumed, seen := PollLoop(stop, tries);
      if consumed > 0 {
        evq.Acknowledge(evqReadPtr);
      }
    }

    method PollLoop(stop: Event -> bool, tries: nat)
      returns (found: bool, last: Word, consumed: nat, ghost seen: seq<Word>)
      requires Shape()
      modifies this`evqReadPtr, evq`written, evq`returned, evq.ring
      ensures Shape() && evqReadPtr == Slot(old(evqReadPtr) + |seen|, n) && consumed == |seen|
      ensures evq.returned == old(evq.returned) + seen && old(evq.written) <= evq.written
      ensures StopsAt(seen, stop, found) && (found ==> last == seen[|seen| - 1])
      ensures old(evq.Valid(evqReadPtr)) ==> evq.Valid(evqReadPtr)
    {
      found, last, consumed, seen := false, 0, 0, [];
      Unfold(evqReadPtr, n);
      var t := 0;
      while t < tries && !found
        invariant Shape() && evqReadPtr == Slot(old(evqReadPtr) + |seen|, n) && consumed == |seen|
        invariant evq.returned == old(evq.returned) + seen && old(evq.written) <= evq.written
        invariant StopsAt(seen, stop, found) && (found ==> last == seen[|seen| - 1])
        invariant old(evq.Valid(evqReadPtr)) ==> evq.Valid(evqReadPtr)
        decreases tries - t
      {
        SlotAdd(old(evqReadPtr) + |seen|, 1, n);
        var ev;
        ev, evqReadPtr := evq.PollSlot(evqReadPtr);
        if !Empty(ev) {
          StopsNext(seen, stop, ev);
          found, last, consumed, seen := stop(Decode(ev)), ev, consumed + 1, seen + [ev];
        }
        t := t + 1;
      }
    }

    /**
     `SFC7120_RX`; `prefix` is the length the NIC wrote ahead of the frame. One receive event is consumed
     unless it times out, and a frame whose copy-out fails is lost: its slot is not given back.
     */
    method Receive(copyOk: bool, prefix: nat) returns (rc: Errno, length: nat, ghost seen: seq<Word>)
      requires Shape()
      modifies this`evqReadPtr, this`rxHead, this`rxDoorbell, this`frames, this`log, rxDesc, evq, evq.ring
      ensures Shape() && evqReadPtr == Slot(old(evqReadPtr) + |seen|, n) && evq.returned == old(evq.returned) + seen
      ensures StopsAt(seen, IsRx, rc != ETIMEDOUT) && (rc == Ok <==> rc != ETIMEDOUT && copyOk)
      ensures Rx() == RxApply(old(Rx()).(filled := Rx().filled), RxStep.Receive(Outcome(rc)))
      ensures rc == Ok ==> length == RxRing.PeekLen(RxRing.NULL, prefix, seen[|seen| - 1] % 0x4000)
      ensures old(evq.Valid(evqReadPtr)) ==> evq.Valid(evqReadPtr)
    {
      var found, ev;
      found, ev, seen := PollUntil(IsRx, 100000);
      OneCounted(seen, found);
      RxCountConcat(old(evq.returned), seen);
      if !found {
        return ETIMEDOUT, 0, seen;
      }
      length := RxRing.PeekLen(RxRing.NULL, prefix, ev % 0x4000);
      if !copyOk {
        return EFAULT, 0, seen;
      }
      GiveBack(RxCount(old(evq.returned)));
      return Ok, length, seen;
    }

    /** The re-post, the doorbell and the advance of the receive ioctl, for receive event `event`. */
    method GiveBack(ghost event: nat)
      requires Shape()
      modifies this`rxHead, this`rxDoorbell, this`frames, this`log, rxDesc
      ensures Shape() && rxDoorbell == old(rxHead) && rxHead == Slot(old(rxHead) + 1, n)
      ensures rxDesc[..] == old(rxDesc[..])[old(rxHead) := RxRing.Identity(rxPaddr, old(rxHead))]
      ensures log == old(log) + [Delivery(event, old(rxHead))] && frames == old(frames) + 1
    {
      rxDesc[rxHead] := RxRing.Identity(rxPaddr, rxHead);
      log, frames := log + [Delivery(event, rxHead)], frames + 1;
      rxDoorbell := rxHead;
      rxHead := Slot(rxHead + 1, n);
    }

    /**
     `SFC7120_TX`: a refused request changes nothing; any other posts one descriptor, whether or not its
     completion arrives in time, and drains every event up to one that names its slot.
     */
    method Transmit(tagged: bool, loadable: bool, capLen: nat, copyOk: bool, length: nat)
      returns (rc: Errno, ghost seen: seq<Word>)
      requires Shape()
      modifies this`evqReadPtr, this`txHead, this`txDoorbell, txDesc, evq, evq.ring
      ensures Shape() && evqReadPtr == Slot(old(evqReadPtr) + |seen|, n) && evq.returned == old(evq.returned) + seen
      ensures rc in {EINVAL, EPERM, EFAULT} <==> TxCheck(tagged, loadable, capLen, length) != Ok || !copyOk
      ensures TxCheck(tagged, loadable, capLen, length) != Ok ==> rc == TxCheck(tagged, loadable, capLen, length)
      ensures rc in {EINVAL, EPERM, EFAULT} ==> seen == [] && txHead == old(txHead) && txDesc[..] == old(txDesc[..])
      ensures rc !in {EINVAL, EPERM, EFAULT} ==>
                && txHead == txDoorbell == Slot(old(txHead) + 1, n)
                && txDesc[..] == old(txDesc[..])[old(txHead) := Encode(txPaddr + old(txHead) * RxRing.BUFFER_SIZE, length)]
                && StopsAt(seen, Completes(old(txHead), n), rc == Ok)
      ensures Rx() == RxApply(old(Rx()).(filled := Rx().filled), RxStep.Transmit(RxCount(seen)))
      ensures old(evq.Valid(evqReadPtr)) ==> evq.Valid(evqReadPtr)
    {
      seen := [];
      Unfold(evqReadPtr, n);
      rc := TxCheck(tagged, loadable, capLen, length);
      if rc != Ok {
        return;
      }
      if !copyOk {
        return EFAULT, [];
      }
      var done;
      done, seen := PostAndWait(length);
      rc := if done then Ok else ETIMEDOUT;
    }

    /** The descriptor, the doorbell and the wait of the transmit ioctl. */
    method PostAndWait(length: nat) returns (done: bool, ghost seen: seq<Word>)
      requires Shape()
      modifies this`evqReadPtr, this`txHead, this`txDoorbell, txDesc, evq, evq.ring
      ensures Shape() && evqReadPtr == Slot(old(evqReadPtr) + |seen|, n) && evq.returned == old(evq.returned) + seen
      ensures txHead == txDoorbell == Slot(old(txHead) + 1, n)
      ensures txDesc[..] == old(txDesc[..])[old(txHead) := Encode(txPaddr + old(txHead) * RxRing.BUFFER_SIZE, length)]
      ensures StopsAt(seen, Completes(old(txHead), n), done)
      ensures Rx() == old(Rx()).(filled := Rx().filled, consumed := old(Rx().consumed) + RxCount(seen))
      ensures old(evq.Valid(evqReadPtr)) ==> evq.Valid(evqReadPtr)
    {
      txDesc[txHead] := Encode(txPaddr + txHead * RxRing.BUFFER_SIZE, length);
      txDoorbell := Slot(txHead + 1, n);
      var last;
      done, last, seen := PollUntil(Completes(txHead, n), 10000);
      RxCountConcat(old(evq.returned), seen);
      txHead := Slot(txHead + 1, n);
    }
  }

  function Outcome(rc: Errno): RxOutcome {
    if rc == Ok then Delivered else if rc == ETIMEDOUT then TimedOut else CopyFailed
  }

  /** The completion of the descriptor at slot `posted`: the event's free-running index, masked. */
  function Completes(posted: nat, n: nat): Event -> bool
    requires 0 < n
  {
    (e: Event) => e.kind == TxEvent && Slot(e.txDescIdx, n) == posted
  }

  /**
   What a match means: of the descriptors up to the one posted, the event that completes position `p` is
   taken for that of position `posted` exactly when the two are whole laps apart; so it is its own if no
   completion older than a lap is outstanding.
   */
  lemma MatchIff(ev: Word, k: nat, p: nat, posted: nat)
    requires k <= 16 && p <= posted && Decode(ev).kind == TxEvent && Decode(ev).txDescIdx == p % 0x1_0000
    ensures Completes(Slot(posted, Pow2(k)), Pow2(k))(Decode(ev)) <==> Slot(posted - p, Pow2(k)) == 0
    ensures posted < p + Pow2(k) ==> (Completes(Slot(posted, Pow2(k)), Pow2(k))(Decode(ev)) <==> p == posted)
  {
    var n := Pow2(k);
    SlotOfTruncated(p, k);
    LapsApart(p, posted - p, n);
    Unfold(posted - p, n);
  }
}
