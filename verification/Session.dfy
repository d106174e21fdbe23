/**
 Hand-over of the ring cursors between sessions. The NIC's queues outlive a session,
 so a session starts from the cursors the kernel kept (`SFC7120_GET_VI_INFO`) and, if
 it polled, reports its own back when it ends (`SFC7120_SET_EVQ_RPTR`).
 */
module Session {
  import opened Descriptor
  import EventQueue
  import Kernel
  import opened Ring
  import RxRing

  datatype Cursors = Cursors(evq: nat, tx: nat, rx: nat)

  /** How far the rings really moved since attach: events consumed, descriptors posted, frames taken. */
  datatype Totals = Totals(events: nat, posted: nat, frames: nat)

  function Sum(a: Totals, b: Totals): Totals {
    Totals(a.events + b.events, a.posted + b.posted, a.frames + b.frames)
  }

  const ZERO: Totals := Totals(0, 0, 0)

  function Wrapped(t: Totals, n: nat): Cursors
    requires 0 < n
  {
    Cursors(Slot(t.events, n), Slot(t.posted, n), Slot(t.frames, n))
  }

  function Advance(c: Cursors, d: Totals, n: nat): Cursors
    requires 0 < n
  {
    Cursors(Slot(c.evq + d.events, n), Slot(c.tx + d.posted, n), Slot(c.rx + d.frames, n))
  }

  lemma AdvanceWrapped(t: Totals, d: Totals, n: nat)
    requires 0 < n
    ensures Advance(Wrapped(t, n), d, n) == Wrapped(Sum(t, d), n)
  {
    SlotAdd(t.events, d.events, n);
    SlotAdd(t.posted, d.posted, n);
    SlotAdd(t.frames, d.frames, n);
  }

  /**
   What a session does. The first two move the kernel's cursors, the others the
   user library's copies. The batched posts leave `used_poll` alone.
   */
  datatype Op =
    | IoctlTx(consumed: nat)
    | IoctlRx(consumed: nat, delivered: bool)
    | Poll(consumed: nat)
    | TxPost
    | TxPostNodbl
    | RxPeekRelease
    | RxReleaseNodbl

  predicate ByIoctl(op: Op) {
    op.IoctlTx? || op.IoctlRx?
  }

  predicate MarksPoll(op: Op) {
    op.Poll? || op.TxPost? || op.RxPeekRelease?
  }

  function Moves(op: Op): Totals {
    match op
    case IoctlTx(consumed) => Totals(consumed, 1, 0)
    case IoctlRx(consumed, delivered) => Totals(consumed, 0, if delivered then 1 else 0)
    case Poll(consumed) => Totals(consumed, 0, 0)
    case TxPost => Totals(0, 1, 0)
    case TxPostNodbl => Totals(0, 1, 0)
    case RxPeekRelease => Totals(0, 0, 1)
    case RxReleaseNodbl => Totals(0, 0, 1)
  }

  datatype State = State(n: nat, kernel: Cursors, user: Cursors, usedPoll: bool, total: Totals)

  /** `sfc7120_init` seeds the user's cursors from the kernel's. */
  function Open(s: State): State {
    s.(user := s.kernel, usedPoll := false)
  }

  function Do(s: State, op: Op): State
    requires 0 < s.n
  {
    var s1 := s.(total := Sum(s.total, Moves(op)), usedPoll := s.usedPoll || MarksPoll(op));
    if ByIoctl(op) then s1.(kernel := Advance(s.kernel, Moves(op), s.n))
    else s1.(user := Advance(s.user, Moves(op), s.n))
  }

  /** The first `k` operations of a session. */
  function DoFirst(s: State, ops: seq<Op>, k: nat): (s': State)
    requires 0 < s.n && k <= |ops|
    ensures s'.n == s.n
  {
    if k == 0 then s else Do(DoFirst(s, ops, k - 1), ops[k - 1])
  }

  /** The range check of `SFC7120_SET_EVQ_RPTR`. */
  predicate Refused(c: Cursors, n: nat) {
    c.evq >= n || c.tx >= n || c.rx >= n
  }

  /** `sfc7120_destroy`: the sync, if this session polled. */
  function Close(s: State): State {
    if s.usedPoll && !Refused(s.user, s.n) then s.(kernel := s.user) else s
  }

  function Run(s: State, ops: seq<Op>): (s': State)
    requires 0 < s.n
    ensures s'.n == s.n
  {
    Close(DoFirst(Open(s), ops, |ops|))
  }

  ghost predicate Aligned(s: State) {
    0 < s.n && s.kernel == Wrapped(s.total, s.n)
  }

  /** What one side moved in the first `k` operations. */
  function Side(ops: seq<Op>, k: nat, ioctl: bool): Totals
    requires k <= |ops|
  {
    if k == 0 then ZERO
    else Sum(Side(ops, k - 1, ioctl), if ByIoctl(ops[k - 1]) == ioctl then Moves(ops[k - 1]) else ZERO)
  }

  ghost predicate Marked(ops: seq<Op>, k: nat)
    requires k <= |ops|
  {
    exists i | 0 <= i < k :: MarksPoll(ops[i])
  }

  /** Within a session each side tracks what it moved itself. */
  lemma {:induction false} SidesTrack(s: State, ops: seq<Op>, k: nat)
    requires Aligned(s) && k <= |ops|
    ensures Tracks(DoFirst(Open(s), ops, k), s.n, s.total, Side(ops, k, true), Side(ops, k, false))
  {
    if k > 0 {
      SidesTrack(s, ops, k - 1);
      OneMoreTracks(s, ops, k - 1);
    }
  }

  /** Each side's cursors are the seed plus what it moved, and the totals are both. */
  ghost predicate Tracks(s: State, n: nat, t: Totals, a: Totals, b: Totals)
    requires 0 < n
  {
    s.kernel == Wrapped(Sum(t, a), n) && s.user == Wrapped(Sum(t, b), n) && s.total == Sum(Sum(t, a), b)
  }

  lemma OneMoreTracks(s: State, ops: seq<Op>, k: nat)
    requires 0 < s.n && k < |ops| && Tracks(DoFirst(Open(s), ops, k), s.n, s.total, Side(ops, k, true), Side(ops, k, false))
    ensures Tracks(DoFirst(Open(s), ops, k + 1), s.n, s.total, Side(ops, k + 1, true), Side(ops, k + 1, false))
  {
    var a, b := Side(ops, k, true), Side(ops, k, false);
    DoTracks(DoFirst(Open(s), ops, k), s.total, a, b, ops[k]);
    assert Side(ops, k + 1, true) == (if ByIoctl(ops[k]) then Sum(a, Moves(ops[k])) else a);
    assert Side(ops, k + 1, false) == (if ByIoctl(ops[k]) then b else Sum(b, Moves(ops[k])));
  }

  lemma DoTracks(s: State, t: Totals, a: Totals, b: Totals, op: Op)
    requires 0 < s.n && Tracks(s, s.n, t, a, b)
    ensures if ByIoctl(op) then Tracks(Do(s, op), s.n, t, Sum(a, Moves(op)), b)
            else Tracks(Do(s, op), s.n, t, a, Sum(b, Moves(op)))
  {
    if ByIoctl(op) { AdvanceWrapped(Sum(t, a), Moves(op), s.n); } else { AdvanceWrapped(Sum(t, b), Moves(op), s.n); }
  }

  lemma {:induction false} UsedPollTracks(s: State, ops: seq<Op>, k: nat)
    requires 0 < s.n && k <= |ops|
    ensures DoFirst(Open(s), ops, k).usedPoll <==> Marked(ops, k)
  {
    if k > 0 {
      UsedPollTracks(s, ops, k - 1);
    }
  }

  /** The teardown sync is never refused. */
  lemma SyncIsAccepted(s: State, ops: seq<Op>)
    requires Aligned(s)
    ensures !Refused(DoFirst(Open(s), ops, |ops|).user, s.n)
  {
    SidesTrack(s, ops, |ops|);
  }

  /** A total is a whole number of laps. */
  predicate WholeLaps(t: Totals, n: nat)
    requires 0 < n
  {
    Slot(t.events, n) == 0 && Slot(t.posted, n) == 0 && Slot(t.frames, n) == 0
  }

  /**
   A session hands the cursors over correctly if and only if the side whose cursors
   are discarded at its end moved each of them by whole laps: the kernel's side if
   the session polled, the user library's side if it did not.
   */
  lemma HandOver(s: State, ops: seq<Op>)
    requires Aligned(s)
    ensures Aligned(Run(s, ops)) <==> WholeLaps(Lost(ops), s.n)
  {
    var k := |ops|;
    SidesTrack(s, ops, k);
    UsedPollTracks(s, ops, k);
    SyncIsAccepted(s, ops);
    var kept, lost := Sum(s.total, Side(ops, k, !Marked(ops, k))), Lost(ops);
    LapsApart(kept.events, lost.events, s.n);
    LapsApart(kept.posted, lost.posted, s.n);
    LapsApart(kept.frames, lost.frames, s.n);
    assert Run(s, ops).kernel == Wrapped(kept, s.n);
    assert Run(s, ops).total == Sum(kept, lost);
  }

  /** What the discarded side moved. */
  ghost function Lost(ops: seq<Op>): Totals {
    Side(ops, |ops|, Marked(ops, |ops|))
  }

  /** Purely by ioctl, or purely direct with something that marks the session as polling. */
  ghost predicate Pure(ops: seq<Op>) {
    || (forall i | 0 <= i < |ops| :: ByIoctl(ops[i]))
    || ((forall i | 0 <= i < |ops| :: !ByIoctl(ops[i])) && Marked(ops, |ops|))
  }

  lemma {:induction false} OneSided(ops: seq<Op>, k: nat, ioctl: bool)
    requires k <= |ops| && forall i | 0 <= i < |ops| :: ByIoctl(ops[i]) == !ioctl
    ensures Side(ops, k, ioctl) == ZERO
  {
    if k > 0 {
      OneSided(ops, k - 1, ioctl);
    }
  }

  function RunAll(s: State, sessions: seq<seq<Op>>): (s': State)
    requires 0 < s.n
    ensures s'.n == s.n
    decreases |sessions|
  {
    if sessions == [] then s else RunAll(Run(s, sessions[0]), sessions[1..])
  }

  /**
   Across any sequence of pure sessions the kernel's cursors are the number of events
   consumed, descriptors posted and frames taken since attach, and the next session
   is seeded with exactly those.
   */
  lemma {:induction false} CursorsSurviveSessions(s: State, sessions: seq<seq<Op>>)
    requires Aligned(s) && forall i | 0 <= i < |sessions| :: Pure(sessions[i])
    ensures var s' := RunAll(s, sessions);
            Aligned(s') && Open(s').user == Wrapped(s'.total, s.n)
    decreases |sessions|
  {
    if sessions != [] {
      var ops := sessions[0];
      Unfold(0, s.n);
      OneSided(ops, |ops|, Marked(ops, |ops|));
      HandOver(s, ops);
      CursorsSurviveSessions(Run(s, ops), sessions[1..]);
    }
  }

  /** A session that transmits once by ioctl and then polls always rolls the kernel's transmit cursor back. */
  lemma MixedSessionLosesTheIoctl(s: State, ops: seq<Op>)
    requires Aligned(s) && 1 < s.n && |ops| == 2 && ops[0].IoctlTx? && ops[1].Poll?
    ensures !Aligned(Run(s, ops))
  {
    HandOver(s, ops);
    assert MarksPoll(ops[1]);
    assert Side(ops, 1, true).posted == 1;
    assert Lost(ops) == Side(ops, 2, true);
    Unfold(1, s.n);
  }

  // ----- one session, over the kernel's device and the shared event queue -----

  /** From `sfc7120_init` to `sfc7120_destroy`. */
  class Link {
    const dev: Kernel.Softc
    var user: Cursors
    var usedPoll: bool
    var viInfoValid: bool
    ghost var posted: nat         // descriptors posted since attach, by either side,
    ghost var taken: nat          // and receive slots taken
    ghost const start: State
    ghost var ops: seq<Op>

    /** The cursors of both sides, beside the events really consumed and the rest of the totals. */
    ghost function Abs(): State
      reads this, dev, dev.evq
    {
      State(dev.n, Cursors(dev.evqReadPtr, dev.txHead, dev.rxHead), user, usedPoll,
            Totals(|dev.evq.returned|, posted, taken))
    }

    /** What the session did so far is the run of its operations. */
    ghost predicate Valid()
      reads this, dev, dev.evq
    {
      && dev.Shape() && Aligned(start) && start.n == dev.n
      && (if viInfoValid then Abs() == DoFirst(Open(start), ops, |ops|)
          else ops == [] && Abs() == start.(user := user, usedPoll := false))
      && user.evq < dev.n && user.tx < dev.n && user.rx < dev.n
    }

    /**
     `sfc7120_init`, which reaches `SFC7120_GET_VI_INFO` or fails before it. If the kernel's cursors name
     the true counts, so do the copies the session starts from.
     */
    constructor (dev: Kernel.Softc, reached: bool, ghost posted: nat, ghost taken: nat)
      requires dev.Shape()
      requires Cursors(dev.evqReadPtr, dev.txHead, dev.rxHead) == Wrapped(Totals(|dev.evq.returned|, posted, taken), dev.n)
      ensures Valid() && this.dev == dev && viInfoValid == reached && ops == [] && Aligned(Abs())
      ensures start.total == Abs().total == Totals(|dev.evq.returned|, posted, taken)
      ensures reached ==> user == Wrapped(Abs().total, dev.n)
    {
      this.dev, usedPoll, viInfoValid := dev, false, reached;
      user := if reached then Cursors(dev.evqReadPtr, dev.txHead, dev.rxHead) else Cursors(0, 0, 0);
      this.posted, this.taken, ops := posted, taken, [];
      start := State(dev.n, Cursors(dev.evqReadPtr, dev.txHead, dev.rxHead), Cursors(0, 0, 0), false,
                     Totals(|dev.evq.returned|, posted, taken));
    }

    ghost method Did(op: Op)
      requires viInfoValid && dev.Shape() && Aligned(start) && start.n == dev.n
      requires Abs() == Do(DoFirst(Open(start), ops, |ops|), op)
      requires user.evq < dev.n && user.tx < dev.n && user.rx < dev.n
      modifies this`ops
      ensures Valid() && ops == old(ops) + [op]
    {
      DoFirstExtends(Open(start), ops, op, |ops|);
      ops := ops + [op];
    }

    /** A transmit ioctl moves the kernel's cursors by the events it drained and the descriptor it posted. */
    method IoctlTx(tagged: bool, loadable: bool, capLen: nat, copyOk: bool, length: nat) returns (rc: Kernel.Errno)
      requires Valid() && viInfoValid
      modifies this`ops, this`posted, dev`evqReadPtr, dev`txHead, dev`txDoorbell, dev.txDesc, dev.evq, dev.evq.ring
      ensures Valid() && user == old(user) && viInfoValid && old(dev.evq.returned) <= dev.evq.returned
      ensures if rc in {Kernel.EINVAL, Kernel.EPERM, Kernel.EFAULT} then ops == old(ops)
              else ops == old(ops) + [Op.IoctlTx(|dev.evq.returned| - |old(dev.evq.returned)|)]
    {
      ghost var seen;
      rc, seen := KernelTx(tagged, loadable, capLen, copyOk, length);
      if rc != Kernel.EINVAL && rc != Kernel.EPERM && rc != Kernel.EFAULT {
        Did(Op.IoctlTx(|seen|));
      }
    }

    method KernelTx(tagged: bool, loadable: bool, capLen: nat, copyOk: bool, length: nat)
      returns (rc: Kernel.Errno, ghost seen: seq<Word>)
      requires dev.Shape()
      modifies this`posted, dev`evqReadPtr, dev`txHead, dev`txDoorbell, dev.txDesc, dev.evq, dev.evq.ring
      ensures dev.Shape() && dev.evq.returned == old(dev.evq.returned) + seen
      ensures if rc in {Kernel.EINVAL, Kernel.EPERM, Kernel.EFAULT} then Abs() == old(Abs())
              else Abs() == Do(old(Abs()), Op.IoctlTx(|seen|))
    {
      Unfold(dev.rxHead, dev.n);
      Unfold(dev.evqReadPtr, dev.n);
      rc, seen := dev.Transmit(tagged, loadable, capLen, copyOk, length);
      if rc != Kernel.EINVAL && rc != Kernel.EPERM && rc != Kernel.EFAULT {
        posted := posted + 1;
      }
    }

    /** A receive ioctl moves them by the events it consumed and the slot it gave back, if any. */
    method IoctlRx(copyOk: bool, prefix: nat) returns (rc: Kernel.Errno, length: nat)
      requires Valid() && viInfoValid
      modifies this`ops, this`taken, dev`evqReadPtr, dev`rxHead, dev`rxDoorbell, dev`frames, dev`log
      modifies dev.rxDesc, dev.evq, dev.evq.ring
      ensures Valid() && user == old(user) && viInfoValid && old(dev.evq.returned) <= dev.evq.returned
      ensures ops == old(ops) + [Op.IoctlRx(|dev.evq.returned| - |old(dev.evq.returned)|, rc == Kernel.Ok)]
    {
      ghost var seen;
      rc, length, seen := KernelRx(copyOk, prefix);
      Did(Op.IoctlRx(|seen|, rc == Kernel.Ok));
    }

    method KernelRx(copyOk: bool, prefix: nat) returns (rc: Kernel.Errno, length: nat, ghost seen: seq<Word>)
      requires dev.Shape()
      modifies this`taken, dev`evqReadPtr, dev`rxHead, dev`rxDoorbell, dev`frames, dev`log
      modifies dev.rxDesc, dev.evq, dev.evq.ring
      ensures dev.Shape() && dev.evq.returned == old(dev.evq.returned) + seen
      ensures Abs() == Do(old(Abs()), Op.IoctlRx(|seen|, rc == Kernel.Ok))
    {
      Unfold(dev.txHead, dev.n);
      Unfold(dev.rxHead, dev.n);
      rc, length, seen := dev.Receive(copyOk, prefix);
      if rc == Kernel.Ok {
        taken := taken + 1;
      }
    }

    /** `sfc7120_poll` moves the session's own event cursor by the events returned, and marks the session. */
    method Poll(evs: array?<EventQueue.Event>, maxEvs: int) returns (got: int)
      requires Valid() && viInfoValid && (evs != null ==> maxEvs <= evs.Length)
      modifies this`ops, this`user, this`usedPoll, dev.evq, dev.evq.ring, evs
      ensures Valid() && viInfoValid && old(dev.evq.returned) <= dev.evq.returned
      ensures ops == old(ops) + (if got == -1 then [] else [Op.Poll(|dev.evq.returned| - |old(dev.evq.returned)|)])
      ensures got != -1 ==> got == |dev.evq.returned| - |old(dev.evq.returned)|
    {
      ghost var before := Abs();
      var next;
      got, next := dev.evq.Poll(user.evq, true, evs, maxEvs);
      Unfold(user.tx, dev.n);
      Unfold(user.rx, dev.n);
      if got != -1 {
        user, usedPoll := user.(evq := next), true;
        assert Abs() == Do(before, Op.Poll(got));
        Did(Op.Poll(got));
      }
    }

    /** `sfc7120_tx_post` and its batched form, which does not mark the session. */
    method TxPost(word: Word, batched: bool)
      requires Valid() && viInfoValid
      modifies this`ops, this`user, this`usedPoll, this`posted, dev.txDesc
      ensures Valid() && viInfoValid && ops == old(ops) + [if batched then Op.TxPostNodbl else Op.TxPost]
      ensures dev.txDesc[..] == old(dev.txDesc[..])[old(user.tx) := word]
    {
      ghost var before := Abs();
      dev.txDesc[user.tx] := word;
      Unfold(user.evq, dev.n);
      Unfold(user.rx, dev.n);
      user, usedPoll, posted := user.(tx := Slot(user.tx + 1, dev.n)), usedPoll || !batched, posted + 1;
      ghost var op := if batched then Op.TxPostNodbl else Op.TxPost;
      assert Abs() == Do(before, op);
      Did(op);
    }

    /** `sfc7120_rx_peek` with `sfc7120_rx_release`, or the batched release past the window, which marks nothing. */
    method RxRelease(word: Word, batched: bool, window: nat)
      requires Valid() && viInfoValid
      modifies this`ops, this`user, this`usedPoll, this`taken, dev.rxDesc
      ensures Valid() && viInfoValid && ops == old(ops) + [if batched then Op.RxReleaseNodbl else Op.RxPeekRelease]
      ensures dev.rxDesc[..] == old(dev.rxDesc[..])[(if batched then Slot(old(user.rx) + window, dev.n) else old(user.rx)) := word]
    {
      ghost var before := Abs();
      dev.rxDesc[if batched then Slot(user.rx + window, dev.n) else user.rx] := word;
      Unfold(user.evq, dev.n);
      Unfold(user.tx, dev.n);
      user, usedPoll, taken := user.(rx := Slot(user.rx + 1, dev.n)), usedPoll || !batched, taken + 1;
      ghost var op := if batched then Op.RxReleaseNodbl else Op.RxPeekRelease;
      assert Abs() == Do(before, op);
      Did(op);
    }

    /** `SFC7120_SET_EVQ_RPTR`. */
    method SetEvqRptr(req: Cursors) returns (refused: bool)
      requires dev.Shape()
      modifies dev`evqReadPtr, dev`txHead, dev`rxHead
      ensures dev.Shape() && (refused <==> Refused(req, dev.n))
      ensures Abs() == if refused then old(Abs()) else old(Abs()).(kernel := req)
    {
      refused := req.evq >= dev.n || req.tx >= dev.n || req.rx >= dev.n;
      if !refused {
        dev.evqReadPtr, dev.txHead, dev.rxHead := req.evq, req.tx, req.rx;
      }
    }

    /**
     The sync of `sfc7120_destroy`. The kernel's cursors name the true counts afterwards, and so the next
     session can start, if and only if the side that is dropped moved whole laps.
     */
    method Destroy()
      requires Valid()
      modifies dev`evqReadPtr, dev`txHead, dev`rxHead
      ensures dev.Shape() && (Aligned(Abs()) <==> WholeLaps(Lost(ops), dev.n))
      ensures Abs().total == old(Abs().total)
    {
      HandOver(start, ops);
      if viInfoValid {
        SyncIsAccepted(start, ops);
      } else {
        Unfold(0, dev.n);
        assert Lost(ops) == ZERO;
      }
      if viInfoValid && usedPoll {
        var refused := SetEvqRptr(user);
      }
    }
  }

  /** Operations appended do not change the ones before. */
  lemma {:induction false} DoFirstExtends(s: State, ops: seq<Op>, op: Op, k: nat)
    requires 0 < s.n && k <= |ops|
    ensures DoFirst(s, ops + [op], k) == DoFirst(s, ops, k)
    ensures k == |ops| ==> DoFirst(s, ops + [op], k + 1) == Do(DoFirst(s, ops, k), op)
  {
    if k > 0 {
      DoFirstExtends(s, ops, op, k - 1);
    }
  }
}
