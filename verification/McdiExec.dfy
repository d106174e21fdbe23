/**
 Exchanges with the management controller over one shared mailbox. The controller may
 answer at once, late (into a later exchange), with an error, or never. Only the 4-bit
 sequence number in the header tells which request an answer belongs to.
 */
module McdiExec {
  import opened McdiFrame
  import opened McdiPoll
  import opened Octet

  datatype Option<T> = None | Some(value: T)

  /** A request: the `index`-th since the epoch was last reset. */
  datatype Id = Id(epoch: nat, index: nat)

  /** An answer in the mailbox. Its header carries the sequence number of its request. */
  datatype Reply = Reply(to: Id, error: bool)

  datatype Outcome = TimedOut | Mismatch | Failed | Data(from: Id)

  datatype Entry = Entry(id: Id, seqno: nat, notEpoch: bool, outcome: Outcome)

  datatype State = State(epoch: nat, index: nat, seqno: nat, newEpoch: bool, log: seq<Entry>)

  datatype Step = Exec(reply: Option<Reply>) | Reset

  function Start(): State {
    State(0, 0, 0, true, [])
  }

  /** The request an answer belongs to was sent: in an earlier epoch, or in this one up to the current exchange. */
  predicate WasSent(s: State, id: Id) {
    id.epoch < s.epoch || (id.epoch == s.epoch && id.index <= s.index)
  }

  predicate Enabled(s: State, step: Step) {
    step.Exec? && step.reply.Some? ==> WasSent(s, step.reply.value.to)
  }

  /** What the driver makes of the mailbox once the response bit is set. */
  function Judge(seqno: nat, reply: Option<Reply>): Outcome {
    match reply
    case None => TimedOut
    case Some(r) =>
      if r.to.index % 16 != seqno then Mismatch
      else if r.error then Failed
      else Data(r.to)
  }

  /** `sfc7120_mcdi_exec` advances sequence number and epoch flag however it ends; a reboot resets both. */
  function Apply(s: State, step: Step): State {
    match step
    case Exec(reply) =>
      var entry := Entry(Id(s.epoch, s.index), s.seqno, !s.newEpoch, Judge(s.seqno, reply));
      State(s.epoch, s.index + 1, (s.seqno + 1) % 16, false, s.log + [entry])
    case Reset => State(s.epoch + 1, 0, 0, true, s.log)
  }

  /** The claims about one exchange. */
  predicate Sound(e: Entry) {
    && e.seqno == e.id.index % 16
    && (e.notEpoch <==> e.id.index != 0)
    && (e.outcome.Data? ==>
          && e.outcome.from.index % 16 == e.id.index % 16
          && (e.outcome.from.epoch == e.id.epoch && e.id.index < e.outcome.from.index + 16 ==> e.outcome.from == e.id))
  }

  ghost predicate Inv(s: State) {
    && s.seqno == s.index % 16 && (s.newEpoch <==> s.index == 0)
    && forall k | 0 <= k < |s.log| :: Sound(s.log[k])
  }

  /** An answer, of this epoch or an earlier one, is taken as current if and only if it is a multiple of 16 requests away. */
  lemma TakenIffCongruent(s: State, r: Reply)
    requires Inv(s) && WasSent(s, r.to) && !r.error
    ensures Judge(s.seqno, Some(r)) == Data(r.to) <==> (s.index - r.to.index) % 16 == 0
    ensures r.to.epoch == s.epoch && s.index - r.to.index < 16 ==>
              (Judge(s.seqno, Some(r)) == Data(r.to) <==> r.to.index == s.index)
  {}

  lemma StepInv(s: State, step: Step)
    requires Inv(s) && Enabled(s, step)
    ensures Inv(Apply(s, step))
  {
    if step.Exec? {
      var e := Apply(s, step).log[|s.log|];
      if e.outcome.Data? && e.outcome.from.epoch == s.epoch {
        SameWithinWindow(s.index, e.outcome.from.index);
      }
      assert Sound(e);
    }
  }

  /** Two numbers fewer than 16 apart with the same 4-bit sequence number are the same. */
  lemma SameWithinWindow(a: nat, b: nat)
    requires b <= a
    ensures a < b + 16 && a % 16 == b % 16 ==> a == b
  {}

  ghost predicate Runs(s: State, steps: seq<Step>)
    decreases |steps|
  {
    steps == [] || (Enabled(s, steps[0]) && Runs(Apply(s, steps[0]), steps[1..]))
  }

  function Final(s: State, steps: seq<Step>): State
    decreases |steps|
  {
    if steps == [] then s else Final(Apply(s, steps[0]), steps[1..])
  }

  lemma {:induction false} RunInv(s: State, steps: seq<Step>)
    requires Inv(s) && Runs(s, steps)
    ensures Inv(Final(s, steps))
    decreases |steps|
  {
    if steps != [] {
      StepInv(s, steps[0]);
      RunInv(Apply(s, steps[0]), steps[1..]);
    }
  }

  /**
   Over every run of exchanges and resets: the i-th request since a reset carries
   sequence number i mod 16, clears NOT_EPOCH only for i = 0, and takes data only from
   an answer with its own sequence number; so within an epoch an answer fewer than 16
   exchanges late is never taken as current.
   */
  lemma EveryExchangeIsSound(steps: seq<Step>, k: nat)
    requires Runs(Start(), steps) && k < |Final(Start(), steps).log|
    ensures var e := Final(Start(), steps).log[k];
            && e.seqno == e.id.index % 16
            && (e.notEpoch <==> e.id.index != 0)
            && (e.outcome.Data? ==> e.outcome.from.index % 16 == e.id.index % 16)
            && (e.outcome.Data? && e.outcome.from.epoch == e.id.epoch && e.id.index - e.outcome.from.index < 16 ==>
                  e.outcome.from == e.id)
  {
    RunInv(Start(), steps);
  }

  /** Sixteen timeouts and one very late answer: the window of the sequence number is exact. */
  lemma SixteenLateIsTaken()
    ensures var steps := Timeouts(16) + [Exec(Some(Reply(Id(0, 0), false)))];
            Runs(Start(), steps) && |Final(Start(), steps).log| == 17 && Final(Start(), steps).log[16].outcome == Data(Id(0, 0))
  {
    var late := Exec(Some(Reply(Id(0, 0), false)));
    TimeoutsThen(Start(), 16, late);
  }

  function Timeouts(k: nat): seq<Step> {
    if k == 0 then [] else [Exec(None)] + Timeouts(k - 1)
  }

  /** `k` timeouts, then one more step. */
  lemma {:induction false} TimeoutsThen(s: State, k: nat, last: Step)
    requires s.index == 0 ==> s.seqno == 0
    requires s.seqno == s.index % 16 && last.Exec? && last.reply.Some? && last.reply.value.to.epoch == s.epoch
    requires last.reply.value.to.index <= s.index
    ensures var steps := Timeouts(k) + [last];
            && Runs(s, steps)
            && |Final(s, steps).log| == |s.log| + k + 1
            && Final(s, steps).log[|s.log| + k].outcome == Judge((s.index + k) % 16, last.reply)
    decreases k
  {
    var steps := Timeouts(k) + [last];
    if k == 0 {
      assert steps == [last];
      assert steps[1..] == [];
    } else {
      assert steps[1..] == Timeouts(k - 1) + [last];
      TimeoutsThen(Apply(s, Exec(None)), k - 1, last);
    }
  }

  // ----- the exchange, in place -----

  datatype Errno =
    | Ok | EPERM | ENOENT | EINTR | EIO | EAGAIN | ENOMEM | EACCES | EBUSY | EINVAL
    | ENOSYS | ETIMEDOUT | EOPNOTSUPP | EPROTO | ENXIO

  /** `sfc7120_mcdi_xlate_err`. */
  function Translate(mcErr: nat): Errno {
    match mcErr
    case 0 => Ok
    case 1 => EPERM
    case 2 => ENOENT
    case 4 => EINTR
    case 5 => EIO
    case 11 => EAGAIN
    case 12 => ENOMEM
    case 13 => EACCES
    case 16 => EBUSY
    case 22 => EINVAL
    case 38 => ENOSYS
    case 62 => ETIMEDOUT
    case 95 => EOPNOTSUPP
    case _ => EIO
  }

  /** The payload length an answer announces, in the framing of its request. */
  function AnswerLen(m: seq<Byte>, off: nat): nat
    requires |m| >= 8
  {
    if off == 8 then LenOfV2(Le32(m[4..8])) else LenOf(Le32(m[..4]))
  }

  /** The error code an answer carries; one too short to carry any counts as 0. */
  function AnswerCode(m: seq<Byte>, off: nat): nat
    requires |m| >= 8 && off + 4 <= |m|
  {
    if AnswerLen(m, off) >= 4 then Le32(m[off..off + 4]) else 0
  }

  /** An error is reported as success exactly for code 0, and never as the driver's own EPROTO or ENXIO. */
  lemma TranslateIff(mcErr: nat)
    ensures Translate(mcErr) == Ok <==> mcErr == 0
    ensures Translate(mcErr) != EPROTO && Translate(mcErr) != ENXIO
  {}

  /** `out` is the answer's payload as far as it goes, and zeros after that. */
  ghost predicate CopiedOut(m: seq<Byte>, off: nat, out: seq<Byte>) {
    && |m| >= 8 && |m| >= off + |out|
    && forall i | 0 <= i < |out| :: out[i] == if i < AnswerLen(m, off) then m[off + i] else 0
  }

  /** Reading this answer stays inside the mailbox: it carries no data, is v1, or at most 248 bytes of it are wanted. */
  predicate InsideMailbox(m: seq<Byte>, seqno: nat, reply: Reply, off: nat, outLen: nat)
    requires |m| >= 8
  {
    || !Judge(seqno, Some(reply)).Data?
    || off == 4
    || AnswerLen(m, off) <= MAILBOX - 8
    || outLen <= MAILBOX - 8
  }

  class Channel {
    const mailbox: Mailbox
    var initialized: bool
    var seqno: nat
    var newEpoch: bool
    var model: State                    // the exchanges so far,
    var answering: Option<Id>           // and whose answer the mailbox holds

    /** The driver's counters are those of the model, and a response in the mailbox belongs to a request that was sent. */
    ghost predicate Valid()
      reads this, mailbox.mem
    {
      && mailbox.mem.Length >= PAYLOAD_MAX + 8
      && Inv(model) && model.seqno == seqno && model.newEpoch == newEpoch
      && (ResponseOf(Le32(mailbox.mem[..4])) ==> Answers())
    }

    ghost predicate Answers()
      requires mailbox.mem.Length >= PAYLOAD_MAX + 8
      reads this, mailbox.mem
    {
      answering.Some? && WasSent(model, answering.value) && SeqOf(Le32(mailbox.mem[..4])) == answering.value.index % 16
    }

    /** `sfc7120_mcdi_init`. */
    constructor ()
      ensures Valid() && initialized && fresh(mailbox) && fresh(mailbox.mem) && model == Start()
    {
      mailbox := new Mailbox(PAYLOAD_MAX + 8);
      initialized, seqno, newEpoch, model, answering := true, 0, true, Start(), None;
      new;
      var h := V1Header(0, 0, 0, false);
      mailbox.WriteDword(0, Bytes32(h));
      Le32OfBytes(h);
      V1HeaderReadsBack(0, 0, 0, false);
      assert mailbox.mem[..4] == mailbox.mem[..][..4] == Bytes32(h);
    }

    /**
     The controller acts: it may write any part of an answer, and with the response bit complete one to any
     request that was sent, or do nothing.
     */
    method McActs()
      requires Valid()
      modifies this`answering, mailbox.mem
      ensures Valid() && (old(ResponseOf(Le32(mailbox.mem[..4]))) ==> ResponseOf(Le32(mailbox.mem[..4])))
    {
      var to: Id, image: seq<Byte> := *, *;
      if |image| != mailbox.mem.Length {
        return;
      }
      var before := mailbox.ReadDword(0);
      if ResponseOf(Le32(image[..4])) {
        if WasSent(model, to) && SeqOf(Le32(image[..4])) == to.index % 16 {
          forall i | 0 <= i < |image| { mailbox.mem[i] := image[i]; }
          answering := Some(to);
          assert mailbox.mem[..4] == image[..4];
        }
      } else if !ResponseOf(before) {
        forall i | 0 <= i < |image| { mailbox.mem[i] := image[i]; }
        assert mailbox.mem[..4] == image[..4];
      }
    }

    /** The wait: the controller may act before every sample. */
    method Wait() returns (answered: bool)
      requires Valid()
      modifies this`answering, mailbox.mem
      ensures Valid() && (answered ==> ResponseOf(Le32(mailbox.mem[..4])))
    {
      var delay, total := MCDI.min, 0;
      while true
        invariant Valid() && delay > 0
        decreases if total >= MCDI.timeout then 0 else MCDI.timeout - total
      {
        McActs();
        var h := mailbox.ReadDword(0);
        if ResponseOf(h) {
          return true;
        }
        if total >= MCDI.timeout {
          return false;
        }
        total := total + delay;
        delay := if delay * 2 > MCDI.max then MCDI.max else delay * 2;
      }
    }

    /** Reading the answer. Data is what the mailbox holds, cut or zero-filled to the caller's length. */
    method Read(off: nat, outLen: nat) returns (rc: Errno, out: seq<Byte>, reply: Reply, ghost reach: nat)
      requires Valid() && ResponseOf(Le32(mailbox.mem[..4])) && off in {4, 8} && outLen <= PAYLOAD_MAX
      ensures WasSent(model, reply.to) && answering == Some(reply.to)
      ensures Judge(seqno, Some(reply)) == Mismatch <==> rc == EPROTO
      ensures Judge(seqno, Some(reply)).Data? ==> rc == Ok && |out| == outLen && CopiedOut(mailbox.mem[..], off, out)
      ensures Judge(seqno, Some(reply)) == Failed ==> rc == Translate(AnswerCode(mailbox.mem[..], off)) && out == []
      ensures reach <= MAILBOX <==> InsideMailbox(mailbox.mem[..], seqno, reply, off, outLen)
    {
      reach := 8;
      assert mailbox.mem[..][..4] == mailbox.mem[..4] && mailbox.mem[..][4..8] == mailbox.mem[4..8];
      assert mailbox.mem[..][off..off + 4] == mailbox.mem[off..off + 4];
      var h := mailbox.ReadDword(0);
      reply := Reply(answering.value, ErrorOf(h));
      var respLen := LenOf(h);
      if off == 8 {
        var h2 := mailbox.ReadDword(4);
        respLen := LenOfV2(h2);
      }
      if SeqOf(h) != seqno {
        return EPROTO, [], reply, reach;
      }
      if ErrorOf(h) {
        var code := 0;
        if respLen >= 4 {
          code := mailbox.ReadDword(off);
          reach := off + 4;
        }
        return Translate(code), [], reply, reach;
      }
      var used := if respLen < outLen then respLen else outLen;
      AnswerFits(off, used);
      var data;
      data, reach := mailbox.ReadPayload(off, used);
      out := data + Zeros(outLen - used);
      return Ok, out, reply, reach;
    }

    /**
     `sfc7120_mcdi_exec`: however the exchange ends, it is one step of the model, and
     the request the controller reads carries the model's sequence number and epoch.
     */
    method Exec(cmd: nat, input: seq<Byte>, outLen: nat)
      returns (rc: Errno, out: seq<Byte>, ghost request: Request, reply: Option<Reply>, ghost reach: nat)
      requires Valid()
      modifies this`seqno, this`newEpoch, this`model, this`answering, mailbox.mem
      ensures Valid()
      ensures !initialized || |input| > PAYLOAD_MAX || outLen > PAYLOAD_MAX ==>
                rc == (if !initialized then ENXIO else EINVAL) && model == old(model)
      ensures initialized && |input| <= PAYLOAD_MAX && outLen <= PAYLOAD_MAX ==>
                && request == Request(cmd % 0x8000, old(model.index) % 16, old(model.index) != 0, input)
                && Enabled(old(model), Step.Exec(reply)) && model == Apply(old(model), Step.Exec(reply))
                && (reply == None ==> rc == ETIMEDOUT)
                && (model.log[|old(model.log)|].outcome.Data? ==>
                      rc == Ok && |out| == outLen && CopiedOut(mailbox.mem[..], PayloadOffset(cmd, |input|), out))
                && (model.log[|old(model.log)|].outcome == Failed ==>
                      rc == Translate(AnswerCode(mailbox.mem[..], PayloadOffset(cmd, |input|))))
                && (model.log[|old(model.log)|].outcome == Mismatch <==> rc == EPROTO)
                && (reply.Some? ==>
                      (reach <= MAILBOX <==>
                         InsideMailbox(mailbox.mem[..], old(seqno), reply.value, PayloadOffset(cmd, |input|), outLen)))
    {
      out, request, reply, reach := [], Garbled, None, 0;
      if !initialized {
        return ENXIO, out, request, reply, reach;
      }
      if |input| > PAYLOAD_MAX || outLen > PAYLOAD_MAX {
        return EINVAL, out, request, reply, reach;
      }
      var off := mailbox.Send(cmd, input, seqno, newEpoch);
      request := DecodeRequest(mailbox.mem[..]);
      var answered := Wait();
      rc := ETIMEDOUT;
      if answered {
        var r;
        rc, out, r, reach := Read(off, outLen);
        reply := Some(r);
      }
      Advance(reply);
    }

    /** Sequence number and epoch flag move on, whatever the outcome. */
    method Advance(reply: Option<Reply>)
      requires Valid() && Enabled(model, Step.Exec(reply))
      modifies this`seqno, this`newEpoch, this`model
      ensures Valid() && model == Apply(old(model), Step.Exec(reply))
    {
      StepInv(model, Step.Exec(reply));
      newEpoch := false;
      seqno := (seqno + 1) % 16;
      model := Apply(model, Step.Exec(reply));
    }

    /** The epoch reset at the end of `sfc7120_mcdi_reboot_after_assertion`. */
    method ResetEpoch()
      requires Valid()
      modifies this`seqno, this`newEpoch, this`model
      ensures Valid() && model == Apply(old(model), Reset)
    {
      StepInv(model, Reset);
      newEpoch, seqno := true, 0;
      model := Apply(model, Reset);
    }
  }
}
