/**
 Waiting for the management controller: the driver's exponential-backoff loop, and the
 loop of the reference driver it was ported from. `ready(t)` says whether a sample
 taken `t` microseconds after the request sees a response.
 */
module McdiPoll {

  datatype Timing = Timing(min: nat, max: nat, timeout: nat)

  predicate Sane(t: Timing) {
    0 < t.min <= t.max
  }

  /** The delay after sample `k`. */
  function Delay(t: Timing, k: nat): nat {
    if k == 0 then t.min
    else if 2 * Delay(t, k - 1) > t.max then t.max
    else 2 * Delay(t, k - 1)
  }

  /** The instant of sample `k`. */
  function Instant(t: Timing, k: nat): nat {
    if k == 0 then 0 else Instant(t, k - 1) + Delay(t, k - 1)
  }

  lemma {:induction false} DelayBounds(t: Timing, k: nat)
    requires Sane(t)
    ensures t.min <= Delay(t, k) <= t.max
  {
    if k > 0 {
      DelayBounds(t, k - 1);
    }
  }

  datatype Outcome = Answered(at: nat) | GaveUp(at: nat)

  /** The driver gives up on reaching the timeout, the reference only on passing it. */
  datatype Loop = Driver | Reference

  predicate Over(t: Timing, loop: Loop, at: nat) {
    if loop == Driver then at >= t.timeout else at > t.timeout
  }

  /** How the loop ends when it is about to take sample `k`. */
  function PollFrom(t: Timing, loop: Loop, ready: nat -> bool, k: nat): Outcome
    requires Sane(t)
    decreases if Instant(t, k) > t.timeout then 0 else t.timeout + 1 - Instant(t, k)
  {
    DelayBounds(t, k);
    var at := Instant(t, k);
    if ready(at) then Answered(at)
    else if Over(t, loop, at) then GaveUp(at)
    else PollFrom(t, loop, ready, k + 1)
  }

  /** Sample `k` is reached only if the loop did not give up on the one before. */
  ghost predicate Reached(t: Timing, loop: Loop, k: nat) {
    k > 0 ==> !Over(t, loop, Instant(t, k - 1))
  }

  /** Giving up happens at the first sample that is over, less than one maximal delay past the timeout. */
  lemma {:induction false} GiveUpBounds(t: Timing, loop: Loop, ready: nat -> bool, k: nat)
    requires Sane(t) && Reached(t, loop, k)
    ensures var o := PollFrom(t, loop, ready, k);
            o.GaveUp? ==>
              && (if loop == Driver then t.timeout <= o.at < t.timeout + t.max
                  else t.timeout < o.at <= t.timeout + t.max)
    decreases if Instant(t, k) > t.timeout then 0 else t.timeout + 1 - Instant(t, k)
  {
    DelayBounds(t, k);
    if k > 0 {
      DelayBounds(t, k - 1);
    }
    var at := Instant(t, k);
    if !ready(at) && !Over(t, loop, at) {
      GiveUpBounds(t, loop, ready, k + 1);
    }
  }

  /** Some sample falls exactly on the timeout. */
  ghost predicate HitsTimeout(t: Timing) {
    exists k: nat :: Instant(t, k) == t.timeout
  }

  lemma {:induction false} SameFrom(t: Timing, ready: nat -> bool, k: nat)
    requires Sane(t) && !HitsTimeout(t)
    ensures PollFrom(t, Driver, ready, k) == PollFrom(t, Reference, ready, k)
    decreases if Instant(t, k) > t.timeout then 0 else t.timeout + 1 - Instant(t, k)
  {
    DelayBounds(t, k);
    var at := Instant(t, k);
    assert at != t.timeout;
    if !ready(at) && !Over(t, Driver, at) {
      SameFrom(t, ready, k + 1);
    }
  }

  predicate Never(at: nat) {
    false
  }

  lemma {:induction false} ReachesHit(t: Timing, loop: Loop, k: nat, hit: nat)
    requires Sane(t) && k <= hit && Instant(t, hit) == t.timeout
    ensures PollFrom(t, loop, Never, k) == PollFrom(t, loop, Never, hit)
    decreases hit - k
  {
    if k < hit {
      InstantIncreases(t, k, hit);
      ReachesHit(t, loop, k + 1, hit);
    }
  }

  lemma {:induction false} InstantIncreases(t: Timing, j: nat, k: nat)
    requires Sane(t) && j < k
    ensures Instant(t, j) < Instant(t, k)
    decreases k
  {
    DelayBounds(t, k - 1);
    if j < k - 1 {
      InstantIncreases(t, j, k - 1);
    }
  }

  /** The two loops end alike for every controller if and only if no sample falls exactly on the timeout. */
  lemma LoopsAgree(t: Timing)
    requires Sane(t)
    ensures (forall ready: nat -> bool :: PollFrom(t, Driver, ready, 0) == PollFrom(t, Reference, ready, 0)) <==> !HitsTimeout(t)
  {
    if HitsTimeout(t) {
      var k: nat :| Instant(t, k) == t.timeout;
      ReachesHit(t, Driver, 0, k);
      ReachesHit(t, Reference, 0, k);
      DelayBounds(t, k);
      GiveUpBounds(t, Reference, Never, 0);
      assert PollFrom(t, Driver, Never, 0) == GaveUp(t.timeout);
      assert PollFrom(t, Driver, Never, 0) != PollFrom(t, Reference, Never, 0);
    } else {
      forall ready: nat -> bool
        ensures PollFrom(t, Driver, ready, 0) == PollFrom(t, Reference, ready, 0)
      {
        SameFrom(t, ready, 0);
      }
    }
  }

  // ----- the driver's constants -----

  const MCDI: Timing := Timing(10, 100_000, 10_000_000)

  lemma {:induction false} LateInstants(k: nat)
    requires 14 <= k
    ensures Delay(MCDI, k) == 100_000 && Instant(MCDI, k) == 163_830 + 100_000 * (k - 14)
  {
    if k == 14 {
      assert Delay(MCDI, 7) == 1280 && Instant(MCDI, 7) == 1270;
      assert Delay(MCDI, 13) == 81_920 && Instant(MCDI, 13) == 81_910;
    } else {
      LateInstants(k - 1);
    }
  }

  /** With the driver's constants the two loops end alike for every controller. */
  lemma DriverMatchesReference(ready: nat -> bool)
    ensures PollFrom(MCDI, Driver, ready, 0) == PollFrom(MCDI, Reference, ready, 0)
  {
    forall k: nat ensures Instant(MCDI, k) != MCDI.timeout {
      MissesTimeout(k);
    }
    SameFrom(MCDI, ready, 0);
  }

  lemma MissesTimeout(k: nat)
    ensures Instant(MCDI, k) != MCDI.timeout
  {
    LateInstants(14);
    if k >= 14 { LateInstants(k); } else { InstantIncreases(MCDI, k, 14); }
  }

  // ----- the loops, in place -----

  /** The samples taken are those of the common schedule, in order, up to the last one. */
  ghost predicate OnSchedule(t: Timing, samples: seq<nat>, last: nat) {
    && 0 < |samples| && samples[|samples| - 1] == last
    && forall i | 0 <= i < |samples| :: samples[i] == Instant(t, i)
  }

  /** The wait in `sfc7120_mcdi_exec`. */
  method DriverLoop(t: Timing, ready: nat -> bool) returns (o: Outcome, samples: seq<nat>)
    requires Sane(t)
    ensures o == PollFrom(t, Driver, ready, 0)
    ensures OnSchedule(t, samples, o.at)
    ensures o.GaveUp? ==> t.timeout <= o.at < t.timeout + t.max
  {
    GiveUpBounds(t, Driver, ready, 0);
    var delay, total := t.min, 0;
    samples := [0];
    while !ready(total)
      invariant OnSchedule(t, samples, total)
      invariant delay == Delay(t, |samples| - 1)
      invariant PollFrom(t, Driver, ready, |samples| - 1) == PollFrom(t, Driver, ready, 0)
      decreases if total > t.timeout then 0 else t.timeout + 1 - total
    {
      if total >= t.timeout {
        return GaveUp(total), samples;
      }
      DelayBounds(t, |samples| - 1);
      total := total + delay;
      samples := samples + [total];
      delay := delay * 2;
      if delay > t.max {
        delay := t.max;
      }
    }
    return Answered(total), samples;
  }

  /** `sfxge_mcdi_poll`. */
  method ReferenceLoop(t: Timing, ready: nat -> bool) returns (o: Outcome, samples: seq<nat>)
    requires Sane(t)
    ensures o == PollFrom(t, Reference, ready, 0)
    ensures OnSchedule(t, samples, o.at)
    ensures o.GaveUp? ==> t.timeout < o.at <= t.timeout + t.max
  {
    GiveUpBounds(t, Reference, ready, 0);
    var total, delay := 0, t.min;
    samples := [0];
    while true
      invariant OnSchedule(t, samples, total)
      invariant delay == Delay(t, |samples| - 1)
      invariant PollFrom(t, Reference, ready, |samples| - 1) == PollFrom(t, Reference, ready, 0)
      decreases if total > t.timeout then 0 else t.timeout + 1 - total
    {
      if ready(total) {
        return Answered(total), samples;
      }
      if total > t.timeout {
        return GaveUp(total), samples;
      }
      DelayBounds(t, |samples| - 1);
      total := total + delay;
      samples := samples + [total];
      delay := delay * 2;
      if delay > t.max {
        delay := t.max;
      }
    }
  }
}
