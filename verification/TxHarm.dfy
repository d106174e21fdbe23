/**
 What uncounted chains lead to: an mbuf freed while the NIC still owns its descriptor.
 */
module TxHarm {
  import opened Ring
  import opened TxRing

  lemma {:induction false} RunsAppend(s: State, a: seq<Step>, step: Step)
    requires Shaped(s) && Runs(s, a) && Shaped(Final(s, a)) && Enabled(Final(s, a), step) && Shaped(Apply(Final(s, a), step))
    ensures Runs(s, a + [step]) && Final(s, a + [step]) == Apply(Final(s, a), step)
    decreases |a|
  {
    if a == [] {
      assert a + [step] == [step];
      assert [step][1..] == [];
    } else {
      assert (a + [step])[1..] == a[1..] + [step];
      RunsAppend(Apply(s, a[0]), a[1..], step);
    }
  }

  /** A state that a run leads to. */
  ghost predicate Reached(s0: State, steps: seq<Step>, s: State) {
    Shaped(s0) && Runs(s0, steps) && s == Final(s0, steps) && Shaped(s)
  }

  lemma OneMore(s0: State, steps: seq<Step>, s: State, step: Step)
    requires Reached(s0, steps, s) && Enabled(s, step) && Shaped(Apply(s, step))
    ensures Reached(s0, steps + [step], Apply(s, step))
  {
    RunsAppend(s0, steps, step);
  }

  /** The first `j` packets of a burst of small chains. */
  function Chains(m: Mbuf, j: nat): (steps: seq<Step>)
    ensures |steps| == j
  {
    if j == 0 then [] else Chains(m, j - 1) + [Post(Packet(m, 100, 2), false)]
  }

  /** Chains move the head and nothing else that the driver looks at: they are never refused. */
  lemma {:induction false} ChainsMoveTheHead(k: nat, m: Mbuf, j: nat) returns (s: State)
    requires 5 <= k <= 16 && m != NULL && RESERVE <= Pow2(k)
    ensures Reached(Idle(k, 0, Pow2(k) - 1), Chains(m, j), s)
    ensures s == Idle(k, 0, Pow2(k) - 1).(head := Slot(j, Pow2(k)), owners := s.owners, rung := j) && |s.owners| == j
  {
    var s0 := Idle(k, 0, Pow2(k) - 1);
    Unfold(0, Pow2(k));
    s := s0;
    if j > 0 {
      var before := ChainsMoveTheHead(k, m, j - 1);
      SlotAdd(j - 1, 1, Pow2(k));
      var step := Post(Packet(m, 100, 2), false);
      s := Apply(before, step);
      OneMore(s0, Chains(m, j - 1), before, step);
    }
  }

  /** A ring of small chains, one packet on its mbuf, and the NIC finishes one descriptor. */
  function EarlyFree(m: Mbuf, n: nat): seq<Step> {
    Chains(m, n) + [Post(Packet(m, 100, 1), false)] + [Flush] + [NicFinish(1)] + [NicEvent] + [ReapEvent]
  }

  /**
   From a consistent queue: the mbuf is freed when the NIC has finished the first of the `n` + 1 descriptors
   posted, and its own is the last.
   */
  lemma FreedBeforeCompletion(k: nat, m: Mbuf) returns (s: State)
    requires 5 <= k <= 16 && m != NULL && RESERVE < Pow2(k)
    ensures Inv(Idle(k, 0, Pow2(k) - 1)) && Reached(Idle(k, 0, Pow2(k) - 1), EarlyFree(m, Pow2(k)), s)
    ensures s.freed == [m] && s.done == 1 && |s.owners| == Pow2(k) + 1 && s.owners[Pow2(k)] == m
  {
    var n, s0 := Pow2(k), Idle(k, 0, Pow2(k) - 1);
    Unfold(n, n);
    Unfold(0, n);
    IdleIsConsistent(k, 0, n - 1);
    var s1 := ChainsMoveTheHead(k, m, n);
    var steps := Chains(m, n);
    s, steps := Then(s0, steps, s1, Post(Packet(m, 100, 1), false));
    assert s.inflight[0] == m && s.count == 1;
    s, steps := Then(s0, steps, s, Flush);
    s, steps := Then(s0, steps, s, NicFinish(1));
    s, steps := Then(s0, steps, s, NicEvent);
    var s5 := s.(events := []);
    assert s.events[1..] == [];
    ReapStops(s5, 0);
    s, steps := Then(s0, steps, s, ReapEvent);
  }

  lemma Then(s0: State, steps: seq<Step>, s: State, step: Step) returns (s': State, steps': seq<Step>)
    requires Reached(s0, steps, s) && Enabled(s, step) && Shaped(Apply(s, step))
    ensures s' == Apply(s, step) && steps' == steps + [step] && Reached(s0, steps', s')
  {
    OneMore(s0, steps, s, step);
    s', steps' := Apply(s, step), steps + [step];
  }

  /** The loop ends after one turn when the target is the next slot. */
  lemma ReapStops(s: State, target: nat)
    requires Shaped(s) && target == Slot(s.lastFreed + 1, s.N()) && s.lastFreed != target
    ensures Reap(s, target) == ReapOne(s)
  {
    ReapNext(s, target);
    ReapDone(ReapOne(s), target);
  }
}
