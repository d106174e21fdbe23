/**
 The shared transmit budget of a port: several transmit threads take bursts from one
 64-bit counter with a compare-and-set loop. The run is any interleaving of their loads
 and compare-and-sets with stores of a new budget.
 */
module TxBudget {

  /** What a call is given when the counter holds `cnt`. */
  function Grant(cnt: int, burst: int): int {
    if cnt == 0 then 0 else if cnt > burst then burst else cnt
  }

  /** A grant lies between 0 and the burst exactly when neither the burst nor the counter is negative. */
  lemma GrantBounds(cnt: int, burst: int)
    ensures 0 <= Grant(cnt, burst) <= burst <==> 0 <= cnt && 0 <= burst
    ensures 0 <= cnt && 0 <= burst ==> Grant(cnt, burst) <= cnt
    ensures Grant(cnt, burst) == 0 <==> cnt == 0 || (burst == 0 && cnt > 0)
  {}

  /** What the counter saw, in order: a call that took `got`, or a new budget. */
  datatype Event = Took(burst: int, got: int) | Stored(n: int)

  predicate Changes(e: Event) {
    e.Stored? || e.got != 0
  }

  /** The counter after a sequential execution of the events. */
  function Counter(log: seq<Event>): int {
    if log == [] then 0
    else
      var e := log[|log| - 1];
      if e.Stored? then e.n else Counter(log[..|log| - 1]) - e.got
  }

  /** Each call got what a call running alone at that point gets. */
  ghost predicate Sequential(log: seq<Event>) {
    forall i | 0 <= i < |log| && log[i].Took? :: log[i].got == Grant(Counter(log[..i]), log[i].burst)
  }

  /** A thread outside the call, before its load, after it, or back with its grant. */
  datatype Thread =
    | Idle
    | Called(burst: int)
    | Loaded(burst: int, seen: int, at: nat)
    | Returned(burst: int, got: int, at: nat)

  datatype State = State(cnt: int, threads: seq<Thread>, log: seq<Event>)

  datatype Step = Call(t: nat, burst: int) | Load(t: nat) | CompareSet(t: nat) | Store(n: int)

  function Start(n: nat): State {
    State(0, seq(n, _ => Idle), [])
  }

  predicate Enabled(s: State, step: Step) {
    match step
    case Call(t, _) => t < |s.threads| && (s.threads[t].Idle? || s.threads[t].Returned?)
    case Load(t) => t < |s.threads| && s.threads[t].Called?
    case CompareSet(t) => t < |s.threads| && s.threads[t].Loaded?
    case Store(_) => true
  }

  function Apply(s: State, step: Step): State
    requires Enabled(s, step)
  {
    match step
    case Call(t, burst) => s.(threads := s.threads[t := Called(burst)])
    case Load(t) =>
      var burst := s.threads[t].burst;
      if s.cnt == 0
      then s.(threads := s.threads[t := Returned(burst, 0, |s.log|)], log := s.log + [Took(burst, 0)])
      else s.(threads := s.threads[t := Loaded(burst, s.cnt, |s.log|)])
    case CompareSet(t) =>
      var th := s.threads[t];
      var got := if th.seen > th.burst then th.burst else th.seen;
      if s.cnt == th.seen
      then State(th.seen - got, s.threads[t := Returned(th.burst, got, |s.log|)], s.log + [Took(th.burst, got)])
      else s.(threads := s.threads[t := Called(th.burst)])
    case Store(n) => s.(cnt := n, log := s.log + [Stored(n)])
  }

  /** Nothing between `from` and the end of the log changed the counter. */
  ghost predicate Quiet(log: seq<Event>, from: nat) {
    forall i | from <= i < |log| :: !Changes(log[i])
  }

  ghost predicate ThreadInv(s: State, th: Thread) {
    match th
    case Idle => true
    case Called(_) => true
    case Loaded(_, seen, at) => seen != 0 && at <= |s.log| && (Quiet(s.log, at) ==> s.cnt == seen)
    case Returned(burst, got, at) => at < |s.log| && s.log[at] == Took(burst, got)
  }

  ghost predicate Inv(s: State) {
    && s.cnt == Counter(s.log)
    && Sequential(s.log)
    && forall t | 0 <= t < |s.threads| :: ThreadInv(s, s.threads[t])
  }

  lemma SequentialNext(log: seq<Event>, e: Event)
    requires Sequential(log)
    requires e.Took? ==> e.got == Grant(Counter(log), e.burst)
    ensures Sequential(log + [e])
    ensures Counter(log + [e]) == if e.Stored? then e.n else Counter(log) - e.got
  {
    var more := log + [e];
    assert more[..|log|] == log;
    forall i | 0 <= i < |more| && more[i].Took? ensures more[i].got == Grant(Counter(more[..i]), more[i].burst) {
      if i < |log| {
        assert more[..i] == log[..i];
      }
    }
  }

  lemma ThreadKeeps(s: State, s': State, th: Thread, e: Event)
    requires ThreadInv(s, th) && s'.log == s.log + [e]
    requires !Changes(e) ==> s'.cnt == s.cnt
    ensures ThreadInv(s', th)
  {
    if th.Loaded? && Quiet(s'.log, th.at) {
      forall i | th.at <= i < |s.log| ensures !Changes(s.log[i]) {
        assert s'.log[i] == s.log[i];
      }
      assert s'.log[|s.log|] == e;
    }
  }

  /** A step that only moves one thread. */
  lemma MovesThread(s: State, t: nat, th: Thread)
    requires Inv(s) && t < |s.threads| && ThreadInv(s, th)
    ensures Inv(s.(threads := s.threads[t := th]))
  {
    var s' := s.(threads := s.threads[t := th]);
    forall i | 0 <= i < |s'.threads| ensures ThreadInv(s', s'.threads[i]) {
      var x := s'.threads[i];
      assert ThreadInv(s, x);
      assert ThreadInv(s', x) == ThreadInv(s, x);
    }
  }

  /** A step that takes effect as event `e`. */
  lemma TakesEffect(s: State, e: Event, cnt: int)
    requires Inv(s) && (e.Took? ==> e.got == Grant(s.cnt, e.burst)) && cnt == if e.Stored? then e.n else s.cnt - e.got
    ensures Inv(s.(cnt := cnt, log := s.log + [e]))
  {
    var s' := s.(cnt := cnt, log := s.log + [e]);
    SequentialNext(s.log, e);
    forall i | 0 <= i < |s'.threads| ensures ThreadInv(s', s'.threads[i]) {
      ThreadKeeps(s, s', s.threads[i], e);
    }
  }

  /** A call that takes effect and returns. */
  lemma Returns(s: State, t: nat, burst: int, got: int, cnt: int)
    requires Inv(s) && t < |s.threads| && got == Grant(s.cnt, burst) && cnt == s.cnt - got
    ensures Inv(State(cnt, s.threads[t := Returned(burst, got, |s.log|)], s.log + [Took(burst, got)]))
  {
    var s1 := s.(cnt := cnt, log := s.log + [Took(burst, got)]);
    TakesEffect(s, Took(burst, got), cnt);
    MovesThread(s1, t, Returned(burst, got, |s.log|));
  }

  lemma StepInv(s: State, step: Step)
    requires Inv(s) && Enabled(s, step)
    ensures Inv(Apply(s, step))
  {
    match step
    case Call(t, burst) => MovesThread(s, t, Called(burst));
    case Load(t) =>
      if s.cnt == 0 {
        Returns(s, t, s.threads[t].burst, 0, 0);
      } else {
        MovesThread(s, t, Loaded(s.threads[t].burst, s.cnt, |s.log|));
      }
    case CompareSet(t) => CompareSetInv(s, t);
    case Store(n) => TakesEffect(s, Stored(n), n);
  }

  lemma CompareSetInv(s: State, t: nat)
    requires Inv(s) && Enabled(s, CompareSet(t))
    ensures Inv(Apply(s, CompareSet(t)))
  {
    var th := s.threads[t];
    assert ThreadInv(s, th);
    var got := if th.seen > th.burst then th.burst else th.seen;
    if s.cnt == th.seen {
      Returns(s, t, th.burst, got, th.seen - got);
    } else {
      MovesThread(s, t, Called(th.burst));
    }
  }

  ghost predicate Runs(s: State, steps: seq<Step>)
    decreases |steps|, 0
  {
    steps == [] || (Runs(s, steps[..|steps| - 1]) && Enabled(Final(s, steps[..|steps| - 1]), steps[|steps| - 1]))
  }

  ghost function Final(s: State, steps: seq<Step>): State
    requires Runs(s, steps)
    decreases |steps|, 1
  {
    if steps == [] then s else Apply(Final(s, steps[..|steps| - 1]), steps[|steps| - 1])
  }

  /**
   Every interleaving is equivalent to a sequential one: the events, in the order in which they took
   effect, are a run of calls that each ran alone, and every returned grant is one of them.
   */
  lemma {:induction false} EveryRunIsSequential(n: nat, steps: seq<Step>)
    requires Runs(Start(n), steps)
    ensures Inv(Final(Start(n), steps))
  {
    if steps != [] {
      EveryRunIsSequential(n, steps[..|steps| - 1]);
      StepInv(Final(Start(n), steps[..|steps| - 1]), steps[|steps| - 1]);
    }
  }

  /**
   A compare-and-set fails only when the counter changed after the load: some other thread's grant, or a
   new budget, took effect in between.
   */
  lemma FailureMeansProgress(s: State, t: nat)
    requires Inv(s) && Enabled(s, CompareSet(t)) && Apply(s, CompareSet(t)).threads[t].Called?
    ensures exists i :: s.threads[t].at <= i < |s.log| && Changes(s.log[i])
  {
    assert ThreadInv(s, s.threads[t]);
  }

  // ----- what a sequential run conserves -----

  /** Packets handed out by the calls in `log`, and budgets stored less what a later store discarded. */
  function HandedOut(log: seq<Event>): int {
    if log == [] then 0
    else HandedOut(log[..|log| - 1]) + if log[|log| - 1].Took? then log[|log| - 1].got else 0
  }

  function Budgeted(log: seq<Event>): int {
    if log == [] then 0
    else
      var before := log[..|log| - 1];
      Budgeted(before) + if log[|log| - 1].Stored? then log[|log| - 1].n - Counter(before) else 0
  }

  /** Nothing is handed out twice or lost. */
  lemma {:induction false} BudgetIsConserved(log: seq<Event>)
    ensures HandedOut(log) + Counter(log) == Budgeted(log)
  {
    if log != [] {
      BudgetIsConserved(log[..|log| - 1]);
    }
  }

  ghost predicate Sensible(log: seq<Event>) {
    forall i | 0 <= i < |log| :: if log[i].Took? then log[i].burst >= 0 else log[i].n >= 0
  }

  /** With no negative burst or budget the counter never goes negative and no grant exceeds its burst. */
  lemma {:induction false} NeverNegative(log: seq<Event>)
    requires Sequential(log) && Sensible(log)
    ensures Counter(log) >= 0
    ensures forall i | 0 <= i < |log| && log[i].Took? :: 0 <= log[i].got <= log[i].burst
  {
    if log != [] {
      var before, e := log[..|log| - 1], log[|log| - 1];
      forall i | 0 <= i < |before| && before[i].Took? ensures before[i].got == Grant(Counter(before[..i]), before[i].burst) {
        assert before[..i] == log[..i];
      }
      NeverNegative(before);
      forall i | 0 <= i < |log| && log[i].Took? ensures 0 <= log[i].got <= log[i].burst {
        if i < |before| {
          assert log[i] == before[i];
        } else {
          GrantBounds(Counter(before), e.burst);
        }
      }
      if e.Took? {
        GrantBounds(Counter(before), e.burst);
      }
    }
  }

  /** With the budget stored once, all threads together never send more than it. */
  lemma {:induction false} OneBudget(n: int, log: seq<Event>)
    requires log != [] && log[0] == Stored(n) && forall i | 0 < i < |log| :: log[i].Took?
    ensures Budgeted(log) == n
  {
    if |log| > 1 {
      OneBudget(n, log[..|log| - 1]);
    } else {
      assert log[..0] == [];
    }
  }

  /**
   The whole statement: threads that share a budget `n`, however interleaved, are handed at most `n`
   packets, and what is left in the counter is exactly the rest.
   */
  lemma SharedBudget(threads: nat, n: nat, steps: seq<Step>)
    requires Runs(Start(threads), steps)
    requires var log := Final(Start(threads), steps).log;
             && log != [] && log[0] == Stored(n)
             && (forall i | 0 < i < |log| :: log[i].Took? && log[i].burst >= 0)
    ensures var s := Final(Start(threads), steps);
            HandedOut(s.log) + s.cnt == n && 0 <= s.cnt && HandedOut(s.log) <= n
  {
    var s := Final(Start(threads), steps);
    EveryRunIsSequential(threads, steps);
    BudgetIsConserved(s.log);
    OneBudget(n, s.log);
    NeverNegative(s.log);
  }

  // ----- the call itself -----

  /** What other threads do to the counter between two of this call's accesses. */
  datatype Other = OtherTakes(burst: int) | OtherStores(n: int)

  class Shared {
    var cnt: int
    /** Events in the order they took effect. */
    var log: seq<Event>

    ghost predicate Valid() reads this {
      cnt == Counter(log) && Sequential(log)
    }

    constructor ()
      ensures Valid() && log == []
    {
      cnt, log := 0, [];
    }

    method OthersAct(ops: seq<Other>)
      requires Valid()
      modifies this
      ensures Valid() && old(log) <= log && |log| == |old(log)| + |ops|
      ensures (forall i | |old(log)| <= i < |log| :: !Changes(log[i])) ==> cnt == old(cnt)
    {
      var i := 0;
      while i < |ops|
        invariant 0 <= i <= |ops| && Valid() && old(log) <= log && |log| == |old(log)| + i
        invariant (forall j | |old(log)| <= j < |log| :: !Changes(log[j])) ==> cnt == old(cnt)
      {
        ghost var was := log;
        var e := if ops[i].OtherStores? then Stored(ops[i].n) else Took(ops[i].burst, Grant(cnt, ops[i].burst));
        SequentialNext(log, e);
        cnt := if e.Stored? then e.n else cnt - e.got;
        log := log + [e];
        assert forall j | 0 <= j < |was| :: log[j] == was[j];
        assert log[|was|] == e;
        i := i + 1;
      }
    }

    /** The access at which a call takes effect. */
    method Give(burst: int, got: int)
      requires Valid() && got == Grant(cnt, burst)
      modifies this
      ensures Valid() && cnt == old(cnt) - got && log == old(log) + [Took(burst, got)]
      ensures log[|old(log)|] == Took(burst, got)
    {
      SequentialNext(log, Took(burst, got));
      cnt, log := cnt - got, log + [Took(burst, got)];
    }

    /**
     `pkt_atomic64_tx_count`, with `others[k]` happening in its k-th window between load and
     compare-and-set. It retries at most once for each window in which the counter changed, and its
     result is that of a call that ran alone at one moment during it.
     */
    method TxCount(burst: int, others: seq<seq<Other>>) returns (got: int, tries: nat)
      requires Valid()
      modifies this
      ensures Valid() && old(log) <= log
      ensures exists i :: |old(log)| <= i < |log| && log[i] == Took(burst, got)
      ensures tries <= |others| + 1
    {
      tries := 0;
      while true
        invariant Valid() && old(log) <= log && tries <= |others|
        decreases |others| - tries
      {
        var tmp1 := cnt;
        tries := tries + 1;
        if tmp1 == 0 {
          got := 0;
          Give(burst, 0);
          return;
        }
        got := if tmp1 > burst then burst else tmp1;
        if tries <= |others| {
          OthersAct(others[tries - 1]);
        }
        if cnt == tmp1 {
          Give(burst, got);
          return;
        }
      }
    }
  }
}
