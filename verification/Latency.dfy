/**
 Latency statistics of the packet generator: which time-stamped packets count as
 samples, their extremes, and a histogram from which percentiles are read.
 */
module Latency {

  const BUCKET_NS: nat := 2000
  const BUCKETS: nat := 4096
  const INDEX_WRAP: nat := 0x1_0000_0000
  const CYCLE_WRAP: nat := 0x1_0000_0000_0000_0000

  /** A received packet: whether it carries the stamp, the stamp's index, and its measured delay. */
  datatype Pkt = Pkt(stamped: bool, index: nat, cycles: nat)

  /** Cycles to nanoseconds as the source computes it, in 64 bits. */
  function Ns(cycles: nat, hz: nat): nat
    requires hz > 0
  {
    cycles * 1_000_000_000 % CYCLE_WRAP / hz
  }

  function Bucket(cycles: nat, hz: nat): nat
    requires hz > 0
  {
    Ns(cycles, hz) / BUCKET_NS
  }

  /** How the histogram sees a delay; a clock of unknown rate (hz = 0) records nothing. */
  datatype Clock = Unknown | Known(bucket: nat -> nat)

  function ClockOf(hz: nat): Clock {
    if hz == 0 then Unknown else Known(cycles => Bucket(cycles, hz))
  }

  datatype State = State(
    next: nat, pkts: nat, skipped: nat, running: nat, min: nat, max: nat,
    hist: seq<nat>, overflow: nat, count: nat)

  /** The counters after `pktgen_latency_setup`. */
  function Reset(): State {
    State(0, 0, 0, 0, 0, 0, seq(BUCKETS, _ => 0), 0, 0)
  }

  /** One packet in `pktgen_tstamp_check`. */
  function Check(s: State, p: Pkt, clock: Clock): (s': State)
    requires |s.hist| == BUCKETS
    ensures |s'.hist| == BUCKETS
  {
    if !p.stamped then s
    else if p.index != s.next then s.(next := (p.index + 1) % INDEX_WRAP, skipped := s.skipped + 1)
    else Sample(s.(next := (s.next + 1) % INDEX_WRAP), p.cycles, clock)
  }

  function Sample(s: State, cycles: nat, clock: Clock): (s': State)
    requires |s.hist| == BUCKETS
    ensures |s'.hist| == BUCKETS
  {
    Histogram(s.(pkts := s.pkts + 1, running := s.running + cycles,
                 min := if s.min == 0 || cycles < s.min then cycles else s.min,
                 max := if s.max == 0 || cycles > s.max then cycles else s.max),
              cycles, clock)
  }

  function Histogram(s: State, cycles: nat, clock: Clock): (s': State)
    requires |s.hist| == BUCKETS
    ensures |s'.hist| == BUCKETS
  {
    if clock.Unknown? then s
    else
      var idx := clock.bucket(cycles);
      if idx < BUCKETS then s.(hist := s.hist[idx := s.hist[idx] + 1], count := s.count + 1)
      else s.(overflow := s.overflow + 1, count := s.count + 1)
  }

  /** The first `k` packets of a burst, from counters `s`. */
  function From(s: State, pkts: seq<Pkt>, clock: Clock, k: nat): (s': State)
    requires k <= |pkts| && |s.hist| == BUCKETS
    ensures |s'.hist| == BUCKETS
  {
    if k == 0 then s else Check(From(s, pkts, clock, k - 1), pkts[k - 1], clock)
  }

  /** The first `k` packets of a stream, from a reset. */
  function After(pkts: seq<Pkt>, clock: Clock, k: nat): (s: State)
    requires k <= |pkts|
    ensures |s.hist| == BUCKETS
  {
    From(Reset(), pkts, clock, k)
  }

  /** How a stream is cut into bursts does not matter. */
  lemma {:induction false} BurstsCompose(s: State, a: seq<Pkt>, b: seq<Pkt>, clock: Clock, k: nat)
    requires k <= |b| && |s.hist| == BUCKETS
    ensures From(From(s, a, clock, |a|), b, clock, k) == From(s, a + b, clock, |a| + k)
  {
    if k > 0 {
      BurstsCompose(s, a, b, clock, k - 1);
    } else {
      FromPrefix(s, a, b, clock, |a|);
    }
  }

  lemma {:induction false} FromPrefix(s: State, a: seq<Pkt>, b: seq<Pkt>, clock: Clock, k: nat)
    requires k <= |a| && |s.hist| == BUCKETS
    ensures From(s, a + b, clock, k) == From(s, a, clock, k)
  {
    if k > 0 {
      FromPrefix(s, a, b, clock, k - 1);
    }
  }

  // ----- which packets are samples -----

  /** The index after that of the last stamped packet among the first `k`, 0 if there is none. */
  function Expected(pkts: seq<Pkt>, k: nat): nat
    requires k <= |pkts|
  {
    if k == 0 then 0
    else if pkts[k - 1].stamped then (pkts[k - 1].index + 1) % INDEX_WRAP
    else Expected(pkts, k - 1)
  }

  /** The delays of the stamped packets whose index follows that of the stamped packet before them. */
  function Samples(pkts: seq<Pkt>, k: nat): seq<nat>
    requires k <= |pkts|
  {
    if k == 0 then []
    else if pkts[k - 1].stamped && pkts[k - 1].index == Expected(pkts, k - 1) then Samples(pkts, k - 1) + [pkts[k - 1].cycles]
    else Samples(pkts, k - 1)
  }

  function Stamped(pkts: seq<Pkt>, k: nat): nat
    requires k <= |pkts|
  {
    if k == 0 then 0 else Stamped(pkts, k - 1) + if pkts[k - 1].stamped then 1 else 0
  }

  function Total(xs: seq<nat>): nat {
    if xs == [] then 0 else Total(xs[..|xs| - 1]) + xs[|xs| - 1]
  }

  /** Statistics of a list of samples. */
  function Fold(xs: seq<nat>, clock: Clock): (s: State)
    ensures |s.hist| == BUCKETS
  {
    if xs == [] then Reset() else Sample(Fold(xs[..|xs| - 1], clock), xs[|xs| - 1], clock)
  }

  /** `s` is `t` up to the index tracking. */
  predicate SameStats(s: State, t: State) {
    s == t.(next := s.next, skipped := s.skipped)
  }

  lemma SampleTracksNothing(s: State, t: State, cycles: nat, clock: Clock)
    requires |s.hist| == |t.hist| == BUCKETS && SameStats(s, t)
    ensures SameStats(Sample(s, cycles, clock), Sample(t, cycles, clock))
    ensures Sample(s, cycles, clock).next == s.next && Sample(s, cycles, clock).skipped == s.skipped
    ensures Sample(s, cycles, clock).pkts == s.pkts + 1
  {}

  lemma FoldLast(xs: seq<nat>, x: nat, clock: Clock)
    ensures Fold(xs + [x], clock) == Sample(Fold(xs, clock), x, clock)
  {
    assert (xs + [x])[..|xs|] == xs;
  }

  /**
   A stamped packet counts exactly when its index follows that of the stamped packet
   before it, and every other stamped packet is skipped; the statistics are those of
   the delays that count.
   */
  lemma {:induction false} IndexTracking(pkts: seq<Pkt>, clock: Clock, k: nat)
    requires k <= |pkts|
    ensures var s := After(pkts, clock, k);
            && s.next == Expected(pkts, k)
            && s.pkts + s.skipped == Stamped(pkts, k)
            && s.pkts == |Samples(pkts, k)|
            && SameStats(s, Fold(Samples(pkts, k), clock))
  {
    if k > 0 {
      IndexTracking(pkts, clock, k - 1);
      var p, xs := pkts[k - 1], Samples(pkts, k - 1);
      CheckOne(After(pkts, clock, k - 1), Fold(xs, clock), p, clock);
      FoldLast(xs, p.cycles, clock);
    }
  }

  lemma CheckOne(s: State, t: State, p: Pkt, clock: Clock)
    requires |s.hist| == |t.hist| == BUCKETS && SameStats(s, t)
    ensures var s' := Check(s, p, clock);
            if !p.stamped then s' == s
            else
              && s'.next == (p.index + 1) % INDEX_WRAP
              && (if p.index == s.next
                  then s'.pkts == s.pkts + 1 && s'.skipped == s.skipped && SameStats(s', Sample(t, p.cycles, clock))
                  else s'.pkts == s.pkts && s'.skipped == s.skipped + 1 && SameStats(s', t))
  {
    SampleTracksNothing(s.(next := (s.next + 1) % INDEX_WRAP), t, p.cycles, clock);
  }

  // ----- the histogram -----

  /** How many samples lie in bucket `b`, and how many in a bucket below it. */
  function InBucket(xs: seq<nat>, f: nat -> nat, b: nat): nat {
    if xs == [] then 0 else InBucket(xs[..|xs| - 1], f, b) + if f(xs[|xs| - 1]) == b then 1 else 0
  }

  function Below(xs: seq<nat>, f: nat -> nat, b: nat): (c: nat)
    ensures c <= |xs|
  {
    if xs == [] then 0 else Below(xs[..|xs| - 1], f, b) + if f(xs[|xs| - 1]) < b then 1 else 0
  }

  lemma {:induction false} BelowNext(xs: seq<nat>, f: nat -> nat, b: nat)
    ensures Below(xs, f, b + 1) == Below(xs, f, b) + InBucket(xs, f, b)
    ensures Below(xs, f, 0) == 0
  {
    if xs != [] {
      BelowNext(xs[..|xs| - 1], f, b);
    }
  }

  /** The histogram counts every sample in its bucket, and those past the last bucket as overflow. */
  lemma {:induction false} HistogramIsExact(xs: seq<nat>, f: nat -> nat)
    ensures var s := Fold(xs, Known(f));
            && (forall b | 0 <= b < BUCKETS :: s.hist[b] == InBucket(xs, f, b))
            && s.overflow == |xs| - Below(xs, f, BUCKETS)
            && s.count == |xs|
  {
    if xs != [] {
      HistogramIsExact(xs[..|xs| - 1], f);
    }
  }

  function Sum(hist: seq<nat>, b: nat): nat
    requires b <= |hist|
  {
    if b == 0 then 0 else Sum(hist, b - 1) + hist[b - 1]
  }

  lemma {:induction false} SumIsBelow(xs: seq<nat>, f: nat -> nat, b: nat)
    requires b <= BUCKETS
    ensures Sum(Fold(xs, Known(f)).hist, b) == Below(xs, f, b)
  {
    HistogramIsExact(xs, f);
    if b == 0 {
      BelowNext(xs, f, 0);
    } else {
      SumIsBelow(xs, f, b - 1);
      BelowNext(xs, f, b - 1);
    }
  }

  /** Bucket sum plus overflow is the number of samples. */
  lemma CountIsConserved(xs: seq<nat>, f: nat -> nat)
    ensures var s := Fold(xs, Known(f));
            Sum(s.hist, BUCKETS) + s.overflow == s.count == |xs|
  {
    HistogramIsExact(xs, f);
    SumIsBelow(xs, f, BUCKETS);
  }

  // ----- percentiles -----

  /** The rank looked for: the truncated product of count and quantile, but at least 1. */
  function Rank(want: nat): nat {
    if want == 0 then 1 else want
  }

  /** The scan: the first bucket from `b` on at which the running sum reaches `want`, or the number of buckets. */
  function Scan(hist: seq<nat>, want: nat, b: nat, acc: nat): (r: nat)
    requires b <= |hist|
    ensures b <= r <= |hist|
    decreases |hist| - b
  {
    if b == |hist| then b
    else if acc + hist[b] >= want then b
    else Scan(hist, want, b + 1, acc + hist[b])
  }

  /** The value reported for the sample of rank `want`, in nanoseconds. */
  function AtRank(s: State, want: nat): nat
    requires |s.hist| == BUCKETS
  {
    var r := Scan(s.hist, want, 0, 0);
    if r < BUCKETS then (r + 1) * BUCKET_NS
    else if s.overflow > 0 then BUCKETS * BUCKET_NS
    else 0
  }

  /** The percentile reported when the truncated product is `want`, however that was rounded. */
  function Percentile(s: State, want: nat): nat
    requires |s.hist| == BUCKETS
  {
    if s.count == 0 then 0 else AtRank(s, Rank(want))
  }

  lemma {:induction false} ScanBrackets(xs: seq<nat>, f: nat -> nat, want: nat, b: nat)
    requires b <= BUCKETS && Below(xs, f, b) < want
    ensures var r := Scan(Fold(xs, Known(f)).hist, want, b, Below(xs, f, b));
            Below(xs, f, r) < want && (r < BUCKETS ==> want <= Below(xs, f, r + 1))
    decreases BUCKETS - b
  {
    if b < BUCKETS {
      HistogramIsExact(xs, f);
      BelowNext(xs, f, b);
      if Below(xs, f, b + 1) < want {
        ScanBrackets(xs, f, want, b + 1);
      }
    }
  }

  /** `t` lists the same samples, in order of bucket. */
  ghost predicate Arranges(t: seq<nat>, xs: seq<nat>, f: nat -> nat) {
    multiset(t) == multiset(xs) && forall i, j | 0 <= i < j < |t| :: f(t[i]) <= f(t[j])
  }

  lemma {:induction false} RankInOrder(t: seq<nat>, f: nat -> nat, b: nat, i: nat)
    requires i < |t| && forall i, j | 0 <= i < j < |t| :: f(t[i]) <= f(t[j])
    ensures f(t[i]) < b <==> i < Below(t, f, b)
    decreases |t|
  {
    var t', last := t[..|t| - 1], t[|t| - 1];
    if f(last) < b {
      AllBelow(t, f, b);
    } else if i < |t| - 1 {
      RankInOrder(t', f, b, i);
    }
  }

  lemma {:induction false} AllBelow(t: seq<nat>, f: nat -> nat, b: nat)
    requires forall i | 0 <= i < |t| :: f(t[i]) < b
    ensures Below(t, f, b) == |t|
  {
    if t != [] {
      AllBelow(t[..|t| - 1], f, b);
    }
  }

  lemma {:induction false} BelowConcat(a: seq<nat>, c: seq<nat>, f: nat -> nat, b: nat)
    ensures Below(a + c, f, b) == Below(a, f, b) + Below(c, f, b)
  {
    if c == [] {
      assert a + c == a;
    } else {
      assert (a + c)[..|a + c| - 1] == a + c[..|c| - 1];
      BelowConcat(a, c[..|c| - 1], f, b);
    }
  }

  lemma {:induction false} BelowOfPermutation(t: seq<nat>, xs: seq<nat>, f: nat -> nat, b: nat)
    requires multiset(t) == multiset(xs)
    ensures Below(t, f, b) == Below(xs, f, b)
    decreases |t|
  {
    if t == [] {
      assert |multiset(xs)| == |multiset(t)| == 0;
    } else {
      var x := t[|t| - 1];
      assert x in multiset(xs);
      var i :| 0 <= i < |xs| && xs[i] == x;
      var t' := BelowWithoutOne(t, |t| - 1, f, b);
      var xs' := BelowWithoutOne(xs, i, f, b);
      BelowOfPermutation(t', xs', f, b);
    }
  }

  lemma BelowWithoutOne(xs: seq<nat>, i: nat, f: nat -> nat, b: nat) returns (rest: seq<nat>)
    requires i < |xs|
    ensures multiset(rest) == multiset(xs) - multiset{xs[i]} && |rest| == |xs| - 1
    ensures Below(xs, f, b) == Below(rest, f, b) + if f(xs[i]) < b then 1 else 0
  {
    var l, x, r := xs[..i], [xs[i]], xs[i + 1..];
    rest := l + r;
    assert xs == l + x + r;
    BelowConcat(l, r, f, b);
    BelowConcat(l + x, r, f, b);
    BelowConcat(l, x, f, b);
  }

  /** The scan stops at the bucket of the wanted sample, or past the last one if that sample overflowed. */
  lemma ScanFindsRank(xs: seq<nat>, f: nat -> nat, t: seq<nat>, want: nat)
    requires Arranges(t, xs, f) && 1 <= want <= |t|
    ensures var held := f(t[want - 1]);
            Scan(Fold(xs, Known(f)).hist, want, 0, 0) == if held < BUCKETS then held else BUCKETS
  {
    BelowNext(xs, f, 0);
    ScanBrackets(xs, f, want, 0);
    var r := Scan(Fold(xs, Known(f)).hist, want, 0, 0);
    BelowOfPermutation(t, xs, f, r);
    RankInOrder(t, f, r, want - 1);
    if r < BUCKETS {
      BelowOfPermutation(t, xs, f, r + 1);
      RankInOrder(t, f, r + 1, want - 1);
    }
  }

  /** If the wanted sample overflowed, the overflow counter is not zero. */
  lemma OverflowIsSeen(xs: seq<nat>, f: nat -> nat, t: seq<nat>, i: nat)
    requires Arranges(t, xs, f) && i < |t| && f(t[i]) >= BUCKETS
    ensures Fold(xs, Known(f)).overflow > 0
  {
    HistogramIsExact(xs, f);
    BelowOfPermutation(t, xs, f, BUCKETS);
    RankInOrder(t, f, BUCKETS, i);
    SameLength(t, xs);
  }

  lemma SameLength(t: seq<nat>, xs: seq<nat>)
    requires multiset(t) == multiset(xs)
    ensures |t| == |xs|
  {
    assert |multiset(t)| == |multiset(xs)|;
  }

  /**
   For every list of samples and every rank, the value reported is the upper edge, capped at the last
   bucket, of the bucket that holds the sample of that rank: the `want`-th smallest.
   */
  lemma RankIsExact(xs: seq<nat>, f: nat -> nat, t: seq<nat>, want: nat)
    requires Arranges(t, xs, f) && 1 <= want <= |t|
    ensures var held := f(t[want - 1]);
            AtRank(Fold(xs, Known(f)), want) == ((if held < BUCKETS then held else BUCKETS - 1) + 1) * BUCKET_NS
  {
    ScanFindsRank(xs, f, t, want);
    if f(t[want - 1]) >= BUCKETS {
      OverflowIsSeen(xs, f, t, want - 1);
    }
  }

  /** `p` is the upper edge of the bucket that holds `ns`, or of the last bucket. */
  predicate IsUpperEdge(p: nat, ns: nat) {
    if ns < BUCKETS * BUCKET_NS then p - BUCKET_NS <= ns < p && p % BUCKET_NS == 0
    else p == BUCKETS * BUCKET_NS
  }

  lemma EdgeOfBucket(ns: nat)
    ensures var held := ns / BUCKET_NS;
            IsUpperEdge(((if held < BUCKETS then held else BUCKETS - 1) + 1) * BUCKET_NS, ns)
  {}

  // ----- when the nanoseconds are right -----

  /** The length of a delay in nanoseconds. */
  function TrueNs(cycles: nat, hz: nat): nat
    requires hz > 0
  {
    cycles * 1_000_000_000 / hz
  }

  /** The conversion does not wrap. */
  predicate Converts(cycles: nat) {
    cycles * 1_000_000_000 < CYCLE_WRAP
  }

  /** On a 64-bit clock rate, the source's nanoseconds are the delay's exactly when the product fits 64 bits. */
  lemma ConvertsIff(cycles: nat, hz: nat)
    requires 0 < hz < CYCLE_WRAP
    ensures Ns(cycles, hz) == TrueNs(cycles, hz) <==> Converts(cycles)
  {
    var x := cycles * 1_000_000_000;
    if x >= CYCLE_WRAP {
      var wrapped := x % CYCLE_WRAP;
      assert wrapped + hz <= x;
      QuotientGrows(wrapped, x, hz);
    }
  }

  lemma QuotientGrows(a: nat, b: nat, hz: nat)
    requires 0 < hz && a + hz <= b
    ensures a / hz < b / hz
  {
    var q, p := a / hz, b / hz;
    assert q * hz <= a && b < (p + 1) * hz;
    assert (q + 1) * hz == q * hz + hz;
    assert q >= p ==> (q + 1) * hz >= (p + 1) * hz;
  }

  lemma QuotientMonotone(a: nat, b: nat, hz: nat)
    requires 0 < hz && a <= b
    ensures a / hz <= b / hz
  {
    var q, p := a / hz, b / hz;
    assert q * hz <= a && b < (p + 1) * hz;
    assert q > p ==> q * hz >= (p + 1) * hz;
  }

  /** A delay of 18.4 seconds at 1 GHz wraps to less than a bucket, and is counted with the shortest. */
  lemma LongDelayCountsAsShort()
    ensures var c, hz := 18_446_744_074, 1_000_000_000;
            && !Converts(c) && TrueNs(c, hz) >= BUCKETS * BUCKET_NS && Bucket(c, hz) == 0
            && Fold([c], ClockOf(hz)).overflow == 0 && Percentile(Fold([c], ClockOf(hz)), 0) == BUCKET_NS
  {
    var c, hz := 18_446_744_074, 1_000_000_000;
    assert c * 1_000_000_000 % CYCLE_WRAP == 290_448_384;
    FoldLast([], c, ClockOf(hz));
    assert [] + [c] == [c];
    var s := Fold([c], ClockOf(hz));
    assert s.hist[0] == 1 && s.count == 1;
  }

  predicate Increasing(t: seq<nat>) {
    forall i, j | 0 <= i < j < |t| :: t[i] <= t[j]
  }

  lemma ArrangedByLength(t: seq<nat>, xs: seq<nat>, hz: nat)
    requires 0 < hz < CYCLE_WRAP && multiset(t) == multiset(xs) && Increasing(t)
    requires forall i | 0 <= i < |t| :: Converts(t[i])
    ensures Arranges(t, xs, ClockOf(hz).bucket)
  {
    var f := ClockOf(hz).bucket;
    forall i, j | 0 <= i < j < |t| ensures f(t[i]) <= f(t[j]) {
      ConvertsIff(t[i], hz);
      ConvertsIff(t[j], hz);
      QuotientMonotone(t[i] * 1_000_000_000, t[j] * 1_000_000_000, hz);
      BucketMonotone(Ns(t[i], hz), Ns(t[j], hz));
    }
  }

  lemma PercentileInTime(xs: seq<nat>, hz: nat, t: seq<nat>, rank: nat)
    requires 0 < hz < CYCLE_WRAP && multiset(t) == multiset(xs) && Increasing(t) && 1 <= rank <= |t|
    requires forall i | 0 <= i < |t| :: Converts(t[i])
    ensures IsUpperEdge(AtRank(Fold(xs, ClockOf(hz)), rank), TrueNs(t[rank - 1], hz))
  {
    ArrangedByLength(t, xs, hz);
    RankIsExact(xs, ClockOf(hz).bucket, t, rank);
    ConvertsIff(t[rank - 1], hz);
    EdgeOfBucket(Ns(t[rank - 1], hz));
  }

  /**
   The statement for a whole packet stream: with `t` the counted delays in increasing order, none of them
   too long for the conversion, the percentile is the upper edge of the bucket of the delay of that rank.
   With no counted delay, or a clock of unknown rate, it is 0.
   */
  lemma StreamPercentile(pkts: seq<Pkt>, hz: nat, t: seq<nat>, want: nat)
    requires hz < CYCLE_WRAP && multiset(t) == multiset(Samples(pkts, |pkts|)) && Increasing(t)
    requires want <= |t| && forall i | 0 <= i < |t| :: Converts(t[i])
    ensures var p := Percentile(After(pkts, ClockOf(hz), |pkts|), want);
            if hz == 0 || t == [] then p == 0 else IsUpperEdge(p, TrueNs(t[Rank(want) - 1], hz))
  {
    var xs, clock := Samples(pkts, |pkts|), ClockOf(hz);
    IndexTracking(pkts, clock, |pkts|);
    PercentileIgnoresTracking(After(pkts, clock, |pkts|), Fold(xs, clock), want);
    SameLength(t, xs);
    if hz == 0 {
      NothingRecorded(xs);
    } else {
      HistogramIsExact(xs, clock.bucket);
      if t != [] {
        PercentileInTime(xs, hz, t, Rank(want));
      }
    }
  }

  lemma BucketMonotone(a: nat, b: nat)
    requires a <= b
    ensures a / BUCKET_NS <= b / BUCKET_NS
  {}

  lemma PercentileIgnoresTracking(s: State, t: State, want: nat)
    requires SameStats(s, t) && |s.hist| == |t.hist| == BUCKETS
    ensures Percentile(s, want) == Percentile(t, want)
  {}

  lemma {:induction false} NothingRecorded(xs: seq<nat>)
    ensures Fold(xs, Unknown).count == 0
  {
    if xs != [] {
      NothingRecorded(xs[..|xs| - 1]);
    }
  }

  lemma {:induction false} ScanIsMonotone(hist: seq<nat>, want: nat, want': nat, b: nat, acc: nat)
    requires b <= |hist| && want <= want'
    ensures Scan(hist, want, b, acc) <= Scan(hist, want', b, acc)
    decreases |hist| - b
  {
    if b < |hist| && acc + hist[b] < want {
      ScanIsMonotone(hist, want, want', b + 1, acc + hist[b]);
    }
  }

  /** A larger quantile never reports a smaller value, in any state reached. */
  lemma PercentilesAreOrdered(xs: seq<nat>, clock: Clock, want: nat, want': nat)
    requires want <= want' <= |xs|
    ensures Percentile(Fold(xs, clock), want) <= Percentile(Fold(xs, clock), want')
  {
    if clock.Unknown? {
      NothingRecorded(xs);
    } else if xs != [] {
      var s := Fold(xs, clock);
      ScanIsMonotone(s.hist, Rank(want), Rank(want'), 0, 0);
      ReportedWhenScanEnds(xs, clock.bucket, Rank(want'));
    }
  }

  /** A scan that finds no bucket means samples overflowed: the report is never 0 once something was recorded. */
  lemma ReportedWhenScanEnds(xs: seq<nat>, f: nat -> nat, rank: nat)
    requires 1 <= rank <= |xs|
    ensures Scan(Fold(xs, Known(f)).hist, rank, 0, 0) == BUCKETS ==> Fold(xs, Known(f)).overflow > 0
  {
    HistogramIsExact(xs, f);
    BelowNext(xs, f, 0);
    ScanBrackets(xs, f, rank, 0);
  }

  // ----- extremes and sum -----

  predicate IsLeast(m: nat, xs: seq<nat>) {
    m in xs && forall x | x in xs :: m <= x
  }

  predicate IsGreatest(m: nat, xs: seq<nat>) {
    m in xs && forall x | x in xs :: x <= m
  }

  /** The recorded sum and maximum are those of the samples. */
  lemma {:induction false} SumAndMaximum(xs: seq<nat>, clock: Clock)
    ensures Fold(xs, clock).running == Total(xs)
    ensures if xs == [] then Fold(xs, clock).max == 0 else IsGreatest(Fold(xs, clock).max, xs)
  {
    if xs != [] {
      var ys, x := xs[..|xs| - 1], xs[|xs| - 1];
      SumAndMaximum(ys, clock);
      if ys != [] {
        GreatestOfOneMore(xs, Fold(ys, clock).max);
      }
    }
  }

  lemma GreatestOfOneMore(xs: seq<nat>, m: nat)
    requires |xs| > 1 && IsGreatest(m, xs[..|xs| - 1])
    ensures var x := xs[|xs| - 1]; IsGreatest(if x > m then x else m, xs)
  {
    assert xs == xs[..|xs| - 1] + [xs[|xs| - 1]];
  }

  /**
   The recorded minimum uses 0 for "none yet", so it is the true minimum exactly when
   no sample is 0, or the last one is.
   */
  lemma MinimumIff(xs: seq<nat>, clock: Clock)
    requires xs != []
    ensures IsLeast(Fold(xs, clock).min, xs) <==> 0 !in xs || xs[|xs| - 1] == 0
  {
    MinimumIsReset(xs, clock);
    if 0 !in xs {
      MinimumWithoutZero(xs, clock);
    } else if xs[|xs| - 1] == 0 {
      assert IsLeast(0, xs);
    }
  }

  lemma {:induction false} MinimumWithoutZero(xs: seq<nat>, clock: Clock)
    ensures xs != [] && 0 !in xs ==> IsLeast(Fold(xs, clock).min, xs)
    ensures xs == [] ==> Fold(xs, clock).min == 0
  {
    if xs != [] {
      var ys, x := xs[..|xs| - 1], xs[|xs| - 1];
      assert xs == ys + [x];
      MinimumWithoutZero(ys, clock);
    }
  }

  lemma MinimumIsReset(xs: seq<nat>, clock: Clock)
    requires xs != []
    ensures Fold(xs, clock).min == 0 <==> xs[|xs| - 1] == 0
  {}

  // ----- the counters, updated in place -----

  class Counters {
    var next: nat
    var pkts: nat
    var skipped: nat
    var running: nat
    var min: nat
    var max: nat
    const hist: array<nat>
    var overflow: nat
    var count: nat

    ghost predicate Valid() reads this, hist {
      hist.Length == BUCKETS
    }

    ghost function Abs(): (s: State)
      reads this, hist
    {
      State(next, pkts, skipped, running, min, max, hist[..], overflow, count)
    }

    constructor ()
      ensures Valid() && fresh(hist) && Abs() == Reset()
    {
      next, pkts, skipped, running, min, max, overflow, count := 0, 0, 0, 0, 0, 0, 0, 0;
      hist := new nat[BUCKETS](_ => 0);
    }

    /** `latency_setup`'s reset. */
    method Clear()
      requires Valid()
      modifies this, hist
      ensures Valid() && Abs() == Reset()
    {
      forall i | 0 <= i < hist.Length {
        hist[i] := 0;
      }
      next, pkts, skipped, running, min, max, overflow, count := 0, 0, 0, 0, 0, 0, 0, 0;
    }

    /** `pktgen_tstamp_check` over one burst. */
    method TstampCheck(burst: seq<Pkt>, hz: nat)
      requires Valid()
      modifies this, hist
      ensures Valid() && Abs() == From(old(Abs()), burst, ClockOf(hz), |burst|)
    {
      var i := 0;
      while i < |burst|
        invariant 0 <= i <= |burst| && Valid()
        invariant Abs() == From(old(Abs()), burst, ClockOf(hz), i)
      {
        CheckPacket(burst[i], hz);
        i := i + 1;
      }
    }

    method CheckPacket(p: Pkt, hz: nat)
      requires Valid()
      modifies this, hist
      ensures Valid() && Abs() == Check(old(Abs()), p, ClockOf(hz))
    {
      if !p.stamped {
        return;
      }
      if p.index != next {
        next := (p.index + 1) % INDEX_WRAP;
        skipped := skipped + 1;
        return;
      }
      next := (next + 1) % INDEX_WRAP;
      pkts := pkts + 1;
      running := running + p.cycles;
      if min == 0 || p.cycles < min {
        min := p.cycles;
      }
      if max == 0 || p.cycles > max {
        max := p.cycles;
      }
      Record(p.cycles, hz);
    }

    method Record(cycles: nat, hz: nat)
      requires Valid()
      modifies `overflow, `count, hist
      ensures Valid() && Abs() == Histogram(old(Abs()), cycles, ClockOf(hz))
    {
      if hz != 0 {
        var idx := Ns(cycles, hz) / BUCKET_NS;
        if idx < BUCKETS {
          hist[idx] := hist[idx] + 1;
        } else {
          overflow := overflow + 1;
        }
        count := count + 1;
      }
    }

    /** The scan for one quantile, in nanoseconds; `product` is the count times the quantile, truncated. */
    method Quantile(product: nat) returns (ns: nat)
      requires Valid()
      ensures ns == Percentile(Abs(), product)
    {
      ns := 0;
      if count == 0 {
        return;
      }
      var want: nat, acc: nat, b: nat := product, 0, 0;
      if want == 0 {
        want := 1;
      }
      while b < hist.Length
        invariant 0 <= b <= hist.Length && ns == 0
        invariant Scan(hist[..], want, 0, 0) == Scan(hist[..], want, b, acc)
      {
        acc := acc + hist[b];
        if acc >= want {
          ns := (b + 1) * BUCKET_NS;
          break;
        }
        b := b + 1;
      }
      if ns == 0 && overflow > 0 {
        ns := BUCKETS * BUCKET_NS;
      }
    }
  }
}
