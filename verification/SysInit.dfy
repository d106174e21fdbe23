/**
 The start-up table: initialisers sorted by subsystem and order, run one by one, each
 of which may register more (`sysinit_add`), after which the merged table is sorted and
 walked again from the front.
 */
module SysInit {

  // Values of SI_SUB_DUMMY and SI_SUB_LAST.
  const DUMMY: nat := 0
  const LAST: nat := 0xfffffff

  /** An initialiser is known by its number; a table may name one twice. */
  type Id = nat

  /** For every initialiser: its subsystem, its order, and the sets it registers when called. */
  datatype World = World(sub: seq<nat>, order: seq<nat>, calls: seq<seq<seq<Id>>>)

  datatype Table = Null | Entries(ids: seq<Id>)

  ghost predicate Ids(s: seq<Id>, n: nat) {
    forall i | 0 <= i < |s| :: s[i] < n
  }

  ghost predicate Shape(order: seq<nat>, calls: seq<seq<seq<Id>>>, n: nat) {
    && |order| == |calls| == n
    && forall i, j | 0 <= i < n && 0 <= j < |calls[i]| :: Ids(calls[i][j], n)
  }

  ghost predicate WellFormed(w: World) {
    Shape(w.order, w.calls, |w.sub|)
  }

  predicate Runnable(sub: nat) {
    sub != DUMMY && sub != LAST
  }

  predicate Leq(sub: seq<nat>, order: seq<nat>, x: Id, y: Id)
    requires x < |sub| == |order| && y < |sub|
  {
    sub[x] < sub[y] || (sub[x] == sub[y] && order[x] <= order[y])
  }

  function Flatten(sets: seq<seq<Id>>): seq<Id> {
    if sets == [] then [] else Flatten(sets[..|sets| - 1]) + sets[|sets| - 1]
  }

  lemma {:induction false} FlattenIds(sets: seq<seq<Id>>, n: nat)
    requires forall j | 0 <= j < |sets| :: Ids(sets[j], n)
    ensures Ids(Flatten(sets), n)
  {
    if sets != [] {
      FlattenIds(sets[..|sets| - 1], n);
    }
  }

  /** What `x` registers when called. */
  function Adds(w: World, x: Id): seq<Id> {
    if x < |w.calls| then Flatten(w.calls[x]) else []
  }

  function Members(s: seq<Id>): set<Id> {
    set x | x in s
  }

  // ----- what a start-up may do, one initialiser at a time -----

  /** Subsystems after the initialisers in `ran` have been checked off. */
  function Subs(w: World, ran: seq<Id>): (s: seq<nat>)
    requires Ids(ran, |w.sub|)
    ensures |s| == |w.sub|
    ensures forall x | 0 <= x < |s| :: s[x] == if x in ran then LAST else w.sub[x]
  {
    seq(|w.sub|, x requires 0 <= x < |w.sub| => if x in ran then LAST else w.sub[x])
  }

  /**
   The entries of the table after `ran`, started on `base`. A table `early` registered before
   the start replaces `base` after the first initialiser. The definition takes three calls per
   initialiser, so that a proof unfolds it only by calling `TabUnfold`.
   */
  function Tab(w: World, base: set<Id>, early: Table, ran: seq<Id>): set<Id>
    decreases |ran|, 2
  {
    TabTo(w, base, early, ran)
  }

  function TabTo(w: World, base: set<Id>, early: Table, ran: seq<Id>): set<Id>
    decreases |ran|, 1
  {
    TabAfter(w, base, early, ran)
  }

  function TabAfter(w: World, base: set<Id>, early: Table, ran: seq<Id>): set<Id>
    decreases |ran|, 0
  {
    if ran == [] then base
    else
      var before := if |ran| == 1 && early.Entries? then Members(early.ids) else Tab(w, base, early, ran[..|ran| - 1]);
      before + Members(Adds(w, ran[|ran| - 1]))
  }

  lemma TabUnfold(w: World, base: set<Id>, early: Table, ran: seq<Id>)
    ensures Tab(w, base, early, ran) == TabAfter(w, base, early, ran)
  {
    assert Tab(w, base, early, ran) == TabTo(w, base, early, ran) == TabAfter(w, base, early, ran);
  }

  /** `x` is an entry still to run, and none still to run comes before it. */
  ghost predicate Least(sub: seq<nat>, order: seq<nat>, avail: set<Id>, x: Id)
    requires |sub| == |order|
  {
    && x in avail && x < |sub| && Runnable(sub[x])
    && forall y | y in avail && y < |sub| && Runnable(sub[y]) :: Leq(sub, order, x, y)
  }

  ghost predicate Known(w: World, ran: seq<Id>) {
    WellFormed(w) && Ids(ran, |w.sub|)
  }

  /** Every initialiser in `ran` was first among those waiting when it ran; unfolded by `ScheduleUnfold`. */
  ghost predicate Schedule(w: World, base: set<Id>, early: Table, ran: seq<Id>)
    requires Known(w, ran)
    decreases |ran|, 2
  {
    ScheduleTo(w, base, early, ran)
  }

  ghost predicate ScheduleTo(w: World, base: set<Id>, early: Table, ran: seq<Id>)
    requires Known(w, ran)
    decreases |ran|, 1
  {
    ScheduleLast(w, base, early, ran)
  }

  ghost predicate ScheduleLast(w: World, base: set<Id>, early: Table, ran: seq<Id>)
    requires Known(w, ran)
    decreases |ran|, 0
  {
    ran == [] ||
    var before := ran[..|ran| - 1];
    && Schedule(w, base, early, before)
    && Least(Subs(w, before), w.order, Tab(w, base, early, before), ran[|ran| - 1])
  }

  lemma ScheduleUnfold(w: World, base: set<Id>, early: Table, ran: seq<Id>)
    requires Known(w, ran)
    ensures Schedule(w, base, early, ran) <==> ScheduleLast(w, base, early, ran)
  {
    assert Schedule(w, base, early, ran) == ScheduleTo(w, base, early, ran) == ScheduleLast(w, base, early, ran);
  }

  /** Nothing is left to run. */
  ghost predicate Finished(w: World, base: set<Id>, early: Table, ran: seq<Id>)
    requires Known(w, ran)
  {
    forall x | x in Tab(w, base, early, ran) && x < |w.sub| :: !Runnable(Subs(w, ran)[x])
  }

  // ----- what that means for a whole start-up -----

  lemma {:induction false} SchedulePrefix(w: World, base: set<Id>, early: Table, ran: seq<Id>, k: nat)
    requires Known(w, ran) && Schedule(w, base, early, ran) && k <= |ran|
    ensures Schedule(w, base, early, ran[..k])
    ensures k < |ran| ==> Least(Subs(w, ran[..k]), w.order, Tab(w, base, early, ran[..k]), ran[k])
  {
    ScheduleUnfold(w, base, early, ran);
    if k < |ran| - 1 {
      SchedulePrefix(w, base, early, ran[..|ran| - 1], k);
      assert ran[..|ran| - 1][..k] == ran[..k];
    } else {
      assert ran[..|ran|] == ran;
    }
  }

  /** No initialiser runs twice, and DUMMY and LAST entries never run. */
  lemma RunsAtMostOnce(w: World, base: set<Id>, early: Table, ran: seq<Id>, i: nat, j: nat)
    requires Known(w, ran) && Schedule(w, base, early, ran) && i < j < |ran|
    ensures ran[i] != ran[j] && Runnable(w.sub[ran[j]]) && Runnable(w.sub[ran[i]])
  {
    SchedulePrefix(w, base, early, ran, j);
    SchedulePrefix(w, base, early, ran, i);
    assert ran[i] == ran[..j][i];
  }

  /** `x` was registered by one of the initialisers in `ran`. */
  ghost predicate RegisteredBy(w: World, ran: seq<Id>, x: Id)
  {
    exists j :: 0 <= j < |ran| && x in Adds(w, ran[j])
  }

  lemma {:induction false} TableContents(w: World, base: set<Id>, early: Table, ran: seq<Id>, x: Id)
    ensures x in Tab(w, base, early, ran) <==>
            || RegisteredBy(w, ran, x)
            || if ran == [] || early.Null? then x in base else x in early.ids
  {
    TabUnfold(w, base, early, ran);
    if ran != [] {
      var before := ran[..|ran| - 1];
      TableContents(w, base, early, before, x);
      RegisteredLast(w, ran, x);
    }
  }

  lemma RegisteredLast(w: World, ran: seq<Id>, x: Id)
    requires ran != []
    ensures RegisteredBy(w, ran, x) <==> RegisteredBy(w, ran[..|ran| - 1], x) || x in Adds(w, ran[|ran| - 1])
  {
    var before := ran[..|ran| - 1];
    if RegisteredBy(w, before, x) {
      var j :| 0 <= j < |before| && x in Adds(w, before[j]);
      assert ran[j] == before[j];
    }
    if RegisteredBy(w, ran, x) && x !in Adds(w, ran[|ran| - 1]) {
      var j :| 0 <= j < |ran| && x in Adds(w, ran[j]);
      assert before[j] == ran[j];
    }
  }

  /**
   Exactly-once: in a finished start-up an initialiser ran if and only if it is neither DUMMY nor
   LAST and was linked in or registered by one that ran.
   */
  lemma RunsExactly(w: World, base: set<Id>, ran: seq<Id>, x: Id)
    requires Known(w, ran) && Schedule(w, base, Null, ran) && Finished(w, base, Null, ran) && x < |w.sub|
    ensures x in ran <==> Runnable(w.sub[x]) && (x in base || RegisteredBy(w, ran, x))
  {
    TableContents(w, base, Null, ran, x);
    if x in ran {
      var k :| 0 <= k < |ran| && ran[k] == x;
      RanWasThere(w, base, Null, ran, k);
    }
  }

  lemma RanWasThere(w: World, base: set<Id>, early: Table, ran: seq<Id>, k: nat)
    requires Known(w, ran) && Schedule(w, base, early, ran) && k < |ran|
    ensures Runnable(w.sub[ran[k]])
    ensures RegisteredBy(w, ran, ran[k]) || if k == 0 || early.Null? then ran[k] in base else ran[k] in early.ids
  {
    SchedulePrefix(w, base, early, ran, k);
    var before := ran[..k];
    TableContents(w, base, early, before, ran[k]);
    if RegisteredBy(w, before, ran[k]) {
      var j :| 0 <= j < |before| && ran[k] in Adds(w, before[j]);
      assert ran[j] == before[j];
    }
  }

  /**
   A table registered before the start makes the linker's entries vanish after the first one ran:
   another linked entry then runs exactly when that table holds it or a later initialiser registers it.
   */
  lemma EarlyTableReplaces(w: World, base: set<Id>, early: seq<Id>, ran: seq<Id>, x: Id)
    requires Known(w, ran) && ran != [] && x < |w.sub| && x != ran[0]
    requires Schedule(w, base, Entries(early), ran) && Finished(w, base, Entries(early), ran)
    ensures x in ran <==> Runnable(w.sub[x]) && (x in early || RegisteredBy(w, ran, x))
  {
    TableContents(w, base, Entries(early), ran, x);
    if x in ran {
      var k :| 0 <= k < |ran| && ran[k] == x;
      RanWasThere(w, base, Entries(early), ran, k);
    }
  }

  /** Whatever ties the sort breaks, the same initialisers run. */
  lemma SameEntriesRun(w: World, base: set<Id>, a: seq<Id>, b: seq<Id>)
    requires Known(w, a) && Schedule(w, base, Null, a) && Finished(w, base, Null, a)
    requires Known(w, b) && Schedule(w, base, Null, b) && Finished(w, base, Null, b)
    ensures Members(a) == Members(b)
  {
    forall k | 0 <= k < |a| ensures a[k] in b {
      AlsoRuns(w, base, a, b, k);
    }
    forall k | 0 <= k < |b| ensures b[k] in a {
      AlsoRuns(w, base, b, a, k);
    }
  }

  lemma {:induction false} AlsoRuns(w: World, base: set<Id>, a: seq<Id>, b: seq<Id>, k: nat)
    requires Known(w, a) && Schedule(w, base, Null, a) && k < |a|
    requires Known(w, b) && Schedule(w, base, Null, b) && Finished(w, base, Null, b)
    ensures a[k] in b
  {
    SchedulePrefix(w, base, Null, a, k);
    var before := a[..k];
    TableContents(w, base, Null, before, a[k]);
    if RegisteredBy(w, before, a[k]) {
      var j :| 0 <= j < |before| && a[k] in Adds(w, before[j]);
      AlsoRuns(w, base, a, b, j);
      var m :| 0 <= m < |b| && b[m] == a[j];
      assert RegisteredBy(w, b, a[k]);
    }
    RunsExactly(w, base, b, a[k]);
  }

  /** With no two entries tied, the whole start-up order is determined. */
  lemma {:induction false} OrderIsDetermined(w: World, base: set<Id>, early: Table, a: seq<Id>, b: seq<Id>, k: nat)
    requires Known(w, a) && Schedule(w, base, early, a)
    requires Known(w, b) && Schedule(w, base, early, b)
    requires NoTies(w)
    requires k <= |a| && k <= |b|
    ensures a[..k] == b[..k]
  {
    if k > 0 {
      OrderIsDetermined(w, base, early, a, b, k - 1);
      SameNext(w, base, early, a, b, k - 1);
      PrefixExtends(a, b, k - 1);
    }
  }

  lemma SameNext(w: World, base: set<Id>, early: Table, a: seq<Id>, b: seq<Id>, k: nat)
    requires Known(w, a) && Schedule(w, base, early, a) && Known(w, b) && Schedule(w, base, early, b) && NoTies(w)
    requires k < |a| && k < |b| && a[..k] == b[..k]
    ensures a[k] == b[k]
  {
    SchedulePrefix(w, base, early, a, k);
    SchedulePrefix(w, base, early, b, k);
    LeastIsUnique(w, a[..k], Tab(w, base, early, a[..k]), a[k], b[k]);
  }

  lemma PrefixExtends(a: seq<Id>, b: seq<Id>, k: nat)
    requires k < |a| && k < |b| && a[..k] == b[..k] && a[k] == b[k]
    ensures a[..k + 1] == b[..k + 1]
  {
    assert a[..k + 1] == a[..k] + [a[k]];
    assert b[..k + 1] == b[..k] + [b[k]];
  }

  ghost predicate NoTies(w: World)
    requires WellFormed(w)
  {
    forall x, y | 0 <= x < y < |w.sub| :: w.sub[x] != w.sub[y] || w.order[x] != w.order[y]
  }

  lemma LeastIsUnique(w: World, ran: seq<Id>, avail: set<Id>, x: Id, y: Id)
    requires Known(w, ran) && NoTies(w)
    requires Least(Subs(w, ran), w.order, avail, x) && Least(Subs(w, ran), w.order, avail, y)
    ensures x == y
  {
    assert Leq(Subs(w, ran), w.order, x, y) && Leq(Subs(w, ran), w.order, y, x);
  }

  /** One linked entry of two is never run after a registration made before the start. */
  lemma EarlyRegistrationLosesEntries()
    ensures var w := World([5, 6, 7], [0, 0, 0], [[], [], []]);
            && Known(w, [0, 2])
            && Schedule(w, {0, 1}, Entries([2]), [0, 2]) && Finished(w, {0, 1}, Entries([2]), [0, 2])
            && Runnable(w.sub[1]) && 1 !in [0, 2]
  {
    var w := World([5, 6, 7], [0, 0, 0], [[], [], []]);
    var early := Entries([2]);
    assert [0, 2][..1] == [0] && [0][..0] == [];
    TabUnfold(w, {0, 1}, early, []);
    TabUnfold(w, {0, 1}, early, [0]);
    TabUnfold(w, {0, 1}, early, [0, 2]);
    ScheduleUnfold(w, {0, 1}, early, []);
    ScheduleUnfold(w, {0, 1}, early, [0]);
    ScheduleUnfold(w, {0, 1}, early, [0, 2]);
    assert Subs(w, [0]) == [LAST, 6, 7];
    assert Tab(w, {0, 1}, early, [0]) == {2} by { assert Members([2]) == {2}; }
    assert Tab(w, {0, 1}, early, [0, 2]) == {2};
  }

  // ----- sorting, registering and walking the table in place -----

  ghost predicate Sorted(sub: seq<nat>, order: seq<nat>, ids: seq<Id>)
    requires |sub| == |order| && Ids(ids, |sub|)
  {
    forall i, j | 0 <= i < j < |ids| :: Leq(sub, order, ids[i], ids[j])
  }

  /** How many initialisers could still run. */
  function Pending(sub: seq<nat>): nat {
    if sub == [] then 0 else Pending(sub[..|sub| - 1]) + if Runnable(sub[|sub| - 1]) then 1 else 0
  }

  lemma {:induction false} PendingDrops(sub: seq<nat>, x: Id)
    requires x < |sub| && Runnable(sub[x])
    ensures Pending(sub[x := LAST]) < Pending(sub)
  {
    var after := sub[x := LAST];
    if x == |sub| - 1 {
      assert after[..|sub| - 1] == sub[..|sub| - 1];
    } else {
      PendingDrops(sub[..|sub| - 1], x);
      assert after[..|sub| - 1] == sub[..|sub| - 1][x := LAST];
    }
  }

  /** The table that registering `sets` one after another leaves behind. */
  function Registered(sys: Table, new_: Table, sets: seq<seq<Id>>): Table {
    if sets == [] then new_
    else Entries((if new_.Entries? then new_.ids else if sys.Entries? then sys.ids else []) + Flatten(sets))
  }

  /** The first waiting entry of a sorted table is the least one waiting. */
  lemma FirstIsLeast(sub: seq<nat>, order: seq<nat>, now: seq<nat>, ids: seq<Id>, k: nat)
    requires |sub| == |order| == |now| && Ids(ids, |sub|) && Sorted(sub, order, ids) && k < |ids|
    requires forall x | 0 <= x < |sub| && Runnable(now[x]) :: now[x] == sub[x]
    requires Runnable(now[ids[k]]) && forall j | 0 <= j < k :: !Runnable(now[ids[j]])
    ensures Least(now, order, Members(ids), ids[k])
  {
    forall y | y in Members(ids) && y < |now| && Runnable(now[y]) ensures Leq(now, order, ids[k], y) {
      var j :| 0 <= j < |ids| && ids[j] == y;
      assert j >= k;
    }
  }

  class Startup {
    const linker: seq<Id>
    const order: seq<nat>
    const calls: seq<seq<seq<Id>>>
    const sub: array<nat>
    var sysinit: array?<nat>
    var newsysinit: array?<nat>
    /** Initialisers called so far. */
    var ran: seq<Id>

    ghost function TableSet(): set<array?<nat>> reads this {
      {sysinit, newsysinit}
    }

    ghost function Now(): World reads sub {
      World(sub[..], order, calls)
    }

    ghost predicate Valid() reads this, sub, TableSet() {
      && Shape(order, calls, sub.Length)
      && Ids(linker, sub.Length)
      && sysinit != sub && newsysinit != sub
      && (sysinit != null ==> sysinit != newsysinit && Ids(sysinit[..], sub.Length))
      && (newsysinit != null ==> Ids(newsysinit[..], sub.Length))
    }

    ghost function Sys(): Table reads this, TableSet() {
      if sysinit == null then Null else Entries(sysinit[..])
    }

    ghost function New(): Table reads this, TableSet() {
      if newsysinit == null then Null else Entries(newsysinit[..])
    }

    constructor (linker: seq<Id>, sub: seq<nat>, order: seq<nat>, calls: seq<seq<seq<Id>>>)
      requires WellFormed(World(sub, order, calls)) && Ids(linker, |sub|)
      ensures Valid() && Now() == World(sub, order, calls) && this.linker == linker
      ensures Sys() == New() == Null && ran == [] && fresh(this.sub)
    {
      this.linker, this.order, this.calls, ran := linker, order, calls, [];
      this.sub := new nat[|sub|](i requires 0 <= i < |sub| => sub[i]);
      sysinit, newsysinit := null, null;
      new;
      assert this.sub[..] == sub;
    }

    /** `sysinit_add` */
    method SysinitAdd(set_: seq<Id>)
      requires Valid() && Ids(set_, sub.Length)
      modifies `newsysinit
      ensures Valid() && New() == Registered(Sys(), old(New()), [set_])
      ensures fresh(newsysinit)
    {
      var newset := Merged(if newsysinit != null then newsysinit else sysinit, set_);
      assert Flatten([set_]) == set_;
      newsysinit := newset;
    }

    static method Merged(from: array?<nat>, set_: seq<Id>) returns (newset: array<nat>)
      ensures fresh(newset)
      ensures newset[..] == (if from == null then [] else from[..]) + set_
    {
      var kept := if from == null then 0 else from.Length;
      newset := new nat[kept + |set_|];
      var i := 0;
      while i < kept
        invariant 0 <= i <= kept
        invariant forall j | 0 <= j < i :: newset[j] == from[j]
      {
        newset[i] := from[i];
        i := i + 1;
      }
      i := 0;
      while i < |set_|
        invariant 0 <= i <= |set_|
        invariant forall j | 0 <= j < kept :: newset[j] == from[j]
        invariant forall j | 0 <= j < i :: newset[kept + j] == set_[j]
      {
        newset[kept + i] := set_[i];
        i := i + 1;
      }
    }

    /** Calls initialiser `x`, which registers its sets. */
    method Call(x: Id)
      requires Valid() && x < sub.Length
      modifies `newsysinit, `ran
      ensures Valid() && ran == old(ran) + [x]
      ensures New() == Registered(Sys(), old(New()), calls[x])
      ensures newsysinit == old(newsysinit) || fresh(newsysinit)
    {
      ran := ran + [x];
      var i := 0;
      while i < |calls[x]|
        invariant 0 <= i <= |calls[x]| && Valid() && ran == old(ran) + [x]
        invariant New() == Registered(Sys(), old(New()), calls[x][..i])
        invariant newsysinit == old(newsysinit) || fresh(newsysinit)
      {
        SysinitAdd(calls[x][i]);
        RegisteredNext(Sys(), old(New()), calls[x], i);
        i := i + 1;
      }
      assert calls[x][..|calls[x]|] == calls[x];
    }

    static method Swap(a: array<nat>, i: nat, j: nat)
      requires i < j < a.Length
      modifies a
      ensures a[..] == old(a[..])[i := old(a[j])][j := old(a[i])]
      ensures multiset(a[i..]) == multiset(old(a[i..]))
    {
      ghost var was := a[i..];
      a[i], a[j] := a[j], a[i];
      assert a[i..] == was[0 := was[j - i]][j - i := was[0]];
    }

    /** One pass of the inner loop of the sort: brings the least of `a[i..]` to `a[i]`. */
    method Sweep(a: array<nat>, i: nat)
      requires sub.Length == |order| && a != sub && Ids(a[..], sub.Length) && i < a.Length
      modifies a
      ensures Ids(a[..], sub.Length) && a[..i] == old(a[..i])
      ensures multiset(a[i..]) == multiset(old(a[i..]))
      ensures forall k | i <= k < a.Length :: Leq(sub[..], order, a[i], a[k])
    {
      var j := i + 1;
      while j < a.Length
        invariant i < j <= a.Length
        invariant Ids(a[..], sub.Length) && a[..i] == old(a[..i])
        invariant multiset(a[i..]) == multiset(old(a[i..]))
        invariant forall k | i <= k < j :: Leq(sub[..], order, a[i], a[k])
      {
        if !(sub[a[i]] < sub[a[j]] || (sub[a[i]] == sub[a[j]] && order[a[i]] <= order[a[j]])) {
          Swap(a, i, j);
        }
        j := j + 1;
      }
    }

    /** The sort. */
    method Sort(a: array<nat>)
      requires sub.Length == |order| && a != sub && Ids(a[..], sub.Length)
      modifies a
      ensures Ids(a[..], sub.Length) && multiset(a[..]) == multiset(old(a[..]))
      ensures Sorted(sub[..], order, a[..])
    {
      var i := 0;
      while i < a.Length
        invariant 0 <= i <= a.Length && Ids(a[..], sub.Length)
        invariant multiset(a[..]) == multiset(old(a[..]))
        invariant SortedTo(sub[..], order, a[..], i)
      {
        ghost var was := a[..];
        Sweep(a, i);
        SweepExtends(sub[..], order, was, a[..], i);
        i := i + 1;
      }
    }

    ghost function Abs(): (s: Tables)
      requires sysinit != null
      reads this, sub, TableSet()
    {
      Tables(sub[..], sysinit[..], New(), ran)
    }

    /** Calls the entry, checks it off, and installs what was registered; `again` asks for a restart. */
    method RunEntry(x: Id) returns (again: bool)
      requires Valid() && sysinit != null && x < sub.Length
      modifies this, sub
      ensures Valid() && sysinit != null && Abs() == Enter(old(Abs()), calls, x)
      ensures again <==> Restarts(old(Abs()), calls, x)
      ensures if again then fresh(sysinit) || sysinit == old(newsysinit) else sysinit == old(sysinit)
    {
      Call(x);
      sub[x] := LAST;
      again := newsysinit != null;
      if again {
        sysinit := newsysinit;
        newsysinit := null;
      }
    }

    /** One walk along the table, up to its end or to a restart. */
    method Walk() returns (again: bool)
      requires Valid() && sysinit != null
      modifies this, sub
      ensures Valid() && sysinit != null
      ensures (again, Abs()) == WalkFrom(old(Abs()), calls, 0)
      ensures if again then fresh(sysinit) || sysinit == old(newsysinit) else sysinit == old(sysinit)
      ensures newsysinit == old(newsysinit) || newsysinit == null
    {
      var i := 0;
      while i < sysinit.Length
        invariant Valid() && sysinit == old(sysinit) && 0 <= i <= sysinit.Length
        invariant newsysinit == old(newsysinit) || newsysinit == null
        invariant WalkFrom(Abs(), calls, i) == WalkFrom(old(Abs()), calls, 0)
      {
        var x := sysinit[i];
        if Runnable(sub[x]) {
          again := RunEntry(x);
          if again {
            return;
          }
        }
        i := i + 1;
      }
      again := false;
    }

    /**
     `mi_startup`: the initialisers it runs are a finished schedule of the linker's table, or of the
     table in place when it is called again.
     */
    method MiStartup() returns (ghost done: seq<Id>)
      requires Valid()
      modifies this, sub, TableSet()
      ensures Valid() && ran == old(ran) + done
      ensures var base := if old(sysinit) == null then linker else old(sysinit[..]);
              Ended(Start(old(Now()), Members(base), old(New()), old(ran)), done)
    {
      ghost var base := if sysinit == null then linker else sysinit[..];
      ghost var st := Start(Now(), Members(base), New(), ran);
      if sysinit == null {
        sysinit := Merged(null, linker);
        assert [] + linker == linker;
      }
      assert sysinit[..] == base && ran + [] == ran;
      done := [];
      TabUnfold(st.w, st.base, st.early, []);
      ScheduleUnfold(st.w, st.base, st.early, []);
      var again := true;
      while again
        invariant Valid() && sysinit != null
        invariant Progress(st, done, Abs())
        invariant !again ==> Ended(st, done)
        invariant sysinit in old(TableSet()) || fresh(sysinit)
        invariant newsysinit in old(TableSet()) || newsysinit == null
        decreases again, Pending(sub[..])
      {
        again, done := Round(st, done);
      }
    }

    /** From `restart` to the next restart or the end. */
    method Round(ghost st: Start, ghost done: seq<Id>) returns (again: bool, ghost done': seq<Id>)
      requires Valid() && sysinit != null && st.w.order == order && st.w.calls == calls
      requires Progress(st, done, Abs())
      modifies this, sub, sysinit
      ensures Valid() && sysinit != null && Progress(st, done', Abs())
      ensures if again then Pending(sub[..]) < old(Pending(sub[..])) else Ended(st, done')
      ensures if again then fresh(sysinit) || sysinit == old(newsysinit) else sysinit == old(sysinit)
      ensures newsysinit == old(newsysinit) || newsysinit == null
    {
      ghost var s := Abs();
      Sort(sysinit);
      Resorted(st, done, s, Abs());
      done' := WalkProgress(st, done, Abs(), sub[..], 0);
      again := Walk();
    }
  }

  // ----- one walk, on values -----

  /** Subsystems, table, table of new registrations, and initialisers called. */
  datatype Tables = Tables(sub: seq<nat>, ids: seq<Id>, new_: Table, ran: seq<Id>)

  predicate Restarts(s: Tables, calls: seq<seq<seq<Id>>>, x: Id)
    requires x < |calls|
  {
    Registered(Entries(s.ids), s.new_, calls[x]).Entries?
  }

  function Enter(s: Tables, calls: seq<seq<seq<Id>>>, x: Id): Tables
    requires x < |s.sub| && x < |calls|
  {
    var t := Registered(Entries(s.ids), s.new_, calls[x]);
    Tables(s.sub[x := LAST], if t.Entries? then t.ids else s.ids, Null, s.ran + [x])
  }

  function WalkFrom(s: Tables, calls: seq<seq<seq<Id>>>, i: nat): (bool, Tables)
    requires |calls| == |s.sub| && Ids(s.ids, |s.sub|)
    decreases |s.ids| - i
  {
    if i >= |s.ids| then (false, s)
    else if !Runnable(s.sub[s.ids[i]]) then WalkFrom(s, calls, i + 1)
    else
      var x := s.ids[i];
      if Restarts(s, calls, x) then (true, Enter(s, calls, x)) else WalkFrom(Enter(s, calls, x), calls, i + 1)
  }

  /** How a start-up began: the world, the table, a table registered early, and what ran before. */
  datatype Start = Start(w: World, base: set<Id>, early: Table, ran: seq<Id>)

  /** What holds between two entries of a start-up: `done` ran since it began. */
  ghost predicate Progress(st: Start, done: seq<Id>, s: Tables) {
    && Known(st.w, done) && Schedule(st.w, st.base, st.early, done)
    && s.sub == Subs(st.w, done)
    && Ids(s.ids, |s.sub|) && Members(s.ids) == Tab(st.w, st.base, st.early, done)
    && s.new_ == (if done == [] then st.early else Null)
    && (s.new_.Entries? ==> Ids(s.new_.ids, |s.sub|))
    && s.ran == st.ran + done
  }

  /** The start-up is over: what ran is a finished schedule. */
  ghost predicate Ended(st: Start, done: seq<Id>) {
    && Known(st.w, done)
    && Schedule(st.w, st.base, st.early, done)
    && Finished(st.w, st.base, st.early, done)
  }

  /** The walk is at `i`: what came before is not waiting, and what is waiting kept its subsystem. */
  ghost predicate Passed(before: seq<nat>, now: seq<nat>, ids: seq<Id>, i: nat) {
    && |before| == |now| && Ids(ids, |now|) && i <= |ids|
    && (forall x | 0 <= x < |now| && Runnable(now[x]) :: now[x] == before[x])
    && forall j | 0 <= j < i :: !Runnable(now[ids[j]])
  }

  lemma EnterProgress(st: Start, done: seq<Id>, s: Tables, x: Id)
    requires Progress(st, done, s) && Least(s.sub, st.w.order, Members(s.ids), x)
    ensures Progress(st, done + [x], Enter(s, st.w.calls, x))
  {
    ScheduleNext(st.w, st.base, st.early, done, x);
    NextTable(st.w, st.base, st.early, done, s.ids, x);
    EnterIds(st.w, s, x);
    assert st.ran + (done + [x]) == (st.ran + done) + [x];
  }

  lemma WalkStep(st: Start, done: seq<Id>, s: Tables, before: seq<nat>, i: nat)
    requires Progress(st, done, s) && Passed(before, s.sub, s.ids, i) && Sorted(before, st.w.order, s.ids)
    requires i < |s.ids| && Runnable(s.sub[s.ids[i]])
    ensures var x := s.ids[i];
            && Progress(st, done + [x], Enter(s, st.w.calls, x))
            && Passed(before, Enter(s, st.w.calls, x).sub, s.ids, i + 1)
            && Pending(Enter(s, st.w.calls, x).sub) < Pending(s.sub)
            && (!Restarts(s, st.w.calls, x) ==> Enter(s, st.w.calls, x).ids == s.ids)
  {
    FirstIsLeast(before, st.w.order, s.sub, s.ids, i);
    EnterProgress(st, done, s, s.ids[i]);
    PendingDrops(s.sub, s.ids[i]);
    PassedNext(before, s.sub, s.ids, i);
  }

  lemma PassedNext(before: seq<nat>, now: seq<nat>, ids: seq<Id>, i: nat)
    requires Passed(before, now, ids, i) && i < |ids|
    ensures Passed(before, now[ids[i] := LAST], ids, i + 1)
  {}

  lemma EnterIds(w: World, s: Tables, x: Id)
    requires WellFormed(w) && |s.sub| == |w.sub| && Ids(s.ids, |s.sub|) && (s.new_.Entries? ==> Ids(s.new_.ids, |s.sub|))
    requires x < |s.sub|
    ensures Ids(Enter(s, w.calls, x).ids, |s.sub|)
  {
    FlattenIds(w.calls[x], |w.sub|);
  }

  /** What a walk that began with `pending` entries waiting leaves. */
  ghost predicate Walked(st: Start, done: seq<Id>, pending: nat, result: (bool, Tables)) {
    && Progress(st, done, result.1)
    && Pending(result.1.sub) <= pending
    && if result.0 then Pending(result.1.sub) < pending else Ended(st, done)
  }

  lemma {:induction false} WalkProgress(st: Start, done: seq<Id>, s: Tables, before: seq<nat>, i: nat) returns (done': seq<Id>)
    requires Progress(st, done, s) && Passed(before, s.sub, s.ids, i) && Sorted(before, st.w.order, s.ids)
    ensures Walked(st, done', Pending(s.sub), WalkFrom(s, st.w.calls, i))
    decreases |s.ids| - i
  {
    if i == |s.ids| {
      NothingLeft(st, done, s, before);
      done' := done;
    } else if !Runnable(s.sub[s.ids[i]]) {
      done' := WalkProgress(st, done, s, before, i + 1);
    } else {
      var x := s.ids[i];
      WalkStep(st, done, s, before, i);
      done' := done + [x];
      if !Restarts(s, st.w.calls, x) {
        var s1 := Enter(s, st.w.calls, x);
        done' := WalkProgress(st, done', s1, before, i + 1);
        WalkedSooner(st, done', Pending(s1.sub), Pending(s.sub), WalkFrom(s1, st.w.calls, i + 1));
      }
    }
  }

  lemma WalkedSooner(st: Start, done: seq<Id>, pending: nat, pending': nat, result: (bool, Tables))
    requires Walked(st, done, pending, result) && pending <= pending'
    ensures Walked(st, done, pending', result)
  {}

  lemma NothingLeft(st: Start, done: seq<Id>, s: Tables, before: seq<nat>)
    requires Progress(st, done, s) && Passed(before, s.sub, s.ids, |s.ids|)
    ensures Ended(st, done)
  {
    forall x | x in Tab(st.w, st.base, st.early, done) && x < |st.w.sub| ensures !Runnable(Subs(st.w, done)[x]) {
      assert x in Members(s.ids);
    }
  }

  lemma Resorted(st: Start, done: seq<Id>, s: Tables, t: Tables)
    requires Progress(st, done, s) && t == s.(ids := t.ids) && Ids(t.ids, |t.sub|)
    requires multiset(s.ids) == multiset(t.ids)
    ensures Progress(st, done, t)
  {
    SameMembers(s.ids, t.ids);
  }

  lemma SameMembers(a: seq<Id>, b: seq<Id>)
    requires multiset(a) == multiset(b)
    ensures Members(a) == Members(b)
  {
    forall x ensures x in a <==> x in b {
      assert x in a <==> x in multiset(a);
      assert x in b <==> x in multiset(b);
    }
  }

  lemma ScheduleNext(w: World, base: set<Id>, early: Table, done: seq<Id>, x: Id)
    requires Known(w, done) && Schedule(w, base, early, done)
    requires Least(Subs(w, done), w.order, Tab(w, base, early, done), x)
    ensures Known(w, done + [x]) && Schedule(w, base, early, done + [x])
    ensures Subs(w, done + [x]) == Subs(w, done)[x := LAST]
  {
    assert (done + [x])[..|done|] == done;
    ScheduleUnfold(w, base, early, done + [x]);
  }

  ghost predicate SortedTo(sub: seq<nat>, order: seq<nat>, ids: seq<Id>, i: nat)
    requires |sub| == |order| && Ids(ids, |sub|)
  {
    forall p, q | 0 <= p < q < |ids| && p < i :: Leq(sub, order, ids[p], ids[q])
  }

  lemma SweepExtends(sub: seq<nat>, order: seq<nat>, was: seq<Id>, ids: seq<Id>, i: nat)
    requires |sub| == |order| && |was| == |ids| && i < |ids| && Ids(was, |sub|) && Ids(ids, |sub|)
    requires SortedTo(sub, order, was, i)
    requires ids[..i] == was[..i] && multiset(ids[i..]) == multiset(was[i..])
    requires forall k | i <= k < |ids| :: Leq(sub, order, ids[i], ids[k])
    ensures SortedTo(sub, order, ids, i + 1) && multiset(ids) == multiset(was)
  {
    assert ids == ids[..i] + ids[i..] && was == was[..i] + was[i..];
    forall p, q | 0 <= p < i <= q < |ids| ensures Leq(sub, order, ids[p], ids[q]) {
      assert ids[q] == ids[i..][q - i];
      assert ids[q] in multiset(was[i..]);
      var m :| 0 <= m < |was[i..]| && was[i..][m] == ids[q];
      assert was[i + m] == ids[q] && ids[p] == ids[..i][p] && was[p] == was[..i][p];
    }
    forall p, q | 0 <= p < q < |ids| && p < i + 1 ensures Leq(sub, order, ids[p], ids[q]) {
      if p < i && q < i {
        assert ids[p] == ids[..i][p] && ids[q] == ids[..i][q] && was[p] == was[..i][p] && was[q] == was[..i][q];
      }
    }
  }

  /** The table an entry leaves is the one the schedule speaks of. */
  lemma NextTable(w: World, base: set<Id>, early: Table, done: seq<Id>, table: seq<Id>, x: Id)
    requires Known(w, done) && x < |w.calls| && Members(table) == Tab(w, base, early, done)
    ensures var new_ := Registered(Entries(table), if done == [] then early else Null, w.calls[x]);
            Tab(w, base, early, done + [x]) == Members(if new_.Entries? then new_.ids else table)
  {
    TabUnfold(w, base, early, done + [x]);
    assert (done + [x])[..|done|] == done;
    if w.calls[x] == [] {
      assert Adds(w, x) == [];
    }
  }

  lemma RegisteredNext(sys: Table, new_: Table, sets: seq<seq<Id>>, i: nat)
    requires i < |sets|
    ensures Registered(sys, Registered(sys, new_, sets[..i]), [sets[i]]) == Registered(sys, new_, sets[..i + 1])
  {
    assert sets[..i + 1] == sets[..i] + [sets[i]];
    assert sets[..i + 1][..i] == sets[..i];
    assert Flatten([sets[i]]) == sets[i];
    assert Flatten(sets[..i + 1]) == Flatten(sets[..i]) + sets[i];
  }
}
