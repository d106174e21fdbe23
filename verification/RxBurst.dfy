/**
 The receive side of the DPDK driver on top of the receive ring: where every mbuf is.
 An mbuf is in the mempool, in the driver's stash, posted in the ring, or with the
 caller. A cookie is an mbuf, NULL is a library buffer.
 */
module RxBurst {
  import opened Descriptor
  import EventQueue
  import opened Ring
  import opened RxRing

  const BULK: nat := 64

  datatype Pmd = Pmd(
    rx: RxRing.State, copyMode: bool,
    pool: multiset<Cookie>, stash: seq<Cookie>, caller: multiset<Cookie>)

  /** What the mempool answers when the stash is empty. */
  datatype Alloc = Bulk(ms: seq<Cookie>) | Single(m: Cookie) | Exhausted

  predicate AllocOk(pool: multiset<Cookie>, a: Alloc) {
    match a
    case Bulk(ms) => |ms| == BULK && multiset(ms) <= pool
    case Single(m) => m in pool
    case Exhausted => true
  }

  datatype Got = Got(p: Pmd, m: Cookie)

  /** `capio_mbuf_get`. */
  function GetMbuf(p: Pmd, a: Alloc): (g: Got)
    requires p.stash == [] ==> AllocOk(p.pool, a)
    ensures g.p.rx == p.rx && g.p.copyMode == p.copyMode && g.p.caller == p.caller
  {
    if p.stash == [] then
      match a
      case Bulk(ms) => Got(p.(pool := p.pool - multiset(ms), stash := ms[..BULK - 1]), ms[BULK - 1])
      case Single(m) => Got(p.(pool := p.pool - multiset{m}), m)
      case Exhausted => Got(p, NULL)
    else
      Got(p.(stash := p.stash[..|p.stash| - 1]), p.stash[|p.stash| - 1])
  }

  function Freed(p: Pmd, m: Cookie): Pmd {
    p.(pool := p.pool + multiset{m})
  }

  /** `rte_pktmbuf_free` by the caller. */
  function Returned(p: Pmd, m: Cookie): Pmd {
    p.(caller := p.caller - multiset{m}, pool := p.pool + multiset{m})
  }

  function Give(p: Pmd, m: Cookie): Pmd {
    p.(caller := p.caller + multiset{m})
  }

  /** `capio_post_mbuf`: the mbuf's default data address, with the room clamped to a buffer. */
  function WithPosted(where: Cookie -> Where, p: Pmd, m: Cookie): Pmd
    requires RxRing.Shaped(p.rx)
  {
    p.(rx := RxRing.Apply(p.rx, TailPost(where(m).paddr, where(m).len, m)))
  }

  /** `sfc7120_rx_release`. */
  function Release(p: Pmd): Pmd
    requires RxRing.Shaped(p.rx)
  {
    p.(rx := RxRing.Apply(p.rx, HeadRelease))
  }

  predicate Postable(where: Cookie -> Where, m: Cookie) {
    m != NULL && where(m).paddr != 0 && 0 < where(m).len <= BUFFER_SIZE
  }

  /** The mempool's answers are possible. */
  predicate Answers(p: Pmd, a1: Alloc, a2: Alloc) {
    && (p.stash == [] ==> AllocOk(p.pool, a1))
    && (GetMbuf(p, a1).p.stash == [] ==> AllocOk(GetMbuf(p, a1).p.pool, a2))
  }

  /**
   How one receive event of `eth_capio_rx` leaves: the state after its allocations
   and frees, the mbuf it posts (NULL: it calls `sfc7120_rx_release`), and the mbuf
   it gives to the caller (NULL: none).
   */
  datatype Exit = Exit(p: Pmd, post: Cookie, give: Cookie)

  /** The branches of the loop body, for the cookie and frame length it peeked and the two allocations. */
  function Choose(copyMode: bool, cookie: Cookie, len: nat, g1: Got, g2: Got): Exit {
    if g1.m == NULL then Exit(g1.p, cookie, NULL)
    else if cookie == NULL || copyMode then
      if len == 0 then Exit(Freed(g1.p, g1.m), NULL, NULL)
      else if g2.m == NULL then Exit(Freed(g2.p, g1.m), NULL, NULL)
      else if copyMode then Exit(Freed(g2.p, g2.m), NULL, g1.m)
      else Exit(g2.p, g2.m, g1.m)
    else if len == 0 then Exit(Freed(g1.p, cookie), g1.m, NULL)
    else Exit(g1.p, g1.m, cookie)
  }

  function Decide(p: Pmd, len: nat, a1: Alloc, a2: Alloc): (x: Exit)
    requires RxRing.Shaped(p.rx) && Answers(p, a1, a2)
    ensures x.p.rx == p.rx && x.p.copyMode == p.copyMode
  {
    var g1 := GetMbuf(p, a1);
    Choose(p.copyMode, p.rx.cookie[p.rx.head], len, g1, GetMbuf(g1.p, a2))
  }

  function Leave(where: Cookie -> Where, x: Exit): Pmd
    requires RxRing.Shaped(x.p.rx)
  {
    var p := if x.post == NULL then Release(x.p) else WithPosted(where, x.p, x.post);
    if x.give == NULL then p else Give(p, x.give)
  }

  function Event(where: Cookie -> Where, p: Pmd, len: nat, a1: Alloc, a2: Alloc): Pmd
    requires RxRing.Shaped(p.rx) && Answers(p, a1, a2)
  {
    Leave(where, Decide(p, len, a1, a2))
  }

  // ----- where the mbufs are -----

  function One(b: bool): nat {
    if b then 1 else 0
  }

  /** How often `m` is posted. */
  function Posted(posts: seq<Post>, m: Cookie): nat {
    if posts == [] then 0 else One(posts[0].cookie == m) + Posted(posts[1..], m)
  }

  lemma {:induction false} PostedAppend(posts: seq<Post>, post: Post, m: Cookie)
    ensures Posted(posts + [post], m) == Posted(posts, m) + One(post.cookie == m)
  {
    if posts == [] {
      assert posts + [post] == [post];
    } else {
      assert (posts + [post])[1..] == posts[1..] + [post];
      PostedAppend(posts[1..], post, m);
    }
  }

  /** The buffers posted and not yet handed back. */
  function Window(s: RxRing.State): seq<Post>
    requires |s.delivered| <= |s.posted|
  {
    s.posted[|s.delivered|..]
  }

  /** In how many places `m` is: mempool, stash, ring window, caller. */
  function Places(p: Pmd, m: Cookie): nat
    requires |p.rx.delivered| <= |p.rx.posted|
  {
    Held(p, m) + Posted(Window(p.rx), m)
  }

  function Held(p: Pmd, m: Cookie): nat {
    p.pool[m] + multiset(p.stash)[m] + p.caller[m]
  }

  ghost predicate NoNull(p: Pmd) {
    p.pool[NULL] == 0 && NULL !in p.stash
  }

  /** Every mbuf of `all` is in exactly one place, and there are no others. */
  ghost predicate Conserved(p: Pmd, all: set<Cookie>) {
    && RxRing.Inv(p.rx) && NoNull(p)
    && forall m | m != NULL :: Places(p, m) == One(m in all)
  }

  lemma GetTakes(p: Pmd, a: Alloc, m: Cookie)
    requires NoNull(p) && (p.stash == [] ==> AllocOk(p.pool, a)) && m != NULL
    ensures NoNull(GetMbuf(p, a).p)
    ensures Held(p, m) == Held(GetMbuf(p, a).p, m) + One(GetMbuf(p, a).m == m)
    ensures GetMbuf(p, a).m == NULL <==> p.stash == [] && a == Exhausted
  {
    if p.stash != [] {
      StashTakes(p.stash, m);
    } else if a.Bulk? {
      BulkTakes(p.pool, a.ms, m);
    }
  }

  lemma StashTakes(stash: seq<Cookie>, m: Cookie)
    requires stash != [] && NULL !in stash
    ensures var k := |stash| - 1;
            && multiset(stash)[m] == multiset(stash[..k])[m] + One(stash[k] == m)
            && stash[k] != NULL && NULL !in stash[..k]
  {
    LastOut(stash, m);
  }

  lemma BulkTakes(pool: multiset<Cookie>, ms: seq<Cookie>, m: Cookie)
    requires |ms| == BULK && multiset(ms) <= pool && pool[NULL] == 0
    ensures var rest := ms[..BULK - 1];
            && pool[m] == (pool - multiset(ms))[m] + multiset(rest)[m] + One(ms[BULK - 1] == m)
            && (pool - multiset(ms))[NULL] == 0 && ms[BULK - 1] != NULL && NULL !in rest
  {
    assert multiset(ms)[NULL] == 0;
    assert NULL !in ms;
    LastOut(ms, m);
  }

  lemma LastOut(ms: seq<Cookie>, m: Cookie)
    requires ms != []
    ensures var k := |ms| - 1; multiset(ms)[m] == multiset(ms[..k])[m] + One(ms[k] == m) && ms[k] in multiset(ms)
  {
    assert ms == ms[..|ms| - 1] + [ms[|ms| - 1]];
  }

  /** The window after one more position: it loses its first buffer and gains the one posted. */
  lemma WindowShifts(s: RxRing.State, s': RxRing.State, post: Post, m: Cookie)
    requires RxRing.Inv(s) && s'.posted == s.posted + [post] && |s'.delivered| == |s.delivered| + 1
    ensures Posted(Window(s'), m) + One(s.cookie[s.head] == m) == Posted(Window(s), m) + One(post.cookie == m)
  {
    var c := |s.delivered|;
    assert Post(s.desc[At(s, c)], s.cookie[At(s, c)]) == s.posted[c];
    assert Window(s)[0] == s.posted[c];
    assert Window(s') == Window(s)[1..] + [post];
    PostedAppend(Window(s)[1..], post, m);
  }

  lemma PostMoves(where: Cookie -> Where, p: Pmd, x: Cookie, m: Cookie)
    requires RxRing.Inv(p.rx) && Postable(where, x)
    ensures |WithPosted(where, p, x).rx.delivered| <= |WithPosted(where, p, x).rx.posted|
    ensures Places(WithPosted(where, p, x), m) + One(p.rx.cookie[p.rx.head] == m) == Places(p, m) + One(x == m)
  {
    var p' := WithPosted(where, p, x);
    WindowShifts(p.rx, p'.rx, p'.rx.posted[|p.rx.posted|], m);
  }

  /** A head release puts whatever the tail slot still holds back into the window. */
  lemma ReleaseMoves(p: Pmd, m: Cookie)
    requires RxRing.Inv(p.rx) && p.rx.cookie[p.rx.head] == NULL && m != NULL
    ensures |Release(p).rx.delivered| <= |Release(p).rx.posted|
    ensures Places(Release(p), m) == Places(p, m) + One(p.rx.cookie[Tail(p.rx)] == m)
  {
    var p' := Release(p);
    WindowShifts(p.rx, p'.rx, p'.rx.posted[|p.rx.posted|], m);
  }

  /** A copy-mode ring never sees an mbuf. */
  ghost predicate CopyClean(p: Pmd) {
    p.copyMode ==> |p.rx.cookie| == p.rx.n && forall i | 0 <= i < p.rx.n :: p.rx.cookie[i] == NULL
  }

  ghost predicate Ready(where: Cookie -> Where, p: Pmd, all: set<Cookie>) {
    Conserved(p, all) && CopyClean(p) && NULL !in all && forall m | m in all :: Postable(where, m)
  }

  /** In hand between the allocations and the exit: what was received comes in, what is posted or given goes out. */
  lemma DecideMoves(p: Pmd, len: nat, a1: Alloc, a2: Alloc, m: Cookie)
    requires RxRing.Shaped(p.rx) && NoNull(p) && CopyClean(p) && Answers(p, a1, a2) && m != NULL
    ensures var x := Decide(p, len, a1, a2);
            && Held(x.p, m) + One(x.post == m) + One(x.give == m) == Held(p, m) + One(p.rx.cookie[p.rx.head] == m)
            && (x.post == NULL ==> p.rx.cookie[p.rx.head] == NULL)
            && NoNull(x.p)
  {
    var g1 := GetMbuf(p, a1);
    GetTakes(p, a1, m);
    GetTakes(g1.p, a2, m);
    ChooseMoves(p.copyMode, p.rx.cookie[p.rx.head], len, g1, GetMbuf(g1.p, a2), m);
  }

  lemma ChooseMoves(copyMode: bool, cookie: Cookie, len: nat, g1: Got, g2: Got, m: Cookie)
    requires Held(g1.p, m) == Held(g2.p, m) + One(g2.m == m) && NoNull(g1.p) && NoNull(g2.p) && m != NULL
    requires copyMode ==> cookie == NULL
    ensures var x := Choose(copyMode, cookie, len, g1, g2);
            && Held(x.p, m) + One(x.post == m) + One(x.give == m) == Held(g1.p, m) + One(g1.m == m) + One(cookie == m)
            && (x.post == NULL ==> cookie == NULL)
            && NoNull(x.p)
  {}

  lemma LeaveMoves(where: Cookie -> Where, x: Exit, m: Cookie)
    requires RxRing.Inv(x.p.rx) && m != NULL
    requires if x.post == NULL then x.p.rx.cookie[x.p.rx.head] == NULL else Postable(where, x.post)
    ensures var p' := Leave(where, x);
            && |p'.rx.delivered| <= |p'.rx.posted|
            && Places(p', m) + One(x.p.rx.cookie[x.p.rx.head] == m)
               == Places(x.p, m) + One(x.post == m) + One(x.give == m) + One(x.post == NULL && x.p.rx.cookie[Tail(x.p.rx)] == m)
  {
    if x.post == NULL { ReleaseMoves(x.p, m); } else { PostMoves(where, x.p, x.post, m); }
  }

  /** An mbuf that leaves a conserved state through an exit is one of ours. */
  lemma ExitIsOurs(p: Pmd, all: set<Cookie>, len: nat, a1: Alloc, a2: Alloc)
    requires Conserved(p, all) && CopyClean(p) && Answers(p, a1, a2)
    ensures var x := Decide(p, len, a1, a2); x.post != NULL ==> x.post in all
  {
    var x := Decide(p, len, a1, a2);
    if x.post != NULL {
      HeadIsOurs(p, all);
      DecideMoves(p, len, a1, a2, x.post);
    }
  }

  /** An event adds a place to an mbuf only by a head release onto a slot that still holds it. */
  lemma EventMoves(where: Cookie -> Where, p: Pmd, all: set<Cookie>, len: nat, a1: Alloc, a2: Alloc, m: Cookie)
    requires Ready(where, p, all) && Answers(p, a1, a2) && m != NULL
    ensures var p' := Event(where, p, len, a1, a2);
            && |p'.rx.delivered| <= |p'.rx.posted|
            && Places(p', m) == Places(p, m) + One(Decide(p, len, a1, a2).post == NULL && p.rx.cookie[Tail(p.rx)] == m)
  {
    var x := Decide(p, len, a1, a2);
    ExitIsOurs(p, all, len, a1, a2);
    DecideMoves(p, len, a1, a2, m);
    LeaveMoves(where, x, m);
  }

  /**
   One event keeps every mbuf in exactly one place if and only if it does not leave
   through a head release while the tail slot still holds an old mbuf.
   */
  lemma EventConserves(where: Cookie -> Where, p: Pmd, all: set<Cookie>, len: nat, a1: Alloc, a2: Alloc)
    requires Ready(where, p, all) && Answers(p, a1, a2) && |p.rx.delivered| < |p.rx.filled|
    ensures Conserved(Event(where, p, len, a1, a2), all) <==>
              (Decide(p, len, a1, a2).post == NULL ==> p.rx.cookie[Tail(p.rx)] == NULL)
  {
    var x, p' := Decide(p, len, a1, a2), Event(where, p, len, a1, a2);
    DecideMoves(p, len, a1, a2, 1);
    EventInv(where, x);
    var extra := if x.post == NULL then p.rx.cookie[Tail(p.rx)] else NULL;
    forall m: Cookie | m != NULL
      ensures Places(p', m) == One(m in all) + One(extra == m)
    {
      EventMoves(where, p, all, len, a1, a2, m);
      assert Places(p, m) == One(m in all);
    }
    ConservedIff(p', all, extra);
  }

  lemma ConservedIff(p: Pmd, all: set<Cookie>, extra: Cookie)
    requires RxRing.Inv(p.rx) && NoNull(p)
    requires forall m | m != NULL :: Places(p, m) == One(m in all) + One(extra == m)
    ensures Conserved(p, all) <==> extra == NULL
  {
    if extra != NULL {
      assert Places(p, extra) == One(extra in all) + 1;
    }
  }

  lemma EventInv(where: Cookie -> Where, x: Exit)
    requires RxRing.Inv(x.p.rx) && |x.p.rx.delivered| < |x.p.rx.filled| && NoNull(x.p)
    requires x.post == NULL ==> x.p.rx.cookie[x.p.rx.head] == NULL
    ensures RxRing.Inv(Leave(where, x).rx) && NoNull(Leave(where, x))
  {
    if x.post == NULL {
      RxRing.StepInv(x.p.rx, HeadRelease);
    } else {
      PostInv(x.p.rx, Post(Encode(where(x.post).paddr, where(x.post).len), x.post));
    }
  }

  lemma HeadIsOurs(p: Pmd, all: set<Cookie>)
    requires Conserved(p, all)
    ensures p.rx.cookie[p.rx.head] != NULL ==> p.rx.cookie[p.rx.head] in all
  {
    var s, c := p.rx, |p.rx.delivered|;
    assert Post(s.desc[At(s, c)], s.cookie[At(s, c)]) == s.posted[c] == Window(s)[0];
    assert s.cookie[s.head] != NULL ==> Places(p, s.cookie[s.head]) >= 1;
  }

  // ----- whole runs -----

  datatype Move = Nic(step: Step) | Receive(len: nat, a1: Alloc, a2: Alloc) | Doorbell | CallerFrees(m: Cookie)

  /**
   The NIC's own steps, a receive event for a frame that arrived, the doorbell after a burst, and the
   owner of a delivered mbuf giving it back to the mempool.
   */
  predicate Possible(p: Pmd, move: Move)
    requires RxRing.Shaped(p.rx)
  {
    match move
    case Nic(step) => (step.Prefetch? || step.Fill?) && RxRing.Enabled(p.rx, step)
    case Receive(_, a1, a2) => |p.rx.delivered| < |p.rx.filled| && Answers(p, a1, a2)
    case Doorbell => true
    case CallerFrees(m) => m in p.caller && m != NULL
  }

  function Next(where: Cookie -> Where, p: Pmd, move: Move): (p': Pmd)
    requires RxRing.Shaped(p.rx) && Possible(p, move)
    ensures RxRing.Shaped(p'.rx) && p'.copyMode == p.copyMode
  {
    match move
    case Nic(step) => p.(rx := RxRing.Apply(p.rx, step))
    case Receive(len, a1, a2) => Event(where, p, len, a1, a2)
    case Doorbell => p.(rx := RxRing.Apply(p.rx, Flush))
    case CallerFrees(m) => Returned(p, m)
  }

  /** The side condition of the head-release exits. */
  predicate ReleasesAreClean(p: Pmd, move: Move)
    requires RxRing.Shaped(p.rx) && Possible(p, move)
  {
    move.Receive? && Decide(p, move.len, move.a1, move.a2).post == NULL ==> p.rx.cookie[Tail(p.rx)] == NULL
  }

  lemma MoveKeepsReady(where: Cookie -> Where, p: Pmd, all: set<Cookie>, move: Move)
    requires Ready(where, p, all) && Possible(p, move) && ReleasesAreClean(p, move)
    ensures Ready(where, Next(where, p, move), all)
  {
    match move
    case Nic(step) =>
      RxRing.StepInv(p.rx, step);
      SameWindow(p, Next(where, p, move), all);
    case Receive(len, a1, a2) =>
      EventConserves(where, p, all, len, a1, a2);
      EventStaysClean(where, p, len, a1, a2);
    case Doorbell =>
      RxRing.StepInv(p.rx, Flush);
      SameWindow(p, Next(where, p, move), all);
    case CallerFrees(m) =>
      ReturnConserves(p, all, m);
  }

  lemma ReturnConserves(p: Pmd, all: set<Cookie>, m: Cookie)
    requires Conserved(p, all) && m in p.caller && m != NULL
    ensures Conserved(Returned(p, m), all)
  {
    assert forall x :: Held(Returned(p, m), x) == Held(p, x);
    assert forall x :: Places(Returned(p, m), x) == Places(p, x);
  }

  lemma SameWindow(p: Pmd, p': Pmd, all: set<Cookie>)
    requires Conserved(p, all) && RxRing.Inv(p'.rx)
    requires p' == p.(rx := p'.rx) && p'.rx.posted == p.rx.posted && p'.rx.delivered == p.rx.delivered
    ensures Conserved(p', all)
  {
    assert forall m :: Places(p', m) == Places(p, m);
  }

  lemma EventStaysClean(where: Cookie -> Where, p: Pmd, len: nat, a1: Alloc, a2: Alloc)
    requires RxRing.Shaped(p.rx) && CopyClean(p) && Answers(p, a1, a2)
    ensures CopyClean(Event(where, p, len, a1, a2))
  {}

  ghost predicate BurstRuns(where: Cookie -> Where, p: Pmd, moves: seq<Move>)
    requires RxRing.Shaped(p.rx)
    decreases |moves|
  {
    moves == [] || (Possible(p, moves[0]) && BurstRuns(where, Next(where, p, moves[0]), moves[1..]))
  }

  ghost predicate AllReleasesAreClean(where: Cookie -> Where, p: Pmd, moves: seq<Move>)
    requires RxRing.Shaped(p.rx) && BurstRuns(where, p, moves)
    decreases |moves|
  {
    moves == [] || (ReleasesAreClean(p, moves[0]) && AllReleasesAreClean(where, Next(where, p, moves[0]), moves[1..]))
  }

  ghost function BurstEnd(where: Cookie -> Where, p: Pmd, moves: seq<Move>): (p': Pmd)
    requires RxRing.Shaped(p.rx) && BurstRuns(where, p, moves)
    decreases |moves|
  {
    if moves == [] then p else BurstEnd(where, Next(where, p, moves[0]), moves[1..])
  }

  /** Every mbuf is in exactly one place before the run and after each of its moves. */
  ghost predicate ConservedThroughout(where: Cookie -> Where, p: Pmd, all: set<Cookie>, moves: seq<Move>)
    requires RxRing.Shaped(p.rx) && BurstRuns(where, p, moves)
    decreases |moves|
  {
    && Conserved(p, all)
    && (moves == [] || ConservedThroughout(where, Next(where, p, moves[0]), all, moves[1..]))
  }

  /** A run keeps every mbuf in exactly one place throughout if and only if no head release meets an old mbuf. */
  lemma {:induction false} RunConservesIff(where: Cookie -> Where, p: Pmd, all: set<Cookie>, moves: seq<Move>)
    requires Ready(where, p, all) && BurstRuns(where, p, moves)
    ensures ConservedThroughout(where, p, all, moves) <==> AllReleasesAreClean(where, p, moves)
    ensures AllReleasesAreClean(where, p, moves) ==> Ready(where, BurstEnd(where, p, moves), all)
    decreases |moves|
  {
    if moves != [] {
      var p' := Next(where, p, moves[0]);
      if ReleasesAreClean(p, moves[0]) {
        MoveKeepsReady(where, p, all, moves[0]);
        RunConservesIff(where, p', all, moves[1..]);
      } else {
        EventConserves(where, p, all, moves[0].len, moves[0].a1, moves[0].a2);
        assert !Conserved(p', all);
      }
    }
  }

  /** Steady state: every buffer of the window is an mbuf. */
  ghost predicate Steady(p: Pmd) {
    && !p.copyMode && |p.rx.delivered| <= |p.rx.posted|
    && forall i | 0 <= i < |Window(p.rx)| :: Window(p.rx)[i].cookie != NULL
  }

  lemma SteadyExit(p: Pmd, len: nat, a1: Alloc, a2: Alloc)
    requires RxRing.Inv(p.rx) && NoNull(p) && Steady(p) && Answers(p, a1, a2)
    ensures Decide(p, len, a1, a2).post != NULL
  {
    var s, c := p.rx, |p.rx.delivered|;
    assert Post(s.desc[At(s, c)], s.cookie[At(s, c)]) == s.posted[c] == Window(s)[0];
  }

  lemma SteadyLeave(where: Cookie -> Where, x: Exit)
    requires RxRing.Inv(x.p.rx) && Steady(x.p) && Postable(where, x.post)
    ensures Steady(Leave(where, x))
  {
    var s, s' := x.p.rx, Leave(where, x).rx;
    assert Window(s') == Window(s)[1..] + [s'.posted[|s.posted|]];
  }

  lemma SteadyMove(where: Cookie -> Where, p: Pmd, all: set<Cookie>, move: Move)
    requires Ready(where, p, all) && Steady(p) && Possible(p, move)
    ensures ReleasesAreClean(p, move) && Steady(Next(where, p, move))
  {
    if move.Receive? {
      SteadyExit(p, move.len, move.a1, move.a2);
      ExitIsOurs(p, all, move.len, move.a1, move.a2);
      SteadyLeave(where, Decide(p, move.len, move.a1, move.a2));
    } else {
      assert Window(Next(where, p, move).rx) == Window(p.rx);
    }
  }

  /**
   From the steady state on there is no side condition: over every run of bursts,
   allocation failures included, every mbuf is in exactly one place and exactly
   `window` mbufs are posted.
   */
  lemma {:induction false} SteadyRunConserves(where: Cookie -> Where, p: Pmd, all: set<Cookie>, moves: seq<Move>)
    requires Ready(where, p, all) && Steady(p) && BurstRuns(where, p, moves)
    ensures var p' := BurstEnd(where, p, moves);
            Ready(where, p', all) && Steady(p') && |Window(p'.rx)| == p'.rx.window
    decreases |moves|
  {
    if moves != [] {
      SteadyMove(where, p, all, moves[0]);
      MoveKeepsReady(where, p, all, moves[0]);
      SteadyRunConserves(where, Next(where, p, moves[0]), all, moves[1..]);
    }
  }

  /** In copy mode there is none either: the ring keeps its library buffers for ever. */
  lemma {:induction false} CopyRunConserves(where: Cookie -> Where, p: Pmd, all: set<Cookie>, moves: seq<Move>)
    requires Ready(where, p, all) && p.copyMode && BurstRuns(where, p, moves)
    ensures var p' := BurstEnd(where, p, moves);
            Ready(where, p', all) && p'.copyMode && p'.rx.cookie == p.rx.cookie
    decreases |moves|
  {
    if moves != [] {
      var p' := Next(where, p, moves[0]);
      assert ReleasesAreClean(p, moves[0]);
      MoveKeepsReady(where, p, all, moves[0]);
      assert p'.rx.cookie == p.rx.cookie;
      CopyRunConserves(where, p', all, moves[1..]);
    }
  }

  /** A run one move longer. */
  lemma {:induction false} RunExtends(where: Cookie -> Where, p: Pmd, moves: seq<Move>, move: Move)
    requires RxRing.Shaped(p.rx) && BurstRuns(where, p, moves)
    requires RxRing.Shaped(BurstEnd(where, p, moves).rx) && Possible(BurstEnd(where, p, moves), move)
    ensures BurstRuns(where, p, moves + [move])
    ensures BurstEnd(where, p, moves + [move]) == Next(where, BurstEnd(where, p, moves), move)
    decreases |moves|
  {
    if moves == [] {
      assert moves + [move] == [move];
      assert [move][1..] == [];
    } else {
      assert (moves + [move])[1..] == moves[1..] + [move];
      RunExtends(where, Next(where, p, moves[0]), moves[1..], move);
    }
  }

  /** `p` is where the run `moves` from `p0` leads. */
  ghost predicate Reaches(where: Cookie -> Where, p0: Pmd, moves: seq<Move>, p: Pmd) {
    RxRing.Shaped(p0.rx) && BurstRuns(where, p0, moves) && p == BurstEnd(where, p0, moves)
  }

  lemma ReachesNext(where: Cookie -> Where, p0: Pmd, moves: seq<Move>, p: Pmd, move: Move)
    requires Reaches(where, p0, moves, p) && RxRing.Shaped(p.rx) && Possible(p, move)
    ensures Reaches(where, p0, moves + [move], Next(where, p, move))
  {
    RunExtends(where, p0, moves, move);
  }

  /** What an exit can be: a head release for a library slot, a post outside copy mode. */
  lemma ExitFits(p: Pmd, len: nat, a1: Alloc, a2: Alloc)
    requires RxRing.Shaped(p.rx) && CopyClean(p) && Answers(p, a1, a2)
    ensures var x := Decide(p, len, a1, a2);
            (x.post == NULL ==> p.rx.cookie[p.rx.head] == NULL) && (x.post != NULL ==> !p.copyMode)
  {}

  // ----- the driver's side, in place -----

  function Frames(evs: seq<EventQueue.Event>): nat {
    if evs == [] then 0 else Frames(evs[..|evs| - 1]) + One(evs[|evs| - 1].kind.RxEvent?)
  }

  lemma {:induction false} FramesMonotone(evs: seq<EventQueue.Event>, i: nat)
    requires i < |evs|
    ensures Frames(evs[..i]) + One(evs[i].kind.RxEvent?) == Frames(evs[..i + 1]) <= Frames(evs)
    decreases |evs|
  {
    assert evs[..i + 1][..i] == evs[..i];
    if i + 1 < |evs| {
      FramesMonotone(evs[..|evs| - 1], i);
      assert evs[..|evs| - 1][..i + 1] == evs[..i + 1];
    } else {
      assert evs[..i + 1] == evs;
    }
  }

  /** The driver's stash of spare mbufs; the mempool behind it is the environment. */
  class MbufCache {
    const stash: array<Cookie>
    var nstash: nat
    var pool: multiset<Cookie>

    ghost predicate Valid()
      reads this, stash
    {
      stash.Length == BULK && nstash <= BULK && pool[NULL] == 0 && NULL !in stash[..nstash]
    }

    constructor (pool: multiset<Cookie>)
      requires pool[NULL] == 0
      ensures Valid() && fresh(stash) && this.pool == pool && nstash == 0
    {
      stash := new Cookie[BULK](_ => NULL);
      nstash, this.pool := 0, pool;
    }

    /** `rte_pktmbuf_alloc_bulk` into the stash: all 64 or none. */
    method AllocBulk() returns (ok: bool, ghost ms: seq<Cookie>)
      requires Valid() && nstash == 0
      modifies this, stash
      ensures Valid()
      ensures ok ==> AllocOk(old(pool), Bulk(ms)) && nstash == BULK && stash[..] == ms && pool == old(pool) - multiset(ms)
      ensures !ok ==> nstash == 0 && pool == old(pool)
    {
      var got: seq<Cookie> := *;
      ms, ok := got, |got| == BULK && multiset(got) <= pool;
      if ok {
        forall i | 0 <= i < BULK { stash[i] := got[i]; }
        assert stash[..] == got;
        assert multiset(got)[NULL] == 0;
        pool, nstash := pool - multiset(got), BULK;
      }
    }

    /** `rte_pktmbuf_alloc`. */
    method AllocOne() returns (m: Cookie)
      requires Valid()
      modifies this`pool
      ensures Valid() && (if m == NULL then pool == old(pool) else m in old(pool) && pool == old(pool) - multiset{m})
    {
      m := *;
      if m in pool { pool := pool - multiset{m}; } else { m := NULL; }
    }

    /** `capio_mbuf_get`: from the stash, else a bulk of 64 from the mempool, else a single mbuf, else none. */
    method Get(ghost p: Pmd) returns (m: Cookie, ghost a: Alloc)
      requires Valid() && p.pool == pool && p.stash == stash[..nstash]
      modifies this, stash
      ensures Valid() && (old(nstash) == 0 ==> AllocOk(old(pool), a))
      ensures Got(p.(pool := pool, stash := stash[..nstash]), m) == GetMbuf(p, a)
    {
      if nstash == 0 {
        m, a := Refill(p);
      } else {
        a := Exhausted;
        m := Pop();
      }
    }

    /** The stash is empty: a bulk or, failing that, a single mbuf. */
    method Refill(ghost p: Pmd) returns (m: Cookie, ghost a: Alloc)
      requires Valid() && nstash == 0 && p.pool == pool && p.stash == []
      modifies this, stash
      ensures Valid() && AllocOk(old(pool), a)
      ensures Got(p.(pool := pool, stash := stash[..nstash]), m) == GetMbuf(p, a)
    {
      var ok, ms := AllocBulk();
      if ok {
        a := Bulk(ms);
        m := Pop();
      } else {
        m := AllocOne();
        a := if m == NULL then Exhausted else Single(m);
      }
    }

    method Pop() returns (m: Cookie)
      requires Valid() && 0 < nstash
      modifies this`nstash
      ensures Valid() && nstash == old(nstash) - 1 && m == stash[nstash] && stash[..nstash] == stash[..old(nstash)][..nstash]
    {
      nstash := nstash - 1;
      m := stash[nstash];
    }

    method Free(m: Cookie)
      requires Valid() && m != NULL
      modifies this`pool
      ensures Valid() && pool == old(pool) + multiset{m}
    {
      pool := pool + multiset{m};
    }

    /** The allocations and frees of one receive event, up to the ring operation it leaves through. */
    method Allocate(copyMode: bool, cookie: Cookie, len: nat, ghost p: Pmd)
      returns (post: Cookie, give: Cookie, ghost a1: Alloc, ghost a2: Alloc)
      requires Valid() && p.pool == pool && p.stash == stash[..nstash]
      modifies this, stash
      ensures Valid() && Answers(p, a1, a2)
      ensures var g1 := GetMbuf(p, a1);
              Exit(p.(pool := pool, stash := stash[..nstash]), post, give) == Choose(copyMode, cookie, len, g1, GetMbuf(g1.p, a2))
    {
      var repl;
      repl, a1 := Get(p);
      a2 := Exhausted;
      if repl == NULL {
        post, give := cookie, NULL;
      } else if cookie == NULL || copyMode {
        post, give, a2 := AllocateCopy(copyMode, len, repl, p.(pool := pool, stash := stash[..nstash]));
      } else if len == 0 {
        Free(cookie);
        post, give := repl, NULL;
      } else {
        post, give := repl, cookie;
      }
    }

    /** The branch for a library buffer, which is copied into `m`. */
    method AllocateCopy(copyMode: bool, len: nat, m: Cookie, ghost p: Pmd)
      returns (post: Cookie, give: Cookie, ghost a2: Alloc)
      requires Valid() && p.pool == pool && p.stash == stash[..nstash] && m != NULL
      modifies this, stash
      ensures Valid() && (p.stash == [] ==> AllocOk(p.pool, a2))
      ensures Exit(p.(pool := pool, stash := stash[..nstash]), post, give) == Choose(copyMode, NULL, len, Got(p, m), GetMbuf(p, a2))
    {
      post, give, a2 := NULL, NULL, Exhausted;
      if len == 0 {
        Free(m);
        return;
      }
      var spare;
      spare, a2 := Get(p);
      if spare == NULL {
        Free(m);
      } else if copyMode {
        Free(spare);
        give := m;
      } else {
        post, give := spare, m;
      }
    }
  }

  /** The receive queue of the driver. */
  class RxQueue {
    const where: Cookie -> Where
    const copyMode: bool
    const ring: RxHandle
    const cache: MbufCache
    ghost var caller: multiset<Cookie>

    ghost function Abs(): Pmd
      requires cache.nstash <= cache.stash.Length
      reads this, cache, cache.stash, ring, ring.desc, ring.cookie
    {
      Pmd(ring.Abs(), copyMode, cache.pool, cache.stash[..cache.nstash], caller)
    }

    ghost predicate Valid()
      reads this, cache, cache.stash, ring, ring.desc, ring.cookie
    {
      && ring.Valid() && cache.Valid() && cache.stash != ring.cookie
      && CopyClean(Abs())
    }

    constructor (where: Cookie -> Where, copyMode: bool, ring: RxHandle, pool: multiset<Cookie>)
      requires ring.Valid() && pool[NULL] == 0
      requires forall i | 0 <= i < ring.cookie.Length :: ring.cookie[i] == NULL
      ensures Valid() && this.ring == ring && fresh(cache) && fresh(cache.stash)
      ensures Abs() == Pmd(ring.Abs(), copyMode, pool, [], multiset{})
    {
      this.where, this.copyMode, this.ring, caller := where, copyMode, ring, multiset{};
      cache := new MbufCache(pool);
    }

    /** The owner of a delivered mbuf frees it. */
    method CallerFree(m: Cookie)
      requires Valid() && m in caller && m != NULL
      modifies this`caller, cache`pool
      ensures Valid() && Abs() == Next(where, old(Abs()), CallerFrees(m))
    {
      cache.Free(m);
      caller := caller - multiset{m};
    }

    /** The exit of one receive event; a refused post is ignored, as in the source. */
    method Depart(post: Cookie, give: Cookie)
      requires Valid() && |ring.delivered| < |ring.filled|
      requires post == NULL ==> ring.cookie[ring.head] == NULL
      requires post != NULL ==> !copyMode
      modifies this`caller, ring`head, ring`posted, ring`delivered, ring`covered, ring.desc, ring.cookie
      ensures Valid() && Abs() == Leave(where, Exit(old(Abs()), post, give))
      ensures caller == old(caller) + (if give == NULL then multiset{} else multiset{give})
      ensures |ring.delivered| <= |old(ring.delivered)| + 1
    {
      HandBack(post);
      if give != NULL {
        caller := caller + multiset{give};
      }
    }

    /** The descriptor handed back: a fresh mbuf posted, or the slot's own buffer released. */
    method HandBack(post: Cookie)
      requires Valid() && |ring.delivered| < |ring.filled|
      requires post == NULL ==> ring.cookie[ring.head] == NULL
      requires post != NULL ==> !copyMode
      modifies ring`head, ring`posted, ring`delivered, ring`covered, ring.desc, ring.cookie
      ensures Valid() && Abs() == Leave(where, Exit(old(Abs()), post, NULL))
      ensures |ring.delivered| <= |old(ring.delivered)| + 1
    {
      if post == NULL {
        ring.Release();
      } else {
        var rc := ring.ReleasePaddrNodbl(where(post).paddr, where(post).len, post);
      }
    }

    /** Peek and allocation of one receive event. */
    method Prepare(rxBytes: nat) returns (post: Cookie, give: Cookie, ghost len: nat, ghost a1: Alloc, ghost a2: Alloc)
      requires Valid()
      modifies cache, cache.stash
      ensures Valid() && Answers(old(Abs()), a1, a2)
      ensures Exit(Abs(), post, give) == Decide(old(Abs()), len, a1, a2)
      ensures (post == NULL ==> ring.cookie[ring.head] == NULL) && (post != NULL ==> !copyMode)
    {
      ghost var p0 := Abs();
      var prefix: nat := *;
      var cookie, l := ring.PeekExt(prefix, rxBytes);
      len := l;
      post, give, a1, a2 := cache.Allocate(copyMode, cookie, l, p0);
      ExitFits(p0, len, a1, a2);
    }

    /** The body of the receive loop for one receive event. */
    method ReceiveOne(rxBytes: nat) returns (given: Cookie, ghost move: Move)
      requires Valid() && |ring.delivered| < |ring.filled|
      modifies this, cache, cache.stash, ring, ring.desc, ring.cookie
      ensures Valid() && move.Receive? && Possible(old(Abs()), move)
      ensures Abs() == Next(where, old(Abs()), move)
      ensures caller == old(caller) + (if given == NULL then multiset{} else multiset{given})
      ensures ring.filled == old(ring.filled) && |ring.delivered| <= |old(ring.delivered)| + 1
    {
      var post, give, len, a1, a2 := Prepare(rxBytes);
      move := Receive(len, a1, a2);
      Depart(post, give);
      given := give;
    }

    /** One receive event more in a run from `p0`. */
    method ReceiveNext(rxBytes: nat, ghost p0: Pmd, ghost moves: seq<Move>) returns (given: Cookie, ghost moves': seq<Move>)
      requires Valid() && |ring.delivered| < |ring.filled| && Reaches(where, p0, moves, Abs())
      modifies this, cache, cache.stash, ring, ring.desc, ring.cookie
      ensures Valid() && Reaches(where, p0, moves', Abs())
      ensures caller == old(caller) + (if given == NULL then multiset{} else multiset{given})
      ensures ring.filled == old(ring.filled) && |ring.delivered| <= |old(ring.delivered)| + 1
    {
      ghost var before, move := Abs(), Doorbell;
      given, move := ReceiveOne(rxBytes);
      ReachesNext(where, p0, moves, before, move);
      moves' := moves + [move];
    }

    /** The loop of `eth_capio_rx` over the receive events. */
    method ReceiveAll(evs: seq<EventQueue.Event>) returns (bufs: seq<Cookie>, ghost moves: seq<Move>)
      requires Valid() && Frames(evs) <= |ring.filled| - |ring.delivered|
      modifies this, cache, cache.stash, ring, ring.desc, ring.cookie
      ensures Valid() && |bufs| <= |evs|
      ensures Reaches(where, old(Abs()), moves, Abs())
      ensures caller == old(caller) + multiset(bufs)
    {
      bufs, moves := [], [];
      ghost var p0 := Abs();
      for i := 0 to |evs|
        invariant Valid() && |bufs| <= i && ring.filled == old(ring.filled)
        invariant |ring.delivered| <= |old(ring.delivered)| + Frames(evs[..i])
        invariant Reaches(where, p0, moves, Abs())
        invariant caller == old(caller) + multiset(bufs)
      {
        FramesMonotone(evs, i);
        if evs[i].kind.RxEvent? {
          var given;
          given, moves := ReceiveNext(evs[i].rxBytes, p0, moves);
          bufs := if given == NULL then bufs else bufs + [given];
        }
      }
    }

    /**
     The receive side of `eth_capio_rx` after its poll: one pass over the events,
     then one doorbell. Whatever the mempool answers, the burst is a run of the
     model, and `bufs` holds exactly the mbufs that went to the caller.
     */
    method Burst(evs: seq<EventQueue.Event>) returns (bufs: seq<Cookie>, ghost moves: seq<Move>)
      requires Valid() && Frames(evs) <= |ring.filled| - |ring.delivered|
      modifies this, cache, cache.stash, ring, ring.desc, ring.cookie
      ensures Valid() && |bufs| <= |evs|
      ensures Reaches(where, old(Abs()), moves, Abs())
      ensures caller == old(caller) + multiset(bufs)
      ensures evs != [] ==> ring.covered == |ring.delivered| + ring.window
    {
      bufs, moves := ReceiveAll(evs);
      if |evs| > 0 {
        ReachesNext(where, old(Abs()), moves, Abs(), Doorbell);
        moves := moves + [Doorbell];
        ring.Flush();
      }
    }
  }
}
