/**
 A run of the receive path that starts from a freshly primed ring and ends with one mbuf
 in two places: a head release taken while the slot past the window still holds the cookie
 of an mbuf that the caller already owns.
 */
module RxStale {
  import opened Ring
  import opened RxRing
  import opened RxBurst

  /** A three-slot ring with two slots posted, and three mbufs. */
  const ALL: set<Cookie> := {1, 2, 3}

  ghost predicate At3(where: Cookie -> Where, p: Pmd, cookie: seq<Cookie>, given: nat, filled: nat, covered: nat,
                      pool: multiset<Cookie>)
  {
    && Ready(where, p, ALL) && !p.copyMode && p.stash == [] && p.pool == pool
    && p.rx.n == 3 && p.rx.window == 2 && p.rx.base == 0 && p.rx.cookie == cookie
    && |p.rx.delivered| == given && |p.rx.filled| == filled && p.rx.covered == covered
  }

  /** Head and tail after a few positions. */
  lemma Slots(s: RxRing.State)
    requires RxRing.Inv(s) && s.n == 3 && s.window == 2 && s.base == 0 && |s.delivered| < 4
    ensures s.head == if |s.delivered| == 3 then 0 else |s.delivered|
    ensures Tail(s) == if s.head == 0 then 2 else s.head - 1
  {
    Unfold(|s.delivered|, 3);
    Unfold(0, 3);
    Unfold(s.head + 2, 3);
    if s.head > 0 {
      Unfold(s.head - 1, 3);
    }
  }

  lemma Begin(where: Cookie -> Where, rxPaddr: nat) returns (p: Pmd)
    requires forall m | m in ALL :: Postable(where, m)
    ensures p.rx == LibraryStart(3, 2, 0, rxPaddr)
    ensures At3(where, p, [NULL, NULL, NULL], 0, 0, 2, multiset{1, 2, 3})
  {
    p := Pmd(LibraryStart(3, 2, 0, rxPaddr), false, multiset{1, 2, 3}, [], multiset{});
    LibraryStartInv(where, 3, 2, 0, rxPaddr);
    var w := Window(p.rx);
    assert |w| == 2 && w[0].cookie == NULL && w[1].cookie == NULL;
    forall m: Cookie | m != NULL ensures Places(p, m) == One(m in ALL) {
      PostedPair(w, m);
    }
  }

  lemma PostedPair(w: seq<Post>, m: Cookie)
    requires |w| == 2
    ensures Posted(w, m) == One(w[0].cookie == m) + One(w[1].cookie == m)
  {
    var rest := w[1..];
    assert rest[1..] == [];
    assert Posted(rest, m) == One(rest[0].cookie == m) + Posted(rest[1..], m);
  }

  lemma Fills(where: Cookie -> Where, p0: Pmd, moves: seq<Move>, p: Pmd, cookie: seq<Cookie>, given: nat, filled: nat,
              covered: nat, pool: multiset<Cookie>) returns (p': Pmd, moves': seq<Move>)
    requires At3(where, p, cookie, given, filled, covered, pool) && filled < covered && Reaches(where, p0, moves, p)
    ensures At3(where, p', cookie, given, filled + 1, covered, pool) && Reaches(where, p0, moves', p')
  {
    p', moves' := Next(where, p, Nic(Fill)), moves + [Nic(Fill)];
    MoveKeepsReady(where, p, ALL, Nic(Fill));
    ReachesNext(where, p0, moves, p, Nic(Fill));
  }

  /** An event that posts mbuf `m`. */
  lemma Posts(where: Cookie -> Where, p0: Pmd, moves: seq<Move>, p: Pmd, cookie: seq<Cookie>, given: nat, filled: nat,
              covered: nat, pool: multiset<Cookie>, a1: Alloc, a2: Alloc, m: Cookie, pool': multiset<Cookie>)
    returns (p': Pmd, moves': seq<Move>)
    requires At3(where, p, cookie, given, filled, covered, pool) && given < filled && m in ALL && Reaches(where, p0, moves, p)
    requires Answers(p, a1, a2)
    requires var x := Decide(p, 100, a1, a2); x.post == m && x.p.stash == [] && x.p.pool == pool'
    ensures At3(where, p', cookie[Tail(p.rx) := m], given + 1, filled, covered, pool') && Reaches(where, p0, moves', p')
  {
    var move := Receive(100, a1, a2);
    p', moves' := Next(where, p, move), moves + [move];
    MoveKeepsReady(where, p, ALL, move);
    ReachesNext(where, p0, moves, p, move);
    PostedFields(where, Decide(p, 100, a1, a2));
  }

  lemma PostedFields(where: Cookie -> Where, x: Exit)
    requires RxRing.Shaped(x.p.rx) && Postable(where, x.post)
    ensures var s, p' := x.p.rx, Leave(where, x);
            && p'.stash == x.p.stash && p'.pool == x.p.pool
            && p'.rx.base == s.base && p'.rx.filled == s.filled && p'.rx.covered == s.covered
            && p'.rx.cookie == s.cookie[Tail(s) := x.post] && |p'.rx.delivered| == |s.delivered| + 1
  {}

  /** An event that finds the mempool empty at a library slot. */
  lemma Releases(where: Cookie -> Where, p0: Pmd, moves: seq<Move>, p: Pmd, cookie: seq<Cookie>, given: nat, filled: nat,
                 covered: nat, pool: multiset<Cookie>) returns (p': Pmd, moves': seq<Move>)
    requires At3(where, p, cookie, given, filled, covered, pool) && given < filled && Reaches(where, p0, moves, p)
    requires cookie[p.rx.head] == NULL && cookie[Tail(p.rx)] == NULL
    ensures At3(where, p', cookie, given + 1, filled, given + 3, pool) && Reaches(where, p0, moves', p')
  {
    var move := Receive(100, Exhausted, Exhausted);
    p', moves' := Next(where, p, move), moves + [move];
    MoveKeepsReady(where, p, ALL, move);
    ReachesNext(where, p0, moves, p, move);
    var s1 := Repost(p.rx);
    RepostInv(p.rx, Identity(p.rx.rxPaddr, p.rx.head));
    FlushIsExact(s1);
  }

  /** Two frames arrive; the first is answered with mbufs 2 and 1, and mbuf 1 is posted past the window. */
  lemma FirstPost(where: Cookie -> Where, p: Pmd) returns (p': Pmd, moves: seq<Move>)
    requires At3(where, p, [NULL, NULL, NULL], 0, 0, 2, multiset{1, 2, 3})
    ensures At3(where, p', [NULL, NULL, 1], 1, 2, 2, multiset{3}) && Reaches(where, p, moves, p')
  {
    p', moves := Fills(where, p, [], p, [NULL, NULL, NULL], 0, 0, 2, multiset{1, 2, 3});
    p', moves := Fills(where, p, moves, p', [NULL, NULL, NULL], 0, 1, 2, multiset{1, 2, 3});
    Slots(p'.rx);
    Decides(p', Single(2), Single(1), 1, multiset{3});
    p', moves := Posts(where, p, moves, p', [NULL, NULL, NULL], 0, 2, 2, multiset{1, 2, 3}, Single(2), Single(1), 1, multiset{3});
  }

  /** Two single allocations at a library slot: the first goes to the caller, the second is posted. */
  lemma Decides(p: Pmd, a1: Alloc, a2: Alloc, m: Cookie, pool: multiset<Cookie>)
    requires RxRing.Shaped(p.rx) && !p.copyMode && p.stash == [] && p.rx.cookie[p.rx.head] == NULL
    requires a1.Single? && a2 == Single(m) && m != NULL && a1.m != NULL && a1.m != m
    requires p.pool == pool + multiset{a1.m} + multiset{m}
    ensures Answers(p, a1, a2)
    ensures var x := Decide(p, 100, a1, a2); x.post == m && x.p.stash == [] && x.p.pool == pool
  {}

  /** The mempool is empty: the second frame is given up and its library buffer released. */
  lemma ThenRelease(where: Cookie -> Where, p0: Pmd, moves: seq<Move>, p: Pmd) returns (p': Pmd, moves': seq<Move>)
    requires At3(where, p, [NULL, NULL, 1], 1, 2, 2, multiset{3}) && Reaches(where, p0, moves, p)
    ensures At3(where, p', [NULL, NULL, 1], 2, 3, 4, multiset{3}) && Reaches(where, p0, moves', p')
  {
    Slots(p.rx);
    p', moves' := Releases(where, p0, moves, p, [NULL, NULL, 1], 1, 2, 2, multiset{3});
    p', moves' := Fills(where, p0, moves', p', [NULL, NULL, 1], 2, 2, 4, multiset{3});
  }

  /** Mbuf 1 is received and given to the caller, and mbuf 3 posted for it; the cookie of slot 2 still says 1. */
  lemma SecondPost(where: Cookie -> Where, p0: Pmd, moves: seq<Move>, p: Pmd) returns (p': Pmd, moves': seq<Move>)
    requires At3(where, p, [NULL, NULL, 1], 2, 3, 4, multiset{3}) && Reaches(where, p0, moves, p)
    ensures At3(where, p', [NULL, 3, 1], 3, 4, 4, multiset{}) && Reaches(where, p0, moves', p')
  {
    Slots(p.rx);
    p', moves' := Posts(where, p0, moves, p, [NULL, NULL, 1], 2, 3, 4, multiset{3}, Single(3), Exhausted, 3, multiset{});
    p', moves' := Fills(where, p0, moves', p', [NULL, 3, 1], 3, 3, 4, multiset{});
  }

  /**
   Allocation fails twice while some slots still hold library buffers, and mbuf 1 ends up both given and posted:
   every mbuf is in one place before the last event of the run, and after it mbuf 1 is in two.
   */
  lemma StaleMbufIsPosted(where: Cookie -> Where, rxPaddr: nat)
    returns (p: Pmd, moves: seq<Move>, before: Pmd, last: Move, after: Pmd)
    requires forall m | m in ALL :: Postable(where, m)
    ensures p.rx == LibraryStart(3, 2, 0, rxPaddr) && Ready(where, p, ALL)
    ensures Reaches(where, p, moves, before) && Ready(where, before, ALL)
    ensures Reaches(where, p, moves + [last], after)
    ensures |after.rx.delivered| <= |after.rx.posted| && Places(after, 1) == 2
  {
    p := Begin(where, rxPaddr);
    before, moves := FirstPost(where, p);
    before, moves := ThenRelease(where, p, moves, before);
    before, moves := SecondPost(where, p, moves, before);
    last := Receive(100, Exhausted, Exhausted);
    after := LastRelease(where, before);
    ReachesNext(where, p, moves, before, last);
  }

  lemma LastRelease(where: Cookie -> Where, p: Pmd) returns (p': Pmd)
    requires At3(where, p, [NULL, 3, 1], 3, 4, 4, multiset{})
    ensures var move := Receive(100, Exhausted, Exhausted); Possible(p, move) && p' == Next(where, p, move)
    ensures |p'.rx.delivered| <= |p'.rx.posted| && Places(p', 1) == 2
  {
    Slots(p.rx);
    p' := Next(where, p, Receive(100, Exhausted, Exhausted));
    EventMoves(where, p, ALL, 100, Exhausted, Exhausted, 1);
    assert Places(p, 1) == One(1 in ALL);
  }
}
