/**
 The receive ring of the user library. The driver owns `desc` and `cookie`; the NIC
 owns descriptors from the moment a doorbell covers them, and may fetch any of them
 at any time from then on. Positions count descriptors from the start of the
 session, in which position 0 is at slot `base`.
 */
module RxRing {
  import opened Descriptor
  import opened Ring

  type Cookie = nat

  const NULL: Cookie := 0
  const BUFFER_SIZE: nat := 2048

  /** The descriptor of the library's own buffer for slot `i`. */
  function Identity(rxPaddr: nat, i: nat): Word {
    Encode(rxPaddr + i * BUFFER_SIZE, BUFFER_SIZE)
  }

  datatype Post = Post(desc: Word, cookie: Cookie)

  /**
   `posted` is the history of buffers, one per position; `covered` is how many
   positions the NIC takes the last doorbell to cover; `cache` holds prefetched
   descriptors; `filled` the descriptor used for each frame; and `delivered` the
   cookie handed out for each receive event.
   */
  datatype State = State(
    n: nat, window: nat, base: nat, rxPaddr: nat,
    desc: seq<Word>, cookie: seq<Cookie>, head: nat,
    posted: seq<Post>, delivered: seq<Cookie>,
    covered: nat, cache: map<nat, Word>, filled: seq<Word>)

  predicate Shaped(s: State) {
    && 1 <= s.window < s.n && s.base < s.n && s.head < s.n
    && |s.desc| == |s.cookie| == s.n
  }

  function At(s: State, p: nat): (i: nat)
    requires Shaped(s)
    ensures i < s.n
  {
    Slot(s.base + p, s.n)
  }

  function Tail(s: State): (i: nat)
    requires Shaped(s)
    ensures i < s.n
  {
    Slot(s.head + s.window, s.n)
  }

  /** A session that starts with the first `window` positions covered. */
  function Start(n: nat, window: nat, base: nat, rxPaddr: nat, desc: seq<Word>, cookie: seq<Cookie>): (s: State)
    requires 1 <= window < n && base < n && |desc| == |cookie| == n
    ensures Shaped(s)
  {
    var initial := seq(window, i requires 0 <= i < window => Post(desc[Slot(base + i, n)], cookie[Slot(base + i, n)]));
    State(n, window, base, rxPaddr, desc, cookie, base, initial, [], window, map[], [])
  }

  predicate Accepted(paddr: nat, len: nat) {
    paddr != 0 && len != 0 && len <= 0x3fff
  }

  datatype Step =
    | Prefetch(p: nat)
    | Fill
    | TailPost(paddr: nat, len: nat, cookie: Cookie)
    | HeadRelease
    | Flush

  /** The driver releases a slot only for a frame that arrived. */
  predicate Enabled(s: State, step: Step)
    requires Shaped(s)
  {
    match step
    case Prefetch(p) => |s.filled| <= p < s.covered
    case Fill => |s.filled| < s.covered
    case TailPost(_, _, _) => |s.delivered| < |s.filled|
    case HeadRelease => |s.delivered| < |s.filled|
    case Flush => true
  }

  /** What the NIC makes of a doorbell value: the next count of positions that ends at this slot. */
  function Covers(s: State, value: nat): nat
    requires Shaped(s) && value < s.n
  {
    PositionOf(value, s.base + s.covered, s.n) - s.base
  }

  /** `sfc7120_rx_release_paddr_nodbl`, for arguments that it accepts. */
  function PostAtTail(s: State, post: Post): (s': State)
    requires Shaped(s)
    ensures Shaped(s') && s'.n == s.n && s'.window == s.window && s'.base == s.base && s'.rxPaddr == s.rxPaddr
  {
    s.(desc := s.desc[Tail(s) := post.desc],
       cookie := s.cookie[Tail(s) := post.cookie],
       head := Slot(s.head + 1, s.n),
       posted := s.posted + [post],
       delivered := s.delivered + [s.cookie[s.head]])
  }

  /**
   `sfc7120_rx_release` up to its doorbell: the head slot gets its library
   descriptor back, and the window moves on to whatever the tail slot holds.
   */
  function Repost(s: State): (s': State)
    requires Shaped(s)
    ensures Shaped(s') && s'.n == s.n && s'.window == s.window && s'.base == s.base && s'.rxPaddr == s.rxPaddr
  {
    RepostWord(s, Identity(s.rxPaddr, s.head))
  }

  function RepostWord(s: State, word: Word): (s': State)
    requires Shaped(s)
    ensures Shaped(s') && s'.n == s.n && s'.window == s.window && s'.base == s.base && s'.rxPaddr == s.rxPaddr
  {
    var desc := s.desc[s.head := word];
    s.(desc := desc,
       head := Slot(s.head + 1, s.n),
       posted := s.posted + [Post(desc[Tail(s)], s.cookie[Tail(s)])],
       delivered := s.delivered + [s.cookie[s.head]])
  }

  function Apply(s: State, step: Step): (s': State)
    requires Shaped(s)
    ensures Shaped(s') && s'.n == s.n && s'.window == s.window && s'.base == s.base && s'.rxPaddr == s.rxPaddr
  {
    match step
    case Prefetch(p) => s.(cache := s.cache[p := s.desc[At(s, p)]])
    case Fill =>
      var p := |s.filled|;
      s.(filled := s.filled + [if p in s.cache then s.cache[p] else s.desc[At(s, p)]])
    case TailPost(paddr, len, cookie) =>
      if !Accepted(paddr, len) then s else PostAtTail(s, Post(Encode(paddr, len), cookie))
    case HeadRelease =>
      var s1 := Repost(s);
      s1.(covered := Covers(s1, Tail(s1)))
    case Flush => s.(covered := Covers(s, Tail(s)))
  }

  ghost predicate Inv(s: State) {
    var c := |s.delivered|;
    && Shaped(s)
    && s.head == At(s, c)
    && |s.posted| == c + s.window
    && c <= |s.filled| <= s.covered <= c + s.window
    && (forall p | c <= p < c + s.window :: Post(s.desc[At(s, p)], s.cookie[At(s, p)]) == s.posted[p])
    && (forall p | p in s.cache :: p < s.covered && s.cache[p] == s.posted[p].desc)
    && (forall k | 0 <= k < |s.filled| :: s.filled[k] == s.posted[k].desc)
    && (forall k | 0 <= k < c :: s.delivered[k] == s.posted[k].cookie)
  }

  /** The tail slot is the slot of the first position past the window. */
  lemma TailIsNext(s: State)
    requires Inv(s)
    ensures Tail(s) == At(s, |s.delivered| + s.window)
    ensures Slot(s.head + 1, s.n) == At(s, |s.delivered| + 1)
  {
    SlotAdd(s.base + |s.delivered|, s.window, s.n);
    SlotAdd(s.base + |s.delivered|, 1, s.n);
  }

  /**
   A tail post writes no slot that the doorbell covers and the driver has not
   consumed. For a window that fills the whole ring the two would meet.
   */
  lemma TailPostMissesTheWindow(s: State, p: nat)
    requires Inv(s) && |s.delivered| <= p < s.covered
    ensures Tail(s) != At(s, p)
  {
    TailIsNext(s);
    SlotDistinct(s.base + p, s.base + |s.delivered| + s.window, s.n);
  }

  /** The bound on the window is exact: position `c + window` shares a slot with a position of the window iff window >= n. */
  lemma WindowBoundIsExact(n: nat, window: nat, c: nat)
    requires 0 < n && 0 < window
    ensures window < n <==> forall p | c <= p < c + window :: Slot(p, n) != Slot(c + window, n)
  {
    if window < n {
      forall p | c <= p < c + window
        ensures Slot(p, n) != Slot(c + window, n)
      {
        SlotDistinct(p, c + window, n);
      }
    } else {
      SlotPeriod(c + window - n, 1, n);
    }
  }

  /** A flush tells the NIC exactly the window past the consumed positions. */
  lemma FlushIsExact(s: State)
    requires Inv(s)
    ensures Covers(s, Tail(s)) == |s.delivered| + s.window
  {
    TailIsNext(s);
    var truth, read := s.base + |s.delivered| + s.window, s.base + Covers(s, Tail(s));
    if read < truth { SlotDistinct(read, truth, s.n); }
    if truth < read { SlotDistinct(truth, read, s.n); }
  }

  lemma StartInv(n: nat, window: nat, base: nat, rxPaddr: nat, desc: seq<Word>, cookie: seq<Cookie>)
    requires 1 <= window < n && base < n && |desc| == |cookie| == n
    ensures Inv(Start(n, window, base, rxPaddr, desc, cookie))
  {
    Unfold(base, n);
  }

  lemma PostInv(s: State, post: Post)
    requires Inv(s) && |s.delivered| < |s.filled|
    ensures Inv(PostAtTail(s, post))
  {
    TailIsNext(s);
    var c, s' := |s.delivered|, PostAtTail(s, post);
    forall p | c + 1 <= p < c + 1 + s.window
      ensures Post(s'.desc[At(s', p)], s'.cookie[At(s', p)]) == s'.posted[p]
    {
      assert At(s', p) == At(s, p);
      if p < c + s.window {
        SlotDistinct(s.base + p, s.base + c + s.window, s.n);
        assert Post(s.desc[At(s, p)], s.cookie[At(s, p)]) == s.posted[p];
      }
    }
  }

  lemma RepostInv(s: State, word: Word)
    requires Inv(s) && |s.delivered| < |s.filled|
    ensures Inv(RepostWord(s, word))
  {
    TailIsNext(s);
    var c, s' := |s.delivered|, RepostWord(s, word);
    forall p | c < p <= c + s.window
      ensures At(s, p) != s.head && At(s', p) == At(s, p)
    {
      SlotDistinct(s.base + c, s.base + p, s.n);
    }
    forall p | c + 1 <= p < c + 1 + s.window
      ensures Post(s'.desc[At(s', p)], s'.cookie[At(s', p)]) == s'.posted[p]
    {
      assert At(s, p) != s.head;
      if p < c + s.window {
        assert Post(s.desc[At(s, p)], s.cookie[At(s, p)]) == s.posted[p];
      }
    }
  }

  lemma FlushInv(s: State)
    requires Inv(s)
    ensures Inv(s.(covered := Covers(s, Tail(s))))
  {
    FlushIsExact(s);
    var s' := s.(covered := Covers(s, Tail(s)));
    assert forall p :: p >= 0 ==> At(s', p) == At(s, p);
  }

  lemma NicInv(s: State, step: Step)
    requires Inv(s) && Enabled(s, step) && (step.Prefetch? || step.Fill?)
    ensures Inv(Apply(s, step))
  {
    var p := if step.Prefetch? then step.p else |s.filled|;
    assert Post(s.desc[At(s, p)], s.cookie[At(s, p)]) == s.posted[p];
    var s' := Apply(s, step);
    assert forall q: nat :: At(s', q) == At(s, q);
  }

  lemma StepInv(s: State, step: Step)
    requires Inv(s) && Enabled(s, step)
    ensures Inv(Apply(s, step))
  {
    match step
    case Prefetch(_) => NicInv(s, step);
    case Fill => NicInv(s, step);
    case TailPost(paddr, len, cookie) => PostInv(s, Post(Encode(paddr, len), cookie));
    case HeadRelease => RepostInv(s, Identity(s.rxPaddr, s.head)); FlushInv(Repost(s));
    case Flush => FlushInv(s);
  }

  // ----- whole runs -----

  ghost predicate Runs(s: State, steps: seq<Step>)
    requires Shaped(s)
    decreases |steps|
  {
    steps == [] || (Enabled(s, steps[0]) && Runs(Apply(s, steps[0]), steps[1..]))
  }

  function Final(s: State, steps: seq<Step>): (s': State)
    requires Shaped(s)
    ensures Shaped(s') && s'.n == s.n && s'.window == s.window && s'.base == s.base && s'.rxPaddr == s.rxPaddr
    decreases |steps|
  {
    if steps == [] then s else Final(Apply(s, steps[0]), steps[1..])
  }

  lemma {:induction false} RunInv(s: State, steps: seq<Step>)
    requires Inv(s) && Runs(s, steps)
    ensures Inv(Final(s, steps))
    decreases |steps|
  {
    if steps != [] {
      StepInv(s, steps[0]);
      RunInv(Apply(s, steps[0]), steps[1..]);
    }
  }

  // ----- which buffer a cookie names -----

  /** Where the owner of a cookie keeps its buffer. */
  datatype Where = Where(paddr: nat, len: nat)

  predicate Names(where: Cookie -> Where, rxPaddr: nat, i: nat, post: Post) {
    post.desc == if post.cookie == NULL then Identity(rxPaddr, i) else Encode(where(post.cookie).paddr, where(post.cookie).len)
  }

  ghost predicate Matched(where: Cookie -> Where, s: State) {
    Shaped(s) && SlotsMatched(where, s) && PostedMatched(where, s)
  }

  ghost predicate SlotsMatched(where: Cookie -> Where, s: State)
    requires Shaped(s)
  {
    forall i | 0 <= i < s.n :: Names(where, s.rxPaddr, i, Post(s.desc[i], s.cookie[i]))
  }

  ghost predicate PostedMatched(where: Cookie -> Where, s: State)
    requires Shaped(s)
  {
    forall p | 0 <= p < |s.posted| :: Names(where, s.rxPaddr, At(s, p), s.posted[p])
  }

  /** Every buffer is posted under its own cookie, and a head release is taken on library slots only. */
  predicate Honest(where: Cookie -> Where, s: State, step: Step)
    requires Shaped(s)
  {
    && (step.TailPost? ==> step.cookie != NULL && where(step.cookie) == Where(step.paddr, step.len))
    && (step.HeadRelease? ==> s.cookie[s.head] == NULL)
  }

  ghost predicate AllHonest(where: Cookie -> Where, s: State, steps: seq<Step>)
    requires Shaped(s)
    decreases |steps|
  {
    steps == [] || (Honest(where, s, steps[0]) && AllHonest(where, Apply(s, steps[0]), steps[1..]))
  }

  lemma PostMatched(where: Cookie -> Where, s: State, step: Step)
    requires Inv(s) && Matched(where, s) && step.TailPost? && Honest(where, s, step)
    ensures Matched(where, Apply(s, step))
  {
    TailIsNext(s);
    var s' := Apply(s, step);
    if Accepted(step.paddr, step.len) {
      assert Names(where, s.rxPaddr, Tail(s), Post(s'.desc[Tail(s)], s'.cookie[Tail(s)]));
      forall p | 0 <= p < |s'.posted|
        ensures Names(where, s.rxPaddr, At(s', p), s'.posted[p])
      {
        assert p < |s.posted| ==> At(s', p) == At(s, p);
      }
    }
  }

  lemma RepostKeepsPosted(where: Cookie -> Where, s: State)
    requires Inv(s) && Matched(where, s)
    requires Names(where, s.rxPaddr, Tail(s), Post(Repost(s).desc[Tail(s)], s.cookie[Tail(s)]))
    ensures PostedMatched(where, Repost(s))
  {
    TailIsNext(s);
    var s' := Repost(s);
    forall p | 0 <= p < |s'.posted| ensures Names(where, s.rxPaddr, At(s', p), s'.posted[p]) {
      assert p < |s.posted| ==> At(s', p) == At(s, p);
    }
  }

  lemma TailIsNotHead(s: State)
    requires Inv(s)
    ensures Tail(s) != s.head
  {
    TailIsNext(s);
    SlotDistinct(s.base + |s.delivered|, s.base + |s.delivered| + s.window, s.n);
  }

  /**
   A head release keeps descriptors and cookies matched if and only if the slot is the library's, or its
   cookie happens to name the very buffer of the slot.
   */
  lemma RepostMatchedIff(where: Cookie -> Where, s: State)
    requires Inv(s) && Matched(where, s)
    ensures Matched(where, Repost(s)) <==>
              Names(where, s.rxPaddr, s.head, Post(Identity(s.rxPaddr, s.head), s.cookie[s.head]))
  {
    var s' := Repost(s);
    TailIsNotHead(s);
    assert Names(where, s.rxPaddr, Tail(s), Post(s.desc[Tail(s)], s.cookie[Tail(s)]));
    RepostKeepsPosted(where, s);
    assert s'.desc[s.head] == Identity(s.rxPaddr, s.head);
    forall i | 0 <= i < s.n && i != s.head ensures Names(where, s.rxPaddr, i, Post(s'.desc[i], s'.cookie[i])) {
      assert Names(where, s.rxPaddr, i, Post(s.desc[i], s.cookie[i]));
    }
  }

  /** Matching speaks of the driver's side only. */
  lemma NicSideMatched(where: Cookie -> Where, s: State, s': State)
    requires Matched(where, s) && s' == s.(covered := s'.covered, cache := s'.cache, filled := s'.filled)
    ensures Matched(where, s')
  {
    forall p | 0 <= p < |s'.posted|
      ensures Names(where, s.rxPaddr, At(s', p), s'.posted[p])
    {
      assert At(s', p) == At(s, p);
    }
  }

  lemma StepMatched(where: Cookie -> Where, s: State, step: Step)
    requires Inv(s) && Matched(where, s) && Enabled(s, step) && Honest(where, s, step)
    ensures Matched(where, Apply(s, step))
  {
    match step
    case TailPost(_, _, _) => PostMatched(where, s, step);
    case HeadRelease => RepostMatchedIff(where, s); NicSideMatched(where, Repost(s), Apply(s, step));
    case Prefetch(_) => NicSideMatched(where, s, Apply(s, step));
    case Fill => NicSideMatched(where, s, Apply(s, step));
    case Flush => NicSideMatched(where, s, Apply(s, step));
  }

  lemma {:induction false} RunMatched(where: Cookie -> Where, s: State, steps: seq<Step>)
    requires Inv(s) && Matched(where, s) && Runs(s, steps) && AllHonest(where, s, steps)
    ensures Matched(where, Final(s, steps))
    decreases |steps|
  {
    if steps != [] {
      StepInv(s, steps[0]);
      StepMatched(where, s, steps[0]);
      RunMatched(where, Apply(s, steps[0]), steps[1..]);
    }
  }

  /**
   For every window below the ring size, every run and every choice of prefetches:
   the cookie handed out for the k-th receive event names the buffer that the NIC
   filled for the k-th frame. A NULL cookie means the library's buffer of that slot.
   */
  lemma CookieNamesTheFilledBuffer(where: Cookie -> Where, s0: State, steps: seq<Step>, k: nat)
    requires Inv(s0) && Matched(where, s0) && Runs(s0, steps) && k < |Final(s0, steps).delivered|
    requires AllHonest(where, s0, steps)
    ensures var s := Final(s0, steps);
            k < |s.filled| && Names(where, s0.rxPaddr, Slot(s0.base + k, s0.n), Post(s.filled[k], s.delivered[k]))
  {
    RunInv(s0, steps);
    RunMatched(where, s0, steps);
    DeliveredIsFilled(where, Final(s0, steps), k);
  }

  lemma DeliveredIsFilled(where: Cookie -> Where, s: State, k: nat)
    requires Inv(s) && Matched(where, s) && k < |s.delivered|
    ensures k < |s.filled| && Names(where, s.rxPaddr, At(s, k), Post(s.filled[k], s.delivered[k]))
  {
    assert s.posted[k] == Post(s.filled[k], s.delivered[k]);
  }

  /** The primed ring is such a start. */
  lemma LibraryStartInv(where: Cookie -> Where, n: nat, window: nat, base: nat, rxPaddr: nat)
    requires 1 <= window < n && base < n
    ensures Inv(LibraryStart(n, window, base, rxPaddr)) && Matched(where, LibraryStart(n, window, base, rxPaddr))
  {
    var s := LibraryStart(n, window, base, rxPaddr);
    StartInv(n, window, base, rxPaddr, s.desc, s.cookie);
    forall p | 0 <= p < |s.posted|
      ensures Names(where, rxPaddr, At(s, p), s.posted[p])
    {
      assert s.posted[p] == Post(s.desc[At(s, p)], s.cookie[At(s, p)]);
    }
  }

  /** The ring as the kernel primed it: every slot holds its own library buffer. */
  function LibraryStart(n: nat, window: nat, base: nat, rxPaddr: nat): (s: State)
    requires 1 <= window < n && base < n
    ensures Shaped(s)
  {
    Start(n, window, base, rxPaddr, seq(n, i requires 0 <= i < n => Identity(rxPaddr, i)), seq(n, _ => NULL))
  }

  // ----- the driver's side, in place -----

  const PREFIX_LEN: nat := 14

  /** The frame length as `sfc7120_rx_peek_ext` derives it from the slot's prefix and the event. */
  function PeekLen(cookie: Cookie, prefix: nat, rxBytes: nat): nat {
    if cookie == NULL && prefix != 0 then prefix
    else if rxBytes > PREFIX_LEN then rxBytes - PREFIX_LEN
    else 0
  }

  /** The mapped receive ring, with the NIC beside it. */
  class RxHandle {
    const n: nat
    const window: nat
    const rxPaddr: nat
    const desc: array<Word>
    const cookie: array<Cookie>
    var head: nat
    const base: nat                  // slot of position 0
    ghost var posted: seq<Post>
    ghost var delivered: seq<Cookie>
    var covered: nat                 // the NIC's side
    ghost var cache: map<nat, Word>
    ghost var filled: seq<Word>

    ghost function Abs(): State
      reads this, desc, cookie
    {
      State(n, window, base, rxPaddr, desc[..], cookie[..], head, posted, delivered, covered, cache, filled)
    }

    ghost predicate Valid()
      reads this, desc, cookie
    {
      Inv(Abs())
    }

    constructor (n: nat, window: nat, head: nat, rxPaddr: nat)
      requires 1 <= window < n && head < n
      ensures Valid() && fresh(desc) && fresh(cookie)
      ensures Abs() == LibraryStart(n, window, head, rxPaddr)
    {
      this.n, this.window, this.rxPaddr, this.head, this.base := n, window, rxPaddr, head, head;
      desc := new Word[n](i requires 0 <= i < n => Identity(rxPaddr, i));
      cookie := new Cookie[n](_ => NULL);
      covered, cache, filled, delivered := window, map[], [], [];
      posted := LibraryStart(n, window, head, rxPaddr).posted;
      new;
      assert desc[..] == LibraryStart(n, window, head, rxPaddr).desc;
      assert cookie[..] == LibraryStart(n, window, head, rxPaddr).cookie;
      LibraryStartInv(_ => Where(0, 0), n, window, head, rxPaddr);
    }

    /** `sfc7120_rx_peek_ext`: the cookie is that of the oldest buffer not yet handed back. */
    method PeekExt(prefix: nat, rxBytes: nat) returns (c: Cookie, len: nat)
      requires Valid()
      ensures c == cookie[head] == posted[|delivered|].cookie && len == PeekLen(c, prefix, rxBytes)
    {
      c := cookie[head];
      len := PeekLen(c, prefix, rxBytes);
      assert Post(Abs().desc[At(Abs(), |delivered|)], Abs().cookie[At(Abs(), |delivered|)]) == posted[|delivered|];
    }

    /** `sfc7120_rx_release_paddr_nodbl`. */
    method ReleasePaddrNodbl(paddr: nat, len: nat, c: Cookie) returns (rc: int)
      requires Valid() && |delivered| < |filled|
      modifies this`head, this`posted, this`delivered, desc, cookie
      ensures Valid() && Abs() == Apply(old(Abs()), TailPost(paddr, len, c))
      ensures rc == if Accepted(paddr, len) then 0 else -1
    {
      if paddr == 0 || len == 0 || len > 0x3fff {
        return -1;
      }
      WriteTail(Encode(paddr, len), c);
      return 0;
    }

    method WriteTail(word: Word, c: Cookie)
      requires Valid() && |delivered| < |filled|
      modifies this`head, this`posted, this`delivered, desc, cookie
      ensures Valid() && Abs() == PostAtTail(old(Abs()), Post(word, c))
    {
      ghost var before := Abs();
      PostInv(before, Post(word, c));
      var tail := Slot(head + window, n);
      delivered, posted := delivered + [cookie[head]], posted + [Post(word, c)];
      desc[tail] := word;
      cookie[tail] := c;
      head := Slot(head + 1, n);
      assert Abs() == PostAtTail(before, Post(word, c));
    }

    /** `sfc7120_rx_release`. */
    method Release()
      requires Valid() && |delivered| < |filled|
      modifies this`head, this`posted, this`delivered, this`covered, desc
      ensures Valid() && Abs() == Apply(old(Abs()), HeadRelease)
    {
      WriteHead(Identity(rxPaddr, head));
      Flush();
    }

    method WriteHead(word: Word)
      requires Valid() && |delivered| < |filled|
      modifies this`head, this`posted, this`delivered, desc
      ensures Valid() && Abs() == RepostWord(old(Abs()), word)
    {
      ghost var before := Abs();
      RepostInv(before, word);
      ghost var tail := Slot(head + window, n);
      desc[head] := word;
      delivered, posted := delivered + [cookie[head]], posted + [Post(desc[tail], cookie[tail])];
      head := Slot(head + 1, n);
      assert Abs() == RepostWord(before, word);
    }

    /** `sfc7120_rx_flush`: afterwards the NIC owns exactly `window` positions past the consumed ones. */
    method Flush()
      requires Valid()
      modifies this`covered
      ensures Valid() && Abs() == Apply(old(Abs()), Step.Flush) && covered == |delivered| + window
    {
      FlushInv(Abs());
      FlushIsExact(Abs());
      covered := PositionOf(Slot(head + window, n), base + covered, n) - base;
    }

    /** The NIC acts: it fetches covered descriptors as it likes and fills frames in order. */
    method NicActs()
      requires Valid()
      modifies this`cache, this`filled
      ensures Valid() && old(filled) <= filled
    {
      var choices: seq<bool> := *;
      for i := 0 to |choices|
        invariant Valid() && old(filled) <= filled
      {
        ghost var p: nat := *;
        ghost var step := if choices[i] then Fill else Prefetch(p);
        if Enabled(Abs(), step) {
          NicInv(Abs(), step);
          ghost var after := Apply(Abs(), step);
          cache, filled := after.cache, after.filled;
        }
      }
    }
  }
}
