/**
 Ring indices. Every ring of the driver keeps its cursors in a power-of-two ring
 and advances them with a mask, `(i + 1) & (N - 1)`. The specifications speak of
 absolute positions instead: the number of entries that ever passed. `Slot` takes
 a position to its ring index, and the lemmas below are all that the ring proofs
 need to know about it.
 */
module Ring {

  /**
   The ring index of absolute position `p` in a ring of `n` entries. The definition
   takes three calls per lap, so that a proof sees a slot as a name and unfolds it
   only by calling `Unfold`.
   */
  function Slot(p: nat, n: nat): (i: nat)
    requires 0 < n
    ensures i < n
    decreases p, 2
  {
    Lap(p, n)
  }

  function Lap(p: nat, n: nat): (i: nat)
    requires 0 < n
    ensures i < n
    decreases p, 1
  {
    Within(p, n)
  }

  function Within(p: nat, n: nat): (i: nat)
    requires 0 < n
    ensures i < n
    decreases p, 0
  {
    if p < n then p else Slot(p - n, n)
  }

  lemma Unfold(p: nat, n: nat)
    requires 0 < n
    ensures Slot(p, n) == if p < n then p else Slot(p - n, n)
  {
    assert Slot(p, n) == Lap(p, n) == Within(p, n);
  }

  lemma {:induction false} SlotPeriod(p: nat, k: nat, n: nat)
    requires 0 < n
    ensures Slot(p + k * n, n) == Slot(p, n)
    decreases k
  {
    if k > 0 {
      SlotPeriod(p, k - 1, n);
      assert p + k * n - n == p + (k - 1) * n >= 0;
      Unfold(p + k * n, n);
    }
  }

  /** Advancing a cursor that was already wrapped is advancing the position. */
  lemma {:induction false} SlotAdd(p: nat, q: nat, n: nat)
    requires 0 < n
    ensures Slot(Slot(p, n) + q, n) == Slot(p + q, n)
  {
    Unfold(p, n);
    if p >= n {
      Unfold(p + q, n);
      SlotAdd(p - n, q, n);
    }
  }

  /** Two positions less than a lap apart never share a slot. */
  lemma {:induction false} SlotDistinct(p: nat, q: nat, n: nat)
    requires 0 < n && p < q < p + n
    ensures Slot(p, n) != Slot(q, n)
  {
    Unfold(p, n);
    Unfold(q, n);
    if p >= n {
      SlotDistinct(p - n, q - n, n);
    } else if q >= n {
      Unfold(q - n, n);
    }
  }

  /** Two positions share a slot exactly when they are whole laps apart. */
  lemma LapsApart(p: nat, d: nat, n: nat)
    requires 0 < n
    ensures Slot(p, n) == Slot(p + d, n) <==> Slot(d, n) == 0
  {
    SlotAdd(d, p, n);
    Unfold(Slot(d, n), n);
    var r := Slot(d, n);
    if r > 0 {
      SlotDistinct(p, p + r, n);
    }
  }

  /** The position of slot `i` in the lap that starts at `c`. */
  function PositionOf(i: nat, c: nat, n: nat): (p: nat)
    requires i < n
    ensures c <= p < c + n && Slot(p, n) == i
  {
    var s := Slot(c, n);
    var ahead := if i < s then i + n - s else i - s;
    SlotAdd(c, ahead, n);
    Unfold(s + ahead, n);
    Unfold(i, n);
    c + ahead
  }

  /** A position is found again from its slot, unless a whole lap lies between. */
  lemma PositionOfSlot(p: nat, c: nat, n: nat)
    requires 0 < n && c <= p <= c + n
    ensures PositionOf(Slot(p, n), c, n) == if p < c + n then p else c
  {
    var q := PositionOf(Slot(p, n), c, n);
    if p == c + n {
      SlotPeriod(c, 1, n);
      if c < q { SlotDistinct(c, q, n); }
    } else if q < p {
      SlotDistinct(q, p, n);
    } else if p < q {
      SlotDistinct(p, q, n);
    }
  }

  // ----- the mask of the source -----

  function Pow2(k: nat): (r: nat)
    ensures r > 0
  {
    if k == 0 then 1 else 2 * Pow2(k - 1)
  }

  /** Bitwise AND of two naturals, bit by bit. */
  function BitAnd(a: nat, b: nat): (r: nat) {
    if a == 0 || b == 0 then 0 else (a % 2) * (b % 2) + 2 * BitAnd(a / 2, b / 2)
  }

  /** `x & (N - 1)` is the slot of `x` for every power of two N. */
  lemma {:induction false} MaskIsSlot(x: nat, k: nat)
    ensures BitAnd(x, Pow2(k) - 1) == Slot(x, Pow2(k))
    decreases k
  {
    if k == 0 {
      SlotOfOne(x);
    } else {
      var m := Pow2(k - 1);
      assert (Pow2(k) - 1) / 2 == m - 1 && (Pow2(k) - 1) % 2 == 1;
      MaskIsSlot(x / 2, k - 1);
      SlotOfDouble(x, m);
      if x > 0 {
        assert BitAnd(x, Pow2(k) - 1) == (x % 2) * 1 + 2 * BitAnd(x / 2, m - 1);
      }
    }
  }

  lemma {:induction false} SlotOfOne(x: nat)
    ensures Slot(x, 1) == 0
  {
    Unfold(x, 1);
    if x > 0 {
      SlotOfOne(x - 1);
    }
  }

  lemma {:induction false} SlotOfDouble(x: nat, m: nat)
    requires 0 < m
    ensures Slot(x, 2 * m) == 2 * Slot(x / 2, m) + x % 2
  {
    Unfold(x, 2 * m);
    Unfold(x / 2, m);
    if x >= 2 * m {
      SlotOfDouble(x - 2 * m, m);
      assert (x - 2 * m) / 2 == x / 2 - m && (x - 2 * m) % 2 == x % 2;
    }
  }

  /** Truncating a free-running counter to 16 bits keeps its slot in any ring of 2^k <= 2^16 entries. */
  lemma {:induction false} SlotOfTruncated(x: nat, k: nat)
    requires k <= 16
    ensures Slot(x % 65536, Pow2(k)) == Slot(x, Pow2(k))
  {
    var n, laps := Pow2(k), Pow2(16 - k);
    Pow2Sum(k, 16 - k);
    assert Pow2(4) == 16 && Pow2(8) == 256;
    Pow2Sum(8, 8);
    var q := x / 65536;
    assert x == x % 65536 + (q * laps) * n by {
      assert (q * laps) * n == q * (laps * n);
    }
    SlotPeriod(x % 65536, q * laps, n);
  }

  lemma {:induction false} Pow2Sum(a: nat, b: nat)
    ensures Pow2(a + b) == Pow2(b) * Pow2(a)
    decreases b
  {
    if b > 0 {
      Pow2Sum(a, b - 1);
      assert Pow2(a + b) == 2 * Pow2(a + (b - 1));
      assert 2 * (Pow2(b - 1) * Pow2(a)) == (2 * Pow2(b - 1)) * Pow2(a);
    }
  }
}
