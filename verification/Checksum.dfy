/**
 The Internet checksum (RFC 1071) as the echo server computes it: sixteen-bit words added
 in a 32-bit accumulator in the byte order of the host, carries folded back, result inverted.
 */
module Checksum {
  import opened Octet

  /** The sum of the words read low byte first; an odd last byte counts as a low byte. */
  function Sum(b: seq<Byte>): nat {
    if |b| == 0 then 0
    else if |b| == 1 then b[0]
    else b[0] + 256 * b[1] + Sum(b[2..])
  }

  /** The same with words read high byte first. */
  function SumBig(b: seq<Byte>): nat
    requires |b| % 2 == 0
  {
    if |b| == 0 then 0 else 256 * b[0] + b[1] + SumBig(b[2..])
  }

  function Fold(s: nat): (r: nat)
    ensures r < 65536
  {
    if s < 65536 then s else Fold(s % 65536 + s / 65536)
  }

  function Invert(x: nat): nat
    requires x < 65536
  {
    65535 - x
  }

  // ----- folding -----

  /** Folding ends at the one number in 1 .. 65535 that is congruent to the sum; only 0 folds to 0. */
  lemma {:induction false} FoldIsCanonical(s: nat)
    ensures Fold(s) == if s == 0 then 0 else 1 + (s - 1) % 65535
    decreases s
  {
    if s >= 65536 {
      FoldIsCanonical(s % 65536 + s / 65536);
      CarryIsCongruent(s / 65536, s % 65536);
    }
  }

  lemma CarryIsCongruent(hi: nat, lo: nat)
    requires hi > 0
    ensures (65536 * hi + lo - 1) % 65535 == (hi + lo - 1) % 65535
  {
    WholeTurns(hi, hi + lo - 1);
  }

  lemma {:induction false} WholeTurns(k: nat, x: nat)
    ensures (65535 * k + x) % 65535 == x % 65535
  {
    if k > 0 {
      WholeTurns(k - 1, x);
    }
  }

  /** Folding depends on the sum only up to whole turns of 65535. */
  lemma FoldTurns(s: nat, k: nat)
    requires s > 0
    ensures Fold(s + 65535 * k) == Fold(s)
  {
    FoldIsCanonical(s);
    FoldIsCanonical(s + 65535 * k);
    WholeTurns(k, s - 1);
  }

  /** How far the sum is above its folded value: a whole number of turns. */
  lemma FoldGap(s: nat) returns (k: nat)
    ensures s == Fold(s) + 65535 * k
  {
    FoldIsCanonical(s);
    k := if s == 0 then 0 else (s - 1) / 65535;
  }

  /** Adding the checksum to the sum it was computed from folds to all ones. */
  lemma ChecksumCompletes(s: nat)
    ensures Fold(s + Invert(Fold(s))) == 0xffff
  {
    var k := FoldGap(s);
    FoldTurns(65535, k);
    FoldIsCanonical(65535);
  }

  // ----- the sum -----

  lemma {:induction false} SumConcat(a: seq<Byte>, b: seq<Byte>)
    requires |a| % 2 == 0
    ensures Sum(a + b) == Sum(a) + Sum(b)
  {
    if a == [] {
      assert a + b == b;
    } else {
      SumConcat(a[2..], b);
      assert (a + b)[2..] == a[2..] + b;
    }
  }

  lemma {:induction false} SumBound(b: seq<Byte>)
    ensures Sum(b) <= 65535 * ((|b| + 1) / 2)
  {
    if |b| >= 2 {
      SumBound(b[2..]);
    }
  }

  /** The two byte orders disagree by a factor 256, up to whole turns. */
  lemma {:induction false} OrdersAgree(b: seq<Byte>) returns (k: nat)
    requires |b| % 2 == 0
    ensures 256 * Sum(b) == SumBig(b) + 65535 * k
    ensures Sum(b) == 0 <==> SumBig(b) == 0
  {
    if b == [] {
      k := 0;
    } else {
      var k' := OrdersAgree(b[2..]);
      k := k' + b[1];
    }
  }

  function Swap(x: nat): (r: nat)
    requires x < 65536
    ensures r < 65536
  {
    x % 256 * 256 + x / 256
  }

  lemma SwapIsCongruent(x: nat)
    requires x < 65536
    ensures 256 * x == Swap(x) + 65535 * (x / 256)
    ensures Swap(x) == 0 <==> x == 0
    ensures Swap(Invert(x)) == Invert(Swap(x))
  {}

  /** The big-endian loop stores the same two bytes: its checksum is the other one with its bytes exchanged. */
  lemma SameBytesOnTheWire(b: seq<Byte>)
    requires |b| % 2 == 0
    ensures Invert(Fold(SumBig(b))) == Swap(Invert(Fold(Sum(b))))
  {
    var l, g := Sum(b), SumBig(b);
    var k := OrdersAgree(b);
    var j := FoldGap(l);
    var x := Fold(l);
    SwapIsCongruent(x);
    FoldIsCanonical(l);
    if l > 0 {
      FoldTurns(g, k);
      FoldTurns(Swap(x), x / 256 + 256 * j);
      FoldIsCanonical(Swap(x));
    }
  }

  // ----- the loops -----

  const WRAP: nat := 0x1_0000_0000

  /** Longest input whose words always fit the 32-bit accumulator. */
  const LIMIT: nat := 131074

  /**
   What the accumulator's wrap-around does: the checksum is still right exactly when nothing wrapped, or
   it wrapped a multiple of 65535 times and left something over.
   */
  lemma WrapMatters(sum: nat)
    ensures Fold(sum % WRAP) == Fold(sum) <==> sum < WRAP || (sum % WRAP > 0 && (sum / WRAP) % 65535 == 0)
  {
    var q, r := sum / WRAP, sum % WRAP;
    FoldIsCanonical(sum);
    FoldIsCanonical(r);
    if r > 0 {
      WholeTurns(65537 * q, q + r - 1);
      TurnsIff(r - 1, q);
    }
  }

  lemma TurnsIff(x: nat, q: nat)
    ensures (x + q) % 65535 == x % 65535 <==> q % 65535 == 0
  {}

  method FoldCarries(s: nat) returns (sum: nat)
    ensures sum == Fold(s)
  {
    sum := s;
    while sum >= 65536
      invariant Fold(sum) == Fold(s)
      decreases sum
    {
      sum := sum % 65536 + sum / 65536;
    }
  }

  /** A 32-bit addition. */
  method AddWrapped(sum: nat, x: nat) returns (r: nat, ghost turns: nat)
    ensures r < WRAP && r + WRAP * turns == sum + x
  {
    r, turns := (sum + x) % WRAP, (sum + x) / WRAP;
  }

  method Accumulate(data: seq<Byte>) returns (sum: nat)
    ensures sum == Sum(data) % WRAP
  {
    var p := 0;
    sum := 0;
    ghost var turns: nat, t: nat := 0, 0;
    while |data| - p > 1
      invariant 0 <= p <= |data| && sum < WRAP
      invariant sum + WRAP * turns + Sum(data[p..]) == Sum(data)
    {
      assert data[p..][2..] == data[p + 2..];
      sum, t := AddWrapped(sum, data[p] + 256 * (data[p + 1] as int));
      turns := turns + t;
      p := p + 2;
    }
    if |data| - p > 0 {
      sum, t := AddWrapped(sum, data[p]);
      turns := turns + t;
    }
    Remainder(Sum(data), sum, turns);
  }

  lemma Remainder(s: nat, r: nat, turns: nat)
    requires r < WRAP && s == r + WRAP * turns
    ensures s % WRAP == r
  {}

  /** `ip_cksum` */
  method IpCksum(data: seq<Byte>) returns (c: nat)
    ensures c < 65536 && c == Invert(Fold(Sum(data) % WRAP))
    ensures |data| <= LIMIT ==> c == Invert(Fold(Sum(data)))
  {
    var sum := Accumulate(data);
    sum := FoldCarries(sum);
    c := Invert(sum);
    if |data| <= LIMIT {
      NoWrap(data);
    }
  }

  lemma NoWrap(data: seq<Byte>)
    requires |data| <= LIMIT
    ensures Sum(data) % WRAP == Sum(data)
  {
    SumBound(data);
    var words := (|data| + 1) / 2;
    assert words <= 65537;
    Remainder(Sum(data), Sum(data), 0);
  }

  /** The probe's loop, high byte first, over its 20-byte header. */
  method ProbeCksum(ip: seq<Byte>) returns (c: nat)
    requires |ip| == 20
    ensures c < 65536 && c == Invert(Fold(SumBig(ip)))
    ensures c == Swap(Invert(Fold(Sum(ip))))
  {
    var sum, k := 0, 0;
    while k < |ip|
      invariant 0 <= k <= |ip| && k % 2 == 0 && 0 <= sum
      invariant sum + SumBig(ip[k..]) == SumBig(ip)
    {
      assert ip[k..][2..] == ip[k + 2..];
      sum := sum + 256 * (ip[k] as int) + ip[k + 1];
      k := k + 2;
    }
    SameBytesOnTheWire(ip);
    sum := FoldCarries(sum);
    c := Invert(sum);
  }
}
