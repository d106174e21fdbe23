/**
 The hexadecimal core mask of the configuration: parsed from its last digit on into the list
 of enabled cores, and printed again as the one-bit mask of the core this process runs on.
 */
module LcoreMask {
  import opened Ring

  predicate IsBlank(c: char) {
    c == ' ' || c == '\t'
  }

  predicate IsHex(c: char) {
    '0' <= c <= '9' || 'a' <= c <= 'f' || 'A' <= c <= 'F'
  }

  /** `xdigit2val` */
  function Digit(c: char): (v: int)
    ensures IsHex(c) ==> 0 <= v < 16
  {
    if '0' <= c <= '9' then c as int - '0' as int
    else if 'A' <= c <= 'Z' then c as int - 'A' as int + 10
    else c as int - 'a' as int + 10
  }

  function SkipBlanks(s: string): string {
    if s != [] && IsBlank(s[0]) then SkipBlanks(s[1..]) else s
  }

  function DropBlanks(s: string): string {
    if s != [] && IsBlank(s[|s| - 1]) then DropBlanks(s[..|s| - 1]) else s
  }

  function DropPrefix(s: string): string {
    if |s| >= 2 && s[0] == '0' && (s[1] == 'x' || s[1] == 'X') then s[2..] else s
  }

  /** The digits of a mask: blanks around it and a leading 0x removed. */
  function Trim(s: string): string {
    DropBlanks(DropPrefix(SkipBlanks(s)))
  }

  predicate AllBlank(s: string) {
    forall i | 0 <= i < |s| :: IsBlank(s[i])
  }

  lemma {:induction false} SkipBlanksIs(s: string) returns (lead: string)
    ensures s == lead + SkipBlanks(s) && AllBlank(lead)
    ensures SkipBlanks(s) == [] || !IsBlank(SkipBlanks(s)[0])
  {
    lead := [];
    if s != [] && IsBlank(s[0]) {
      lead := SkipBlanksIs(s[1..]);
      lead := [s[0]] + lead;
    }
  }

  lemma {:induction false} DropBlanksIs(s: string) returns (trail: string)
    ensures s == DropBlanks(s) + trail && AllBlank(trail)
    ensures DropBlanks(s) == [] || !IsBlank(DropBlanks(s)[|DropBlanks(s)| - 1])
  {
    trail := [];
    if s != [] && IsBlank(s[|s| - 1]) {
      trail := DropBlanksIs(s[..|s| - 1]);
      trail := trail + [s[|s| - 1]];
    }
  }

  /**
   What is removed: all blanks ahead, then 0x or 0X if it stands there, then all blanks at the end; and
   nothing else.
   */
  lemma TrimIs(s: string) returns (lead: string, prefix: string, trail: string)
    ensures s == lead + (prefix + (Trim(s) + trail)) && AllBlank(lead) && AllBlank(trail)
    ensures Trim(s) == [] || !IsBlank(Trim(s)[|Trim(s)| - 1])
    ensures var rest := prefix + (Trim(s) + trail);
            && (rest == [] || !IsBlank(rest[0]))
            && (if |rest| >= 2 && rest[0] == '0' && rest[1] in {'x', 'X'} then prefix == rest[..2] else prefix == [])
  {
    lead := SkipBlanksIs(s);
    var rest := SkipBlanks(s);
    var body := DropPrefix(rest);
    prefix := rest[..|rest| - |body|];
    assert rest == prefix + body;
    trail := DropBlanksIs(body);
  }

  /** Bit `j` of `v`. */
  predicate Bit(v: int, j: nat)
    decreases j
  {
    if j == 0 then v % 2 == 1 else Bit(v / 2, j - 1)
  }

  lemma {:induction false} ZeroBits(j: nat)
    ensures !Bit(0, j)
  {
    if j > 0 {
      ZeroBits(j - 1);
    }
  }

  /** The digit `p` places from the right. */
  function Place(s: string, p: nat): char
    requires p < |s|
  {
    s[|s| - 1 - p]
  }

  /** Bit `k` of the number written by `s`: bit `k % 4` of the digit `k / 4` places from the right. */
  predicate BitAt(s: string, k: nat) {
    k / 4 < |s| && Bit(Digit(Place(s, k / 4)), k % 4)
  }

  /**
   The set bits below `k`, in increasing order. The definition takes three calls per bit, so that a proof
   sees a list as a name and unfolds it only by calling `CoresUnfold`.
   */
  function Cores(s: string, k: nat): seq<nat>
    decreases k, 2
  {
    CoresTo(s, k)
  }

  function CoresTo(s: string, k: nat): seq<nat>
    decreases k, 1
  {
    CoresBelow(s, k)
  }

  function CoresBelow(s: string, k: nat): seq<nat>
    decreases k, 0
  {
    if k == 0 then [] else Cores(s, k - 1) + if BitAt(s, k - 1) then [k - 1] else []
  }

  lemma CoresUnfold(s: string, k: nat)
    ensures Cores(s, k) == if k == 0 then [] else Cores(s, k - 1) + if BitAt(s, k - 1) then [k - 1] else []
  {
    assert Cores(s, k) == CoresTo(s, k) == CoresBelow(s, k);
  }

  /** Digits that carry cores below `max` are hexadecimal, those to their left are 0. */
  predicate WellFormed(s: string, max: nat) {
    s != [] && forall p | 0 <= p < |s| :: if 4 * p < max then IsHex(Place(s, p)) else Place(s, p) == '0'
  }

  predicate Acceptable(s: string, procId: int, max: nat) {
    WellFormed(s, max) && procId < |Cores(s, max)|
  }

  // ----- what the list is -----

  /** The list names exactly the set bits, each once, in increasing order. */
  lemma {:induction false} CoresAreTheBits(s: string, k: nat)
    ensures Rising(Cores(s, k))
    ensures forall x :: x in Cores(s, k) <==> 0 <= x < k && BitAt(s, x)
  {
    CoresUnfold(s, k);
    if k > 0 {
      CoresAreTheBits(s, k - 1);
      var before := Cores(s, k - 1);
      forall i | 0 <= i < |before| ensures before[i] < k - 1 {
        assert before[i] in before;
      }
    }
  }

  /** The number written by `s`. */
  function HexValue(s: string): int {
    if s == [] then 0 else Digit(s[0]) * Pow2(4 * (|s| - 1)) + HexValue(s[1..])
  }

  function SumOfPowers(cores: seq<nat>): nat {
    if cores == [] then 0 else SumOfPowers(cores[..|cores| - 1]) + Pow2(cores[|cores| - 1])
  }

  lemma SumNext(cores: seq<nat>, x: nat)
    ensures SumOfPowers(cores + [x]) == SumOfPowers(cores) + Pow2(x)
  {
    assert (cores + [x])[..|cores|] == cores;
  }

  function BitOf(b: bool): nat {
    if b then 1 else 0
  }

  lemma CoreNext(s: string, k: nat)
    ensures SumOfPowers(Cores(s, k + 1)) == SumOfPowers(Cores(s, k)) + BitOf(BitAt(s, k)) * Pow2(k)
  {
    var before := Cores(s, k);
    CoresUnfold(s, k + 1);
    if BitAt(s, k) {
      assert Cores(s, k + 1) == before + [k];
      SumNext(before, k);
    } else {
      assert Cores(s, k + 1) == before;
    }
  }

  lemma DigitBits(v: int)
    requires 0 <= v < 16
    ensures v == BitOf(Bit(v, 0)) + 2 * BitOf(Bit(v, 1)) + 4 * BitOf(Bit(v, 2)) + 8 * BitOf(Bit(v, 3))
  {
    assert Bit(v, 1) == Bit(v / 2, 0);
    assert Bit(v, 2) == Bit(v / 2, 1) == Bit(v / 2 / 2, 0);
    assert Bit(v, 3) == Bit(v / 2, 2) == Bit(v / 2 / 2, 1) == Bit(v / 2 / 2 / 2, 0);
  }

  lemma FourNext(s: string, k: nat)
    ensures var w := Pow2(k);
            SumOfPowers(Cores(s, k + 4)) == SumOfPowers(Cores(s, k)) + BitOf(BitAt(s, k)) * w
              + BitOf(BitAt(s, k + 1)) * (2 * w) + BitOf(BitAt(s, k + 2)) * (4 * w) + BitOf(BitAt(s, k + 3)) * (8 * w)
  {
    CoreNext(s, k);
    CoreNext(s, k + 1);
    CoreNext(s, k + 2);
    CoreNext(s, k + 3);
    Pow2Four(k);
  }

  lemma Pow2Four(k: nat)
    ensures Pow2(k + 1) == 2 * Pow2(k) && Pow2(k + 2) == 4 * Pow2(k) && Pow2(k + 3) == 8 * Pow2(k)
  {}

  lemma BitsOfDigit(s: string, p: nat)
    requires p < |s|
    ensures var v := Digit(Place(s, p));
            && BitAt(s, 4 * p) == Bit(v, 0) && BitAt(s, 4 * p + 1) == Bit(v, 1)
            && BitAt(s, 4 * p + 2) == Bit(v, 2) && BitAt(s, 4 * p + 3) == Bit(v, 3)
  {
    BitOfDigit(s, p, 0);
    BitOfDigit(s, p, 1);
    BitOfDigit(s, p, 2);
    BitOfDigit(s, p, 3);
  }

  lemma BitOfDigit(s: string, p: nat, j: nat)
    requires p < |s| && j < 4
    ensures BitAt(s, 4 * p + j) == Bit(Digit(Place(s, p)), j)
  {
    assert (4 * p + j) / 4 == p && (4 * p + j) % 4 == j;
  }

  lemma DigitIsItsBits(s: string, p: nat)
    requires p < |s| && IsHex(Place(s, p))
    ensures Digit(Place(s, p)) == BitOf(BitAt(s, 4 * p)) + 2 * BitOf(BitAt(s, 4 * p + 1))
                                  + 4 * BitOf(BitAt(s, 4 * p + 2)) + 8 * BitOf(BitAt(s, 4 * p + 3))
  {
    BitsOfDigit(s, p);
    DigitBits(Digit(Place(s, p)));
  }

  lemma DigitSplits(s: string, p: nat) returns (a: int, b: int, c: int, d: int)
    requires p < |s| && IsHex(Place(s, p))
    ensures Digit(Place(s, p)) == a + 2 * b + 4 * c + 8 * d
    ensures var w := Pow2(4 * p);
            SumOfPowers(Cores(s, 4 * p + 4)) == SumOfPowers(Cores(s, 4 * p)) + a * w + b * (2 * w) + c * (4 * w) + d * (8 * w)
  {
    var k := 4 * p;
    FourNext(s, k);
    a, b, c, d := BitOf(BitAt(s, k)), BitOf(BitAt(s, k + 1)), BitOf(BitAt(s, k + 2)), BitOf(BitAt(s, k + 3));
    DigitIsItsBits(s, p);
  }

  /** One digit more adds that digit at its place. */
  lemma DigitAdds(s: string, p: nat)
    requires p < |s| && IsHex(Place(s, p))
    ensures SumOfPowers(Cores(s, 4 * p + 4)) == SumOfPowers(Cores(s, 4 * p)) + Digit(Place(s, p)) * Pow2(4 * p)
  {
    var a, b, c, d := DigitSplits(s, p);
    Weights(Digit(Place(s, p)), a, b, c, d, Pow2(4 * p));
  }

  lemma Weights(v: int, a: int, b: int, c: int, d: int, w: int)
    requires v == a + 2 * b + 4 * c + 8 * d
    ensures v * w == a * w + b * (2 * w) + c * (4 * w) + d * (8 * w)
  {}

  lemma {:induction false} SumIsValueOfLast(s: string, p: nat)
    requires p <= |s| && forall q | 0 <= q < p :: IsHex(Place(s, q))
    ensures SumOfPowers(Cores(s, 4 * p)) == HexValue(s[|s| - p..])
  {
    CoresUnfold(s, 0);
    if p > 0 {
      var q := p - 1;
      SumIsValueOfLast(s, q);
      DigitAdds(s, q);
      HexValueNext(s, q);
      assert 4 * p == 4 * q + 4;
    }
  }

  lemma HexValueNext(s: string, p: nat)
    requires p < |s|
    ensures HexValue(s[|s| - p - 1..]) == Digit(Place(s, p)) * Pow2(4 * p) + HexValue(s[|s| - p..])
  {
    var last := s[|s| - p - 1..];
    assert last[1..] == s[|s| - p..];
  }

  /** Beyond the last digit no bit is set. */
  lemma {:induction false} NoMoreCores(s: string, k: nat)
    requires k >= 4 * |s|
    ensures Cores(s, k) == Cores(s, 4 * |s|)
  {
    if k > 4 * |s| {
      CoresUnfold(s, k);
      NoMoreCores(s, k - 1);
    }
  }

  /** Leading zeros carry no core. */
  lemma {:induction false} ZerosAddNothing(s: string, lo: nat, p: nat)
    requires lo <= p <= |s| && forall q | lo <= q < |s| :: Place(s, q) == '0'
    ensures Cores(s, 4 * p) == Cores(s, 4 * lo)
  {
    if p > lo {
      ZerosAddNothing(s, lo, p - 1);
      ZeroDigit(s, p - 1);
    }
  }

  lemma ZeroDigit(s: string, p: nat)
    requires p < |s| && Place(s, p) == '0'
    ensures Cores(s, 4 * p + 4) == Cores(s, 4 * p)
  {
    ZeroHasNoBits(s, p);
    NoBit(s, 4 * p);
    NoBit(s, 4 * p + 1);
    NoBit(s, 4 * p + 2);
    NoBit(s, 4 * p + 3);
  }

  lemma ZeroHasNoBits(s: string, p: nat)
    requires p < |s| && Place(s, p) == '0'
    ensures !BitAt(s, 4 * p) && !BitAt(s, 4 * p + 1) && !BitAt(s, 4 * p + 2) && !BitAt(s, 4 * p + 3)
  {
    BitsOfDigit(s, p);
  }

  lemma NoBit(s: string, k: nat)
    requires !BitAt(s, k)
    ensures Cores(s, k + 1) == Cores(s, k)
  {
    CoresUnfold(s, k + 1);
  }

  lemma WholeDigits(s: string, digits: nat)
    requires WellFormed(s, 4 * digits)
    ensures SumOfPowers(Cores(s, 4 * digits)) == HexValue(s)
  {
    forall q | 0 <= q < |s| ensures IsHex(Place(s, q)) {}
    SumIsValueOfLast(s, |s|);
    assert s[0..] == s;
    if digits >= |s| {
      NoMoreCores(s, 4 * digits);
    } else {
      ZerosAddNothing(s, digits, |s|);
    }
  }

  /** The next core adds its power of two or nothing. */
  lemma BitAdds(s: string, k: nat) returns (b: nat)
    ensures b <= 1 && SumOfPowers(Cores(s, k + 1)) == SumOfPowers(Cores(s, k)) + b * Pow2(k)
  {
    CoreNext(s, k);
    b := BitOf(BitAt(s, k));
  }

  lemma {:induction false} LowPart(s: string, k: nat)
    ensures SumOfPowers(Cores(s, k)) < Pow2(k)
  {
    CoresUnfold(s, 0);
    if k > 0 {
      LowPart(s, k - 1);
      var b := BitAdds(s, k - 1);
    }
  }

  lemma {:induction false} HighPart(s: string, k: nat, j: nat) returns (q: nat)
    ensures SumOfPowers(Cores(s, k + j)) == SumOfPowers(Cores(s, k)) + Pow2(k) * q
    decreases j
  {
    q := 0;
    if j > 0 {
      var q' := HighPart(s, k, j - 1);
      var b := BitAdds(s, k + (j - 1));
      var w := Pow2(j - 1);
      Pow2Sum(k, j - 1);
      Collect(Pow2(k), q', b, w);
      q := q' + b * w;
    }
  }

  lemma Collect(m: nat, q: nat, b: nat, w: nat)
    ensures m * q + b * (w * m) == m * (q + b * w)
  {}

  /**
   For every limit on the cores, the list is the binary expansion of the mask below it, and nothing is cut off
   exactly when the mask is below two to that limit; so never for a whole number of digits.
   */
  lemma CoresSumToTheMask(s: string, max: nat) returns (cut: nat)
    requires WellFormed(s, max)
    ensures HexValue(s) == SumOfPowers(Cores(s, max)) + Pow2(max) * cut
    ensures SumOfPowers(Cores(s, max)) < Pow2(max)
    ensures cut == 0 <==> HexValue(s) < Pow2(max)
    ensures max % 4 == 0 ==> cut == 0
  {
    var digits := (max + 3) / 4;
    SameDigits(s, max, digits);
    WholeDigits(s, digits);
    LowPart(s, max);
    cut := 0;
    if max % 4 != 0 {
      cut := HighPart(s, max, 4 * digits - max);
    }
    CutIff(HexValue(s), SumOfPowers(Cores(s, max)), Pow2(max), cut);
  }

  lemma SameDigits(s: string, max: nat, digits: nat)
    requires WellFormed(s, max) && digits == (max + 3) / 4
    ensures WellFormed(s, 4 * digits)
  {
    forall p | 0 <= p < |s| ensures if 4 * p < 4 * digits then IsHex(Place(s, p)) else Place(s, p) == '0' {
      assert 4 * p < max <==> 4 * p < 4 * digits;
    }
  }

  lemma CutIff(value: int, low: nat, m: nat, cut: nat)
    requires value == low + m * cut && low < m
    ensures cut == 0 <==> value < m
  {
    assert cut > 0 ==> m * cut >= m;
  }

  // ----- printing one core -----

  function OneBit(shift: nat): char {
    if shift == 0 then '1' else if shift == 1 then '2' else if shift == 2 then '4' else '8'
  }

  /** The mask of core `idx` alone: one digit with one bit, then zeros. */
  function Print(idx: nat): (s: string)
    ensures |s| == idx / 4 + 1
  {
    [OneBit(idx % 4)] + seq(idx / 4, _ => '0')
  }

  lemma OneBitHasOneBit(shift: nat, j: nat)
    requires shift < 4 && j < 4
    ensures Bit(Digit(OneBit(shift)), j) <==> j == shift
  {
    var v := Digit(OneBit(shift));
    assert Bit(v, 1) == Bit(v / 2, 0);
    assert Bit(v, 2) == Bit(v / 2, 1) == Bit(v / 2 / 2, 0);
    assert Bit(v, 3) == Bit(v / 2, 2) == Bit(v / 2 / 2, 1) == Bit(v / 2 / 2 / 2, 0);
  }

  lemma PrintedBits(idx: nat, k: nat)
    ensures BitAt(Print(idx), k) <==> k == idx
  {
    var s, p := Print(idx), k / 4;
    if p == idx / 4 {
      assert Place(s, p) == OneBit(idx % 4);
      OneBitHasOneBit(idx % 4, k % 4);
    } else if p < |s| {
      assert Place(s, p) == '0';
      ZeroBits(k % 4);
    }
  }

  lemma {:induction false} OnlyCore(s: string, idx: nat, k: nat)
    requires forall x: nat :: BitAt(s, x) <==> x == idx
    ensures Cores(s, k) == if idx < k then [idx] else []
  {
    CoresUnfold(s, k);
    if k > 0 {
      OnlyCore(s, idx, k - 1);
    }
  }

  /** The printed mask is accepted when read back, and names that core and no other. */
  lemma PrintReadsBack(idx: nat, max: nat)
    requires idx < max
    ensures Trim(Print(idx)) == Print(idx)
    ensures Acceptable(Print(idx), 0, max) && Cores(Print(idx), max) == [idx]
  {
    var s := Print(idx);
    forall x: nat ensures BitAt(s, x) <==> x == idx {
      PrintedBits(idx, x);
    }
    OnlyCore(s, idx, max);
    assert !IsBlank(s[|s| - 1]);
    forall p | 0 <= p < |s| ensures IsHex(Place(s, p)) && 4 * p < max {}
  }

  // ----- looking a core up -----

  /** `uint16_binary_search` over `arr[l..r]`, both ends included. */
  function Search(arr: seq<nat>, l: int, r: int, x: nat): int
    requires 0 <= l && r < |arr|
    decreases r - l + 1
  {
    if r >= l then
      var mid := l + (r - l) / 2;
      if arr[mid] == x then mid
      else if arr[mid] > x then Search(arr, l, mid - 1, x)
      else Search(arr, mid + 1, r, x)
    else -1
  }

  ghost predicate Rising(arr: seq<nat>) {
    forall i, j | 0 <= i < j < |arr| :: arr[i] < arr[j]
  }

  /** The search in `arr[l..r]` is right. */
  ghost predicate SearchedRight(arr: seq<nat>, l: int, r: int, x: nat, at: int)
    requires 0 <= l && r < |arr|
  {
    if at >= 0 then l <= at <= r && arr[at] == x else at == -1 && forall i | l <= i <= r :: arr[i] != x
  }

  lemma {:induction false} SearchFinds(arr: seq<nat>, l: int, r: int, x: nat)
    requires 0 <= l && r < |arr| && Rising(arr)
    ensures SearchedRight(arr, l, r, x, Search(arr, l, r, x))
    decreases r - l + 1
  {
    if r >= l {
      var mid := l + (r - l) / 2;
      if arr[mid] > x {
        SearchFinds(arr, l, mid - 1, x);
        assert forall i | mid <= i <= r :: arr[i] != x;
      } else if arr[mid] < x {
        SearchFinds(arr, mid + 1, r, x);
        assert forall i | l <= i <= mid :: arr[i] != x;
      }
    }
  }

  /** A core passes the per-port check exactly when its bit is set in the mask. */
  lemma EnabledIffBit(s: string, max: nat, core: nat)
    ensures Search(Cores(s, max), 0, |Cores(s, max)| - 1, core) >= 0 <==> core < max && BitAt(s, core)
  {
    var cores := Cores(s, max);
    CoresAreTheBits(s, max);
    FoundIffListed(cores, core);
  }

  lemma FoundIffListed(cores: seq<nat>, core: nat)
    requires Rising(cores)
    ensures Search(cores, 0, |cores| - 1, core) >= 0 <==> core in cores
  {
    SearchFinds(cores, 0, |cores| - 1, core);
  }

  // ----- the parser -----

  method TrimMask(s: string) returns (t: string)
    ensures t == Trim(s)
  {
    t := SkipLeading(s);
    if |t| >= 2 && t[0] == '0' && (t[1] == 'x' || t[1] == 'X') {
      t := t[2..];
    }
    t := DropTrailing(t);
  }

  method SkipLeading(s: string) returns (t: string)
    ensures t == SkipBlanks(s)
  {
    var a := 0;
    while a < |s| && IsBlank(s[a])
      invariant 0 <= a <= |s| && SkipBlanks(s[a..]) == SkipBlanks(s)
    {
      assert s[a..][1..] == s[a + 1..];
      a := a + 1;
    }
    t := s[a..];
  }

  method DropTrailing(s: string) returns (t: string)
    ensures t == DropBlanks(s)
  {
    var i := |s|;
    assert s[..i] == s;
    while i > 0 && IsBlank(s[i - 1])
      invariant 0 <= i <= |s| && DropBlanks(s[..i]) == DropBlanks(s)
    {
      assert s[..i][..i - 1] == s[..i - 1];
      i := i - 1;
    }
    t := s[..i];
  }

  /**
   `parse_lcore_mask`: success is exactly acceptability, and then the list is that of the set bits and
   the printed mask that of this process's core.
   */
  method ParseLcoreMask(coremask: string, procId: int, max: nat)
    returns (ok: bool, procLcore: array<nat>, count: nat, procMask: string)
    ensures ok == Acceptable(Trim(coremask), procId, max)
    ensures fresh(procLcore) && procLcore.Length == max && count <= max
    ensures ok ==> procLcore[..count] == Cores(Trim(coremask), max)
    ensures ok && 0 <= procId ==> procId < count && procMask == Print(procLcore[procId])
  {
    procLcore, count, procMask, ok := new nat[max], 0, "", false;
    var d := TrimMask(coremask);
    if d == [] {
      return;
    }
    var hex, left;
    hex, left, count, procMask := ParseDigits(d, procId, max, procLcore);
    if hex {
      var zeros := OnlyZeros(d, left);
      ok := zeros && procId < count;
    }
  }

  /** Once this process's core is in the list, its mask is printed. */
  ghost predicate Printed(procId: int, cores: seq<nat>, procMask: string) {
    0 <= procId < |cores| ==> procMask == Print(cores[procId])
  }

  /** The loop over the digits that carry cores; `left` digits remain to their left. */
  method ParseDigits(d: string, procId: int, max: nat, procLcore: array<nat>)
    returns (hex: bool, left: nat, count: nat, procMask: string)
    requires procLcore.Length == max
    modifies procLcore
    ensures left <= |d| && count <= max
    ensures hex <==> forall p | 0 <= p < |d| && 4 * p < max :: IsHex(Place(d, p))
    ensures hex ==> forall p | 0 <= p < |d| :: p < |d| - left <==> 4 * p < max
    ensures hex ==> procLcore[..count] == Cores(d, max)
    ensures hex ==> Printed(procId, Cores(d, max), procMask)
  {
    count, procMask := 0, "";
    var n, idx := 0, 0;
    CoresUnfold(d, 0);
    while n < |d| && idx < max
      invariant 0 <= n <= |d| && idx == (if 4 * n <= max then 4 * n else max) && 4 * n < max + 4
      invariant count <= idx && procLcore[..count] == Cores(d, idx)
      invariant Printed(procId, Cores(d, idx), procMask)
      invariant forall p | 0 <= p < n :: IsHex(Place(d, p))
    {
      left := |d| - n;
      if !IsHex(d[left - 1]) {
        assert !IsHex(Place(d, n));
        return false, left, count, procMask;
      }
      idx, count, procMask := ParseDigit(d, n, procId, max, procLcore, count, procMask);
      n := n + 1;
    }
    if idx < max {
      NoMoreCores(d, idx);
      NoMoreCores(d, max);
    }
    hex, left := true, |d| - n;
  }

  /** The digits left of those parsed. */
  method OnlyZeros(d: string, n: nat) returns (zeros: bool)
    requires n <= |d|
    ensures zeros <==> forall p | |d| - n <= p < |d| :: Place(d, p) == '0'
  {
    var i := n - 1;
    while i >= 0
      invariant -1 <= i < n
      invariant forall p | |d| - n <= p < |d| - 1 - i :: Place(d, p) == '0'
      decreases i
    {
      if d[i] != '0' {
        assert Place(d, |d| - 1 - i) != '0';
        return false;
      }
      i := i - 1;
    }
    zeros := true;
  }

  /** Tests bit `j` of the digit `p` places from the right: the core it stands for is `4 * p + j`. */
  method TestBit(d: string, p: nat, j: nat) returns (b: bool)
    requires p < |d| && j < 4
    ensures Cores(d, 4 * p + j + 1) == Cores(d, 4 * p + j) + if b then [4 * p + j] else []
  {
    BitOfDigit(d, p, j);
    CoresUnfold(d, 4 * p + j + 1);
    b := Bit(Digit(d[|d| - 1 - p]), j);
  }

  /** The four bits of one digit. */
  method ParseDigit(d: string, p: nat, procId: int, max: nat, procLcore: array<nat>, count0: nat, procMask0: string)
    returns (idx: nat, count: nat, procMask: string)
    requires p < |d| && 4 * p < max && procLcore.Length == max && count0 <= 4 * p
    requires procLcore[..count0] == Cores(d, 4 * p)
    requires Printed(procId, Cores(d, 4 * p), procMask0)
    modifies procLcore
    ensures idx == if 4 * p + 4 <= max then 4 * p + 4 else max
    ensures count <= idx && procLcore[..count] == Cores(d, idx)
    ensures Printed(procId, Cores(d, idx), procMask)
  {
    var j := 0;
    idx, count, procMask := 4 * p, count0, procMask0;
    while j < 4 && idx < max
      invariant 0 <= j <= 4 && idx == 4 * p + j <= max
      invariant count <= idx && procLcore[..count] == Cores(d, idx)
      invariant Printed(procId, Cores(d, idx), procMask)
    {
      var b := TestBit(d, p, j);
      if b {
        count, procMask := Enable(idx, procId, procLcore, count, procMask);
      }
      j, idx := j + 1, idx + 1;
    }
  }

  /** Enters core `idx` in the list, and prints its mask if it is this process's. */
  method Enable(idx: nat, procId: int, procLcore: array<nat>, count0: nat, procMask0: string)
    returns (count: nat, procMask: string)
    requires count0 < procLcore.Length && Printed(procId, procLcore[..count0], procMask0)
    modifies procLcore
    ensures count == count0 + 1 && procLcore[..count] == old(procLcore[..count0]) + [idx]
    ensures Printed(procId, procLcore[..count], procMask)
  {
    procLcore[count0], count := idx, count0 + 1;
    procMask := if procId == count0 then Print(idx) else procMask0;
  }
}
