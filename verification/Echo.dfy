/**
 The UDP echo: a received frame is rewritten in its receive slot so that it goes back to
 its sender, with both address pairs and the ports exchanged and the IP checksum recomputed.
 */
module Echo {
  import opened Checksum
  import opened Octet

  const ETH_HDR_LEN: nat := 14
  const IP_HDR_LEN: nat := 20
  const UDP_HDR_LEN: nat := 8
  const SPF_HDR_LEN: nat := 14
  const MIN_FRAME_LEN: nat := ETH_HDR_LEN + IP_HDR_LEN + UDP_HDR_LEN + SPF_HDR_LEN

  /** Length of the IP header, from its first byte. */
  function HeaderLen(f: seq<Byte>): (n: nat)
    requires |f| >= MIN_FRAME_LEN
    ensures n <= 60 && n % 4 == 0
  {
    f[14] % 16 * 4
  }

  /** IPv4 carrying UDP, and long enough for its own headers. */
  predicate Accepted(f: seq<Byte>) {
    && |f| >= MIN_FRAME_LEN
    && 256 * (f[12] as int) + f[13] == 0x0800
    && HeaderLen(f) >= IP_HDR_LEN
    && f[23] == 17
    && |f| >= ETH_HDR_LEN + HeaderLen(f) + UDP_HDR_LEN + SPF_HDR_LEN
  }

  function Header(f: seq<Byte>): (h: seq<Byte>)
    requires Accepted(f)
    ensures |h| == HeaderLen(f)
  {
    f[ETH_HDR_LEN..ETH_HDR_LEN + HeaderLen(f)]
  }

  /** The sum over an IP header with its checksum field taken as zero. */
  function BareSum(h: seq<Byte>): nat
    requires |h| >= IP_HDR_LEN
  {
    Sum(h[..10]) + Sum(h[12..])
  }

  /** The checksum such a header should carry. */
  function Proper(h: seq<Byte>): (c: nat)
    requires |h| >= IP_HDR_LEN
    ensures c < 65536
  {
    Invert(Fold(BareSum(h)))
  }

  /** The checksum a header carries, as the host reads it. */
  function Carried(h: seq<Byte>): (c: nat)
    requires |h| >= IP_HDR_LEN
    ensures c < 65536
  {
    h[10] + 256 * (h[11] as int)
  }

  /** Where byte `i` of the reply comes from; `u` is where the UDP header starts. */
  function Source(u: nat, i: nat): nat {
    if i < 6 then i + 6
    else if i < 12 then i - 6
    else if 26 <= i < 30 then i + 4
    else if 30 <= i < 34 then i - 4
    else if u <= i < u + 2 then i + 2
    else if u + 2 <= i < u + 4 then i - 2
    else i
  }

  /** Byte `i` of the reply to `f`. */
  function ReplyByte(f: seq<Byte>, i: nat): Byte
    requires Accepted(f) && i < |f|
  {
    var u := ETH_HDR_LEN + HeaderLen(f);
    if i == 24 then Proper(Header(f)) % 256
    else if i == 25 then Proper(Header(f)) / 256
    else if u + 6 <= i < u + 8 then 0
    else f[Source(u, i)]
  }

  function Reply(f: seq<Byte>): (r: seq<Byte>)
    requires Accepted(f)
    ensures |r| == |f|
  {
    seq(|f|, i requires 0 <= i < |f| => ReplyByte(f, i))
  }

  lemma BareSumSplits(h: seq<Byte>)
    requires |h| >= IP_HDR_LEN
    ensures Sum(h) == BareSum(h) + Carried(h)
  {
    var field := h[10..12];
    assert h == h[..10] + (field + h[12..]);
    SumConcat(h[..10], field + h[12..]);
    SumConcat(field, h[12..]);
    assert field[2..] == [];
  }

  lemma AddressesAdd(h: seq<Byte>)
    requires |h| >= IP_HDR_LEN
    ensures BareSum(h) == Sum(h[..10]) + Sum(h[12..16]) + Sum(h[16..20]) + Sum(h[20..])
  {
    assert h[12..] == h[12..16] + (h[16..20] + h[20..]);
    SumConcat(h[12..16], h[16..20] + h[20..]);
    SumConcat(h[16..20], h[20..]);
  }

  /** A header passes its receiver's check when its checksum is the proper one. */
  lemma ProperVerifies(h: seq<Byte>)
    requires |h| >= IP_HDR_LEN && Carried(h) == Proper(h)
    ensures Fold(Sum(h)) == 0xffff
  {
    BareSumSplits(h);
    ChecksumCompletes(BareSum(h));
  }

  lemma ReplyShape(f: seq<Byte>)
    requires Accepted(f)
    ensures var r := Reply(f);
            && Accepted(r) && HeaderLen(r) == HeaderLen(f)
            && Header(r)[..10] == Header(f)[..10]
            && Header(r)[12..16] == Header(f)[16..20]
            && Header(r)[16..20] == Header(f)[12..16]
            && Header(r)[20..] == Header(f)[20..]
            && Carried(Header(r)) == Proper(Header(f))
  {
    var r := Reply(f);
    forall i | 0 <= i < HeaderLen(f) ensures Header(r)[i] == ReplyByte(f, i + ETH_HDR_LEN) {
      assert Header(r)[i] == r[i + ETH_HDR_LEN];
    }
    forall i | 0 <= i < HeaderLen(f) ensures Header(f)[i] == f[i + ETH_HDR_LEN] {}
    assert Header(r)[..10] == Header(f)[..10];
    assert Header(r)[12..16] == Header(f)[16..20];
    assert Header(r)[16..20] == Header(f)[12..16];
  }

  /** Exchanging the addresses leaves the checksum as it was. */
  lemma SameProper(f: seq<Byte>)
    requires Accepted(f)
    ensures Accepted(Reply(f)) && Proper(Header(Reply(f))) == Proper(Header(f))
  {
    ReplyShape(f);
    AddressesAdd(Header(f));
    AddressesAdd(Header(Reply(f)));
  }

  /** Whatever checksum the frame came with, the reply's IP header passes its receiver's check. */
  lemma ReplyVerifies(f: seq<Byte>)
    requires Accepted(f)
    ensures Accepted(Reply(f)) && Fold(Sum(Header(Reply(f)))) == 0xffff
  {
    ReplyShape(f);
    SameProper(f);
    ProperVerifies(Header(Reply(f)));
  }

  predicate UdpUnchecked(f: seq<Byte>)
    requires Accepted(f)
  {
    var u := ETH_HDR_LEN + HeaderLen(f);
    f[u + 6] == 0 && f[u + 7] == 0
  }

  /** Echoing an echo gives the frame back exactly when it carried the proper IP checksum and no UDP checksum. */
  lemma EchoTwice(f: seq<Byte>)
    requires Accepted(f)
    ensures Accepted(Reply(f))
    ensures Reply(Reply(f)) == f <==> Carried(Header(f)) == Proper(Header(f)) && UdpUnchecked(f)
  {
    SameProper(f);
    ReplyShape(f);
    var r := Reply(f);
    var u := ETH_HDR_LEN + HeaderLen(f);
    var rr := Reply(r);
    forall i | 0 <= i < |f| && i != 24 && i != 25 && !(u + 6 <= i < u + 8) ensures rr[i] == f[i] {
      SourceTwice(u, i);
    }
    CarriedBytes(Header(f));
    assert f[24] == Header(f)[10] && f[25] == Header(f)[11];
    assert rr[24] == Proper(Header(f)) % 256 && rr[25] == Proper(Header(f)) / 256;
    assert rr[u + 6] == 0 && rr[u + 7] == 0;
  }

  lemma SourceTwice(u: nat, i: nat)
    requires u >= 34
    ensures Source(u, Source(u, i)) == i
    ensures i != 24 && i != 25 && !(u + 6 <= i < u + 8) ==>
              Source(u, i) != 24 && Source(u, i) != 25 && !(u + 6 <= Source(u, i) < u + 8)
  {}

  lemma CarriedBytes(h: seq<Byte>)
    requires |h| >= IP_HDR_LEN
    ensures h[10] == Carried(h) % 256 && h[11] == Carried(h) / 256
  {}

  /** A reply is always such a frame: one echo more undoes the next. */
  lemma RepliesAlternate(f: seq<Byte>)
    requires Accepted(f)
    ensures Accepted(Reply(f)) && Accepted(Reply(Reply(f)))
    ensures Reply(Reply(Reply(f))) == Reply(f)
  {
    ReplyShape(f);
    SameProper(f);
    SameProper(Reply(f));
    assert UdpUnchecked(Reply(f));
    EchoTwice(Reply(f));
  }

  // ----- the sockperf-aware server -----

  /** Where the low byte of the message's flags is. */
  function FlagsAt(f: seq<Byte>): (at: nat)
    requires Accepted(f)
    ensures at < |f|
  {
    ETH_HDR_LEN + HeaderLen(f) + UDP_HDR_LEN + 9
  }

  /** With `SPF_STRICT`: CLIENT set, PONG set and WARMUP clear (bits 0, 1 and 2 of the flags). */
  predicate AcceptedStrict(f: seq<Byte>) {
    Accepted(f) && f[FlagsAt(f)] % 2 == 1 && f[FlagsAt(f)] / 2 % 2 == 1 && f[FlagsAt(f)] / 4 % 2 == 0
  }

  /** The request with its CLIENT bit cleared. */
  function Cleared(f: seq<Byte>): seq<Byte>
    requires AcceptedStrict(f)
  {
    f[FlagsAt(f) := f[FlagsAt(f)] - 1]
  }

  function StrictReply(f: seq<Byte>): (r: seq<Byte>)
    requires AcceptedStrict(f)
    ensures |r| == |f|
  {
    Reply(f)[FlagsAt(f) := f[FlagsAt(f)] - 1]
  }

  /** Clearing the bit first, as the server does, gives the same reply. */
  lemma ClearingCommutes(f: seq<Byte>)
    requires AcceptedStrict(f)
    ensures Accepted(Cleared(f)) && HeaderLen(Cleared(f)) == HeaderLen(f) && Reply(Cleared(f)) == StrictReply(f)
  {
    var c := Cleared(f);
    assert Header(c) == Header(f);
    forall i | 0 <= i < |f| ensures Reply(c)[i] == StrictReply(f)[i] {}
  }

  /** The reply still passes the IP check and is never echoed again: two such servers cannot keep a frame going. */
  lemma StrictReplyEndsThere(f: seq<Byte>)
    requires AcceptedStrict(f)
    ensures var r := StrictReply(f);
            Accepted(r) && !AcceptedStrict(r) && Fold(Sum(Header(r))) == 0xffff
  {
    ReplyShape(f);
    ReplyVerifies(f);
    assert Header(StrictReply(f)) == Header(Reply(f));
  }

  // ----- in the receive slot -----

  /** Exchanges the `n` bytes at `i` with those at `i + n`. */
  method Exchange(pkt: array<Byte>, i: nat, n: nat)
    requires i + 2 * n <= pkt.Length
    modifies pkt
    ensures forall k | 0 <= k < pkt.Length ::
              pkt[k] == if i <= k < i + n then old(pkt[k + n]) else if i + n <= k < i + 2 * n then old(pkt[k - n]) else old(pkt[k])
  {
    var k := 0;
    while k < n
      invariant 0 <= k <= n
      invariant forall j | 0 <= j < pkt.Length ::
                  pkt[j] == if i <= j < i + k then old(pkt[j + n]) else if i + n <= j < i + n + k then old(pkt[j - n]) else old(pkt[j])
    {
      pkt[i + k], pkt[i + n + k] := pkt[i + n + k], pkt[i + k];
      k := k + 1;
    }
  }

  /** Zeroes the checksum of the header at `from`, then stores its checksum low byte first. */
  method Seal(pkt: array<Byte>, from: nat, n: nat)
    requires IP_HDR_LEN <= n <= 60 && from + n <= pkt.Length
    modifies pkt
    ensures forall k | 0 <= k < pkt.Length && k != from + 10 && k != from + 11 :: pkt[k] == old(pkt[k])
    ensures pkt[from + 10] == Proper(old(pkt[from..from + n])) % 256
    ensures pkt[from + 11] == Proper(old(pkt[from..from + n])) / 256
  {
    ghost var h := pkt[from..from + n];
    pkt[from + 10], pkt[from + 11] := 0, 0;
    ghost var z := pkt[from..from + n];
    assert z[..10] == h[..10] && z[12..] == h[12..];
    BareSumSplits(z);
    var c := IpCksum(pkt[from..from + n]);
    pkt[from + 10], pkt[from + 11] := c % 256, c / 256;
  }

  /** The rewriting done for one received frame, in either build; `echo` says whether it is sent back. */
  method EchoFrame(pkt: array<Byte>, len: nat, strict: bool) returns (echo: bool)
    requires len <= pkt.Length
    modifies pkt
    ensures echo == old(if strict then AcceptedStrict(pkt[..len]) else Accepted(pkt[..len]))
    ensures pkt[..len] == old(if !echo then pkt[..len] else if strict then StrictReply(pkt[..len]) else Reply(pkt[..len]))
    ensures pkt[len..] == old(pkt[len..])
  {
    var frame := pkt[..len];
    echo := if strict then AcceptedStrict(frame) else Accepted(frame);
    if echo {
      var n := HeaderLen(frame);
      if strict {
        pkt[FlagsAt(frame)] := frame[FlagsAt(frame)] - 1;
        ClearingCommutes(frame);
        assert pkt[..len] == Cleared(frame);
        frame := Cleared(frame);
      }
      Rewrite(pkt, len, n, frame);
    }
  }

  method Rewrite(pkt: array<Byte>, len: nat, n: nat, ghost f: seq<Byte>)
    requires len <= pkt.Length && f == pkt[..len] && Accepted(f) && n == HeaderLen(f)
    modifies pkt
    ensures pkt[..len] == Reply(f) && pkt[len..] == old(pkt[len..])
  {
    assert Header(f) == pkt[ETH_HDR_LEN..ETH_HDR_LEN + n];
    AddressesBack(pkt, n);
    PortsBack(pkt, ETH_HDR_LEN + n);
    forall k | 0 <= k < len ensures pkt[k] == ReplyByte(f, k) {}
  }

  /** Link and network addresses exchanged, checksum renewed. */
  method AddressesBack(pkt: array<Byte>, n: nat)
    requires IP_HDR_LEN <= n <= 60 && ETH_HDR_LEN + n <= pkt.Length
    modifies pkt
    ensures pkt[24] == Proper(old(pkt[ETH_HDR_LEN..ETH_HDR_LEN + n])) % 256
    ensures pkt[25] == Proper(old(pkt[ETH_HDR_LEN..ETH_HDR_LEN + n])) / 256
    ensures forall k | 0 <= k < pkt.Length && k != 24 && k != 25 ::
              pkt[k] == if k < 6 then old(pkt[k + 6]) else if k < 12 then old(pkt[k - 6])
                        else if 26 <= k < 30 then old(pkt[k + 4]) else if 30 <= k < 34 then old(pkt[k - 4])
                        else old(pkt[k])
  {
    ghost var g := pkt[ETH_HDR_LEN..ETH_HDR_LEN + n];
    Exchange(pkt, 0, 6);
    Exchange(pkt, 26, 4);
    ExchangedHeader(pkt[ETH_HDR_LEN..ETH_HDR_LEN + n], g);
    Seal(pkt, ETH_HDR_LEN, n);
  }

  /** Ports exchanged, UDP checksum cleared. */
  method PortsBack(pkt: array<Byte>, u: nat)
    requires u + UDP_HDR_LEN <= pkt.Length
    modifies pkt
    ensures forall k | 0 <= k < pkt.Length ::
              pkt[k] == if u <= k < u + 2 then old(pkt[k + 2]) else if u + 2 <= k < u + 4 then old(pkt[k - 2])
                        else if u + 6 <= k < u + 8 then 0 else old(pkt[k])
  {
    Exchange(pkt, u, 2);
    pkt[u + 6], pkt[u + 7] := 0, 0;
  }

  lemma ExchangedHeader(h: seq<Byte>, g: seq<Byte>)
    requires |h| == |g| >= IP_HDR_LEN
    requires forall k | 0 <= k < |h| :: h[k] == g[if 12 <= k < 16 then k + 4 else if 16 <= k < 20 then k - 4 else k]
    ensures Proper(h) == Proper(g)
  {
    assert h[..10] == g[..10] && h[12..16] == g[16..20] && h[16..20] == g[12..16] && h[20..] == g[20..];
    AddressesAdd(h);
    AddressesAdd(g);
  }
}
