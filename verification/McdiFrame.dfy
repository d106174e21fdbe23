/**
 Framing of a management-controller request in the shared mailbox: little-endian
 dwords, a one-word header for short commands (v1), an escape header and a second
 word for the others (v2).
 */
module McdiFrame {
  import opened Octet

  type Dword = d: nat | d < 0x1_0000_0000

  const MAILBOX: nat := 256
  const PAYLOAD_MAX: nat := 252
  const V2_ESCAPE: nat := 0x7f

  // ----- dwords -----

  function Le32(b: seq<Byte>): Dword
    requires |b| == 4
  {
    b[0] as nat + 0x100 * (b[1] as nat + 0x100 * (b[2] as nat + 0x100 * b[3] as nat))
  }

  function Bytes32(v: Dword): (b: seq<Byte>)
    ensures |b| == 4
  {
    [v % 0x100, v / 0x100 % 0x100, v / 0x100 / 0x100 % 0x100, v / 0x100 / 0x100 / 0x100]
  }

  lemma Le32OfBytes(v: Dword)
    ensures Le32(Bytes32(v)) == v
  {}

  lemma BytesOfLe32(b: seq<Byte>)
    requires |b| == 4
    ensures Bytes32(Le32(b)) == b
  {
    var v := Le32(b);
    assert v / 0x100 == b[1] as nat + 0x100 * (b[2] as nat + 0x100 * b[3] as nat);
    assert v / 0x100 / 0x100 == b[2] as nat + 0x100 * b[3] as nat;
  }

  // ----- headers -----

  function V1Header(code: nat, len: nat, seqno: nat, notEpoch: bool): Dword {
    code % 0x80 + len % 0x100 * 0x100 + seqno % 0x10 * 0x1_0000 + (if notEpoch then 0x20_0000 else 0)
  }

  function V2Header(cmd: nat, len: nat): Dword {
    cmd % 0x8000 + len % 0x400 * 0x1_0000
  }

  function CodeOf(h: Dword): nat { h % 0x80 }
  function LenOf(h: Dword): nat { h / 0x100 % 0x100 }
  function SeqOf(h: Dword): nat { h / 0x1_0000 % 0x10 }
  predicate NotEpochOf(h: Dword) { h / 0x20_0000 % 2 == 1 }
  predicate ErrorOf(h: Dword) { h / 0x40_0000 % 2 == 1 }
  predicate ResponseOf(h: Dword) { h / 0x80_0000 % 2 == 1 }
  function CmdOfV2(h: Dword): nat { h % 0x8000 }
  function LenOfV2(h: Dword): nat { h / 0x1_0000 % 0x400 }

  /** Every field of a header reads back, and a request never looks like a response. */
  lemma V1HeaderReadsBack(code: nat, len: nat, seqno: nat, notEpoch: bool)
    ensures var h := V1Header(code, len, seqno, notEpoch);
            && CodeOf(h) == code % 0x80 && LenOf(h) == len % 0x100 && SeqOf(h) == seqno % 0x10
            && NotEpochOf(h) == notEpoch && !ErrorOf(h) && !ResponseOf(h)
  {
    var h := V1Header(code, len, seqno, notEpoch);
    var e := if notEpoch then 1 else 0;
    assert h / 0x100 == len % 0x100 + seqno % 0x10 * 0x100 + e * 0x2000;
    assert h / 0x1_0000 == seqno % 0x10 + e * 0x20;
    assert h / 0x20_0000 == e;
  }

  lemma V2HeaderReadsBack(cmd: nat, len: nat)
    ensures CmdOfV2(V2Header(cmd, len)) == cmd % 0x8000 && LenOfV2(V2Header(cmd, len)) == len % 0x400
  {}

  // ----- the request image -----

  predicate UsesV2(cmd: nat, len: nat) {
    cmd >= V2_ESCAPE || len > PAYLOAD_MAX
  }

  function PayloadOffset(cmd: nat, len: nat): nat {
    if UsesV2(cmd, len) then 8 else 4
  }

  function Padded(len: nat): (p: nat)
    ensures len <= p < len + 4 && p % 4 == 0
  {
    (len + 3) / 4 * 4
  }

  /** How many bytes of memory a request occupies, from the start of the mailbox. */
  function Extent(cmd: nat, len: nat): nat {
    PayloadOffset(cmd, len) + Padded(len)
  }

  datatype Request = Request(cmd: nat, seqno: nat, notEpoch: bool, payload: seq<Byte>) | Garbled

  /** What the controller reads out of a mailbox. */
  function DecodeRequest(m: seq<Byte>): Request {
    if |m| < 8 then Garbled
    else
      var h := Le32(m[..4]);
      if CodeOf(h) == V2_ESCAPE then
        var h2 := Le32(m[4..8]);
        if 8 + LenOfV2(h2) > |m| then Garbled
        else Request(CmdOfV2(h2), SeqOf(h), NotEpochOf(h), m[8..8 + LenOfV2(h2)])
      else if 4 + LenOf(h) > |m| then Garbled
      else Request(CodeOf(h), SeqOf(h), NotEpochOf(h), m[4..4 + LenOf(h)])
  }

  lemma DecodesV1(m: seq<Byte>, r: Request)
    requires r.Request? && |m| >= 8 && |m| >= 4 + |r.payload| && m[4..4 + |r.payload|] == r.payload
    requires var h := Le32(m[..4]);
             CodeOf(h) == r.cmd != V2_ESCAPE && LenOf(h) == |r.payload| && SeqOf(h) == r.seqno && NotEpochOf(h) == r.notEpoch
    ensures DecodeRequest(m) == r
  {}

  lemma DecodesV2(m: seq<Byte>, r: Request)
    requires r.Request? && |m| >= 8 + |r.payload| && m[8..8 + |r.payload|] == r.payload
    requires var h := Le32(m[..4]); CodeOf(h) == V2_ESCAPE && SeqOf(h) == r.seqno && NotEpochOf(h) == r.notEpoch
    requires var h2 := Le32(m[4..8]); CmdOfV2(h2) == r.cmd && LenOfV2(h2) == |r.payload|
    ensures DecodeRequest(m) == r
  {}

  lemma TwoHeaders(m: seq<Byte>, b: seq<Byte>, b2: seq<Byte>)
    requires |b| == |b2| == 4 && |m| >= 8 && m[..8] == b + b2
    ensures m[..4] == b && m[4..8] == b2
  {
    assert m[..4] == m[..8][..4] && m[4..8] == m[..8][4..];
  }

  /**
   For every length the driver accepts, the request stays inside the 256-byte mailbox
   if and only if the framing is v1 or the payload has at most 248 bytes.
   */
  lemma RequestFits(cmd: nat, len: nat)
    requires len <= PAYLOAD_MAX
    ensures Extent(cmd, len) <= MAILBOX <==> cmd < V2_ESCAPE || len <= MAILBOX - 8
  {}

  /** The same of reading an answer of `used` bytes at `off`: it may only end up outside after the v2 headers. */
  lemma AnswerFits(off: nat, used: nat)
    requires off in {4, 8} && used <= PAYLOAD_MAX
    ensures off + Padded(used) <= MAILBOX <==> off == 4 || used <= MAILBOX - 8
  {}

  // ----- the mailbox, in place -----

  /** `m` is `m0` with `bytes` written at `off`. */
  ghost predicate Written(m0: seq<Byte>, m: seq<Byte>, off: nat, bytes: seq<Byte>) {
    && |m| == |m0| && off + |bytes| <= |m|
    && (forall j | 0 <= j < |bytes| :: m[off + j] == bytes[j])
    && (forall i | 0 <= i < |m| && !(off <= i < off + |bytes|) :: m[i] == m0[i])
  }

  lemma WrittenTwice(m0: seq<Byte>, m1: seq<Byte>, m2: seq<Byte>, off: nat, a: seq<Byte>, b: seq<Byte>)
    requires Written(m0, m1, off, a) && Written(m1, m2, off + |a|, b)
    ensures Written(m0, m2, off, a + b)
  {
    forall j | 0 <= j < |a + b|
      ensures m2[off + j] == (a + b)[j]
    {
      if j >= |a| {
        assert m2[off + |a| + (j - |a|)] == b[j - |a|];
      }
    }
  }

  lemma WrittenReadsBack(m0: seq<Byte>, m: seq<Byte>, off: nat, bytes: seq<Byte>, i: nat, j: nat)
    requires Written(m0, m, off, bytes) && i <= j <= |bytes|
    ensures m[off + i..off + j] == bytes[i..j]
    ensures m[off + |bytes|..] == m0[off + |bytes|..]
  {}

  function Zeros(k: nat): seq<Byte> {
    seq(k, _ => 0)
  }

  /** The memory that starts with the mailbox. */
  class Mailbox {
    const mem: array<Byte>

    constructor (size: nat)
      ensures mem.Length == size && fresh(mem)
    {
      mem := new Byte[size](_ => 0);
    }

    /** `mcdi_buf_write_dword`. */
    method WriteDword(off: nat, b: seq<Byte>)
      requires |b| == 4 && off + 4 <= mem.Length
      modifies mem
      ensures Written(old(mem[..]), mem[..], off, b)
    {
      var v := Bytes32(Le32(b));
      BytesOfLe32(b);
      mem[off], mem[off + 1], mem[off + 2], mem[off + 3] := v[0], v[1], v[2], v[3];
    }

    /** `mcdi_buf_read_dword`. */
    method ReadDword(off: nat) returns (v: Dword)
      requires off + 4 <= mem.Length
      ensures v == Le32(mem[off..off + 4])
    {
      v := Le32(mem[off..off + 4]);
    }

    /** The whole dwords of `mcdi_buf_write_payload`. */
    method WriteDwords(off: nat, src: seq<Byte>)
      requires |src| % 4 == 0 && off + |src| <= mem.Length
      modifies mem
      ensures Written(old(mem[..]), mem[..], off, src)
    {
      var i := 0;
      while i + 4 <= |src|
        invariant i <= |src| && i % 4 == 0
        invariant Written(old(mem[..]), mem[..], off, src[..i])
      {
        ghost var before := mem[..];
        WriteDword(off + i, src[i..i + 4]);
        WrittenTwice(old(mem[..]), before, mem[..], off, src[..i], src[i..i + 4]);
        assert src[..i] + src[i..i + 4] == src[..i + 4];
        i := i + 4;
      }
      assert src[..i] == src;
    }

    /** `mcdi_buf_write_payload`: whole dwords, then a tail padded with zeros. */
    method WritePayload(off: nat, src: seq<Byte>)
      requires off + Padded(|src|) <= mem.Length
      modifies mem
      ensures Written(old(mem[..]), mem[..], off, src + Zeros(Padded(|src|) - |src|))
    {
      var k := |src| / 4 * 4;
      WriteDwords(off, src[..k]);
      if k < |src| {
        ghost var before := mem[..];
        var tail := src[k..] + Zeros(4 - (|src| - k));
        WriteDword(off + k, tail);
        WrittenTwice(old(mem[..]), before, mem[..], off, src[..k], tail);
        assert src[..k] + tail == src + Zeros(Padded(|src|) - |src|);
      } else {
        assert src[..k] == src + Zeros(0);
      }
    }

    /** `mcdi_buf_read_payload`; `reach` is the end of what it reads. */
    method ReadPayload(off: nat, len: nat) returns (d: seq<Byte>, ghost reach: nat)
      requires off + Padded(len) <= mem.Length
      ensures d == mem[off..off + len] && reach == off + Padded(len)
    {
      d, reach := [], off;
      var i := 0;
      while i + 4 <= len
        invariant i <= len && i % 4 == 0 && d == mem[off..off + i] && reach == off + i
      {
        var b := ReadBytes(off + i);
        reach := off + i + 4;
        assert mem[off..off + i + 4] == mem[off..off + i] + b;
        d := d + b;
        i := i + 4;
      }
      if i < len {
        var b := ReadBytes(off + i);
        reach := off + i + 4;
        assert mem[off..off + len] == mem[off..off + i] + b[..len - i];
        d := d + b[..len - i];
      }
    }

    /** The bytes of one dword register. */
    method ReadBytes(off: nat) returns (b: seq<Byte>)
      requires off + 4 <= mem.Length
      ensures |b| == 4 && b == mem[off..off + 4]
    {
      var v := ReadDword(off);
      BytesOfLe32(mem[off..off + 4]);
      b := Bytes32(v);
    }

    /** The first header word, assembled field by field. */
    method BuildV1(code: nat, len: nat, seqno: nat, newEpoch: bool) returns (b: seq<Byte>)
      ensures |b| == 4
      ensures var h := Le32(b);
              && CodeOf(h) == code % 0x80 && LenOf(h) == len % 0x100 && SeqOf(h) == seqno % 0x10
              && NotEpochOf(h) == !newEpoch && !ErrorOf(h) && !ResponseOf(h)
    {
      b := Bytes32(V1Header(code, len, seqno, !newEpoch));
      Le32OfBytes(V1Header(code, len, seqno, !newEpoch));
      V1HeaderReadsBack(code, len, seqno, !newEpoch);
    }

    method BuildV2(cmd: nat, len: nat) returns (b: seq<Byte>)
      ensures |b| == 4 && CmdOfV2(Le32(b)) == cmd % 0x8000 && LenOfV2(Le32(b)) == len % 0x400
    {
      b := Bytes32(V2Header(cmd, len));
      Le32OfBytes(V2Header(cmd, len));
      V2HeaderReadsBack(cmd, len);
    }

    /** Headers, then payload. */
    method WriteRequest(hs: seq<Byte>, payload: seq<Byte>)
      requires |hs| % 4 == 0 && |hs| + Padded(|payload|) <= mem.Length
      modifies mem
      ensures mem[..][..|hs|] == hs && mem[..][|hs|..|hs| + |payload|] == payload
      ensures mem[|hs| + Padded(|payload|)..] == old(mem[|hs| + Padded(|payload|)..])
    {
      ghost var padded := payload + Zeros(Padded(|payload|) - |payload|);
      WriteDwords(0, hs);
      ghost var before := mem[..];
      WritePayload(|hs|, payload);
      WrittenTwice(old(mem[..]), before, mem[..], 0, hs, padded);
      WrittenReadsBack(old(mem[..]), mem[..], 0, hs + padded, 0, |hs|);
      WrittenReadsBack(old(mem[..]), mem[..], 0, hs + padded, |hs|, |hs| + |payload|);
      assert (hs + padded)[|hs|..|hs| + |payload|] == payload;
    }

    /**
     `sfc7120_mcdi_send_locked`. The controller reads back the sequence number, the
     epoch bit and every payload byte, and the command as itself if and only if it
     has at most 15 bits. Memory from `Extent` on is not touched.
     */
    method Send(cmd: nat, payload: seq<Byte>, seqno: nat, newEpoch: bool) returns (off: nat)
      requires |payload| <= PAYLOAD_MAX && seqno < 16 && mem.Length >= PAYLOAD_MAX + 8
      modifies mem
      ensures off == PayloadOffset(cmd, |payload|)
      ensures DecodeRequest(mem[..]) == Request(cmd % 0x8000, seqno, !newEpoch, payload)
      ensures cmd % 0x8000 == cmd <==> cmd < 0x8000
      ensures !ResponseOf(Le32(mem[..4]))
      ensures mem[Extent(cmd, |payload|)..] == old(mem[Extent(cmd, |payload|)..])
    {
      if UsesV2(cmd, |payload|) {
        assert Extent(cmd, |payload|) == 8 + Padded(|payload|);
        SendV2(cmd, payload, seqno, newEpoch);
        return 8;
      } else {
        assert Extent(cmd, |payload|) == 4 + Padded(|payload|) && cmd % 0x8000 == cmd;
        SendV1(cmd, payload, seqno, newEpoch);
        return 4;
      }
    }

    method SendV1(cmd: nat, payload: seq<Byte>, seqno: nat, newEpoch: bool)
      requires cmd < V2_ESCAPE && |payload| <= PAYLOAD_MAX && seqno < 16 && mem.Length >= PAYLOAD_MAX + 8
      modifies mem
      ensures DecodeRequest(mem[..]) == Request(cmd, seqno, !newEpoch, payload)
      ensures !ResponseOf(Le32(mem[..4]))
      ensures mem[4 + Padded(|payload|)..] == old(mem[4 + Padded(|payload|)..])
    {
      assert cmd % 0x80 == cmd && |payload| % 0x100 == |payload| && seqno % 0x10 == seqno;
      var b := BuildV1(cmd, |payload|, seqno, newEpoch);
      WriteRequest(b, payload);
      assert mem[..][..4] == mem[..4];
      DecodesV1(mem[..], Request(cmd, seqno, !newEpoch, payload));
    }

    method SendV2(cmd: nat, payload: seq<Byte>, seqno: nat, newEpoch: bool)
      requires |payload| <= PAYLOAD_MAX && seqno < 16 && mem.Length >= PAYLOAD_MAX + 8
      modifies mem
      ensures DecodeRequest(mem[..]) == Request(cmd % 0x8000, seqno, !newEpoch, payload)
      ensures !ResponseOf(Le32(mem[..4]))
      ensures mem[8 + Padded(|payload|)..] == old(mem[8 + Padded(|payload|)..])
    {
      var b := BuildV1(V2_ESCAPE, 0, seqno, newEpoch);
      var b2 := BuildV2(cmd, |payload|);
      WriteRequest(b + b2, payload);
      assert mem[..][..4] == mem[..4];
      TwoHeaders(mem[..], b, b2);
      DecodesV2(mem[..], Request(cmd % 0x8000, seqno, !newEpoch, payload));
    }
  }
}
