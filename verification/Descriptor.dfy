/**
 The 8-byte ring descriptor shared by the transmit and the receive side: a 14-bit
 byte count above a 48-bit bus address.
 */
module Descriptor {

  type Word = w: nat | w < 0x1_0000_0000_0000_0000

  const COUNT_LIMIT: nat := 0x4000
  const ADDR_LIMIT: nat := 0x1_0000_0000_0000

  /** The driver's three masked and shifted fields. */
  function Encode(paddr: nat, len: nat): Word {
    (len % 0x4000) * 0x1_0000_0000_0000 + (paddr / 0x1_0000_0000 % 0x1_0000) * 0x1_0000_0000 + paddr % 0x1_0000_0000
  }

  /** What the NIC reads out of a descriptor. */
  function Address(w: Word): nat {
    w % 0x1_0000_0000_0000
  }

  function Count(w: Word): nat {
    w / 0x1_0000_0000_0000 % 0x4000
  }

  /** The NIC reads back what was posted if and only if both fields fit. */
  lemma RoundTrip(paddr: nat, len: nat)
    ensures Address(Encode(paddr, len)) == paddr <==> paddr < ADDR_LIMIT
    ensures Count(Encode(paddr, len)) == len <==> len < COUNT_LIMIT
  {
    assert paddr == paddr / 0x1_0000_0000 * 0x1_0000_0000 + paddr % 0x1_0000_0000;
    assert paddr < ADDR_LIMIT <==> paddr / 0x1_0000_0000 < 0x1_0000;
  }
}
