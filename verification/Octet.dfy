/** Bytes, as mailbox and frames hold them. */
module Octet {

  type Byte = x: int | 0 <= x < 256
}
