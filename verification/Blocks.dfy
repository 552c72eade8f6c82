/** Bytes as bit vectors, for the ciphers. */
module Blocks {
  type Byte = bv8
  type Bytes = seq<Byte>

  /** A byte as a number. */
  function Num(b: Byte): (n: nat)
    ensures n < 256
  {
    b as nat
  }
}
