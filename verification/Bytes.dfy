/** Bytes, in the two forms the modules need. */
module Bytes {
  /** A byte as a number, for arithmetic and decimal text. */
  type Byte = n: nat | n < 256

  /** A byte as the element of a byte string. */
  newtype Octet = n: int | 0 <= n < 256
}
