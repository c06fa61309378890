/** Bytes, of the stack and of the code segment. */
module Octets {
  type Byte = x: nat | x < 256
  type Bytes = seq<Byte>
}
