/** Octets, and the stock option type. */
module Octets {
  type Byte = b: int | 0 <= b < 256

  type Bytes = seq<Byte>

  datatype Option<+T> = None | Some(value: T)
}
