/** Octets, as `System.Byte`. */
module Bytes {
  type byte = x: int | 0 <= x < 256
}
