/** Octets, as handled by Python's `bytes`. */
module Bytes {
  type byte = x: int | 0 <= x < 256
}
