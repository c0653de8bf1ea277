/** The octet shared by every model that works on byte values rather than on bits. */
module Bytes {
  type byte = x: int | 0 <= x < 256
}
