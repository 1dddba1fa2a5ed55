/** Octets, as held in the source's `byte[]` arrays. */
module Bytes {
  type Byte = b: int | 0 <= b < 256
}
