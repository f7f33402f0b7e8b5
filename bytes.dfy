/** Octets, as held by a Node `Buffer`. */
module Bytes {

  newtype byte = x: int | 0 <= x < 256
}
