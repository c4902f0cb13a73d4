/** The bytes that the proxy moves around. */
module Bytes {
  newtype byte = x: int | 0 <= x < 256
}
