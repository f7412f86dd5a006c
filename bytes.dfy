/** The element type of the buffers: numpy's `uint8`. */
module Bytes {
  type byte = x: int | 0 <= x < 256
}
