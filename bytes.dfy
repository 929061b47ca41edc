/** The octet type shared by the serial framing layer and the hub's stream adapter. */
module Bytes {

  /** An 8-bit unsigned value, uint8_t in the source. */
  type byte = x: int | 0 <= x < 256
}
