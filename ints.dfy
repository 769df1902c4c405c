/** Machine integer ranges used by the layout layer. */
module Ints {
  /** A strictly positive byte count: every alignment the front end reports is at least 1. */
  type pos = n: nat | n >= 1 witness 1

  /** A signed 64-bit enumerator value. */
  type int64 = x: int | -0x8000_0000_0000_0000 <= x < 0x8000_0000_0000_0000

  /** A bit-field width, stored as an unsigned byte. */
  type uint8 = x: nat | x < 0x100
}
