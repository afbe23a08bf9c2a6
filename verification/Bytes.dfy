/** Bytes and hexadecimal digits as numbers. */
module Bytes {
  type Digit = d: nat | d < 16
  type Byte = b: nat | b < 256

  function ByteOf(high: Digit, low: Digit): Byte {
    var h: nat, l: nat := high, low;
    16 * h + l
  }
}
