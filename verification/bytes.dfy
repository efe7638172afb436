/** Octets, as handed between the UTF-8 and base64 codecs. */
module Bytes {

  /** Rust's `u8`, kept in `int` so that codec arithmetic stays linear. */
  type byte = x: int | 0 <= x < 256

  /** A character in the 7-bit ASCII range. */
  predicate IsAscii(c: char) {
    c as int < 0x80
  }
}
