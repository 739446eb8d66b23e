/**
 * Go strings are byte strings: a file name, an identifier and a
 * client-supplied file name are all sequences of bytes, and Go compares,
 * measures and slices them byte by byte. This module fixes the byte type
 * and the handful of ASCII codes the store relies on.
 */
module Bytes {

  /** One octet. */
  type byte = x: int | 0 <= x < 256

  /** Go's `int64`, the type of a `UnixNano` timestamp. */
  type int64 = x: int | -0x8000_0000_0000_0000 <= x < 0x8000_0000_0000_0000

  /** The separator between identifier and original file name. */
  const Underscore: byte := '_' as int

  /** The path separator `filepath` uses. */
  const Slash: byte := '/' as int

  /** The sign `fmt` prints in front of a negative `%d`. */
  const Minus: byte := '-' as int

  /** A decimal digit `0`-`9`. */
  predicate IsDigit(c: byte) {
    '0' as int <= c <= '9' as int
  }

  /** A lower-case hexadecimal digit `0`-`9`, `a`-`f`. */
  predicate IsLowerHex(c: byte) {
    IsDigit(c) || 'a' as int <= c <= 'f' as int
  }
}
