/** The range of C integers. */
module Integers {
  /** The largest 32-bit int. */
  const INT_MAX := 0x7fff_ffff
}
