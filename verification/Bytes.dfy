/** Bytes, the characters that several programs name, and C strings in buffers. */
module Bytes {
  type byte = b: int | 0 <= b < 256

  const NUL: byte := 0
  const NL: byte := 10
  const CR: byte := 13
  const SPACE: byte := 32
  const DASH: byte := 45

  /** A plain char as an int: bytes from 128 up are negative. */
  function SignedChar(b: byte): int {
    if b < 128 then b else b - 256
  }

  /** What the string functions see of a buffer: the bytes before the first NUL. */
  function CString(s: seq<byte>): (r: seq<byte>)
    ensures r <= s && 0 !in r
    ensures 0 !in s ==> r == s
  {
    if s == [] || s[0] == 0 then [] else [s[0]] + CString(s[1..])
  }

  /** The bytes of a text in ASCII, with a question mark for any other character. */
  function Ascii(text: string): (s: seq<byte>)
    ensures |s| == |text| && forall i :: 0 <= i < |s| ==> s[i] == if text[i] as int < 128 then text[i] as int else 63
  {
    seq(|text|, i requires 0 <= i < |text| => if text[i] as int < 128 then text[i] as int else 63)
  }

  predicate SevenBit(s: seq<byte>) {
    forall i :: 0 <= i < |s| ==> s[i] < 128
  }
}
