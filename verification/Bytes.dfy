/** Bytes, the ASCII characters the codecs give a meaning to, and hexadecimal digits. */
module Bytes {
  type Byte = b: int | 0 <= b < 256

  const TAB: Byte := 0x09
  const LF: Byte := 0x0a
  const CR: Byte := 0x0d
  const SPACE: Byte := 0x20
  const HYPHEN: Byte := 0x2d
  const DOT: Byte := 0x2e
  const EQUALS: Byte := 0x3d
  const UNDERSCORE: Byte := 0x5f
  const CRLF: seq<Byte> := [CR, LF]

  predicate IsSevenBit(s: seq<Byte>) {
    forall k :: 0 <= k < |s| ==> s[k] < 0x80
  }

  predicate IsDigit(b: Byte) {
    0x30 <= b <= 0x39
  }

  predicate IsLetter(b: Byte) {
    0x41 <= b <= 0x5a || 0x61 <= b <= 0x7a
  }

  predicate IsHexDigit(b: Byte) {
    IsDigit(b) || 0x41 <= b <= 0x46 || 0x61 <= b <= 0x66
  }

  function HexValue(b: Byte): (v: int)
    requires IsHexDigit(b)
    ensures 0 <= v < 16
  {
    if IsDigit(b) then b - 0x30 else if b <= 0x46 then b - 0x41 + 10 else b - 0x61 + 10
  }

  /** The digit of a number below sixteen, in upper case. */
  function HexDigit(v: int): (b: Byte)
    requires 0 <= v < 16
    ensures IsHexDigit(b) && HexValue(b) == v
  {
    if v < 10 then 0x30 + v else 0x41 + (v - 10)
  }
}
