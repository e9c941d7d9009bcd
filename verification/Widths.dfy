/** Machine words as numbers, and the characters the C library treats alike. */
module Widths {

  const TWO_32 := 0x1_0000_0000

  type Byte = n: nat | n < 0x100
  type Word = n: nat | n < 0x1_0000
  type Long = n: nat | n < TWO_32

  /** White space as `isspace` and the conversions of `sscanf` take it. */
  predicate IsSpace(c: char) { c == ' ' || '\t' <= c <= '\r' }
}
