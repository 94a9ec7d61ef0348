/**
  Segment patterns of one 7-segment digit of the TM1637 module.

  A pattern is one byte: bit 0 lights segment A, bit 1 segment B, and so on up
  to bit 6 for segment G; bit 7 lights the dot (or colon) next to the digit.
 */
module Segments {
  import opened Wrappers

  type Byte = bv8

  // The header's SEG_A ... SEG_DP bit constants.
  const SegA: Byte := 0x01
  const SegB: Byte := 0x02
  const SegC: Byte := 0x04
  const SegD: Byte := 0x08
  const SegE: Byte := 0x10
  const SegF: Byte := 0x20
  const SegG: Byte := 0x40
  const SegDP: Byte := 0x80

  /** The seven digit segments A-G together, i.e. everything but the dot. */
  const DigitSegments: Byte := SegA | SegB | SegC | SegD | SegE | SegF | SegG

  /** A cell with nothing lit. */
  const Blank: Byte := 0

  /** The minus mark shown in front of a negative number: the middle bar only. */
  const Minus: Byte := SegG

  /** True when the dot bit of a pattern is clear. */
  predicate DotClear(b: Byte) {
    b & SegDP == 0
  }

  /**
    The patterns for the hexadecimal digits 0-9, A, b, C, d, E, F in the
    conventional shapes of 7-segment displays.
   */
  const DigitTable: seq<Byte> := [
    0x3F, 0x06, 0x5B, 0x4F, 0x66, 0x6D, 0x7D, 0x07,
    0x7F, 0x6F, 0x77, 0x7C, 0x39, 0x5E, 0x79, 0x71
  ]

  /** encodeDigit: the pattern that shows one digit of value 0-15. */
  function EncodeDigit(digit: nat): (r: Byte)
    requires digit < 16
    ensures DotClear(r)
    ensures r & DigitSegments == r
    ensures r != Blank && r != Minus
  {
    DigitTable[digit]
  }

  /**
    The inverse of EncodeDigit: which digit, if any, a pattern shows. It is
    written out pattern by pattern; DecodeEncodeDigit and DecodeDigitNone
    check it against the table in both directions.
   */
  function DecodeDigit(b: Byte): (r: Option<nat>)
    ensures r.Some? ==> r.value < 16 && EncodeDigit(r.value) == b
  {
    if b == 0x3F then Some(0)
    else if b == 0x06 then Some(1)
    else if b == 0x5B then Some(2)
    else if b == 0x4F then Some(3)
    else if b == 0x66 then Some(4)
    else if b == 0x6D then Some(5)
    else if b == 0x7D then Some(6)
    else if b == 0x07 then Some(7)
    else if b == 0x7F then Some(8)
    else if b == 0x6F then Some(9)
    else if b == 0x77 then Some(10)
    else if b == 0x7C then Some(11)
    else if b == 0x39 then Some(12)
    else if b == 0x5E then Some(13)
    else if b == 0x79 then Some(14)
    else if b == 0x71 then Some(15)
    else None
  }

  /** Every digit reads back as itself. */
  lemma DecodeEncodeDigit(d: nat)
    requires d < 16
    ensures DecodeDigit(EncodeDigit(d)) == Some(d)
  {
    match d
    case 0 =>
    case 1 =>
    case 2 =>
    case 3 =>
    case 4 =>
    case 5 =>
    case 6 =>
    case 7 =>
    case 8 =>
    case 9 =>
    case 10 =>
    case 11 =>
    case 12 =>
    case 13 =>
    case 14 =>
    case 15 =>
  }

  /** A pattern that decodes to nothing is no digit's pattern. */
  lemma DecodeDigitNone(b: Byte, d: nat)
    requires d < 16
    requires DecodeDigit(b).None?
    ensures EncodeDigit(d) != b
  {
    DecodeEncodeDigit(d);
  }

  /** Distinct digits have distinct patterns. */
  lemma EncodeDigitInjective(d: nat, e: nat)
    requires d < 16 && e < 16
    ensures EncodeDigit(d) == EncodeDigit(e) <==> d == e
  {
    DecodeEncodeDigit(d);
    DecodeEncodeDigit(e);
  }

  /** The values 10-15 show as letters: none of them looks like a decimal digit. */
  lemma HexLettersAreNotDecimal(letter: nat, decimal: nat)
    requires 10 <= letter < 16 && decimal < 10
    ensures EncodeDigit(letter) != EncodeDigit(decimal)
  {
    EncodeDigitInjective(letter, decimal);
  }
}
