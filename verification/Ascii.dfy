/** The characters the formatter, atoi and the packet parser distinguish, as bytes. */
module Ascii {
  import opened Words

  /** A digit of a lower-case numeral in a base up to 16. */
  function DigitChar(d: nat): byte
    requires d < 16
  {
    if d < 10 then 0x30 + d else 0x61 + d - 10
  }

  predicate IsDigit(c: byte) { 0x30 <= c <= 0x39 }

  /** The digit a character stands for in any base up to 16, letters in either case; 16 if none. */
  function DigitOf(c: byte): nat {
    if IsDigit(c) then c - 0x30
    else if 0x61 <= c <= 0x66 then c - 0x57
    else if 0x41 <= c <= 0x46 then c - 0x37
    else 16
  }

  const LOWER: seq<byte> := [0x30, 0x31, 0x32, 0x33, 0x34, 0x35, 0x36, 0x37, 0x38, 0x39,
                             0x61, 0x62, 0x63, 0x64, 0x65, 0x66]

  const UPPER: seq<byte> := [0x30, 0x31, 0x32, 0x33, 0x34, 0x35, 0x36, 0x37, 0x38, 0x39,
                             0x41, 0x42, 0x43, 0x44, 0x45, 0x46]

  /** Sixteen digits are written in lower case and read in either. */
  lemma DigitsAreThese(c: byte, v: nat)
    requires v < 16
    ensures DigitChar(v) == LOWER[v] && (DigitOf(c) == v <==> c == LOWER[v] || c == UPPER[v])
    ensures DigitOf(c) >= 16 ==> c !in LOWER && c !in UPPER
  {
  }

  predicate IsSpace(c: byte) { c == 0x20 || 0x09 <= c <= 0x0d }
}
