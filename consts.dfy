/** Byte-level vocabulary shared by the parser and the chunk scanner
    (the constants of src/consts.go and the `newLine` of src/main.go). */
module Consts {

  /** A Go `byte` (uint8). */
  type byte = b: int | 0 <= b < 0x100

  /** The record delimiter, byte 10 (`'\n'`). */
  const NewLine: byte := 10
  /** The field separator between station name and measurement, `';'`. */
  const WordSeparator: byte := 59
  /** The sign of a negative measurement, `'-'`. */
  const MinusSymb: byte := 45
  /** The decimal point, `'.'`. */
  const Dot: byte := 46
  /** The digit zero, `'0'`. */
  const DigitZero: byte := 48

  predicate IsDigit(b: byte) {
    DigitZero <= b <= DigitZero + 9
  }

  /** ASCII text as bytes, for writing byte strings in lemmas. */
  function Ascii(s: string): (r: seq<byte>)
    requires forall i :: 0 <= i < |s| ==> s[i] as int < 0x100
    ensures |r| == |s| && forall i :: 0 <= i < |s| ==> r[i] == s[i] as int
  {
    if s == [] then [] else [s[0] as int] + Ascii(s[1..])
  }
}
