/** The configuration record handed to the converter for each token, and its result type. */
module Config {

  /** How the token is to be read; Interpret picks the base from the token's prefix and letters. */
  datatype ReadMode = Binary | Decimal | Hex | Octal | Interpret

  /** How the bits are to be written; Hex carries the choice of upper-case letters. */
  datatype WriteMode = Binary | Decimal | Hex(upper: bool) | Octal

  /** The width policy: the minimal width rounded to whole digits, rounded to a "pretty" boundary, or a
      fixed number of bytes (6-bit bytes when writing octal). */
  datatype WriteLength = Unfixed | RoundUp | Fixed(bytes: nat)

  /** The separator policy; RuntimeDetermine is replaced by the default separator of the write mode. */
  datatype WriteSeparator = Separator(text: string) | RuntimeDetermine | None

  datatype Result<T> = Ok(value: T) | Err(msg: string)

  const UnsignedNegativeError := "Negative numbers not allowed in unsigned mode"
  const NonDecimalNegativeError := "- operator is only allowed with decimal numbers"
  const WidthError := "Number unrepresentable in fixed width"

  /** The base name used in the invalid-character message. */
  function BaseName(m: ReadMode): string {
    match m
    case Binary => "binary"
    case Octal => "octal"
    case Hex => "hexadecimal"
    case Decimal => "decimal"
    case Interpret => ""
  }

  function CharError(c: char, m: ReadMode): string {
    "Character " + [c] + " not allowed in " + BaseName(m) + " numbers"
  }

  /** The bits of one output digit. */
  function DigitBits(m: WriteMode): nat {
    match m
    case Binary => 1
    case Octal => 3
    case Hex(_) => 4
    case Decimal => 1
  }

  /** The bits of one byte: octal output uses 6-bit bytes. */
  function ByteBits(m: WriteMode): nat {
    match m
    case Octal => 6
    case Decimal => 1
    case _ => 8
  }
}
