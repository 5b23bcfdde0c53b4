# Radix converter core, modelled in Dafny

The converter reads an integer token in binary, octal, decimal or hexadecimal and writes it in
another base. The Rust program (`src/main.rs`) turns each token into a bit vector with `read`, then
turns the bits into text with `write`. Between the two sits `convert`, which also settles a deferred
separator policy once for the caller. The older C tool (`hex.c`) does the same with a single 64-bit
accumulator: `value_of_char` classifies a byte, `read_num` and `read_num_decimal` fold the digits
into the word, `get_sig_bits` counts the bits worth printing, and `num_parse` infers the base from
the token's prefix.

The model is split into these modules:

- `Numerals`: powers, digit values and the value of a numeral in any radix.
- `BitSeq`: bit vectors as `seq<bool>`, most significant bit first, with their value, minimal
  form and two's-complement negation. `negative` works in place on an `array<bool>`.
- `DecimalString`: the digit strings of the decimal reader and writer. The class `DigitVec`
  holds the mutable `Vec<char>`; `sub_string`, `div_string`, `add_string` and `mult_string`
  are its methods, each proved against the string's decimal value.
- `Config`: the read, write, width and separator settings and the error texts.
- `DigitReader`: the per-character expansion of binary, octal and hex digits, and the decimal
  halve-or-decrement reduction with its replay of operations.
- `Reader`: `read` as the method `Read`, proved equal to the value-level `ReadSpec`.
- `Grouping`: separator placement, the left-to-right loop proved equal to grouping from the right.
- `Writer`: `write` as the method `Write`, proved equal to `WriteSpec`.
- `Converter`: `convert`, and the round trips from `write` back through `read`.
- `HexC`: the C tool's classifier, accumulators, mode inference and significant-bit count, on
  `bv8` bytes and words below 2^64.

## Model

| member | source | states |
|---|---|---|
| BitSeq.ToBits | src/main.rs:509-512 | the trimmed bits of v denote v, start with a set bit, and are empty exactly for 0 |
| BitSeq.MinimalIsToBits | src/main.rs:509-512 | bits without a leading zero are the minimal form of their own value, so trimming is unique |
| BitSeq.MinimalLength | src/main.rs:540-542 | the minimal form of v fits in n bits exactly when v < 2^n |
| BitSeq.PadValue | src/main.rs:543-545 | inserting false at the front keeps the value |
| BitSeq.ComplementValue | src/main.rs:77-80 | flipping every bit of n bits gives 2^n - 1 - value |
| BitSeq.AddOneValue | src/main.rs:82-88 | the flip-until-set loop adds one, wrapping to 0 from 2^n - 1 |
| BitSeq.AddOneTrailing | src/main.rs:83-88 | the loop only touches the trailing run of ones and the bit before it |
| BitSeq.NegatedValue | src/main.rs:76-89 | negation keeps the width and denotes (2^n - value) mod 2^n |
| BitSeq.NegatedInvolution | src/main.rs:76-89 | negating twice gives back the bits |
| BitSeq.Negative | src/main.rs:76-89 | the in-place method leaves the array holding the negation of its old contents |
| DecimalString.DecDigits | src/main.rs:703-707 | the decimal digits of v are canonical (no leading '0'), denote v, and are empty exactly for 0 |
| DecimalString.CanonicalUnique | src/main.rs:703-707 | a canonical digit string is the digit string of its own value |
| DecimalString.StringIsEvenParity | src/main.rs:342-347 | the last-digit test is true exactly when the value is even |
| DecimalString.DecrementDigit | src/main.rs:353-365 | the digit table of sub_string lowers a digit by one mod 10; '9' comes only from '0' |
| DecimalString.HalveDigit | src/main.rs:382-464 | the digit table of div_string gives (10 * carry + d) / 2, and the carry out is d's parity |
| DecimalString.IncrementDigit | src/main.rs:586-598 | the digit table of add_string raises a digit by one mod 10; '0' comes only from '9' |
| DecimalString.DoubleDigit | src/main.rs:611-693 | the digit table of mult_string gives (2d + carry) mod 10, with a carry out exactly when 2d + carry >= 10 |
| DecimalString.DigitVec.TrimLeadingZeros | src/main.rs:370-373 | removing leading '0's leaves a canonical suffix with the same value |
| DecimalString.DigitVec.SubString | src/main.rs:350-375 | the string afterwards is canonical and denotes its old value minus one |
| DecimalString.DigitVec.DivString | src/main.rs:378-471 | the string afterwards is canonical and denotes its old value halved, rounded down |
| DecimalString.DigitVec.AddString | src/main.rs:583-604 | the string afterwards denotes its old value plus one and stays canonical |
| DecimalString.DigitVec.MultString | src/main.rs:607-700 | the string afterwards denotes twice its old value and stays canonical |
| DigitReader.FirstRejected | src/main.rs:166-172 | the index of the first character outside the alphabet; all before it are accepted |
| DigitReader.FixedBits | src/main.rs:177-216 | one digit's pattern has the mode's width and denotes the digit |
| DigitReader.ExpansionValue | src/main.rs:164-323 | accepted digits expand to ChunkBits bits each, denoting the numeral's value |
| DigitReader.HexCaseInsensitive | src/main.rs:284-319 | upper- and lower-case hex letters expand to the same bits |
| DigitReader.ExpandDigits | src/main.rs:164-323 | the per-character loop returns the expansion, or the message for the first rejected character |
| DigitReader.DecimalBits | src/main.rs:480-504 | the bits the decimal reduction builds denote the value |
| DigitReader.ReplayOps | src/main.rs:483-504 | replaying the pushed halve/decrement operations in reverse rebuilds the value's bits |
| DigitReader.HalvedReplays | src/main.rs:496-498 | for even v, pushing false onto the bits of v/2 gives the bits of v |
| DigitReader.DecrementedReplays | src/main.rs:499-502 | for odd v > 1, replacing the last bit of v-1 by true gives the bits of v |
| DigitReader.ReadDecimal | src/main.rs:473-504 | the decimal branch rejects the first non-digit, otherwise returns bits denoting the value |
| Reader.Strip | src/main.rs:95-153 | the sign flag is the leading '-', a forced mode stays, and the digits are the token minus sign and prefix; auto-detection picks binary for "0b", else hex for "0x", else octal for "0o", else hex when a hex letter occurs and decimal when none does |
| Reader.InterpretAgrees | src/main.rs:134-151 | auto-detection strips a token the way its detected mode would; it picks decimal exactly when there is no prefix and no hex letter |
| Reader.NextMultiple | src/main.rs:523 | next_multiple_of gives the least multiple of k at or above n |
| Reader.TargetLength | src/main.rs:515-539 | Unfixed rounds up to whole digits, RoundUp to whole bytes, and Fixed gives bytes times byte bits (the minimal length for decimal) |
| Reader.FittedValue | src/main.rs:540-550 | a fitted result has the target width, is at least minimal, and denotes v, or (2^n - v) mod 2^n when negated |
| Reader.PaddedFacts | src/main.rs:543-550 | the padded bits denote v and have the target width; negated, they denote 2^n - v mod 2^n |
| Reader.FittedOverflow | src/main.rs:540-542 | fitting fails, with the width message, exactly when the minimal form is longer than the target |
| Reader.FittedWholeDigits | src/main.rs:515-539 | outside decimal output the fitted width is a whole number of output digits |
| Reader.ReadValue | src/main.rs:94-553 | a successful read is signed and decimal when the token is negative, has the target width, and denotes the token's value or its negation |
| Reader.SignRules | src/main.rs:155-161 | a '-' token fails in unsigned mode first, then outside decimal |
| Reader.LeadingZeroIgnored | src/main.rs:509-512 | a leading '0' digit does not change what is read, with or without the base prefix ("0x007" reads as "0x7") |
| Reader.PlainToken | src/main.rs:97-153 | a token of accepted digits, without sign or prefix, strips to itself |
| Reader.TrimLeadingZeros | src/main.rs:509-512 | the trimming loop leaves the minimal form of the value |
| Reader.ReadDigits | src/main.rs:163-507 | the digit stage returns bits denoting the numeral, or the message for the first rejected character |
| Reader.PadLeft | src/main.rs:543-545 | the padding loop prefixes exactly target - length zeros |
| Reader.FitWidth | src/main.rs:509-550 | the width stage is the fitting of the bits' value: trim, width check, pad and negation |
| Reader.Read | src/main.rs:94-553 | read returns exactly ReadSpec: the first sign or alphabet error, else the fitted value |
| Grouping.GroupsShape | src/main.rs:709-723 | the groups cover the digits in order; each is 1..g long, and all but the first are exactly g |
| Grouping.GroupedPlain | src/main.rs:717-722 | without a separator the digits are written unchanged |
| Grouping.PadStep | src/main.rs:709-720 | from the initial counter (g - len mod g) mod g, a group completes exactly where the remaining digits are a multiple of g |
| Grouping.EmittedGrouped | src/main.rs:709-723 | the left-to-right loop puts the separator exactly between groups of g counted from the right |
| Grouping.EmittedTrailing | src/main.rs:754-775 | an incomplete trailing chunk of bits adds one separator at the very end |
| Writer.SignedValueRange | src/main.rs:577-580 | read as signed, n bits lie in [-2^(n-1), 2^(n-1)), are negative exactly when the first bit is set, and agree with the unsigned value mod 2^n |
| Writer.NegatedMagnitude | src/main.rs:577-580 | negating bits whose first bit is set gives the magnitude of their signed value |
| Writer.Magnitude | src/main.rs:577-580 | the bits converted after the sign step denote the absolute value of the signed value |
| Writer.ChunkCount | src/main.rs:752-765 | the chunk loop writes len / k digits and leaves len mod k bits |
| Writer.ChunkDigitsValue | src/main.rs:754-775 | with no bits left over, the digits written denote the bits' value in base 2^k |
| Writer.ChunkCharReadBack | src/main.rs:729-766 | each written digit is accepted by the matching reader and expands back to its chunk |
| Writer.ChunkDigitsRoundTrip | src/main.rs:754-775 | the written digits are accepted by the reader and expand back to the same bits |
| Writer.DigitTable | src/main.rs:729-740 | the digit table holds each digit's character, with lower-case letters unless upper is set |
| Writer.WriteDecimal | src/main.rs:573-727 | the decimal branch appends the grouped decimal text of the signed or unsigned value |
| Writer.DecimalDigits | src/main.rs:703-707 | the double-and-add loop leaves the canonical decimal digits of the value |
| Writer.PushDigit | src/main.rs:713-722 | pushing digit i (and a separator when its group completes and another digit follows) turns the text the first i digits emit into the text the first i + 1 emit, and the counter keeps holding the digits the current group lacks |
| Writer.PushGroups | src/main.rs:709-723 | the decimal push loop appends the digits grouped by three |
| Writer.ChunkIndex | src/main.rs:756-765 | the shift-or loop computes the chunk's value |
| Writer.PushChunk | src/main.rs:756-774 | one chunk becomes one digit, with the separator rule applied after it |
| Writer.PushChunks | src/main.rs:752-775 | the chunk loop writes the grouped digits, plus a final separator when bits are left over |
| Writer.WriteDigits | src/main.rs:729-777 | the binary, octal and hex branch appends the grouped digit text |
| Writer.Write | src/main.rs:557-778 | write returns exactly WriteSpec: the prefix, then "0" for no bits, the decimal text, or the digit text |
| Converter.ResolveSeparator | src/main.rs:783-788 | the result is never deferred: a deferred policy becomes "," for decimal output and " " otherwise, and any other policy is kept |
| Converter.ResolveIdempotent | src/main.rs:783-788 | resolving twice is resolving once, so later tokens see the same separator |
| Converter.Convert | src/main.rs:781-799 | the caller's policy is resolved in place, and the result is the decoding error or the encoding of the decoded bits |
| Converter.ConvertErrors | src/main.rs:791-798 | convert fails exactly when read fails, with read's message |
| Converter.PrefixedToken | src/main.rs:134-143 | the prefix write adds makes auto-detection pick the written base |
| Converter.FitsUnlessFixed | src/main.rs:540-542 | without a fixed byte width every value fits and keeps its value |
| Converter.DigitRoundTrip | src/main.rs:781-799 | binary, octal or hex text written with its prefix reads back, by auto-detection, to bits of the same value |
| Converter.DecimalRoundTrip | src/main.rs:781-799 | unsigned decimal text reads back, as decimal or by auto-detection, to bits of the same value |
| Converter.SignedDecimalAsWritten | src/main.rs:515-580 | as written, signed decimal-to-decimal conversion turns "5" into "-3" |
| Converter.SignedFittedValue | src/main.rs:515-550 | with a sign bit in the minimal width, the fitted bits read as signed give the token's value, negated for '-' |
| Converter.SignedDecimalIntended | src/main.rs:573-580 | with that correction, signed decimal output writes back the token's signed value |
| HexC.CharValue | hex.c:46-60 | the classifier returns -1 or a digit below the mode's radix; bytes below '0' are rejected and '0', '1' are always digits |
| HexC.ValueOfChar | hex.c:46-60 | the byte-arithmetic classifier equals the alphabet test of the mode |
| HexC.AlphabetsNested | hex.c:49-54 | binary digits are octal digits, octal are decimal, and decimal are hex, with the same values |
| HexC.HexLetters | hex.c:55-58 | 'A'..'F' and 'a'..'f' are 10..15 in hex and rejected in decimal |
| HexC.Kept | hex.c:103-111 | the bytes the loop keeps are all in the mode's alphabet |
| HexC.ReadStep | hex.c:104-109 | one loop step keeps the word equal to the wrapped value of the digits read so far |
| HexC.ReadNumDecimal | hex.c:62-96 | read_num_decimal returns the wrapped decimal value, with the signed adjustments when signed |
| HexC.SignedReadingFits | hex.c:76-94 | signed, a value in range is read as itself, negated when marked with '_', down to -2^63 |
| HexC.SignedReadingOverflow | hex.c:82-86 | beyond the signed range the top bit is dropped before the sign is applied |
| HexC.ReadNum | hex.c:98-116 | read_num returns the read_num_decimal result for a decimal token, and otherwise the value of the kept digits in the mode's base wrapped to 64 bits |
| HexC.NoOverflow | hex.c:103-111 | within 64 bits, read_num agrees with the Rust expansion of the same digits |
| HexC.InferMode | hex.c:196-202 | a forced mode stays; otherwise the token is decimal exactly when it does not start with '0', and a token starting with '0' is hex for "0x", binary for "0b" and octal otherwise |
| HexC.PrefixSkipped | hex.c:196-203 | an inferred base reads the token as if its "0", "0x" or "0b" prefix were absent |
| HexC.GetSigBits | hex.c:118-127 | the shift loop counts the bit length of the word, complemented when the top bit is set, plus one when signed |
| HexC.SignedSigBits | hex.c:118-127 | signed, the count is the least two's-complement width holding the word |
| HexC.UnsignedTopBitUndercount | hex.c:118-127 | as written, the all-ones word read unsigned is counted as needing no bits |
| HexC.IntendedSigBitsMinimal | hex.c:118-127 | corrected, an unsigned word's count is its least width; signed counts are unchanged |

## Left out

- Command-line parsing, help text, reading tokens from standard input and printing (`main`,
  `print_help` in both programs). Each token's settings are parameters instead.
- `print_num` in `hex.c` is not modelled. It masks, sign-extends and prints the word. `num_parse`
  is modelled only up to the word it hands to `print_num`.
- The warnings of `hex.c` are not modelled: decimal overflow, two's-complement overflow, and
  "reading overflow by N bits". They only write to standard error. `total_bits` only feeds the
  last of them.
- `hex.c` shifts a signed `long long` left past its range and stores bytes in `char`. The model
  takes two's-complement wrap-around modulo 2^64 and a signed `char`. With an unsigned `char`,
  the `~value` test would accept every byte.
- `out |= value` is modelled as `out + value`. The bits just shifted in are zero and the digit is
  below the radix, so the two agree.
- Reader.TargetLength: the Rust widths are `u64`, so `len * 8` can wrap for absurd byte counts.
  The model multiplies without bound.
- Writer.Write: it takes the bits by value. The Rust `write` negates the caller's vector in place
  for a negative signed decimal, but `convert` discards that vector afterwards, so nothing
  observable is lost.
- The `panic!()` arms are not modelled: the `Interpret` arm of the digit stage, non-digits in the
  decimal helpers, and `Decimal` in the digit writer. They are unreachable: the read mode is
  always resolved first, the helpers only see validated digits (their `requires`), and the
  decimal case returns earlier.
- Converter.DigitRoundTrip: it is stated without separators, because the reader rejects ' ' and
  ','. It is also stated without fixed widths, because a fixed width can make the read fail.
- Converter.DecimalRoundTrip: it is stated for unsigned mode only. In signed mode the as-written
  decoding can change the value (see Findings).
- Converter.Convert and Reader.Read follow the code as written, including the decimal sign-bit
  issue below. The corrected decoding, `SignedFitted`, is stated and proved beside them.

## Findings

| source | as written | input that shows it | evidently intended | confidence | as-written member | corrected member |
|---|---|---|---|---|---|---|
| hex.c:118-127 | `get_sig_bits` complements every word with the top bit set, including unsigned ones | the word 0xFFFFFFFFFFFFFFFF with isSigned 0 counts 0 bits, although it needs 64; `print_num` (line 138) then keeps 1 bit | complement only when the word is read as signed | not executed | HexC.UnsignedTopBitUndercount | HexC.IntendedSigBitsMinimal |
| src/main.rs:515-580 | for decimal output the target width is the minimal width, with no room for a sign bit, yet signed `write` reads the first bit as a sign | `convert("5", Decimal, Decimal, Unfixed, None, signed, no prefix)` reads 101 and writes "-3" | reserve a sign bit when reading in signed mode, so the value is written back unchanged | not executed | Converter.SignedDecimalAsWritten | Converter.SignedDecimalIntended |
