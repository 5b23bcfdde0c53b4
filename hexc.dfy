/** The older C converter, built on 64-bit integers: its digit classifier, its two accumulators,
    its significant-bit counter and the read-mode inference at the top of its token parser.
    A 64-bit word is modelled as a nat below U64, read as unsigned unless Signed64 says otherwise;
    a C string is the sequence of its bytes before the terminating NUL. */
module HexC {
  import opened Numerals
  import opened BitSeq
  import Config
  import opened DigitReader

  /** The read modes; each enum constant is the number of bits a digit shifts in (0 for decimal). */
  datatype Mode = Binary | Decimal | Hex | Octal

  function ModeValue(m: Mode): nat {
    match m
    case Binary => 1
    case Decimal => 0
    case Hex => 4
    case Octal => 3
  }

  /** The decoder's read mode with the same alphabet. */
  function ReadModeOf(m: Mode): Config.ReadMode {
    match m
    case Binary => Config.ReadMode.Binary
    case Decimal => Config.ReadMode.Decimal
    case Hex => Config.ReadMode.Hex
    case Octal => Config.ReadMode.Octal
  }

  const U64: nat := 0x1_0000_0000_0000_0000
  /** TC_MIN, the word with only the top bit set. */
  const TcMin: nat := 0x8000_0000_0000_0000

  lemma WordPowers()
    ensures Pow2(63) == TcMin && Pow2(64) == U64
  {
    assert Pow(2, 2) == 4 by {
      assert Pow(2, 1) == 2;
    }
    PowAdd(2, 2, 2);
    PowAdd(2, 4, 4);
    PowAdd(2, 8, 8);
    assert Pow(2, 16) == 0x1_0000;
    PowAdd(2, 16, 16);
    assert Pow(2, 32) == 0x1_0000_0000;
    PowAdd(2, 32, 32);
    assert Pow(2, 64) == U64;
    assert Pow(2, 64) == 2 * Pow(2, 63);
  }

  /** A 64-bit word read as a two's-complement signed integer. */
  function Signed64(w: nat): int {
    if w >= TcMin then w - U64 else w
  }

  /** The byte b as a character. */
  function Char(b: bv8): char {
    (b as int) as char
  }

  /** What the classifier should answer: the digit value of a byte in the alphabet of the mode,
      the same alphabets the decoder accepts, and -1 for every other byte. */
  function CharValue(b: bv8, m: Mode): (r: int)
    ensures -1 <= r < Radix(ReadModeOf(m))
    ensures b < 48 ==> r == -1
    ensures b == 48 || b == 49 ==> r == b as int - 48
  {
    if Accepts(Char(b), ReadModeOf(m)) then DigitValue(Char(b)) else -1
  }

  /** value_of_char: subtracts offsets from the byte in 8-bit wrap-around arithmetic and compares
      against each alphabet's bound in turn. */
  method ValueOfChar(b: bv8, m: Mode) returns (r: int)
    ensures r == CharValue(b, m)
  {
    var c := b - 48;
    if c & 0x80 != 0 {
      return -1;
    }
    if c < 2 {
      return c as int;
    }
    if m == Binary {
      return -1;
    }
    if c < 8 {
      return c as int;
    }
    if m == Octal {
      return -1;
    }
    if c < 10 {
      return c as int;
    }
    if m == Decimal {
      return -1;
    }
    c := c - 17;
    if c < 6 {
      return 10 + c as int;
    }
    c := c - 32;
    if c < 6 {
      return 10 + c as int;
    }
    return -1;
  }

  /** Each alphabet extends the previous one, binary within octal within decimal within hex, with
      the same digit values. */
  lemma AlphabetsNested(b: bv8)
    ensures CharValue(b, Binary) >= 0 ==> CharValue(b, Octal) == CharValue(b, Binary)
    ensures CharValue(b, Octal) >= 0 ==> CharValue(b, Decimal) == CharValue(b, Octal)
    ensures CharValue(b, Decimal) >= 0 ==> CharValue(b, Hex) == CharValue(b, Decimal)
  {
  }

  /** Hex letters count in either case. */
  lemma HexLetters(i: bv8)
    requires i < 6
    ensures CharValue(65 + i, Hex) == CharValue(97 + i, Hex) == 10 + i as int
    ensures CharValue(65 + i, Decimal) == CharValue(97 + i, Decimal) == -1
  {
  }

  /** The accepted bytes of a token as characters, in order; every other byte is skipped. */
  function Kept(s: seq<bv8>, m: Mode): (t: string)
    ensures AllAccepted(t, ReadModeOf(m))
  {
    if |s| == 0 then ""
    else
      var t := Kept(s[..|s| - 1], m);
      if CharValue(s[|s| - 1], m) >= 0 then t + [Char(s[|s| - 1])] else t
  }

  lemma {:induction false} KeptAppend(a: seq<bv8>, b: seq<bv8>, m: Mode)
    ensures Kept(a + b, m) == Kept(a, m) + Kept(b, m)
    decreases |b|
  {
    if |b| == 0 {
      assert a + b == a;
    } else {
      var b' := b[..|b| - 1];
      assert (a + b)[..|a + b| - 1] == a + b';
      assert (a + b)[|a + b| - 1] == b[|b| - 1];
      KeptAppend(a, b', m);
    }
  }

  /** Folding one more digit into a word and then wrapping agrees with wrapping only at the end. */
  lemma ModFold(x: nat, w: nat, k: nat, v: nat, y: nat, n: nat)
    requires n > 0 && w == x % n && y == k * x + v
    ensures (w * k + v) % n == y % n
  {
    var q := x / n;
    var z := w * k + v;
    var Q, R := z / n, z % n;
    assert y == (Q + q * k) * n + R by {
      assert x == q * n + w;
      assert k * x == q * k * n + w * k;
      assert z == Q * n + R;
    }
    ModUnique(y, Q + q * k, R, n);
  }

  /** The value of the kept digits of a token, wrapped to 64 bits. */
  function WrappedValue(s: seq<bv8>, m: Mode): (w: nat)
    ensures w < U64
  {
    NumeralValue(Kept(s, m), Radix(ReadModeOf(m))) % U64
  }

  /** Whether the token starts with the underscore that marks a negative decimal. */
  predicate MarkedNegative(s: seq<bv8>) {
    |s| > 0 && s[0] == 95
  }

  /** What read_num_decimal returns. Unsigned: the wrapped value. Signed: the wrapped value with its
      top bit cleared, negated in two's complement when marked negative; TC_MIN itself, marked
      negative, stands for the most negative word and is kept. */
  function DecimalReading(s: seq<bv8>, signed: bool): (w: nat)
    ensures w < U64
  {
    var u := WrappedValue(s, Decimal);
    if !signed || (u == TcMin && MarkedNegative(s)) then u
    else
      var c := u % TcMin;
      if MarkedNegative(s) then (U64 - c) % U64 else c
  }

  /** The digits up to position i, extended by one byte. */
  lemma KeptStep(s: seq<bv8>, i: nat, m: Mode)
    requires i < |s|
    ensures Kept(s[..i + 1], m)
         == Kept(s[..i], m) + (if CharValue(s[i], m) >= 0 then [Char(s[i])] else "")
  {
    assert s[..i + 1][..i] == s[..i];
  }

  /** One step of either accumulator: wrapping after each digit keeps the wrapped value. */
  lemma FoldStep(s: seq<bv8>, i: nat, m: Mode, out: nat, value: int)
    requires i < |s| && value == CharValue(s[i], m) && value >= 0
    requires out == WrappedValue(s[..i], m)
    ensures (out * Radix(ReadModeOf(m)) + value) % U64 == WrappedValue(s[..i + 1], m)
  {
    var radix := Radix(ReadModeOf(m));
    var x, y := NumeralValue(Kept(s[..i], m), radix), NumeralValue(Kept(s[..i + 1], m), radix);
    KeptValueStep(s, i, m, value);
    ModFold(x, out, radix, value, y, U64);
  }

  /** An accepted byte shifts one more digit into the numeral of the kept digits. */
  lemma KeptValueStep(s: seq<bv8>, i: nat, m: Mode, value: int)
    requires i < |s| && value == CharValue(s[i], m) && value >= 0
    ensures var radix := Radix(ReadModeOf(m));
      NumeralValue(Kept(s[..i + 1], m), radix) == radix * NumeralValue(Kept(s[..i], m), radix) + value
  {
    var t, c := Kept(s[..i], m), Char(s[i]);
    KeptStep(s, i, m);
    assert (t + [c])[..|t|] == t;
  }

  /** One iteration of either accumulator loop, a skipped byte included. */
  lemma ReadStep(s: seq<bv8>, i: nat, m: Mode, out: nat, value: int)
    requires i < |s| && value == CharValue(s[i], m)
    requires out == WrappedValue(s[..i], m)
    ensures (if value != -1 then (out * Radix(ReadModeOf(m)) + value) % U64 else out)
         == WrappedValue(s[..i + 1], m)
  {
    KeptStep(s, i, m);
    if value != -1 {
      FoldStep(s, i, m, out, value);
    } else {
      var t := Kept(s[..i], m);
      assert t + "" == t;
      assert Kept(s[..i + 1], m) == t;
    }
  }

  /** read_num_decimal: the base-10 value of the digits, wrapped to 64 bits, then the signed
      adjustments. */
  method ReadNumDecimal(s: seq<bv8>, signed: bool) returns (r: nat)
    requires 0 !in s
    ensures r == DecimalReading(s, signed)
  {
    var out: nat := 0;
    var i := 0;
    while i < |s|
      invariant i <= |s|
      invariant out == WrappedValue(s[..i], Decimal)
    {
      var value := ValueOfChar(s[i], Decimal);
      ReadStep(s, i, Decimal, out, value);
      if value != -1 {
        out := (out * 10 + value) % U64;
      }
      i := i + 1;
    }
    assert s[..|s|] == s;
    if signed {
      var isNeg := |s| > 0 && s[0] == 95;
      if out == TcMin && isNeg {
        return out;
      }
      if out >= TcMin {
        if !isNeg || out != TcMin {
          // out ^ TC_MIN clears the top bit
          ModUnique(out, 1, out - TcMin, TcMin);
          out := out - TcMin;
        } else {
          // out is TC_MIN: already returned above
          assert false;
        }
      } else {
        ModUnique(out, 0, out, TcMin);
      }
      if isNeg {
        out := U64 - 1 - out;
        out := (out + 1) % U64;
      }
    }
    r := out;
  }

  /** The signed reading means what it says whenever the value fits: the decimal value, negated when
      marked with an underscore, down to the most negative word. */
  lemma {:induction false} SignedReadingFits(s: seq<bv8>)
    requires var n := NumeralValue(Kept(s, Decimal), 10);
      n < TcMin || (n == TcMin && MarkedNegative(s))
    ensures var n := NumeralValue(Kept(s, Decimal), 10);
      Signed64(DecimalReading(s, true)) == if MarkedNegative(s) then -(n as int) else n
  {
    var n := NumeralValue(Kept(s, Decimal), 10);
    assert U64 == 2 * TcMin;
    ModUnique(n, 0, n, U64);
    if n < TcMin {
      ModUnique(n, 0, n, TcMin);
      if MarkedNegative(s) && n > 0 {
        ModUnique(U64 - n, 0, U64 - n, U64);
      } else if MarkedNegative(s) {
        ModUnique(U64, 1, 0, U64);
      }
    }
  }

  /** Beyond the signed range the top bit is dropped before the sign is applied. */
  lemma SignedReadingOverflow(s: seq<bv8>)
    requires var u := WrappedValue(s, Decimal); u >= TcMin && !(u == TcMin && MarkedNegative(s))
    ensures var c := WrappedValue(s, Decimal) - TcMin;
      Signed64(DecimalReading(s, true)) == if MarkedNegative(s) then -c else c
  {
    var u := WrappedValue(s, Decimal);
    var c := u - TcMin;
    assert U64 == 2 * TcMin;
    ModUnique(u, 1, c, TcMin);
    if MarkedNegative(s) && c > 0 {
      ModUnique(U64 - c, 0, U64 - c, U64);
    } else if MarkedNegative(s) {
      ModUnique(U64, 1, 0, U64);
    }
  }

  /** What read_num returns: the decimal reading, or the value of the kept digits in the mode's
      base wrapped to 64 bits. */
  function Reading(s: seq<bv8>, m: Mode, signed: bool): (w: nat)
    ensures w < U64
  {
    if m == Decimal then DecimalReading(s, signed) else WrappedValue(s, m)
  }

  /** read_num: decimal tokens go to read_num_decimal; otherwise each accepted digit is shifted in
      (out <<= mode; out |= value, where the or adds the digit to the zero bits just shifted in)
      and every other byte, such as the letter of a prefix, is skipped. */
  method ReadNum(s: seq<bv8>, m: Mode, signed: bool) returns (r: nat)
    requires 0 !in s
    ensures r == Reading(s, m, signed)
  {
    if m == Decimal {
      r := ReadNumDecimal(s, signed);
      return;
    }
    var shift := Pow2(ModeValue(m));
    ChunkRadix(ReadModeOf(m));
    var out: nat := 0;
    var i := 0;
    while i < |s|
      invariant i <= |s|
      invariant out == WrappedValue(s[..i], m)
      invariant shift == Radix(ReadModeOf(m))
    {
      var value := ValueOfChar(s[i], m);
      ReadStep(s, i, m, out, value);
      if value != -1 {
        out := (out * shift + value) % U64;
      }
      i := i + 1;
    }
    assert s[..|s|] == s;
    r := out;
  }

  /** Without overflow, that is while at most 64 bits were shifted in, read_num agrees with the
      decoder: the reading is the value of the bits the decoder expands the kept digits into. */
  lemma NoOverflow(s: seq<bv8>, m: Mode, signed: bool)
    requires m != Decimal && ModeValue(m) * |Kept(s, m)| <= 64
    ensures Reading(s, m, signed) == BitsValue(Expansion(Kept(s, m), ReadModeOf(m)))
  {
    var t, rm := Kept(s, m), ReadModeOf(m);
    WordPowers();
    ExpansionValue(t, rm);
    BitsValueBound(Expansion(t, rm));
    PowMonotone(2, ModeValue(m) * |t|, 64);
    ModUnique(NumeralValue(t, Radix(rm)), 0, NumeralValue(t, Radix(rm)), U64);
  }

  /** The byte at position i of the C string, the terminator past its end. */
  function At(s: seq<bv8>, i: nat): bv8 {
    if i < |s| then s[i] else 0
  }

  /** The mode inference of num_parse when the read mode is not forced: a token not starting with
      '0' is decimal, "0x" hex, "0b" binary, and any other token starting with '0' octal. */
  function InferMode(s: seq<bv8>, readMode: Mode, forced: bool): (m: Mode)
    ensures forced ==> m == readMode
    ensures !forced ==> (m == Decimal <==> At(s, 0) != 48)
    ensures !forced && At(s, 0) == 48 ==>
      (m == Hex <==> At(s, 1) == 120) && (m == Binary <==> At(s, 1) == 98)
      && (m == Octal <==> At(s, 1) != 120 && At(s, 1) != 98)
  {
    if forced then readMode
    else if At(s, 0) != 48 then Decimal
    else if At(s, 1) == 120 then Hex
    else if At(s, 1) == 98 then Binary
    else Octal
  }

  /** An inferred base reads the token as if its prefix were absent: the leading '0' adds nothing
      and the 'x' or 'b' is outside the alphabet it selects. */
  lemma {:induction false} PrefixSkipped(s: seq<bv8>, signed: bool)
    requires InferMode(s, Decimal, false) != Decimal
    ensures var m := InferMode(s, Decimal, false);
      Reading(s, m, signed) == Reading(s[if m == Octal then 1 else 2..], m, signed)
  {
    var m := InferMode(s, Decimal, false);
    var k := if m == Octal then 1 else 2;
    var radix := Radix(ReadModeOf(m));
    var t := Kept(s[k..], m);
    PrefixKept(s, k, m);
    assert Kept(s, m) == "0" + t by {
      assert s == s[..k] + s[k..];
      KeptAppend(s[..k], s[k..], m);
    }
    LeadingZeroValue(t, radix);
    assert WrappedValue(s, m) == WrappedValue(s[k..], m);
    assert Reading(s, m, signed) == WrappedValue(s, m);
    assert Reading(s[k..], m, signed) == WrappedValue(s[k..], m);
  }

  /** A leading '0', followed when k is 2 by a byte outside the alphabet, keeps just the '0'. */
  lemma PrefixKept(s: seq<bv8>, k: nat, m: Mode)
    requires 1 <= k <= 2 && k <= |s| && s[0] == 48
    requires k == 2 ==> CharValue(s[1], m) == -1
    ensures Kept(s[..k], m) == "0"
  {
    assert Kept([48], m) == "0" by {
      assert [48][..0] == [];
    }
    if k == 2 {
      assert s[..2][..1] == [48];
    } else {
      assert s[..1] == [48];
    }
  }

  /** get_sig_bits: the bit length of the word, after a negative word (top bit set) is replaced by its
      complement, plus one when signed. */
  function SigBits(w: nat, isSigned: bool): nat
    requires w < U64
  {
    |ToBits(if w >= TcMin then U64 - 1 - w else w)| + (if isSigned then 1 else 0)
  }

  /** A positive number has one bit more than its half. */
  lemma ToBitsHalf(n: nat)
    requires n > 0
    ensures |ToBits(n)| == |ToBits(n / 2)| + 1
  {
  }

  /** get_sig_bits: the sign mask obtained by shifting the top bit arithmetically over the whole word
      complements a negative word, then the loop counts the shifts until the word is zero. */
  method GetSigBits(w: nat, isSigned: bool) returns (ret: nat)
    requires w < U64
    ensures ret == SigBits(w, isSigned)
  {
    var num: nat := if w >= TcMin then U64 - 1 - w else w;
    ret := 0;
    while num != 0
      invariant ret + |ToBits(num)| == |ToBits(if w >= TcMin then U64 - 1 - w else w)|
    {
      ToBitsHalf(num);
      num := num / 2;
      ret := ret + 1;
    }
    if isSigned {
      ret := ret + 1;
    }
  }

  /** Signed: the count is the least width in which the word's two's-complement value fits. */
  lemma SignedSigBits(w: nat)
    requires w < U64
    ensures var n := SigBits(w, true); var v := Signed64(w);
      n >= 1 && -(Pow2(n - 1) as int) <= v < Pow2(n - 1)
      && (n >= 2 ==> !(-(Pow2(n - 2) as int) <= v < Pow2(n - 2)))
  {
    var n := SigBits(w, true);
    var v := Signed64(w);
    var f := if w >= TcMin then U64 - 1 - w else w;
    assert U64 == 2 * TcMin;
    assert f == if v < 0 then -v - 1 else v;
    MinimalLength(f, n - 1);
    if n >= 2 {
      MinimalLength(f, n - 2);
    }
  }

  /** As written, an unsigned word with the top bit set is also complemented first: the all-ones
      word, which needs 64 bits, is counted as needing none. */
  lemma UnsignedTopBitUndercount()
    ensures SigBits(U64 - 1, false) == 0
    ensures |ToBits(U64 - 1)| == 64
  {
    WordPowers();
    MinimalLength(U64 - 1, 64);
    MinimalLength(U64 - 1, 63);
  }

  /** The count the callers evidently expect: a word is complemented only when it is read as
      signed, so an unsigned word is counted by its own bit length. */
  function IntendedSigBits(w: nat, isSigned: bool): nat
    requires w < U64
  {
    if isSigned then SigBits(w, true) else |ToBits(w)|
  }

  /** Unsigned, the intended count is the least width that holds the word; signed, it is the count
      as written. */
  lemma IntendedSigBitsMinimal(w: nat, isSigned: bool)
    requires w < U64
    ensures var n := IntendedSigBits(w, isSigned);
      !isSigned ==> w < Pow2(n) && (n >= 1 ==> w >= Pow2(n - 1))
    ensures isSigned ==> IntendedSigBits(w, isSigned) == SigBits(w, true)
  {
    var n := IntendedSigBits(w, isSigned);
    if !isSigned {
      MinimalLength(w, n);
      if n >= 1 {
        MinimalLength(w, n - 1);
      }
    }
  }
}
