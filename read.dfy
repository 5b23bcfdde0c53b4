/** The decoder: strips the sign and the base prefix of a token, checks the sign rules, turns the
    digits into bits, trims them to the minimal width, pads them to the width policy and, for a
    negative decimal token, negates them in two's complement. */
module Reader {
  import opened Numerals
  import opened BitSeq
  import opened DecimalString
  import opened Config
  import opened DigitReader

  predicate HasPrefix(s: string, p: string) {
    |p| <= |s| && s[..|p|] == p
  }

  /** The token without its leading '-', if it has one. */
  function Unsigned(arg: string): string {
    if HasPrefix(arg, "-") then arg[1..] else arg
  }

  /** The prefix a base may be written with; decimal has none. */
  function BasePrefix(m: ReadMode): string {
    match m
    case Binary => "0b"
    case Hex => "0x"
    case Octal => "0o"
    case _ => ""
  }

  predicate HasHexLetter(s: string) {
    exists i :: 0 <= i < |s| && IsHexLetter(s[i])
  }

  /** The sign flag, the digits left after the prefix, and the read mode they are read in. */
  datatype Stripped = Stripped(negative: bool, digits: string, mode: ReadMode)

  /** Strips a leading '-', then the prefix of the read mode; Interpret tries "0b", "0x" and "0o" in
      that order and otherwise reads hex when a hex letter occurs and decimal when none does. */
  function Strip(arg: string, readMode: ReadMode): (r: Stripped)
    ensures Resolved(r.mode)
    ensures readMode != ReadMode.Interpret ==> r.mode == readMode
    ensures r.negative <==> HasPrefix(arg, "-")
    ensures Unsigned(arg) == r.digits || Unsigned(arg) == BasePrefix(r.mode) + r.digits
    ensures HasPrefix(Unsigned(arg), BasePrefix(r.mode)) ==> Unsigned(arg) == BasePrefix(r.mode) + r.digits
    ensures readMode == ReadMode.Interpret ==>
      (HasPrefix(Unsigned(arg), "0b") ==> r.mode == ReadMode.Binary)
      && (!HasPrefix(Unsigned(arg), "0b") && HasPrefix(Unsigned(arg), "0x") ==> r.mode == ReadMode.Hex)
      && (!HasPrefix(Unsigned(arg), "0b") && !HasPrefix(Unsigned(arg), "0x") && HasPrefix(Unsigned(arg), "0o")
          ==> r.mode == ReadMode.Octal)
      && (!HasPrefix(Unsigned(arg), "0b") && !HasPrefix(Unsigned(arg), "0x") && !HasPrefix(Unsigned(arg), "0o")
          ==> r.mode == (if HasHexLetter(Unsigned(arg)) then ReadMode.Hex else ReadMode.Decimal))
  {
    var negative := HasPrefix(arg, "-");
    var positive := Unsigned(arg);
    match readMode
    case Binary => Stripped(negative, if HasPrefix(positive, "0b") then positive[2..] else positive, ReadMode.Binary)
    case Hex => Stripped(negative, if HasPrefix(positive, "0x") then positive[2..] else positive, ReadMode.Hex)
    case Octal => Stripped(negative, if HasPrefix(positive, "0o") then positive[2..] else positive, ReadMode.Octal)
    case Decimal => Stripped(negative, positive, ReadMode.Decimal)
    case Interpret =>
      if HasPrefix(positive, "0b") then Stripped(negative, positive[2..], ReadMode.Binary)
      else if HasPrefix(positive, "0x") then Stripped(negative, positive[2..], ReadMode.Hex)
      else if HasPrefix(positive, "0o") then Stripped(negative, positive[2..], ReadMode.Octal)
      else if HasHexLetter(positive) then Stripped(negative, positive, ReadMode.Hex)
      else Stripped(negative, positive, ReadMode.Decimal)
  }

  /** Auto-detection reads a token exactly as the detected mode would read it when forced; it
      settles on decimal only when the token has no base prefix and no hex letter. */
  lemma InterpretAgrees(arg: string)
    ensures Strip(arg, ReadMode.Interpret) == Strip(arg, Strip(arg, ReadMode.Interpret).mode)
    ensures Strip(arg, ReadMode.Interpret).mode == ReadMode.Decimal <==>
      !HasPrefix(Unsigned(arg), "0b") && !HasPrefix(Unsigned(arg), "0x") && !HasPrefix(Unsigned(arg), "0o")
      && !HasHexLetter(Unsigned(arg))
  {
  }

  /** The value of the token's digits in the base they are read in. */
  function TokenValue(arg: string, readMode: ReadMode): nat {
    var st := Strip(arg, readMode);
    NumeralValue(st.digits, Radix(st.mode))
  }

  /** Rust's next_multiple_of: the least multiple of k that is at least n. */
  function NextMultiple(n: nat, k: nat): (r: nat)
    requires k > 0
    ensures r % k == 0 && n <= r < n + k
  {
    if n % k == 0 then n
    else
      RoundUpArith(n, k);
      n + (k - n % k)
  }

  lemma RoundUpArith(n: nat, k: nat)
    requires k > 0
    ensures (n + (k - n % k)) % k == 0
  {
    var q, rem := n / k, n % k;
    assert n + (k - rem) == (q + 1) * k;
    ModUnique(n + (k - rem), q + 1, 0, k);
  }

  /** The width the bits are padded to, given the minimal width: whole output digits (Unfixed),
      whole bytes (RoundUp; 6-bit bytes for octal, no rounding for decimal), or a fixed number of
      bytes (Fixed; decimal output keeps the minimal width). */
  function TargetLength(minLen: nat, wm: WriteMode, wl: WriteLength): (t: nat)
    ensures wl.Unfixed? ==> t % DigitBits(wm) == 0 && minLen <= t < minLen + DigitBits(wm)
    ensures wl.RoundUp? ==> t % ByteBits(wm) == 0 && minLen <= t < minLen + ByteBits(wm)
    ensures wl.Fixed? ==> t == if wm.Decimal? then minLen else wl.bytes * ByteBits(wm)
  {
    match wl
    case Unfixed => NextMultiple(minLen, DigitBits(wm))
    case RoundUp => NextMultiple(minLen, ByteBits(wm))
    case Fixed(bytes) =>
      match wm
      case Decimal => minLen
      case Octal => bytes * 6
      case _ => bytes * 8
  }

  /** The width stage of read on values: the minimal bits of v, padded with leading zeros to the
      target width (an error when they do not fit), negated when the token carried a '-'. */
  function Fitted(v: nat, wm: WriteMode, wl: WriteLength, negative: bool): Result<seq<bool>> {
    var minimal := ToBits(v);
    var target := TargetLength(|minimal|, wm, wl);
    if |minimal| > target then Err(WidthError)
    else
      var padded := Zeros(target - |minimal|) + minimal;
      Ok(if negative then Negated(padded) else padded)
  }

  /** What read returns, stated on values: the error of the first rule the token breaks, otherwise
      the token's value fitted to the width policy. */
  function ReadSpec(arg: string, readMode: ReadMode, wm: WriteMode, wl: WriteLength, signed: bool): Result<seq<bool>> {
    var st := Strip(arg, readMode);
    if !signed && st.negative then Err(UnsignedNegativeError)
    else if st.mode != ReadMode.Decimal && st.negative then Err(NonDecimalNegativeError)
    else if !AllAccepted(st.digits, st.mode) then Err(RejectError(st.digits, st.mode))
    else Fitted(NumeralValue(st.digits, Radix(st.mode)), wm, wl, st.negative)
  }

  /** A fitted result has exactly the target width, at least the minimal width, and denotes v, or
      (2^n - v) mod 2^n in n bits when negated. */
  lemma FittedValue(v: nat, wm: WriteMode, wl: WriteLength, negative: bool)
    requires Fitted(v, wm, wl, negative).Ok?
    ensures |ToBits(v)| <= |Fitted(v, wm, wl, negative).value|
    ensures |Fitted(v, wm, wl, negative).value| == TargetLength(|ToBits(v)|, wm, wl)
    ensures !negative ==> BitsValue(Fitted(v, wm, wl, negative).value) == v
    ensures negative ==> NegatedValueOf(Fitted(v, wm, wl, negative).value, v)
  {
    var minimal := ToBits(v);
    var t := TargetLength(|minimal|, wm, wl);
    var padded := Zeros(t - |minimal|) + minimal;
    var b := if negative then Negated(padded) else padded;
    assert Fitted(v, wm, wl, negative) == Ok(b);
    PaddedFacts(v, t, b, negative);
  }

  /** The padded (and possibly negated) bits at width t, stated apart from how t is chosen. */
  lemma PaddedFacts(v: nat, t: nat, b: seq<bool>, negative: bool)
    requires |ToBits(v)| <= t
    requires var padded := Zeros(t - |ToBits(v)|) + ToBits(v);
      b == if negative then Negated(padded) else padded
    ensures |b| == t
    ensures !negative ==> BitsValue(b) == v
    ensures negative ==> NegatedValueOf(b, v)
  {
    var minimal := ToBits(v);
    var padded := Zeros(t - |minimal|) + minimal;
    PadValue(t - |minimal|, minimal);
    if negative {
      NegatedFacts(padded, v, b);
    }
  }

  /** b denotes the two's complement of v at its own width: (2^n - v) mod 2^n. */
  predicate NegatedValueOf(b: seq<bool>, v: nat) {
    BitsValue(b) == (Pow2(|b|) - v) % Pow2(|b|)
  }

  lemma NegatedFacts(padded: seq<bool>, v: nat, b: seq<bool>)
    requires BitsValue(padded) == v && b == Negated(padded)
    ensures |b| == |padded| && BitsValue(b) == (Pow2(|b|) - v) % Pow2(|b|)
  {
    NegatedValue(padded);
  }

  /** The width error happens exactly for a fixed byte width, outside decimal output, that is too
      narrow for v; the other policies always fit. */
  lemma FittedOverflow(v: nat, wm: WriteMode, wl: WriteLength, negative: bool)
    ensures Fitted(v, wm, wl, negative) == Err(WidthError) <==>
      wl.Fixed? && !wm.Decimal? && v >= Pow2(wl.bytes * ByteBits(wm))
    ensures Fitted(v, wm, wl, negative).Err? ==> Fitted(v, wm, wl, negative) == Err(WidthError)
  {
    if wl.Fixed? && !wm.Decimal? {
      MinimalLength(v, wl.bytes * ByteBits(wm));
    }
  }

  /** Outside decimal output the fitted width is a whole number of output digits, so the encoder
      never meets a partial digit. */
  lemma FittedWholeDigits(v: nat, wm: WriteMode, wl: WriteLength, negative: bool)
    requires !wm.Decimal? && Fitted(v, wm, wl, negative).Ok?
    ensures |Fitted(v, wm, wl, negative).value| % DigitBits(wm) == 0
  {
    var t := TargetLength(|ToBits(v)|, wm, wl);
    FittedValue(v, wm, wl, negative);
    var k := DigitBits(wm);
    match wl
    case Unfixed =>
    case RoundUp =>
      if wm.Octal? {
        ModUnique(t, 2 * (t / 6), 0, 3);
      } else if wm.Hex? {
        ModUnique(t, 2 * (t / 8), 0, 4);
      }
    case Fixed(bytes) =>
      if wm.Octal? {
        ModUnique(t, 2 * bytes, 0, 3);
      } else if wm.Hex? {
        ModUnique(t, 2 * bytes, 0, 4);
      }
  }

  /** A read succeeds with bits of the target width that denote the token's value, or its
      two's-complement negation for a negative decimal token in signed mode. */
  lemma ReadValue(arg: string, readMode: ReadMode, wm: WriteMode, wl: WriteLength, signed: bool)
    requires ReadSpec(arg, readMode, wm, wl, signed).Ok?
    ensures var b := ReadSpec(arg, readMode, wm, wl, signed).value;
      var v := TokenValue(arg, readMode);
      var negative := HasPrefix(arg, "-");
      (negative ==> signed && Strip(arg, readMode).mode == ReadMode.Decimal)
      && |b| == TargetLength(|ToBits(v)|, wm, wl)
      && (!negative ==> BitsValue(b) == v)
      && (negative ==> NegatedValueOf(b, v))
  {
    var st := Strip(arg, readMode);
    FittedValue(NumeralValue(st.digits, Radix(st.mode)), wm, wl, st.negative);
  }

  /** The sign rules, in the order read applies them: '-' is refused in unsigned mode before it is
      refused on a non-decimal token. */
  lemma SignRules(arg: string, readMode: ReadMode, wm: WriteMode, wl: WriteLength, signed: bool)
    requires HasPrefix(arg, "-")
    ensures !signed ==> ReadSpec(arg, readMode, wm, wl, signed) == Err(UnsignedNegativeError)
    ensures signed && Strip(arg, readMode).mode != ReadMode.Decimal ==>
      ReadSpec(arg, readMode, wm, wl, signed) == Err(NonDecimalNegativeError)
  {
  }

  /** Leading zeros do not change what a token reads as, written with or without its base prefix
      ("0x007" reads as "0x7"). */
  lemma LeadingZeroIgnored(d: string, readMode: ReadMode, wm: WriteMode, wl: WriteLength, signed: bool)
    requires Resolved(readMode) && AllAccepted(d, readMode)
    ensures ReadSpec("0" + d, readMode, wm, wl, signed) == ReadSpec(d, readMode, wm, wl, signed)
    ensures ReadSpec(BasePrefix(readMode) + ("0" + d), readMode, wm, wl, signed)
         == ReadSpec(BasePrefix(readMode) + d, readMode, wm, wl, signed)
  {
    var z := "0" + d;
    var p := BasePrefix(readMode);
    LeadingZeroAccepted(d, readMode);
    PlainToken(z, readMode);
    PlainToken(d, readMode);
    ZeroPaddedRead(z, d, d, readMode, wm, wl, signed);
    ForcedPrefixToken(z, readMode);
    ForcedPrefixToken(d, readMode);
    ZeroPaddedRead(p + z, p + d, d, readMode, wm, wl, signed);
  }

  /** Two tokens that strip to the same digits, one with an extra leading '0', read alike. */
  lemma ZeroPaddedRead(x: string, y: string, d: string, m: ReadMode, wm: WriteMode, wl: WriteLength, signed: bool)
    requires Resolved(m) && AllAccepted(d, m)
    requires Strip(x, m) == Stripped(false, "0" + d, m) && Strip(y, m) == Stripped(false, d, m)
    ensures ReadSpec(x, m, wm, wl, signed) == ReadSpec(y, m, wm, wl, signed)
  {
    LeadingZeroAccepted(d, m);
    LeadingZeroValue(d, Radix(m));
    ReadStripped(x, m, wm, wl, signed, "0" + d, m);
    ReadStripped(y, m, wm, wl, signed, d, m);
  }

  lemma LeadingZeroAccepted(d: string, m: ReadMode)
    requires AllAccepted(d, m) && Accepts('0', m)
    ensures AllAccepted("0" + d, m)
  {
    var z := "0" + d;
    forall i | 0 <= i < |z|
      ensures Accepts(z[i], m)
    {
      if i > 0 {
        assert z[i] == d[i - 1];
      }
    }
  }

  /** A token that strips to accepted digits reads as their value, fitted without negation. */
  lemma ReadStripped(arg: string, readMode: ReadMode, wm: WriteMode, wl: WriteLength, signed: bool,
                     d: string, m: ReadMode)
    requires Strip(arg, readMode) == Stripped(false, d, m) && AllAccepted(d, m)
    ensures ReadSpec(arg, readMode, wm, wl, signed) == Fitted(NumeralValue(d, Radix(m)), wm, wl, false)
  {
  }

  /** A base prefix followed by accepted digits strips to the digits in the forced mode. */
  lemma ForcedPrefixToken(d: string, readMode: ReadMode)
    requires Resolved(readMode) && AllAccepted(d, readMode)
    ensures Strip(BasePrefix(readMode) + d, readMode) == Stripped(false, d, readMode)
  {
    var t := BasePrefix(readMode) + d;
    if readMode.Decimal? {
      PlainToken(d, readMode);
      assert t == d;
    } else {
      assert t[..1] == "0" && t[..2] == BasePrefix(readMode) && t[2..] == d;
    }
  }

  /** A token of accepted digits has no sign and no prefix to strip. */
  lemma PlainToken(d: string, readMode: ReadMode)
    requires Resolved(readMode) && AllAccepted(d, readMode)
    ensures Strip(d, readMode) == Stripped(false, d, readMode)
  {
    if |d| > 0 {
      assert Accepts(d[0], readMode);
    }
    if |d| > 1 {
      assert Accepts(d[1], readMode);
    }
  }

  /** Removing leading false from bits keeps the value and leaves the minimal bits. */
  method TrimLeadingZeros(bits: seq<bool>) returns (t: seq<bool>)
    ensures t == ToBits(BitsValue(bits))
  {
    t := bits;
    while |t| > 0 && !t[0]
      invariant BitsValue(t) == BitsValue(bits)
    {
      assert t == Zeros(1) + t[1..];
      PadValue(1, t[1..]);
      t := t[1..];
    }
    MinimalIsToBits(t);
  }

  /** The digit stage of read: the branch of the resolved mode turns the digits into bits that
      denote their value, or reports the first character outside the alphabet. */
  method ReadDigits(digits: string, mode: ReadMode) returns (r: Result<seq<bool>>)
    requires Resolved(mode)
    ensures !AllAccepted(digits, mode) ==> r == Err(RejectError(digits, mode))
    ensures AllAccepted(digits, mode) ==> r.Ok? && BitsValue(r.value) == NumeralValue(digits, Radix(mode))
  {
    if mode == ReadMode.Decimal {
      r := ReadDecimal(digits);
    } else {
      r := ExpandDigits(digits, mode);
      if AllAccepted(digits, mode) {
        ExpansionValue(digits, mode);
      }
    }
  }

  /** Inserts false at the front until the bits reach the target width. */
  method PadLeft(minimal: seq<bool>, target: nat) returns (bits: seq<bool>)
    requires |minimal| <= target
    ensures bits == Zeros(target - |minimal|) + minimal
  {
    bits := minimal;
    while |bits| < target
      invariant |minimal| <= |bits| <= target
      invariant bits == Zeros(|bits| - |minimal|) + minimal
    {
      assert [false] + Zeros(|bits| - |minimal|) == Zeros(|bits| + 1 - |minimal|);
      bits := [false] + bits;
    }
  }

  /** The width stage of read: trim leading zeros, check the target width, pad, then negate a
      negative token in place. */
  method FitWidth(expanded: seq<bool>, wm: WriteMode, wl: WriteLength, negative: bool) returns (r: Result<seq<bool>>)
    ensures r == Fitted(BitsValue(expanded), wm, wl, negative)
  {
    var bits := TrimLeadingZeros(expanded);
    var target := TargetLength(|bits|, wm, wl);
    if |bits| > target {
      return Err(WidthError);
    }
    bits := PadLeft(bits, target);
    if negative {
      var a := new bool[|bits|](i requires 0 <= i < |bits| => bits[i]);
      assert a[..] == bits;
      Negative(a);
      bits := a[..];
    }
    return Ok(bits);
  }

  /** read: decodes one token under the configuration. */
  method Read(arg: string, readMode: ReadMode, wm: WriteMode, wl: WriteLength, signed: bool) returns (r: Result<seq<bool>>)
    ensures r == ReadSpec(arg, readMode, wm, wl, signed)
  {
    var st := Strip(arg, readMode);
    if !signed && st.negative {
      return Err(UnsignedNegativeError);
    }
    if st.mode != ReadMode.Decimal && st.negative {
      return Err(NonDecimalNegativeError);
    }
    var expanded := ReadDigits(st.digits, st.mode);
    if expanded.Err? {
      return expanded;
    }
    r := FitWidth(expanded.value, wm, wl, st.negative && st.mode == ReadMode.Decimal);
  }
}
