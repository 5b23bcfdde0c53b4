/** The per-token entry point: resolves a deferred separator policy in place, decodes the token and,
    when decoding succeeds, encodes the bits; a decoding error is passed on unchanged. */
module Converter {
  import opened Numerals
  import opened BitSeq
  import opened DecimalString
  import opened Config
  import opened Grouping
  import opened DigitReader
  import opened Reader
  import opened Writer

  /** The separator policy the caller holds across tokens; the first conversion fixes a deferred one. */
  class SeparatorSetting {
    var policy: WriteSeparator

    constructor(policy: WriteSeparator)
      ensures this.policy == policy
    {
      this.policy := policy;
    }
  }

  /** RuntimeDetermine becomes "," for decimal output and " " otherwise; other policies stay. */
  function ResolveSeparator(ws: WriteSeparator, wm: WriteMode): (r: WriteSeparator)
    ensures !r.RuntimeDetermine?
    ensures !ws.RuntimeDetermine? ==> r == ws
    ensures ws.RuntimeDetermine? && wm.Decimal? ==> r == Separator(",")
    ensures ws.RuntimeDetermine? && !wm.Decimal? ==> r == Separator(" ")
  {
    if ws.RuntimeDetermine? then Separator(if wm.Decimal? then "," else " ") else ws
  }

  /** What convert returns: the decoding error, or the encoding of the decoded bits under the
      resolved separator. */
  function ConvertSpec(arg: string, readMode: ReadMode, wm: WriteMode, wl: WriteLength, ws: WriteSeparator,
                       signed: bool, writePrefix: bool): Result<string>
  {
    match ReadSpec(arg, readMode, wm, wl, signed)
    case Err(msg) => Err(msg)
    case Ok(bits) => Ok(WriteSpec(bits, wm, ResolveSeparator(ws, wm), signed, writePrefix))
  }

  /** convert: the caller's policy is updated in place before the conversion. */
  method Convert(arg: string, readMode: ReadMode, wm: WriteMode, wl: WriteLength, setting: SeparatorSetting,
                 signed: bool, writePrefix: bool) returns (r: Result<string>)
    modifies setting
    ensures setting.policy == ResolveSeparator(old(setting.policy), wm)
    ensures r == ConvertSpec(arg, readMode, wm, wl, old(setting.policy), signed, writePrefix)
  {
    if setting.policy.RuntimeDetermine? {
      setting.policy := Separator(if wm.Decimal? then "," else " ");
    }
    var read := Read(arg, readMode, wm, wl, signed);
    match read
    case Ok(bits) =>
      var s := Write(bits, wm, setting.policy, signed, writePrefix);
      r := Ok(s);
    case Err(msg) =>
      r := Err(msg);
  }

  /** The conversion fails exactly when decoding fails, with the decoder's message. */
  lemma ConvertErrors(arg: string, readMode: ReadMode, wm: WriteMode, wl: WriteLength, ws: WriteSeparator,
                      signed: bool, writePrefix: bool)
    ensures ConvertSpec(arg, readMode, wm, wl, ws, signed, writePrefix).Err?
        <==> ReadSpec(arg, readMode, wm, wl, signed).Err?
    ensures ReadSpec(arg, readMode, wm, wl, signed).Err? ==>
      ConvertSpec(arg, readMode, wm, wl, ws, signed, writePrefix).msg == ReadSpec(arg, readMode, wm, wl, signed).msg
  {
  }

  /** A resolved policy is resolved again to itself, so later tokens see the same separator. */
  lemma ResolveIdempotent(ws: WriteSeparator, wm: WriteMode)
    ensures ResolveSeparator(ResolveSeparator(ws, wm), wm) == ResolveSeparator(ws, wm)
  {
  }

  /** A token with a base prefix followed by accepted digits is read by auto-detection as the
      digits in that base. */
  lemma PrefixedToken(d: string, wm: WriteMode)
    requires !wm.Decimal? && AllAccepted(d, ReadModeOf(wm))
    ensures Strip(Prefix(wm, true) + d, ReadMode.Interpret) == Stripped(false, d, ReadModeOf(wm))
  {
    var p := Prefix(wm, true);
    var t := p + d;
    assert t[..1] == "0";
    assert t[..2] == p;
    assert t[2..] == d;
    assert t[..2] != "0b" || wm.Binary?;
    assert t[..2] != "0x" || wm.Hex?;
  }

  /** Without a fixed byte width every value fits, and keeps its value. */
  lemma FitsUnlessFixed(v: nat, wm: WriteMode, wl: WriteLength)
    requires !wl.Fixed? || wm.Decimal?
    ensures Fitted(v, wm, wl, false).Ok? && BitsValue(Fitted(v, wm, wl, false).value) == v
  {
    FittedOverflow(v, wm, wl, false);
    FittedValue(v, wm, wl, false);
  }

  /** Canonical decimal digits read as decimal under auto-detection as well. */
  lemma DecimalToken(d: string, readMode: ReadMode)
    requires Canonical(d) && (readMode == ReadMode.Decimal || readMode == ReadMode.Interpret)
    ensures Strip(d, readMode) == Stripped(false, d, ReadMode.Decimal)
  {
    assert AllAccepted(d, ReadMode.Decimal);
    PlainToken(d, ReadMode.Decimal);
    if |d| > 0 {
      assert !IsHexLetter(d[0]) && d[0] != '-' && d[0] != '0';
      assert !HasHexLetter(d);
    }
  }

  /** Writing bits in binary, octal or hexadecimal, with the prefix and without separators, and
      reading the text back with auto-detection gives bits of the same value. */
  lemma {:induction false} DigitRoundTrip(bits: seq<bool>, wm: WriteMode, wl: WriteLength, signed: bool)
    requires !wm.Decimal? && |bits| > 0 && |bits| % DigitBits(wm) == 0
    requires !wl.Fixed?
    ensures var back := ReadSpec(WriteSpec(bits, wm, None, signed, true), ReadMode.Interpret, wm, wl, signed);
      back.Ok? && BitsValue(back.value) == BitsValue(bits)
  {
    var k, m := DigitBits(wm), ReadModeOf(wm);
    var d := ChunkDigits(bits, k, Upper(wm));
    ChunkCount(bits, k, Upper(wm));
    assert WriteSpec(bits, wm, None, signed, true) == Prefix(wm, true) + d by {
      GroupedPlain(d, GroupSize(wm));
    }
    ChunkDigitsRoundTrip(bits, wm);
    PrefixedToken(d, wm);
    ReadStripped(Prefix(wm, true) + d, ReadMode.Interpret, wm, wl, signed, d, m);
    ExpansionValue(d, m);
    FitsUnlessFixed(NumeralValue(d, Radix(m)), wm, wl);
  }

  /** Writing bits in unsigned decimal without separators and reading the text back as decimal
      gives bits of the same value. */
  lemma DecimalRoundTrip(bits: seq<bool>, readMode: ReadMode, wl: WriteLength, writePrefix: bool)
    requires |bits| > 0 && (readMode == ReadMode.Decimal || readMode == ReadMode.Interpret)
    ensures var back := ReadSpec(WriteSpec(bits, WriteMode.Decimal, None, false, writePrefix), readMode,
                                 WriteMode.Decimal, wl, false);
      back.Ok? && BitsValue(back.value) == BitsValue(bits)
  {
    var v := BitsValue(bits);
    var d := DecDigits(v);
    assert WriteSpec(bits, WriteMode.Decimal, None, false, writePrefix) == d by {
      GroupedPlain(d, 3);
    }
    DecimalToken(d, readMode);
    assert AllAccepted(d, ReadMode.Decimal);
    ReadStripped(d, readMode, WriteMode.Decimal, wl, false, d, ReadMode.Decimal);
    FitsUnlessFixed(v, WriteMode.Decimal, wl);
  }

  /** As written, signed decimal output reads the first bit as a sign bit, but decoding for decimal
      output reserves none: "5" decodes to 101, which signed mode writes back as -3. */
  lemma SignedDecimalAsWritten()
    ensures ConvertSpec("5", ReadMode.Decimal, WriteMode.Decimal, Unfixed, None, true, false) == Ok("-3")
  {
    var b := [true, false, true];
    ReadFive(b);
    WriteFive(b);
  }

  lemma WriteFive(b: seq<bool>)
    requires b == [true, false, true]
    ensures WriteSpec(b, WriteMode.Decimal, ResolveSeparator(None, WriteMode.Decimal), true, false) == "-3"
  {
    SignedFive(b);
    MinusThree();
    assert WriteSpec(b, WriteMode.Decimal, None, true, false) == "" + DecimalText(-3, "");
    assert "" + "-3" == "-3";
  }

  lemma MinusThree()
    ensures DecimalText(-3, "") == "-3"
  {
    assert DecDigits(3) == "3" by {
      assert DecDigits(0) == [];
    }
    GroupedPlain("3", 3);
    assert "-" + "3" == "-3";
  }

  lemma ReadFive(b: seq<bool>)
    requires b == [true, false, true]
    ensures ReadSpec("5", ReadMode.Decimal, WriteMode.Decimal, Unfixed, true) == Ok(b)
  {
    assert ToBits(5) == b by {
      assert ToBits(1) == [true];
      assert ToBits(2) == [true, false];
    }
    assert !HasPrefix("5", "-") by {
      assert "5"[..1] == "5";
    }
    assert NumeralValue("5", 10) == 5 by {
      assert "5"[..0] == [];
    }
    assert Zeros(0) + b == b;
  }

  lemma SignedFive(b: seq<bool>)
    requires b == [true, false, true]
    ensures SignedValue(b, true) == -3
  {
    assert Pow(2, 3) == 8;
    var b1, b2 := [true], [true, false];
    assert BitsValue(b1) == 1 by {
      assert b1[..0] == [];
    }
    assert BitsValue(b2) == 2 by {
      assert b2[..1] == b1;
    }
    assert BitsValue(b) == 5 by {
      assert b[..2] == b2;
    }
  }

  /** The decoding evidently intended for signed mode: the minimal width includes a sign bit, so the
      value's two's-complement form fits before it is padded and, for a '-' token, negated. */
  function SignedFitted(v: nat, wm: WriteMode, wl: WriteLength, negative: bool): Result<seq<bool>> {
    var minimal := [false] + ToBits(v);
    var target := TargetLength(|minimal|, wm, wl);
    if |minimal| > target then Err(WidthError)
    else
      var padded := Zeros(target - |minimal|) + minimal;
      Ok(if negative then Negated(padded) else padded)
  }

  /** Read as signed, the corrected decoding denotes the token's value, negated for a '-' token. */
  lemma SignedFittedValue(v: nat, wm: WriteMode, wl: WriteLength, negative: bool)
    requires SignedFitted(v, wm, wl, negative).Ok?
    ensures |SignedFitted(v, wm, wl, negative).value| > 0
    ensures SignedValue(SignedFitted(v, wm, wl, negative).value, true) == if negative then -(v as int) else v
  {
    var minimal := [false] + ToBits(v);
    var z := TargetLength(|minimal|, wm, wl) - |minimal|;
    var padded := Zeros(z) + minimal;
    SignPadded(v, z);
    if negative {
      NegatedClearTop(padded, v);
    }
  }

  /** Negating bits with a clear first bit gives bits that read, as signed, as the negated value. */
  lemma NegatedClearTop(padded: seq<bool>, v: nat)
    requires |padded| > 0 && !padded[0] && BitsValue(padded) == v
    ensures SignedValue(Negated(padded), true) == -(v as int)
  {
    var n := |padded|;
    var b := Negated(padded);
    TopBit(padded);
    NegatedValue(padded);
    TopBit(b);
    var u, P, H := BitsValue(b), Pow2(n), Pow2(n - 1);
    NegatedSign(u, P, H, BitsValue(b[1..]), b[0], v);
  }

  /** The padded minimal form with a sign bit starts with a clear bit and keeps the value. */
  lemma SignPadded(v: nat, z: nat)
    ensures var p := Zeros(z) + ([false] + ToBits(v));
      |p| > 0 && !p[0] && BitsValue(p) == v && v < Pow2(|p| - 1)
  {
    var minimal := [false] + ToBits(v);
    var p := Zeros(z) + minimal;
    assert !p[0];
    PadValue(z, minimal);
    assert Zeros(1) == [false];
    PadValue(1, ToBits(v));
    TopBit(p);
  }

  /** Negating 0 < v < 2^(n-1) in n bits sets the sign bit and reads back as -v; negating 0 leaves it clear. */
  lemma NegatedSign(u: int, p: int, h: int, low: int, top: bool, v: int)
    requires h > 0 && p == 2 * h && 0 <= v < h && u == (p - v) % p
    requires 0 <= low < h && u == (if top then h else 0) + low
    ensures (if top then u - p else u) == -v
  {
    if v == 0 {
      ModUnique(p, 1, 0, p);
    } else {
      ModUnique(p - v, 0, p - v, p);
    }
  }

  /** With the corrected decoding, signed decimal output writes the token's signed value back. */
  lemma SignedDecimalIntended(v: nat, negative: bool, wl: WriteLength, ws: WriteSeparator, writePrefix: bool)
    ensures SignedFitted(v, WriteMode.Decimal, wl, negative).Ok?
    ensures WriteSpec(SignedFitted(v, WriteMode.Decimal, wl, negative).value, WriteMode.Decimal, ws, true, writePrefix)
         == DecimalText(if negative then -(v as int) else v, SeparatorText(ws))
  {
    SignedFittedValue(v, WriteMode.Decimal, wl, negative);
  }
}
