/** The digit-level half of the decoder: the alphabet of each base, the bit pattern each accepted
    binary, octal or hex character appends, and the decimal reduction that turns a digit string into
    bits through a stack of Divide / Subtract operations. */
module DigitReader {
  import opened Numerals
  import opened BitSeq
  import opened DecimalString
  import opened Config

  /** A read mode after the prefix has been resolved. */
  predicate Resolved(m: ReadMode) {
    m != ReadMode.Interpret
  }

  /** The bases whose digits map to a fixed number of bits. */
  predicate Digitwise(m: ReadMode) {
    m.Binary? || m.Octal? || m.Hex?
  }

  function Radix(m: ReadMode): nat
    requires Resolved(m)
  {
    match m
    case Binary => 2
    case Octal => 8
    case Hex => 16
    case Decimal => 10
  }

  /** Bits per digit of the three bases that are read digit by digit. */
  function ChunkBits(m: ReadMode): nat
    requires Digitwise(m)
  {
    match m
    case Binary => 1
    case Octal => 3
    case Hex => 4
  }

  /** The alphabet of each base; hex letters in either case, decimal digits ASCII only. */
  predicate Accepts(c: char, m: ReadMode) {
    match m
    case Binary => c == '0' || c == '1'
    case Octal => '0' <= c <= '7'
    case Hex => IsDecimalDigit(c) || IsHexLetter(c)
    case Decimal => IsDecimalDigit(c)
    case Interpret => false
  }

  lemma ChunkRadix(m: ReadMode)
    requires Digitwise(m)
    ensures Pow2(ChunkBits(m)) == Radix(m)
  {
    assert Pow(2, 1) == 2;
    assert Pow(2, 3) == 2 * Pow(2, 2) == 8;
    assert Pow(2, 4) == 2 * Pow(2, 3) == 16;
  }

  lemma AcceptedBelowRadix(c: char, m: ReadMode)
    requires Resolved(m) && Accepts(c, m)
    ensures DigitValue(c) < Radix(m)
  {
  }

  predicate AllAccepted(s: string, m: ReadMode) {
    forall i :: 0 <= i < |s| ==> Accepts(s[i], m)
  }

  /** Index of the first character outside the alphabet. */
  function FirstRejected(s: string, m: ReadMode): (i: nat)
    requires !AllAccepted(s, m)
    ensures i < |s| && !Accepts(s[i], m)
    ensures forall j :: 0 <= j < i ==> Accepts(s[j], m)
  {
    if !Accepts(s[0], m) then 0
    else
      assert !AllAccepted(s[1..], m) by {
        var k :| 0 <= k < |s| && !Accepts(s[k], m);
        assert s[1..][k - 1] == s[k];
      }
      1 + FirstRejected(s[1..], m)
  }

  /** The error the decoder returns for a token that is not entirely in the alphabet. */
  function RejectError(s: string, m: ReadMode): string
    requires !AllAccepted(s, m)
  {
    CharError(s[FirstRejected(s, m)], m)
  }

  /** v in exactly k bits, most significant first. */
  function FixedBits(v: nat, k: nat): (b: seq<bool>)
    ensures |b| == k
    ensures v < Pow2(k) ==> BitsValue(b) == v
  {
    if k == 0 then []
    else
      var b := FixedBits(v / 2, k - 1) + [v % 2 == 1];
      assert b[..k - 1] == FixedBits(v / 2, k - 1);
      b
  }

  /** The bits one accepted character appends: its digit value in the width of the base. */
  function Pattern(c: char, m: ReadMode): seq<bool>
    requires Digitwise(m)
  {
    FixedBits(DigitValue(c), ChunkBits(m))
  }

  /** The concatenated patterns of a digit string. */
  function Expansion(s: string, m: ReadMode): seq<bool>
    requires Digitwise(m)
  {
    if |s| == 0 then [] else Expansion(s[..|s| - 1], m) + Pattern(s[|s| - 1], m)
  }

  /** Expanding a string of accepted digits gives ChunkBits bits per digit, denoting the numeral's value. */
  lemma {:induction false} ExpansionValue(s: string, m: ReadMode)
    requires Digitwise(m) && AllAccepted(s, m)
    ensures |Expansion(s, m)| == ChunkBits(m) * |s|
    ensures BitsValue(Expansion(s, m)) == NumeralValue(s, Radix(m))
    decreases |s|
  {
    if |s| > 0 {
      var p, c := s[..|s| - 1], s[|s| - 1];
      ExpansionValue(p, m);
      var e, pat := Expansion(p, m), Pattern(c, m);
      assert Expansion(s, m) == e + pat;
      var k, radix := ChunkBits(m), Radix(m);
      assert |e + pat| == k * |s| by {
        MulSucc(k, |p|);
      }
      assert BitsValue(e + pat) == NumeralValue(s, radix) by {
        ChunkRadix(m);
        AcceptedBelowRadix(c, m);
        BitsValueAppend(e, pat);
        assert NumeralValue(s, radix) == radix * NumeralValue(p, radix) + DigitValue(c);
        ShiftIn(BitsValue(e + pat), NumeralValue(s, radix), BitsValue(e), Pow2(|pat|), BitsValue(pat), radix, DigitValue(c));
      }
    }
  }

  lemma ShiftIn(whole: int, numeral: int, high: int, weight: int, low: int, radix: int, d: int)
    requires whole == high * weight + low && weight == radix && low == d
    requires numeral == radix * high + d
    ensures whole == numeral
  {
  }

  lemma MulSucc(k: nat, n: nat)
    ensures k * (n + 1) == k * n + k
  {
  }

  /** Upper- and lower-case hex letters expand alike. */
  lemma {:induction false} HexCaseInsensitive(s: string, t: string)
    requires |s| == |t| && AllAccepted(s, ReadMode.Hex)
    requires forall i :: 0 <= i < |s| ==> DigitValue(s[i]) == DigitValue(t[i])
    ensures Expansion(s, ReadMode.Hex) == Expansion(t, ReadMode.Hex)
    decreases |s|
  {
    if |s| > 0 {
      HexCaseInsensitive(s[..|s| - 1], t[..|t| - 1]);
    }
  }

  /** The binary, octal and hex branches of read: each character appends its pattern; the first
      character outside the alphabet ends the read with an error. */
  method ExpandDigits(digits: string, m: ReadMode) returns (r: Result<seq<bool>>)
    requires Digitwise(m)
    ensures AllAccepted(digits, m) ==> r == Ok(Expansion(digits, m))
    ensures !AllAccepted(digits, m) ==> r == Err(RejectError(digits, m))
  {
    var bits: seq<bool> := [];
    for i := 0 to |digits|
      invariant AllAccepted(digits[..i], m)
      invariant bits == Expansion(digits[..i], m)
    {
      var c := digits[i];
      if !Accepts(c, m) {
        RejectedAt(digits, i, m);
        return Err(CharError(c, m));
      }
      ExpansionSnoc(digits, i, m);
      AcceptedSnoc(digits, i, m);
      bits := bits + Pattern(c, m);
    }
    assert digits[..|digits|] == digits;
    return Ok(bits);
  }

  /** The first rejected character is the one the left-to-right scan stops at. */
  lemma RejectedAt(s: string, i: nat, m: ReadMode)
    requires i < |s| && !Accepts(s[i], m)
    requires AllAccepted(s[..i], m)
    ensures !AllAccepted(s, m) && FirstRejected(s, m) == i
    ensures RejectError(s, m) == CharError(s[i], m)
  {
    assert forall j :: 0 <= j < i ==> s[..i][j] == s[j];
  }

  lemma AcceptedSnoc(s: string, i: nat, m: ReadMode)
    requires i < |s| && Accepts(s[i], m) && AllAccepted(s[..i], m)
    ensures AllAccepted(s[..i + 1], m)
  {
    assert forall j :: 0 <= j < i ==> s[..i + 1][j] == s[..i][j];
  }

  lemma ExpansionSnoc(s: string, i: nat, m: ReadMode)
    requires Digitwise(m) && i < |s|
    ensures Expansion(s[..i + 1], m) == Expansion(s[..i], m) + Pattern(s[i], m)
  {
    assert s[..i + 1][..i] == s[..i];
  }

  /** The operations pushed by the decimal reduction loop. */
  datatype Operation = Divide | Subtract

  /** The operations the reduction pushes, in push order, for a digit string of value v that is
      nonempty exactly when `nonempty`: an even value is halved, an odd one decremented, until the
      string is empty. */
  function OpsOf(v: nat, nonempty: bool): seq<Operation>
    decreases v + (if nonempty then 1 else 0)
  {
    if !nonempty then []
    else if v % 2 == 0 then [Divide] + OpsOf(v / 2, v / 2 > 0)
    else [Subtract] + OpsOf(v - 1, v - 1 > 0)
  }

  /** One popped operation applied to the bits: Divide appends 0; Subtract replaces the last bit,
      if any, by 1. */
  function ReplayStep(bits: seq<bool>, op: Operation): seq<bool> {
    match op
    case Divide => bits + [false]
    case Subtract => (if |bits| > 0 then bits[..|bits| - 1] else bits) + [true]
  }

  /** Pops every operation off the end of the stack, applying each in turn. */
  function Replay(bits: seq<bool>, ops: seq<Operation>): seq<bool>
    decreases |ops|
  {
    if |ops| == 0 then bits else Replay(ReplayStep(bits, ops[|ops| - 1]), ops[..|ops| - 1])
  }

  /** The bottom of the stack is popped last. */
  lemma {:induction false} ReplayBottom(bits: seq<bool>, op: Operation, rest: seq<Operation>)
    ensures Replay(bits, [op] + rest) == ReplayStep(Replay(bits, rest), op)
    decreases |rest|
  {
    var all := [op] + rest;
    if |rest| == 0 {
      assert all[..0] == [];
    } else {
      assert all[..|all| - 1] == [op] + rest[..|rest| - 1];
      ReplayBottom(ReplayStep(bits, rest[|rest| - 1]), op, rest[..|rest| - 1]);
    }
  }

  /** The bits the decimal branch produces before trimming: none for the empty string, a single 0
      for a nonempty string of value zero, the minimal bits otherwise. */
  function DecimalBits(v: nat, nonempty: bool): (b: seq<bool>)
    requires nonempty || v == 0
    ensures BitsValue(b) == v
  {
    if !nonempty then [] else if v == 0 then [false] else ToBits(v)
  }

  /** Replaying the operations of a value rebuilds its binary digits. */
  lemma {:induction false} ReplayOps(v: nat, nonempty: bool)
    requires nonempty || v == 0
    ensures Replay([], OpsOf(v, nonempty)) == DecimalBits(v, nonempty)
    decreases v + (if nonempty then 1 else 0)
  {
    if nonempty {
      if v % 2 == 0 {
        ReplayBottom([], Divide, OpsOf(v / 2, v / 2 > 0));
        if v > 0 {
          ReplayOps(v / 2, true);
          HalvedReplays(v);
        }
      } else {
        ReplayBottom([], Subtract, OpsOf(v - 1, v - 1 > 0));
        ReplayOps(v - 1, v - 1 > 0);
        if v > 1 {
          DecrementedReplays(v);
        }
      }
    }
  }

  lemma HalvedReplays(v: nat)
    requires v > 0 && v % 2 == 0
    ensures ReplayStep(ToBits(v / 2), Divide) == ToBits(v)
  {
  }

  lemma DecrementedReplays(v: nat)
    requires v > 1 && v % 2 == 1
    ensures ReplayStep(ToBits(v - 1), Subtract) == ToBits(v)
  {
    var h := ToBits((v - 1) / 2);
    assert ToBits(v - 1) == h + [false];
    assert (h + [false])[..|h|] == h;
  }

  /** The decimal branch of read: every character must be an ASCII digit; the digit string is then
      reduced to nothing, halving when even and decrementing when odd, and the operation stack is
      replayed from the top to build the bits. */
  method ReadDecimal(digits: string) returns (r: Result<seq<bool>>)
    ensures AllAccepted(digits, ReadMode.Decimal) ==> r == Ok(DecimalBits(DecValue(digits), |digits| > 0))
    ensures !AllAccepted(digits, ReadMode.Decimal) ==> r == Err(RejectError(digits, ReadMode.Decimal))
  {
    for i := 0 to |digits|
      invariant forall j :: 0 <= j < i ==> IsDecimalDigit(digits[j])
    {
      if !IsDecimalDigit(digits[i]) {
        RejectedAt(digits, i, ReadMode.Decimal);
        return Err(CharError(digits[i], ReadMode.Decimal));
      }
    }
    var str := new DigitVec(digits);
    var ops: seq<Operation> := [];
    ghost var goal := OpsOf(DecValue(digits), |digits| > 0);
    while |str.chars| > 0
      invariant AllDigits(str.chars)
      invariant ops + OpsOf(DecValue(str.chars), |str.chars| > 0) == goal
      invariant |str.chars| == 0 ==> DecValue(str.chars) == 0
      decreases DecValue(str.chars), |str.chars|
    {
      ghost var v := DecValue(str.chars);
      StringIsEvenParity(str.chars);
      if StringIsEven(str.chars) {
        str.DivString();
        CanonicalEmptyIffZero(str.chars);
        assert ops + [Divide] + OpsOf(v / 2, v / 2 > 0) == goal;
        ops := ops + [Divide];
      } else {
        str.SubString();
        CanonicalEmptyIffZero(str.chars);
        assert ops + [Subtract] + OpsOf(v - 1, v - 1 > 0) == goal;
        ops := ops + [Subtract];
      }
    }
    assert ops == goal;
    var bits: seq<bool> := [];
    while |ops| > 0
      invariant Replay(bits, ops) == Replay([], goal)
    {
      var op := ops[|ops| - 1];
      ops := ops[..|ops| - 1];
      match op
      case Divide =>
        bits := bits + [false];
      case Subtract =>
        if |bits| > 0 {
          bits := bits[..|bits| - 1];
        }
        bits := bits + [true];
    }
    ReplayOps(DecValue(digits), |digits| > 0);
    return Ok(bits);
  }
}
