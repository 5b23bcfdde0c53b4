/** The encoder: writes a bit sequence as binary, octal, hexadecimal or decimal digits, with the
    base prefix, the digit grouping and, for decimal, a sign when the bits are read as signed. */
module Writer {
  import opened Numerals
  import opened BitSeq
  import opened DecimalString
  import opened Config
  import opened Grouping
  import opened DigitReader

  function Prefix(wm: WriteMode, writePrefix: bool): string {
    if !writePrefix then ""
    else match wm
      case Binary => "0b"
      case Octal => "0o"
      case Hex(_) => "0x"
      case Decimal => ""
  }

  /** Digits per group: a byte of binary digits, two octal or hexadecimal digits, three decimal digits. */
  function GroupSize(wm: WriteMode): nat {
    match wm
    case Binary => 8
    case Decimal => 3
    case _ => 2
  }

  /** The text put between groups; without a Separator setting nothing is inserted. */
  function SeparatorText(ws: WriteSeparator): string {
    if ws.Separator? then ws.text else ""
  }

  /** Letters are lower case only for lower-case hexadecimal output. */
  function Upper(wm: WriteMode): bool {
    !wm.Hex? || wm.upper
  }

  /** The read mode that reads back what a digit-wise write mode writes. */
  function ReadModeOf(wm: WriteMode): ReadMode
    requires !wm.Decimal?
  {
    match wm
    case Binary => ReadMode.Binary
    case Octal => ReadMode.Octal
    case Hex(_) => ReadMode.Hex
  }

  /** The digit of a chunk of at most four bits. */
  function ChunkChar(c: seq<bool>, upper: bool): char
    requires |c| <= 4
  {
    BitsValueBound(c);
    PowMonotone(2, |c|, 4);
    assert Pow(2, 4) == 16;
    DigitChar(BitsValue(c), upper)
  }

  /** The digits of the complete k-bit chunks of b, left to right. */
  function ChunkDigits(b: seq<bool>, k: nat, upper: bool): string
    requires 1 <= k <= 4
    decreases |b|
  {
    if |b| < k then "" else [ChunkChar(b[..k], upper)] + ChunkDigits(b[k..], k, upper)
  }

  /** The bits after the last complete k-bit chunk. */
  function Leftover(b: seq<bool>, k: nat): seq<bool>
    requires k >= 1
    decreases |b|
  {
    if |b| < k then b else Leftover(b[k..], k)
  }

  /** Signed mode reads the first bit as the two's-complement sign bit. */
  function SignedValue(bits: seq<bool>, signed: bool): int {
    if signed && |bits| > 0 && bits[0] then BitsValue(bits) - Pow2(|bits|) else BitsValue(bits)
  }

  /** A decimal integer: a minus sign when negative, then the canonical digits of the magnitude, grouped by three. */
  function DecimalText(v: int, sep: string): string {
    (if v < 0 then "-" else "") + Grouped(DecDigits(if v < 0 then -v else v), 3, sep)
  }

  /** The digits of the complete chunks, grouped; an incomplete trailing chunk writes no digit but
      still counts as something left to read, so a separator follows the last digit. */
  function DigitText(bits: seq<bool>, wm: WriteMode, sep: string): string
    requires !wm.Decimal?
  {
    var k := DigitBits(wm);
    var d := ChunkDigits(bits, k, Upper(wm));
    Grouped(d, GroupSize(wm), sep) + (if |d| > 0 && |Leftover(bits, k)| > 0 then sep else "")
  }

  /** What the encoder writes: the prefix, then "0" for no bits at all, the signed or unsigned
      decimal value, or the digits of the bit chunks. */
  function WriteSpec(bits: seq<bool>, wm: WriteMode, ws: WriteSeparator, signed: bool, writePrefix: bool): string {
    Prefix(wm, writePrefix)
    + (if |bits| == 0 then "0"
       else if wm.Decimal? then DecimalText(SignedValue(bits, signed), SeparatorText(ws))
       else DigitText(bits, wm, SeparatorText(ws)))
  }

  /** In signed mode the value lies in [-2^(n-1), 2^(n-1)) and agrees with the unsigned value modulo 2^n. */
  lemma SignedValueRange(bits: seq<bool>, signed: bool)
    requires |bits| > 0
    ensures !signed ==> SignedValue(bits, signed) == BitsValue(bits)
    ensures signed ==> -(Pow2(|bits| - 1) as int) <= SignedValue(bits, signed) < Pow2(|bits| - 1)
    ensures signed ==> (SignedValue(bits, signed) < 0 <==> bits[0])
    ensures SignedValue(bits, signed) % Pow2(|bits|) == BitsValue(bits)
  {
    var n := |bits|;
    TopBit(bits);
    SignedArith(BitsValue(bits), Pow2(n - 1), BitsValue(bits[1..]), bits[0], signed, SignedValue(bits, signed));
  }

  /** A sequence splits into its first bit, weighing 2^(n-1), and the rest, below 2^(n-1). */
  lemma TopBit(bits: seq<bool>)
    requires |bits| > 0
    ensures BitsValue(bits) == (if bits[0] then Pow2(|bits| - 1) else 0) + BitsValue(bits[1..])
    ensures BitsValue(bits[1..]) < Pow2(|bits| - 1) && Pow2(|bits|) == 2 * Pow2(|bits| - 1)
  {
    var first, rest := [bits[0]], bits[1..];
    assert first + rest == bits;
    assert |rest| == |bits| - 1;
    var h := Pow2(|rest|);
    BitsValueAppend(first, rest);
    assert BitsValue(first) == Bit(bits[0]) by {
      assert first[..0] == [];
    }
    ScaleBit(BitsValue(first), h, bits[0]);
    BitsValueBound(rest);
    assert Pow(2, |bits|) == 2 * Pow(2, |bits| - 1);
  }

  lemma ScaleBit(bit: int, h: int, top: bool)
    requires bit == if top then 1 else 0
    ensures bit * h == if top then h else 0
  {
  }

  lemma SignedArith(u: int, h: int, low: int, top: bool, signed: bool, v: int)
    requires h > 0 && 0 <= low < h && u == (if top then h else 0) + low
    requires v == if signed && top then u - 2 * h else u
    ensures !signed ==> v == u
    ensures signed ==> -h <= v < h
    ensures signed ==> (v < 0 <==> top)
    ensures v % (2 * h) == u
  {
    if v < 0 {
      ModUnique(v, -1, u, 2 * h);
    } else {
      ModUnique(v, 0, u, 2 * h);
    }
  }

  /** Counting the chunks: |b| = k * (number of digits) + |leftover|, with a leftover shorter than k. */
  lemma {:induction false} ChunkCount(b: seq<bool>, k: nat, upper: bool)
    requires 1 <= k <= 4
    ensures |ChunkDigits(b, k, upper)| * k + |Leftover(b, k)| == |b|
    ensures |Leftover(b, k)| < k
    ensures |ChunkDigits(b, k, upper)| == |b| / k && |Leftover(b, k)| == |b| % k
    decreases |b|
  {
    if |b| >= k {
      ChunkCount(b[k..], k, upper);
      MulSucc(k, |ChunkDigits(b[k..], k, upper)|);
    }
    ModUnique(|b|, |ChunkDigits(b, k, upper)|, |Leftover(b, k)|, k);
  }

  lemma ChunkTotal(b: seq<bool>, k: nat, upper: bool)
    requires 1 <= k <= 4
    ensures |b| / k == |ChunkDigits(b, k, upper)|
  {
    ChunkCount(b, k, upper);
  }

  /** The chunk digits, read in radix 2^k, denote the bits. */
  lemma {:induction false} ChunkDigitsValue(b: seq<bool>, k: nat, upper: bool)
    requires 1 <= k <= 4 && |Leftover(b, k)| == 0
    ensures NumeralValue(ChunkDigits(b, k, upper), Pow2(k)) == BitsValue(b)
    decreases |b|
  {
    if |b| >= k {
      var head, rest := b[..k], b[k..];
      var c, d := ChunkChar(head, upper), ChunkDigits(rest, k, upper);
      assert ChunkDigits(b, k, upper) == [c] + d;
      ChunkDigitsValue(rest, k, upper);
      assert head + rest == b;
      BitsValueAppend(head, rest);
      NumeralCons(c, d, Pow2(k));
      ChunkLength(rest, k, upper);
      PowMul(2, k, |d|);
    }
  }

  /** Without leftover the chunks cover the bits exactly. */
  lemma ChunkLength(b: seq<bool>, k: nat, upper: bool)
    requires 1 <= k <= 4 && |Leftover(b, k)| == 0
    ensures k * |ChunkDigits(b, k, upper)| == |b|
  {
    ChunkCount(b, k, upper);
  }

  lemma NumeralCons(c: char, d: string, radix: nat)
    ensures NumeralValue([c] + d, radix) == DigitValue(c) * Pow(radix, |d|) + NumeralValue(d, radix)
  {
    NumeralValueAppend([c], d, radix);
    assert [c][..0] == [];
  }

  /** Expansion consumes a numeral from the front as well as from the back. */
  lemma {:induction false} ExpansionCons(c: char, s: string, m: ReadMode)
    requires Digitwise(m)
    ensures Expansion([c] + s, m) == Pattern(c, m) + Expansion(s, m)
    decreases |s|
  {
    if |s| > 0 {
      var p := s[..|s| - 1];
      assert ([c] + s)[..|s|] == [c] + p;
      ExpansionCons(c, p, m);
    } else {
      assert [c] + s == [c];
      assert [c][..0] == [];
    }
  }

  /** A digit below the radix is accepted by the read mode. */
  lemma DigitCharAccepted(v: nat, upper: bool, m: ReadMode)
    requires Digitwise(m) && v < Radix(m)
    ensures Accepts(DigitChar(v, upper), m)
  {
  }

  /** One chunk's digit is accepted by the matching read mode and expands back to the chunk. */
  lemma ChunkCharReadBack(head: seq<bool>, wm: WriteMode)
    requires !wm.Decimal? && |head| == DigitBits(wm)
    ensures Accepts(ChunkChar(head, Upper(wm)), ReadModeOf(wm))
    ensures Pattern(ChunkChar(head, Upper(wm)), ReadModeOf(wm)) == head
  {
    var m := ReadModeOf(wm);
    ChunkRadix(m);
    BitsValueBound(head);
    DigitCharAccepted(BitsValue(head), Upper(wm), m);
    BitsValueInjective(Pattern(ChunkChar(head, Upper(wm)), m), head);
  }

  /** Round trip: reading the chunk digits back in the matching base gives exactly the bits. */
  lemma {:induction false} ChunkDigitsRoundTrip(b: seq<bool>, wm: WriteMode)
    requires !wm.Decimal? && |Leftover(b, DigitBits(wm))| == 0
    ensures AllAccepted(ChunkDigits(b, DigitBits(wm), Upper(wm)), ReadModeOf(wm))
    ensures Expansion(ChunkDigits(b, DigitBits(wm), Upper(wm)), ReadModeOf(wm)) == b
    decreases |b|
  {
    var k, m, u := DigitBits(wm), ReadModeOf(wm), Upper(wm);
    if |b| >= k {
      var head, rest := b[..k], b[k..];
      var c, d := ChunkChar(head, u), ChunkDigits(rest, k, u);
      assert ChunkDigits(b, k, u) == [c] + d;
      ChunkDigitsRoundTrip(rest, wm);
      ChunkCharReadBack(head, wm);
      AcceptedCons(c, d, m);
      ExpansionCons(c, d, m);
      assert head + rest == b;
    }
  }

  lemma AcceptedCons(c: char, d: string, m: ReadMode)
    requires Accepts(c, m) && AllAccepted(d, m)
    ensures AllAccepted([c] + d, m)
  {
    forall i | 0 <= i < |[c] + d|
      ensures Accepts(([c] + d)[i], m)
    {
      if i > 0 {
        assert ([c] + d)[i] == d[i - 1];
      }
    }
  }

  /** The sixteen digit characters, upper case, indexed by value. */
  lemma Alphabet(i: nat)
    requires i < 16
    ensures "0123456789ABCDEF"[i] == DigitChar(i, true)
  {
    assert i == 0 || i == 1 || i == 2 || i == 3 || i == 4 || i == 5 || i == 6 || i == 7 || i == 8
        || i == 9 || i == 10 || i == 11 || i == 12 || i == 13 || i == 14 || i == 15;
  }

  function LowerCase(c: char): char {
    if 'A' <= c <= 'Z' then (c as int + 32) as char else c
  }

  /** index_to_char: the upper-case table, with the letters lowered when lower case is asked for. */
  method DigitTable(upper: bool) returns (table: array<char>)
    ensures fresh(table) && table.Length == 16
    ensures forall i :: 0 <= i < 16 ==> table[i] == DigitChar(i, upper)
  {
    table := new char[16](i requires 0 <= i < 16 => "0123456789ABCDEF"[i]);
    forall i | 0 <= i < 16
      ensures table[i] == DigitChar(i, true)
    {
      Alphabet(i);
    }
    if !upper {
      for i := 10 to 16
        invariant forall j :: 0 <= j < 16 ==> table[j] == DigitChar(j, !(10 <= j < i))
      {
        table[i] := LowerCase(table[i]);
      }
    }
  }

  /** The magnitude of a negative signed value is the value of the negated bits. */
  lemma NegatedMagnitude(bits: seq<bool>)
    requires |bits| > 0 && bits[0]
    ensures SignedValue(bits, true) < 0
    ensures BitsValue(Negated(bits)) == -SignedValue(bits, true)
  {
    NegatedValue(bits);
    BitsValueBound(bits);
    BitsValueLower(bits);
    WrapAround(Pow2(|bits|), BitsValue(bits));
  }

  /** The decimal branch: a '-' and in-place negation for a negative signed value, then the digit
      string of the magnitude, pushed in groups of three. */
  method WriteDecimal(out: string, bits: seq<bool>, ws: WriteSeparator, signed: bool) returns (s: string)
    ensures s == out + DecimalText(SignedValue(bits, signed), SeparatorText(ws))
  {
    var negative := signed && |bits| > 0 && bits[0];
    s := out;
    var b := bits;
    if negative {
      s := s + "-";
      var a := new bool[|bits|](i requires 0 <= i < |bits| => bits[i]);
      assert a[..] == bits;
      Negative(a);
      b := a[..];
    }
    var digits := DecimalDigits(b);
    s := PushGroups(s, digits, ws);
    DecimalTextOf(bits, signed, b, SeparatorText(ws));
    Assoc(out, if negative then "-" else "", Grouped(digits, 3, SeparatorText(ws)));
  }

  lemma Assoc(a: string, b: string, c: string)
    ensures (a + b) + c == a + (b + c)
  {
  }

  /** The decimal text of the signed value: the sign, then the digits of the bits after negation
      when negative and of the bits themselves otherwise. */
  lemma DecimalTextOf(bits: seq<bool>, signed: bool, b: seq<bool>, sep: string)
    requires b == if signed && |bits| > 0 && bits[0] then Negated(bits) else bits
    ensures DecimalText(SignedValue(bits, signed), sep)
      == (if signed && |bits| > 0 && bits[0] then "-" else "") + Grouped(DecDigits(BitsValue(b)), 3, sep)
  {
    var v := SignedValue(bits, signed);
    Magnitude(bits, signed, b);
    DecimalTextSplit(v, BitsValue(b), sep);
  }

  lemma Magnitude(bits: seq<bool>, signed: bool, b: seq<bool>)
    requires b == if signed && |bits| > 0 && bits[0] then Negated(bits) else bits
    ensures SignedValue(bits, signed) < 0 <==> signed && |bits| > 0 && bits[0]
    ensures BitsValue(b) == if SignedValue(bits, signed) < 0 then -SignedValue(bits, signed) else SignedValue(bits, signed)
  {
    if signed && |bits| > 0 && bits[0] {
      NegatedMagnitude(bits);
    }
  }

  lemma DecimalTextSplit(v: int, m: nat, sep: string)
    requires m == if v < 0 then -v else v
    ensures DecimalText(v, sep) == (if v < 0 then "-" else "") + Grouped(DecDigits(m), 3, sep)
  {
  }

  /** The digit string of the bits: starting from the empty string, doubled once per bit and
      incremented once per set bit. */
  method DecimalDigits(b: seq<bool>) returns (digits: string)
    ensures digits == DecDigits(BitsValue(b))
  {
    var num := new DigitVec([]);
    for i := 0 to |b|
      invariant Canonical(num.chars) && DecValue(num.chars) == BitsValue(b[..i])
    {
      num.MultString();
      if b[i] {
        num.AddString();
      }
      assert b[..i + 1][..i] == b[..i];
    }
    assert b[..|b|] == b;
    CanonicalUnique(num.chars);
    digits := num.chars;
  }

  /** One push of the decimal grouping loop: digit i of d, then the separator when the counter
      completes a group and another digit follows, in which case the counter restarts. Pushed
      onto the text the first i digits emit, it gives the text the first i + 1 digits emit, and
      the counter again holds the digits the current group lacks. */
  method PushDigit(ghost out: string, ghost d: string, ghost i: nat, s: string, c: char, count: nat,
                   g: nat, more: bool, ws: WriteSeparator)
    returns (s': string, count': nat)
    requires i < |d| && g >= 2 && c == d[i] && more == (i + 1 < |d|)
    requires s == out + Emitted(d, i, g, SeparatorText(ws), false)
    requires ws.Separator? ==> count == Pad(|d| - i, g)
    ensures s' == out + Emitted(d, i + 1, g, SeparatorText(ws), false)
    ensures ws.Separator? && i + 1 < |d| ==> count' == Pad(|d| - (i + 1), g)
  {
    EmitNext(d, i, g, ws, false, count, more);
    s' := s + [c];
    count' := count + 1;
    if ws.Separator? {
      if count' == g && more {
        s' := s' + ws.text;
        count' := 0;
      }
    }
  }

  /** One push extends the emitted text by one digit, and keeps the counter equal to the digits
      the current group still lacks. */
  lemma EmitNext(d: string, i: nat, g: nat, ws: WriteSeparator, tail: bool, count: nat, more: bool)
    requires i < |d| && g >= 2 && (ws.Separator? ==> count == Pad(|d| - i, g))
    requires more == (i + 1 < |d| || tail)
    ensures Emitted(d, i + 1, g, SeparatorText(ws), tail)
      == Emitted(d, i, g, SeparatorText(ws), tail) + [d[i]]
         + (if ws.Separator? && count + 1 == g && more then ws.text else "")
    ensures ws.Separator? && i + 1 < |d| ==>
      Pad(|d| - (i + 1), g) == if count + 1 == g && more then 0 else count + 1
  {
    if ws.Separator? {
      PadStep(|d| - i, g);
    }
  }

  /** Pushes the decimal digits one at a time, with a separator after every third digit counted
      from the end, as long as another digit follows. */
  method PushGroups(out: string, d: string, ws: WriteSeparator) returns (s: string)
    ensures s == out + Grouped(d, 3, SeparatorText(ws))
  {
    var sep := SeparatorText(ws);
    s := out;
    var count := Pad(|d|, 3);
    var i := 0;
    while i < |d|
      invariant 0 <= i <= |d|
      invariant s == out + Emitted(d, i, 3, sep, false)
      invariant ws.Separator? && i < |d| ==> count == Pad(|d| - i, 3)
    {
      s, count := PushDigit(out, d, i, s, d[i], count, 3, i + 1 < |d|, ws);
      i := i + 1;
    }
    EmittedGrouped(d, 3, sep);
  }

  /** The table index of one chunk: the chunk's bits shifted in one at a time. */
  method ChunkIndex(chunk: seq<bool>) returns (index: nat)
    ensures index == BitsValue(chunk)
  {
    index := 0;
    for t := 0 to |chunk|
      invariant index == BitsValue(chunk[..t])
    {
      index := index * 2 + Bit(chunk[t]);
      assert chunk[..t + 1][..t] == chunk[..t];
    }
    assert chunk[..|chunk|] == chunk;
  }

  /** The binary, octal and hexadecimal branch: the digit table, then the chunk loop. */
  method WriteDigits(out: string, bits: seq<bool>, wm: WriteMode, ws: WriteSeparator) returns (s: string)
    requires !wm.Decimal?
    ensures s == out + DigitText(bits, wm, SeparatorText(ws))
  {
    var upper, k, g := Upper(wm), DigitBits(wm), GroupSize(wm);
    var table := DigitTable(upper);
    var text := PushChunks(bits, k, g, ws, table, upper);
    s := out + text;
    ghost var d := ChunkDigits(bits, k, upper);
    EmittedGrouped(d, g, SeparatorText(ws));
    if |d| > 0 && |Leftover(bits, k)| > 0 {
      EmittedTrailing(d, g, SeparatorText(ws));
    }
  }

  /** The chunk loop: each complete chunk of bits, most significant first, is looked up in the
      table and pushed; a separator follows when the group is complete and any bit is left. The
      source reads bit by bit and leaves the loop when the bits run out inside a chunk; the loop
      here checks for a complete chunk first, to the same effect. */
  method PushChunks(bits: seq<bool>, k: nat, g: nat, ws: WriteSeparator, table: array<char>, upper: bool)
    returns (s: string)
    requires 1 <= k <= 4 && g >= 2
    requires table.Length == 16 && forall j :: 0 <= j < 16 ==> table[j] == DigitChar(j, upper)
    ensures s == Emitted(ChunkDigits(bits, k, upper), |ChunkDigits(bits, k, upper)|, g,
                         SeparatorText(ws), |Leftover(bits, k)| > 0)
  {
    ChunkTotal(bits, k, upper);
    var count := Pad(|bits| / k, g);
    s := "";
    var pos := 0;
    ghost var i := 0;
    assert bits[0..] == bits;
    while pos + k <= |bits|
      invariant ChunkLoop(bits, k, g, ws, upper, pos, i, s, count)
      decreases |bits| - pos
    {
      var s', count', pos' := PushChunk(s, count, bits, pos, k, g, ws, table, upper);
      ChunkLoopNext(bits, k, g, ws, upper, pos, i, s, count, s', count');
      s, count, pos, i := s', count', pos', i + 1;
    }
    ChunkLoopEnd(bits, k, g, ws, upper, pos, i, s, count);
  }

  /** The chunk loop's invariant: the bits from pos on hold the digits from i on and the same
      leftover, the text so far is what the first i digits emit, and the counter holds the digits
      the current group lacks. */
  predicate ChunkLoop(bits: seq<bool>, k: nat, g: nat, ws: WriteSeparator, upper: bool,
                      pos: nat, i: nat, s: string, count: nat)
    requires 1 <= k <= 4 && g >= 2
  {
    var d := ChunkDigits(bits, k, upper);
    pos <= |bits| && i <= |d|
    && ChunkDigits(bits[pos..], k, upper) == d[i..] && Leftover(bits[pos..], k) == Leftover(bits, k)
    && s == Emitted(d, i, g, SeparatorText(ws), |Leftover(bits, k)| > 0)
    && (ws.Separator? && i < |d| ==> count == Pad(|d| - i, g))
  }

  /** One pass of the chunk loop keeps its invariant. */
  lemma ChunkLoopNext(bits: seq<bool>, k: nat, g: nat, ws: WriteSeparator, upper: bool,
                      pos: nat, i: nat, s: string, count: nat, s': string, count': nat)
    requires 1 <= k <= 4 && g >= 2 && pos + k <= |bits|
    requires ChunkLoop(bits, k, g, ws, upper, pos, i, s, count)
    requires s' == s + [ChunkChar(bits[pos..pos + k], upper)]
                   + (if ws.Separator? && count + 1 == g && pos + k < |bits| then ws.text else "")
    requires count' == if ws.Separator? && count + 1 == g && pos + k < |bits| then 0 else count + 1
    ensures ChunkLoop(bits, k, g, ws, upper, pos + k, i + 1, s', count')
  {
    var d := ChunkDigits(bits, k, upper);
    var tail := |Leftover(bits, k)| > 0;
    ChunkLoopStep(bits, pos, k, upper, d, i);
    EmitNext(d, i, g, ws, tail, count, pos + k < |bits|);
  }

  /** When no complete chunk is left, every digit has been emitted. */
  lemma ChunkLoopEnd(bits: seq<bool>, k: nat, g: nat, ws: WriteSeparator, upper: bool,
                     pos: nat, i: nat, s: string, count: nat)
    requires 1 <= k <= 4 && g >= 2 && |bits| < pos + k
    requires ChunkLoop(bits, k, g, ws, upper, pos, i, s, count)
    ensures s == Emitted(ChunkDigits(bits, k, upper), |ChunkDigits(bits, k, upper)|, g,
                         SeparatorText(ws), |Leftover(bits, k)| > 0)
  {
    assert |bits[pos..]| < k;
  }

  /** One pass of the chunk loop: the next k bits shifted into an index, the table's digit for
      it pushed, and the separator pushed when the group is complete and any bit is left. */
  method PushChunk(s: string, count: nat, bits: seq<bool>, pos: nat, k: nat, g: nat, ws: WriteSeparator,
                   table: array<char>, upper: bool)
    returns (s': string, count': nat, pos': nat)
    requires 1 <= k <= 4 && pos + k <= |bits|
    requires table.Length == 16 && forall j :: 0 <= j < 16 ==> table[j] == DigitChar(j, upper)
    ensures pos' == pos + k
    ensures s' == s + [ChunkChar(bits[pos..pos + k], upper)]
                  + (if ws.Separator? && count + 1 == g && pos' < |bits| then ws.text else "")
    ensures count' == if ws.Separator? && count + 1 == g && pos' < |bits| then 0 else count + 1
  {
    var index := ChunkIndex(bits[pos..pos + k]);
    ChunkIndexBound(bits[pos..pos + k]);
    pos' := pos + k;
    s' := s + [table[index]];
    count' := count + 1;
    if ws.Separator? {
      if count' == g && pos' < |bits| {
        s' := s' + ws.text;
        count' := 0;
      }
    }
  }

  lemma ChunkIndexBound(c: seq<bool>)
    requires |c| <= 4
    ensures BitsValue(c) < 16
  {
    BitsValueBound(c);
    PowMonotone(2, |c|, 4);
    assert Pow(2, 4) == 16;
  }

  /** The bits from pos on hold the digits from i on, and the same leftover. */
  predicate Remaining(bits: seq<bool>, pos: nat, k: nat, upper: bool, d: string, i: nat)
    requires 1 <= k <= 4
  {
    pos <= |bits| && i <= |d|
    && ChunkDigits(bits[pos..], k, upper) == d[i..] && Leftover(bits[pos..], k) == Leftover(bits, k)
  }

  /** One step of the chunk loop: the next digit is the digit of the next chunk, the remaining
      digits and the leftover bits follow the remaining bits, and a bit is left after the chunk
      exactly when another digit follows or the bits end in an incomplete chunk. */
  lemma ChunkLoopStep(bits: seq<bool>, pos: nat, k: nat, upper: bool, d: string, i: nat)
    requires 1 <= k <= 4 && pos + k <= |bits|
    requires Remaining(bits, pos, k, upper, d, i)
    ensures i < |d| && d[i] == ChunkChar(bits[pos..pos + k], upper)
    ensures Remaining(bits, pos + k, k, upper, d, i + 1)
    ensures pos + k < |bits| <==> (i + 1 < |d| || |Leftover(bits, k)| > 0)
  {
    assert bits[pos..][..k] == bits[pos..pos + k];
    assert bits[pos..][k..] == bits[pos + k..];
    assert d[i + 1..] == d[i..][1..];
  }

  /** write: the prefix, then "0" for no bits, or the decimal or the digit-wise branch. */
  method Write(bits: seq<bool>, wm: WriteMode, ws: WriteSeparator, signed: bool, writePrefix: bool) returns (s: string)
    ensures s == WriteSpec(bits, wm, ws, signed, writePrefix)
  {
    s := Prefix(wm, writePrefix);
    if |bits| == 0 {
      s := s + "0";
      return;
    }
    if wm.Decimal? {
      s := WriteDecimal(s, bits, ws, signed);
    } else {
      s := WriteDigits(s, bits, wm, ws);
    }
  }
}
