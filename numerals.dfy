/** Positional numerals: powers, digit values and the value of a digit string in a radix.
    Shared by the bit-vector model, the decimal-string arithmetic, the decoder and the encoder. */
module Numerals {

  function Pow(base: nat, n: nat): (r: nat)
    ensures base > 0 ==> r > 0
  {
    if n == 0 then 1 else base * Pow(base, n - 1)
  }

  lemma {:induction false} PowAdd(base: nat, m: nat, n: nat)
    ensures Pow(base, m + n) == Pow(base, m) * Pow(base, n)
    decreases n
  {
    if n > 0 {
      PowAdd(base, m, n - 1);
      MulAssoc(base, Pow(base, m), Pow(base, n - 1));
      assert Pow(base, m + n) == base * Pow(base, m + n - 1);
    }
  }

  lemma MulAssoc(a: nat, b: nat, c: nat)
    ensures a * (b * c) == b * (a * c)
  {
  }

  lemma {:induction false} PowMul(base: nat, k: nat, m: nat)
    ensures Pow(Pow(base, k), m) == Pow(base, k * m)
    decreases m
  {
    if m > 0 {
      PowMul(base, k, m - 1);
      PowAdd(base, k, k * (m - 1));
      assert k + k * (m - 1) == k * m;
    }
  }

  lemma {:induction false} PowMonotone(base: nat, m: nat, n: nat)
    requires base > 0 && m <= n
    ensures Pow(base, m) <= Pow(base, n)
    decreases n
  {
    if m < n {
      PowMonotone(base, m, n - 1);
    }
  }

  predicate IsDecimalDigit(c: char) {
    '0' <= c <= '9'
  }

  predicate IsHexLetter(c: char) {
    ('a' <= c <= 'f') || ('A' <= c <= 'F')
  }

  /** The value of a digit character: 0-9 for decimal digits, 10-15 for hex letters of either case. */
  function DigitValue(c: char): (d: nat)
    ensures d < 16
    ensures IsDecimalDigit(c) ==> d == c as int - '0' as int
    ensures IsHexLetter(c) ==> d >= 10
  {
    if IsDecimalDigit(c) then c as int - '0' as int
    else if 'a' <= c <= 'f' then c as int - 'a' as int + 10
    else if 'A' <= c <= 'F' then c as int - 'A' as int + 10
    else 0
  }

  /** The digit character for a value below 16; letters in the chosen case. */
  function DigitChar(d: nat, upper: bool): (c: char)
    requires d < 16
    ensures DigitValue(c) == d
    ensures d < 10 <==> IsDecimalDigit(c)
  {
    if d < 10 then ('0' as int + d) as char
    else if upper then ('A' as int + d - 10) as char
    else ('a' as int + d - 10) as char
  }

  /** Value of a numeral, most significant digit first. */
  function NumeralValue(s: seq<char>, radix: nat): nat
  {
    if |s| == 0 then 0 else radix * NumeralValue(s[..|s| - 1], radix) + DigitValue(s[|s| - 1])
  }

  lemma {:induction false} NumeralValueAppend(a: seq<char>, b: seq<char>, radix: nat)
    ensures NumeralValue(a + b, radix) == NumeralValue(a, radix) * Pow(radix, |b|) + NumeralValue(b, radix)
    decreases |b|
  {
    if |b| == 0 {
      assert a + b == a;
    } else {
      var b' := b[..|b| - 1];
      assert (a + b)[..|a + b| - 1] == a + b';
      NumeralValueAppend(a, b', radix);
      var va, vb', d, p := NumeralValue(a, radix), NumeralValue(b', radix), DigitValue(b[|b| - 1]), Pow(radix, |b'|);
      assert NumeralValue(a + b, radix) == radix * (va * p + vb') + d;
      assert NumeralValue(b, radix) == radix * vb' + d;
      assert Pow(radix, |b|) == radix * p;
      MulDistrib(radix, va, p, vb');
    }
  }

  /** A leading zero digit adds nothing to a numeral's value. */
  lemma LeadingZeroValue(d: string, radix: nat)
    ensures NumeralValue("0" + d, radix) == NumeralValue(d, radix)
  {
    var one: string := "0";
    assert one[..0] == [];
    NumeralValueAppend(one, d, radix);
  }

  lemma MulDistrib(r: nat, x: nat, y: nat, z: nat)
    ensures r * (x * y + z) == x * (r * y) + r * z
  {
  }

  /** A numeral whose digits are all below the radix is below radix^length. */
  lemma {:induction false} NumeralValueBound(s: seq<char>, radix: nat)
    requires forall i :: 0 <= i < |s| ==> DigitValue(s[i]) < radix
    ensures NumeralValue(s, radix) < Pow(radix, |s|)
    decreases |s|
  {
    if |s| > 0 {
      var p := s[..|s| - 1];
      assert forall i :: 0 <= i < |p| ==> p[i] == s[i];
      NumeralValueBound(p, radix);
      BoundStep(radix, NumeralValue(p, radix), DigitValue(s[|s| - 1]), Pow(radix, |p|));
    }
  }

  lemma BoundStep(r: nat, x: nat, d: nat, p: nat)
    requires x < p && d < r
    ensures r * x + d < r * p
  {
    assert r * x + d < r * (x + 1) <= r * p;
  }

  /** A numeral that starts with a nonzero digit is at least radix^(length-1). */
  lemma {:induction false} NumeralValueLower(s: seq<char>, radix: nat)
    requires |s| > 0 && DigitValue(s[0]) > 0
    ensures NumeralValue(s, radix) >= Pow(radix, |s| - 1)
  {
    var c, rest := [s[0]], s[1..];
    NumeralValueAppend(c, rest, radix);
    assert c + rest == s;
    assert NumeralValue(c, radix) == DigitValue(s[0]) by {
      assert c[..0] == [];
    }
    var p := Pow(radix, |rest|);
    if p > 0 {
      MulAtLeast(DigitValue(s[0]), p);
    }
  }

  /** Quotient and remainder are unique: x = q*g + r with 0 <= r < g fixes both. */
  lemma ModUnique(x: int, q: int, r: int, g: int)
    requires g > 0 && x == q * g + r && 0 <= r < g
    ensures x % g == r && x / g == q
  {
    var d, m := x / g, x % g;
    assert x == d * g + m;
    MulSubRight(q, d, g);
    var e := q - d;
    assert e * g == m - r;
    if e > 0 {
      MulAtLeast(e, g);
    } else if e < 0 {
      MulAtLeast(-e, g);
      MulNeg(e, g);
    }
  }

  lemma MulSubRight(a: int, b: int, k: int)
    ensures (a - b) * k == a * k - b * k
  {
  }

  lemma MulAtLeast(a: int, k: int)
    requires a >= 1 && k > 0
    ensures a * k >= k
  {
  }

  lemma MulNeg(a: int, k: int)
    ensures (-a) * k == -(a * k)
  {
  }
}
