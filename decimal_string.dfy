/** Arbitrary-length decimal arithmetic on strings of digit characters, most significant digit first.
    The decoder halves and decrements such a string; the encoder doubles and increments one. */
module DecimalString {
  import opened Numerals

  predicate AllDigits(s: seq<char>) {
    forall i :: 0 <= i < |s| ==> IsDecimalDigit(s[i])
  }

  /** Digits only and no leading '0'; the empty string is the canonical form of zero. */
  predicate Canonical(s: seq<char>) {
    AllDigits(s) && (|s| == 0 || s[0] != '0')
  }

  function DecValue(s: seq<char>): nat {
    NumeralValue(s, 10)
  }

  function CarryValue(carry: bool): nat {
    if carry then 1 else 0
  }

  /** The canonical decimal digits of v (empty for zero). */
  function DecDigits(v: nat): (s: seq<char>)
    ensures Canonical(s) && DecValue(s) == v
    ensures v == 0 <==> |s| == 0
  {
    if v == 0 then []
    else
      var s := DecDigits(v / 10) + [DigitChar(v % 10, true)];
      assert s[..|s| - 1] == DecDigits(v / 10);
      s
  }

  lemma PrependDigit(c: char, t: seq<char>)
    ensures DecValue([c] + t) == DigitValue(c) * Pow(10, |t|) + DecValue(t)
  {
    var one: seq<char> := [c];
    assert one[..0] == [];
    assert NumeralValue(one, 10) == DigitValue(c);
    NumeralValueAppend(one, t, 10);
  }

  lemma AppendDigit(t: seq<char>, c: char)
    ensures DecValue(t + [c]) == 10 * DecValue(t) + DigitValue(c)
  {
    assert (t + [c])[..|t|] == t;
  }

  /** A nonempty canonical string of length n denotes at least 10^(n-1); one with a leading '0' denotes less. */
  lemma LeadingDigitBound(t: seq<char>)
    requires AllDigits(t) && |t| > 0
    ensures t[0] != '0' ==> DecValue(t) >= Pow(10, |t| - 1)
    ensures t[0] == '0' ==> DecValue(t) < Pow(10, |t| - 1)
  {
    if t[0] != '0' {
      NumeralValueLower(t, 10);
    } else {
      assert t == [t[0]] + t[1..];
      PrependDigit(t[0], t[1..]);
      NumeralValueBound(t[1..], 10);
    }
  }

  /** Changing the digit at index i by k changes the value by k times the digit's place weight. */
  lemma DigitShift(t: seq<char>, i: nat, c: char, k: int)
    requires i < |t| && DigitValue(c) == DigitValue(t[i]) + k
    ensures DecValue(t[i := c]) == DecValue(t) + k * Pow(10, |t| - 1 - i)
  {
    var u := t[i := c];
    SplitAt(t, i);
    SplitAt(u, i);
    assert u[..i] == t[..i] && u[i + 1..] == t[i + 1..];
    PlaceArith(DecValue(t[..i + 1]), DecValue(u[..i + 1]), k, Pow(10, |t| - 1 - i));
  }

  lemma PlaceArith(x: int, y: int, k: int, p: int)
    requires y == x + k
    ensures y * p == x * p + k * p
  {
  }

  /** The value of a numeral around its digit at index i. */
  lemma SplitAt(t: seq<char>, i: nat)
    requires i < |t|
    ensures DecValue(t) == DecValue(t[..i + 1]) * Pow(10, |t| - 1 - i) + DecValue(t[i + 1..])
    ensures DecValue(t[..i + 1]) == 10 * DecValue(t[..i]) + DigitValue(t[i])
  {
    var a, b := t[..i], t[i + 1..];
    assert t[..i + 1] == a + [t[i]];
    assert t == t[..i + 1] + b;
    assert |b| == |t| - 1 - i;
    SplitValue(a, t[i], b);
  }

  /** The value of a numeral split around one digit. */
  lemma SplitValue(a: seq<char>, x: char, b: seq<char>)
    ensures DecValue(a + [x] + b) == DecValue(a + [x]) * Pow(10, |b|) + DecValue(b)
    ensures DecValue(a + [x]) == 10 * DecValue(a) + DigitValue(x)
  {
    NumeralValueAppend(a + [x], b, 10);
    AppendDigit(a, x);
  }

  /** One step of the doubling pass: a digit d with incoming carry becomes digit r with outgoing carry. */
  lemma DoubleStepArith(vs: int, vc: int, d: int, r: int, cin: int, cout: int, p: int)
    requires 2 * vs == vc + cin * p
    requires 2 * d + cin == r + 10 * cout
    ensures 2 * (d * p + vs) == (r * p + vc) + cout * (10 * p)
  {
    calc {
      2 * (d * p + vs);
      2 * d * p + vc + cin * p;
      { MulAddRight(2 * d, cin, p); }
      (2 * d + cin) * p + vc;
      (r + 10 * cout) * p + vc;
      { MulAddRight(r, 10 * cout, p); }
      (r * p + vc) + cout * (10 * p);
    }
  }

  /** One step of the doubling pass on the suffix from the current digit on. */
  lemma DoubleStep(sd: seq<char>, td: seq<char>, d: char, r: char, cin: bool, cout: bool)
    requires IsDecimalDigit(d) && DoubleDigit(d, cin) == (r, cout)
    requires 2 * DecValue(sd) == DecValue(td) + CarryValue(cin) * Pow(10, |sd|) && |sd| == |td|
    ensures 2 * DecValue([d] + sd) == DecValue([r] + td) + CarryValue(cout) * Pow(10, |sd| + 1)
  {
    PrependDigit(d, sd);
    PrependDigit(r, td);
    var p := Pow(10, |sd|);
    DoubleStepArith(DecValue(sd), DecValue(td), DigitValue(d), DigitValue(r), CarryValue(cin), CarryValue(cout), p);
  }

  /** One step of the halving pass: digit d with incoming remainder becomes digit q with outgoing remainder. */
  lemma HalveStep(sp: seq<char>, tp: seq<char>, d: char, q: char, cin: bool, cout: bool)
    requires IsDecimalDigit(d) && HalveDigit(d, cin) == (q, cout)
    requires DecValue(sp) == 2 * DecValue(tp) + CarryValue(cin)
    ensures DecValue(sp + [d]) == 2 * DecValue(tp + [q]) + CarryValue(cout)
  {
    AppendDigit(sp, d);
    AppendDigit(tp, q);
    HalveArith(DigitValue(d), CarryValue(cin), DigitValue(q), CarryValue(cout));
  }

  lemma HalveArith(d: nat, cin: nat, q: nat, cout: nat)
    requires q == (10 * cin + d) / 2 && (cout == 1 <==> d % 2 == 1) && cout <= 1
    ensures 2 * q + cout == 10 * cin + d
  {
  }

  /** DoubleStep at index i of a string whose digits from i on are still those of s. */
  lemma DoubleAt(s: seq<char>, before: seq<char>, i: nat, r: char, cin: bool, cout: bool)
    requires i < |s| == |before| && before[i] == s[i] && IsDecimalDigit(s[i]) && DoubleDigit(s[i], cin) == (r, cout)
    requires 2 * DecValue(s[i + 1..]) == DecValue(before[i + 1..]) + CarryValue(cin) * Pow(10, |s| - (i + 1))
    ensures 2 * DecValue(s[i..]) == DecValue(before[i := r][i..]) + CarryValue(cout) * Pow(10, |s| - i)
  {
    assert s[i..] == [s[i]] + s[i + 1..];
    assert before[i := r][i..] == [r] + before[i + 1..];
    DoubleStep(s[i + 1..], before[i + 1..], s[i], r, cin, cout);
  }

  lemma MulAddRight(a: int, b: int, p: int)
    ensures (a + b) * p == a * p + b * p
  {
  }

  /** The canonical string of a value is unique. */
  lemma {:induction false} CanonicalUnique(s: seq<char>)
    requires Canonical(s)
    ensures s == DecDigits(DecValue(s))
    decreases |s|
  {
    if |s| > 0 {
      var p := s[..|s| - 1];
      LeadingDigitBound(s);
      var v := DecValue(s);
      assert v == 10 * DecValue(p) + DigitValue(s[|s| - 1]);
      assert v / 10 == DecValue(p) && v % 10 == DigitValue(s[|s| - 1]);
      assert v > 0;
      if |p| > 0 {
        CanonicalUnique(p);
      }
      var last := DigitChar(v % 10, true);
      assert last == s[|s| - 1];
      assert s == p + [last];
    }
  }

  /** A canonical string is empty exactly when it denotes zero. */
  lemma CanonicalEmptyIffZero(s: seq<char>)
    requires Canonical(s)
    ensures |s| > 0 <==> DecValue(s) > 0
  {
    if |s| > 0 {
      LeadingDigitBound(s);
    }
  }

  /** The parity test of the decoder: only the last character is inspected. */
  function StringIsEven(s: seq<char>): bool {
    |s| > 0 && s[|s| - 1] in ['0', '2', '4', '6', '8']
  }

  /** The last digit decides the parity of a decimal numeral. */
  lemma StringIsEvenParity(s: seq<char>)
    requires AllDigits(s) && |s| > 0
    ensures StringIsEven(s) <==> DecValue(s) % 2 == 0
  {
    var p := s[..|s| - 1];
    var d := DigitValue(s[|s| - 1]);
    assert DecValue(s) == 2 * (5 * DecValue(p)) + d;
    assert StringIsEven(s) <==> d % 2 == 0;
  }

  /** The borrow table of sub_string: each digit goes one down, '0' wraps to '9'. */
  function DecrementDigit(c: char): (r: char)
    requires IsDecimalDigit(c)
    ensures IsDecimalDigit(r)
    ensures DigitValue(r) == (DigitValue(c) + 9) % 10
    ensures r != '9' ==> DigitValue(c) == DigitValue(r) + 1
    ensures r == '9' ==> DigitValue(c) == 0
  {
    match c
    case '9' => '8'
    case '8' => '7'
    case '7' => '6'
    case '6' => '5'
    case '5' => '4'
    case '4' => '3'
    case '3' => '2'
    case '2' => '1'
    case '1' => '0'
    case _ => '9'
  }

  /** The halving table of div_string: the digit with an incoming remainder (ten) halved, and the outgoing remainder. */
  function HalveDigit(c: char, carry: bool): (r: (char, bool))
    requires IsDecimalDigit(c)
    ensures IsDecimalDigit(r.0)
    ensures DigitValue(r.0) == (10 * CarryValue(carry) + DigitValue(c)) / 2
    ensures r.1 <==> DigitValue(c) % 2 == 1
  {
    match c
    case '9' => if carry then ('9', carry) else ('4', true)
    case '8' => if carry then ('9', false) else ('4', carry)
    case '7' => if carry then ('8', carry) else ('3', true)
    case '6' => if carry then ('8', false) else ('3', carry)
    case '5' => if carry then ('7', carry) else ('2', true)
    case '4' => if carry then ('7', false) else ('2', carry)
    case '3' => if carry then ('6', carry) else ('1', true)
    case '2' => if carry then ('6', false) else ('1', carry)
    case '1' => if carry then ('5', carry) else ('0', true)
    case _ => if carry then ('5', false) else ('0', carry)
  }

  /** The carry table of add_string: each digit goes one up, '9' wraps to '0'. */
  function IncrementDigit(c: char): (r: char)
    requires IsDecimalDigit(c)
    ensures IsDecimalDigit(r)
    ensures DigitValue(r) == (DigitValue(c) + 1) % 10
    ensures r != '0' ==> DigitValue(r) == DigitValue(c) + 1
    ensures r == '0' ==> DigitValue(c) == 9
  {
    match c
    case '9' => '0'
    case '8' => '9'
    case '7' => '8'
    case '6' => '7'
    case '5' => '6'
    case '4' => '5'
    case '3' => '4'
    case '2' => '3'
    case '1' => '2'
    case _ => '1'
  }

  /** The doubling table of mult_string: twice the digit plus the incoming carry, modulo ten, and the outgoing carry. */
  function DoubleDigit(c: char, carry: bool): (r: (char, bool))
    requires IsDecimalDigit(c)
    ensures IsDecimalDigit(r.0)
    ensures DigitValue(r.0) == (2 * DigitValue(c) + CarryValue(carry)) % 10
    ensures r.1 <==> 2 * DigitValue(c) + CarryValue(carry) >= 10
  {
    match c
    case '9' => if carry then ('9', carry) else ('8', true)
    case '8' => if carry then ('7', carry) else ('6', true)
    case '7' => if carry then ('5', carry) else ('4', true)
    case '6' => if carry then ('3', carry) else ('2', true)
    case '5' => if carry then ('1', carry) else ('0', true)
    case '4' => if carry then ('9', false) else ('8', carry)
    case '3' => if carry then ('7', false) else ('6', carry)
    case '2' => if carry then ('5', false) else ('4', carry)
    case '1' => if carry then ('3', false) else ('2', carry)
    case _ => if carry then ('1', false) else ('0', carry)
  }

  /** A growable vector of digit characters, rewritten in place by the four arithmetic steps. */
  class DigitVec {
    var chars: seq<char>

    constructor (s: seq<char>)
      ensures chars == s
    {
      chars := s;
    }

    /** Removes leading '0' characters one at a time. */
    method TrimLeadingZeros()
      requires AllDigits(chars)
      modifies this
      ensures Canonical(chars) && DecValue(chars) == old(DecValue(chars))
      ensures exists k :: 0 <= k <= |old(chars)| && chars == old(chars)[k..]
    {
      ghost var k := 0;
      while |chars| > 0 && chars[0] == '0'
        invariant AllDigits(chars) && DecValue(chars) == old(DecValue(chars))
        invariant 0 <= k <= |old(chars)| && chars == old(chars)[k..]
        decreases |chars|
      {
        PrependDigit('0', chars[1..]);
        assert chars == [chars[0]] + chars[1..];
        chars := chars[1..];
        k := k + 1;
      }
    }

    /** sub_string: subtracts one, borrowing through trailing zeros, then trims leading zeros. */
    method SubString()
      requires AllDigits(chars) && DecValue(chars) >= 1
      modifies this
      ensures Canonical(chars) && DecValue(chars) == old(DecValue(chars)) - 1
    {
      ghost var s := chars;
      var n := |chars|;
      var index := n;
      var done := false;
      assert s[..index] == s;
      while index > 0 && !done
        invariant 0 <= index <= n && |chars| == n && AllDigits(chars)
        invariant !done ==> chars[..index] == s[..index] && DecValue(s[..index]) >= 1
        invariant !done ==> DecValue(chars) + 1 == DecValue(s) + Pow(10, n - index)
        invariant done ==> DecValue(chars) + 1 == DecValue(s)
      {
        var before := chars;
        var ch := DecrementDigit(before[index - 1]);
        chars := before[index - 1 := ch];
        if ch != '9' {
          BorrowStop(before, index - 1, ch, DecValue(s));
          done := true;
        } else {
          BorrowNine(before, index - 1, DecValue(s));
          BorrowedPrefix(s, index - 1);
          assert chars[..index - 1] == s[..index - 1];
        }
        index := index - 1;
      }
      TrimLeadingZeros();
    }

    /** div_string: halves the value in one pass from the most significant digit, then trims leading zeros. */
    method DivString()
      requires AllDigits(chars)
      modifies this
      ensures Canonical(chars) && DecValue(chars) == old(DecValue(chars)) / 2
    {
      ghost var s := chars;
      var carry := false;
      for index := 0 to |chars|
        invariant |chars| == |s| && AllDigits(chars)
        invariant chars[index..] == s[index..]
        invariant DecValue(s[..index]) == 2 * DecValue(chars[..index]) + CarryValue(carry)
      {
        var d := chars[index];
        var (q, c) := HalveDigit(d, carry);
        var before := chars;
        chars := chars[index := q];
        HalveStep(s[..index], before[..index], d, q, carry, c);
        assert s[..index + 1] == s[..index] + [d];
        assert chars[..index + 1] == before[..index] + [q];
        carry := c;
      }
      assert chars[..|chars|] == chars && s[..|s|] == s;
      TrimLeadingZeros();
    }

    /** The digit at i absorbs the borrow: it goes down by one and the difference is complete. */
    static lemma BorrowStop(before: seq<char>, i: nat, ch: char, target: nat)
      requires i < |before| && DigitValue(before[i]) == DigitValue(ch) + 1
      requires DecValue(before) + 1 == target + Pow(10, |before| - (i + 1))
      ensures DecValue(before[i := ch]) + 1 == target
    {
      DigitShift(before, i, ch, -1);
    }

    /** A zero at i becomes a nine and the borrow moves one place up. */
    static lemma BorrowNine(before: seq<char>, i: nat, target: nat)
      requires i < |before| && DigitValue(before[i]) == 0
      requires DecValue(before) + 1 == target + Pow(10, |before| - (i + 1))
      ensures DecValue(before[i := '9']) + 1 == target + Pow(10, |before| - i)
    {
      DigitShift(before, i, '9', 9);
      assert Pow(10, |before| - i) == 10 * Pow(10, |before| - (i + 1));
    }

    /** Dropping a trailing zero from a positive prefix leaves a positive prefix. */
    static lemma BorrowedPrefix(s: seq<char>, i: nat)
      requires i < |s| && DigitValue(s[i]) == 0 && DecValue(s[..i + 1]) >= 1
      ensures DecValue(s[..i]) >= 1
    {
      assert s[..i + 1] == s[..i] + [s[i]];
      AppendDigit(s[..i], s[i]);
    }

    /** A value at least that of a canonical string of the same length has no leading zero. */
    static lemma NoLeadingZero(s: seq<char>, t: seq<char>)
      requires Canonical(s) && AllDigits(t) && |t| == |s| > 0 && DecValue(t) >= DecValue(s)
      ensures t[0] != '0'
    {
      LeadingDigitBound(s);
      LeadingDigitBound(t);
    }

    /** Updating index i leaves the digits before it as they were. */
    static lemma PrefixUntouched(t: seq<char>, s: seq<char>, i: nat, c: char)
      requires i < |t| && i < |s| && t[..i + 1] == s[..i + 1]
      ensures t[i := c][..i] == s[..i]
    {
      assert t[..i] == t[..i + 1][..i];
      assert s[..i] == s[..i + 1][..i];
    }

    /** The digit at i stops the carry: it goes up by one and the sum is complete. */
    static lemma CarryStop(before: seq<char>, i: nat, ch: char, target: nat)
      requires i < |before| && DigitValue(ch) == DigitValue(before[i]) + 1
      requires DecValue(before) + Pow(10, |before| - (i + 1)) == target
      ensures DecValue(before[i := ch]) == target
    {
      DigitShift(before, i, ch, 1);
    }

    /** A nine at i becomes a zero and the carry moves one place up. */
    static lemma CarryNine(before: seq<char>, i: nat, target: nat)
      requires i < |before| && DigitValue(before[i]) == 9
      requires DecValue(before) + Pow(10, |before| - (i + 1)) == target
      ensures DecValue(before[i := '0']) + Pow(10, |before| - i) == target
    {
      DigitShift(before, i, '0', -9);
      assert Pow(10, |before| - i) == 10 * Pow(10, |before| - (i + 1));
    }

    /** add_string: adds one, carrying through trailing nines; a carry out of the first digit inserts '1' at the front. */
    method AddString()
      requires AllDigits(chars)
      modifies this
      ensures AllDigits(chars) && DecValue(chars) == old(DecValue(chars)) + 1
      ensures Canonical(old(chars)) ==> Canonical(chars)
    {
      ghost var s := chars;
      var n := |chars|;
      var index := n;
      while index > 0
        invariant 0 <= index <= n && |chars| == n && AllDigits(chars)
        invariant chars[..index] == s[..index]
        invariant DecValue(chars) + Pow(10, n - index) == DecValue(s) + 1
      {
        var before := chars;
        var ch := IncrementDigit(before[index - 1]);
        chars := before[index - 1 := ch];
        if ch != '0' {
          CarryStop(before, index - 1, ch, DecValue(s) + 1);
          assert index > 1 ==> chars[0] == s[0];
          return;
        }
        CarryNine(before, index - 1, DecValue(s) + 1);
        PrefixUntouched(before, s, index - 1, ch);
        index := index - 1;
      }
      PrependDigit('1', chars);
      chars := ['1'] + chars;
    }

    /** mult_string: doubles the value in one pass from the least significant digit; a final carry inserts '1' at the front. */
    method MultString()
      requires AllDigits(chars)
      modifies this
      ensures AllDigits(chars) && DecValue(chars) == 2 * old(DecValue(chars))
      ensures Canonical(old(chars)) ==> Canonical(chars)
    {
      ghost var s := chars;
      var n := |chars|;
      var carry := false;
      var index := n;
      while index > 0
        invariant 0 <= index <= n && |chars| == n && AllDigits(chars)
        invariant chars[..index] == s[..index]
        invariant 2 * DecValue(s[index..]) == DecValue(chars[index..]) + CarryValue(carry) * Pow(10, n - index)
      {
        index := index - 1;
        var d := chars[index];
        var (r, c) := DoubleDigit(d, carry);
        var before := chars;
        chars := chars[index := r];
        DoubleAt(s, before, index, r, carry, c);
        carry := c;
      }
      assert s[0..] == s && chars[0..] == chars;
      if carry {
        PrependDigit('1', chars);
        chars := ['1'] + chars;
      } else if Canonical(s) && n > 0 {
        NoLeadingZero(s, chars);
      }
    }
  }
}
