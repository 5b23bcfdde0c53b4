/** The bit sequence shared by the decoder and the encoder: booleans, most significant bit first,
    denoting an unsigned magnitude; the empty sequence denotes zero. Also two's-complement negation. */
module BitSeq {
  import opened Numerals

  function Pow2(n: nat): (r: nat)
    ensures r > 0
  {
    Pow(2, n)
  }

  function Bit(b: bool): nat {
    if b then 1 else 0
  }

  /** Unsigned value of a bit sequence, index 0 most significant. */
  function BitsValue(b: seq<bool>): nat
  {
    if |b| == 0 then 0 else 2 * BitsValue(b[..|b| - 1]) + Bit(b[|b| - 1])
  }

  function Zeros(n: nat): (z: seq<bool>)
    ensures |z| == n && forall i :: 0 <= i < n ==> !z[i]
  {
    seq(n, _ => false)
  }

  /** Minimal bit sequence of v: no leading false; empty for zero. */
  function ToBits(v: nat): (b: seq<bool>)
    ensures BitsValue(b) == v
    ensures |b| == 0 || b[0]
    ensures v == 0 <==> |b| == 0
  {
    if v == 0 then [] else ToBits(v / 2) + [v % 2 == 1]
  }

  lemma {:induction false} BitsValueBound(b: seq<bool>)
    ensures BitsValue(b) < Pow2(|b|)
    decreases |b|
  {
    if |b| > 0 {
      BitsValueBound(b[..|b| - 1]);
    }
  }

  lemma {:induction false} BitsValueAppend(a: seq<bool>, b: seq<bool>)
    ensures BitsValue(a + b) == BitsValue(a) * Pow2(|b|) + BitsValue(b)
    decreases |b|
  {
    if |b| == 0 {
      assert a + b == a;
    } else {
      var b' := b[..|b| - 1];
      assert (a + b)[..|a + b| - 1] == a + b';
      BitsValueAppend(a, b');
      var va, vb', p := BitsValue(a), BitsValue(b'), Pow2(|b'|);
      assert BitsValue(a + b) == 2 * (va * p + vb') + Bit(b[|b| - 1]);
      assert Pow2(|b|) == 2 * p;
      MulDistrib(2, va, p, vb');
    }
  }

  /** A sequence that starts with true is at least 2^(n-1). */
  lemma BitsValueLower(b: seq<bool>)
    requires |b| > 0 && b[0]
    ensures BitsValue(b) >= Pow2(|b| - 1)
  {
    BitsValueAppend([b[0]], b[1..]);
    assert [b[0]] + b[1..] == b;
    assert BitsValue([b[0]]) == 2 * BitsValue([]) + 1;
  }

  lemma {:induction false} ZerosValue(n: nat)
    ensures BitsValue(Zeros(n)) == 0
    decreases n
  {
    if n > 0 {
      assert Zeros(n)[..n - 1] == Zeros(n - 1);
      ZerosValue(n - 1);
    }
  }

  /** Left padding with false keeps the value. */
  lemma PadValue(n: nat, b: seq<bool>)
    ensures BitsValue(Zeros(n) + b) == BitsValue(b)
  {
    BitsValueAppend(Zeros(n), b);
    ZerosValue(n);
  }

  /** Two sequences of the same length and value are equal. */
  lemma {:induction false} BitsValueInjective(a: seq<bool>, b: seq<bool>)
    requires |a| == |b| && BitsValue(a) == BitsValue(b)
    ensures a == b
    decreases |a|
  {
    if |a| > 0 {
      var n := |a|;
      var pa, pb := a[..n - 1], b[..n - 1];
      ModUnique(BitsValue(a), BitsValue(pa), Bit(a[n - 1]), 2);
      ModUnique(BitsValue(b), BitsValue(pb), Bit(b[n - 1]), 2);
      assert a[n - 1] == b[n - 1];
      BitsValueInjective(pa, pb);
      assert a == a[..n - 1] + [a[n - 1]];
      assert b == b[..n - 1] + [b[n - 1]];
    }
  }

  /** A sequence without a leading false is the minimal sequence of its value. */
  lemma {:induction false} MinimalIsToBits(b: seq<bool>)
    requires |b| == 0 || b[0]
    ensures b == ToBits(BitsValue(b))
    decreases |b|
  {
    if |b| > 0 {
      var v := BitsValue(b);
      var p := b[..|b| - 1];
      BitsValueLower(b);
      assert v > 0;
      assert v / 2 == BitsValue(p);
      if |p| > 0 {
        MinimalIsToBits(p);
      } else {
        assert BitsValue(p) == 0;
      }
      assert b == p + [b[|b| - 1]];
    }
  }

  /** The minimal sequence of v is as long as the bit length of v: v < 2^|b| and, when nonzero, 2^(|b|-1) <= v. */
  lemma MinimalLength(v: nat, n: nat)
    ensures |ToBits(v)| <= n <==> v < Pow2(n)
  {
    var b := ToBits(v);
    BitsValueBound(b);
    if |b| <= n {
      PowMonotone(2, |b|, n);
    } else {
      BitsValueLower(b);
      PowMonotone(2, n, |b| - 1);
    }
  }

  function Complement(b: seq<bool>): (c: seq<bool>)
    ensures |c| == |b| && forall i :: 0 <= i < |b| ==> c[i] == !b[i]
  {
    seq(|b|, i requires 0 <= i < |b| => !b[i])
  }

  /** Adds one modulo 2^|b|: the trailing run of true becomes false and the bit before it becomes true. */
  function AddOne(b: seq<bool>): (r: seq<bool>)
    ensures |r| == |b|
  {
    if |b| == 0 then []
    else if b[|b| - 1] then AddOne(b[..|b| - 1]) + [false]
    else b[..|b| - 1] + [true]
  }

  /** Two's-complement negation: complement, then add one. */
  function Negated(b: seq<bool>): (r: seq<bool>)
  {
    AddOne(Complement(b))
  }

  lemma {:induction false} ComplementValue(b: seq<bool>)
    ensures BitsValue(Complement(b)) == Pow2(|b|) - 1 - BitsValue(b)
    decreases |b|
  {
    if |b| > 0 {
      var p := b[..|b| - 1];
      assert Complement(b)[..|b| - 1] == Complement(p);
      ComplementValue(p);
    }
  }

  /** Adding one wraps around to zero exactly when every bit is true. */
  lemma {:induction false} AddOneValue(b: seq<bool>)
    ensures BitsValue(b) + 1 < Pow2(|b|) ==> BitsValue(AddOne(b)) == BitsValue(b) + 1
    ensures BitsValue(b) + 1 == Pow2(|b|) ==> BitsValue(AddOne(b)) == 0
    decreases |b|
  {
    BitsValueBound(b);
    if |b| > 0 {
      var p := b[..|b| - 1];
      BitsValueBound(p);
      var vp := BitsValue(p);
      if b[|b| - 1] {
        var r := AddOne(p) + [false];
        assert r[..|r| - 1] == AddOne(p);
        AddOneValue(p);
        assert BitsValue(AddOne(b)) == 2 * BitsValue(AddOne(p));
        assert BitsValue(b) + 1 == 2 * (vp + 1);
      } else {
        var r := p + [true];
        assert r[..|r| - 1] == p;
        assert BitsValue(b) + 1 == 2 * vp + 1;
      }
    }
  }

  /** Negation maps a sequence of length n and value v to one of the same length and value (2^n - v) mod 2^n. */
  lemma NegatedValue(b: seq<bool>)
    ensures |Negated(b)| == |b|
    ensures BitsValue(Negated(b)) == (Pow2(|b|) - BitsValue(b)) % Pow2(|b|)
  {
    ComplementValue(b);
    AddOneValue(Complement(b));
    BitsValueBound(b);
    WrapAround(Pow2(|b|), BitsValue(b));
  }

  lemma WrapAround(p: int, v: int)
    requires 0 <= v < p
    ensures v == 0 ==> (p - v) % p == 0
    ensures v > 0 ==> (p - v) % p == p - v
  {
  }

  /** Negating twice gives back the original sequence. */
  lemma NegatedInvolution(b: seq<bool>)
    ensures Negated(Negated(b)) == b
  {
    var n := Negated(b);
    NegatedValue(b);
    NegatedValue(n);
    BitsValueBound(b);
    var p, v := Pow2(|b|), BitsValue(b);
    WrapAround(p, v);
    if v > 0 {
      WrapAround(p, p - v);
    }
    BitsValueInjective(Negated(n), b);
  }

  /** AddOne leaves the prefix before a trailing run of true untouched apart from that run. */
  lemma {:induction false} AddOneTrailing(c: seq<bool>, i: nat)
    requires i <= |c| && forall j :: i <= j < |c| ==> c[j]
    ensures AddOne(c) == AddOne(c[..i]) + Zeros(|c| - i)
    decreases |c| - i
  {
    if i < |c| {
      var p := c[..|c| - 1];
      assert p[..i] == c[..i];
      AddOneTrailing(p, i);
      assert Zeros(|p| - i) + [false] == Zeros(|c| - i);
    } else {
      assert c[..i] == c;
    }
  }

  /** In place negation, as two passes over the buffer: flip every bit, then flip from the
      least significant end up to and including the first bit that becomes true. */
  method Negative(bits: array<bool>)
    modifies bits
    ensures bits[..] == Negated(old(bits[..]))
  {
    ghost var c := Complement(old(bits[..]));
    var n := bits.Length;
    for i := 0 to n
      invariant forall j :: 0 <= j < i ==> bits[j] == c[j]
      invariant forall j :: i <= j < n ==> bits[j] == old(bits[j])
    {
      bits[i] := !bits[i];
    }
    assert bits[..] == c;
    var i := n;
    var done := false;
    while i > 0 && !done
      invariant 0 <= i <= n
      invariant !done ==> bits[..] == c[..i] + Zeros(n - i)
      invariant !done ==> forall j :: i <= j < n ==> c[j]
      invariant done ==> bits[..] == AddOne(c)
    {
      bits[i - 1] := !bits[i - 1];
      if bits[i - 1] {
        AddOneTrailing(c, i);
        assert c[..i][..i - 1] == c[..i - 1];
        assert bits[..] == c[..i - 1] + [true] + Zeros(n - i);
        done := true;
      } else {
        assert bits[..] == c[..i - 1] + Zeros(n - (i - 1));
      }
      i := i - 1;
    }
    if !done {
      AddOneTrailing(c, 0);
    }
  }
}
