/** Digit grouping of the encoder: the digits are split into groups of g counted from the least
    significant end (so only the first group may be shorter) and the separator goes between groups. */
module Grouping {
  import opened Numerals

  /** The groups of d, most significant first. */
  function Groups(d: string, g: nat): (gs: seq<string>)
    requires g > 0
    decreases |d|
  {
    if |d| == 0 then []
    else if |d| <= g then [d]
    else Groups(d[..|d| - g], g) + [d[|d| - g..]]
  }

  function Concat(gs: seq<string>): string {
    if |gs| == 0 then "" else Concat(gs[..|gs| - 1]) + gs[|gs| - 1]
  }

  function Join(gs: seq<string>, sep: string): string {
    if |gs| == 0 then ""
    else if |gs| == 1 then gs[0]
    else Join(gs[..|gs| - 1], sep) + sep + gs[|gs| - 1]
  }

  /** The digits with the separator between consecutive groups. */
  function Grouped(d: string, g: nat, sep: string): string
    requires g > 0
  {
    Join(Groups(d, g), sep)
  }

  /** The groups cover the digits in order; each is nonempty and at most g long, and all but the
      first are exactly g long. */
  lemma {:induction false} GroupsShape(d: string, g: nat)
    requires g > 0
    ensures Concat(Groups(d, g)) == d
    ensures forall i :: 0 <= i < |Groups(d, g)| ==> 0 < |Groups(d, g)[i]| <= g
    ensures forall i :: 0 < i < |Groups(d, g)| ==> |Groups(d, g)[i]| == g
    decreases |d|
  {
    if |d| > g {
      var m := |d| - g;
      GroupsShape(d[..m], g);
      var gs := Groups(d[..m], g);
      assert (gs + [d[m..]])[..|gs|] == gs;
      assert d[..m] + d[m..] == d;
    } else if |d| > 0 {
      assert Concat([d]) == Concat([]) + d;
    }
  }

  /** With the empty separator grouping changes nothing. */
  lemma {:induction false} GroupedPlain(d: string, g: nat)
    requires g > 0
    ensures Grouped(d, g, "") == d
  {
    JoinEmpty(Groups(d, g));
    GroupsShape(d, g);
  }

  lemma {:induction false} JoinEmpty(gs: seq<string>)
    ensures Join(gs, "") == Concat(gs)
    decreases |gs|
  {
    if |gs| == 1 {
      assert Concat(gs) == Concat([]) + gs[0];
    } else if |gs| > 1 {
      JoinEmpty(gs[..|gs| - 1]);
    }
  }

  /** The output of the left-to-right loop after it has pushed the first i digits of d: a separator
      follows digit i when the digits still to come are a multiple of g and something is left to
      read, either another digit or, when tail holds, an incomplete trailing chunk of bits. */
  function Emitted(d: string, i: nat, g: nat, sep: string, tail: bool): string
    requires i <= |d| && g > 0
  {
    if i == 0 then ""
    else Emitted(d, i - 1, g, sep, tail) + [d[i - 1]]
         + (if (|d| - i) % g == 0 && (i < |d| || tail) then sep else "")
  }

  /** Within the last g digits no separator is pushed. */
  lemma {:induction false} EmittedTail(d: string, m: nat, i: nat, g: nat, sep: string, tail: bool)
    requires m <= i <= |d| && g > 0 && |d| - m <= g
    requires i < |d| || !tail
    ensures Emitted(d, i, g, sep, tail) == Emitted(d, m, g, sep, tail) + d[m..i]
    decreases i - m
  {
    if i > m {
      EmittedTail(d, m, i - 1, g, sep, tail);
      if i < |d| {
        ModUnique(|d| - i, 0, |d| - i, g);
      }
      assert d[m..i] == d[m..i - 1] + [d[i - 1]];
    }
  }

  /** Before the last g digits the loop behaves as on the digits without them. */
  lemma {:induction false} EmittedPrefix(d: string, i: nat, g: nat, sep: string, tail: bool)
    requires g > 0 && |d| > g && i < |d| - g
    ensures Emitted(d, i, g, sep, tail) == Emitted(d[..|d| - g], i, g, sep, false)
    decreases i
  {
    if i > 0 {
      EmittedPrefix(d, i - 1, g, sep, tail);
      ModAddPeriod(|d| - g - i, g);
      assert d[..|d| - g][i - 1] == d[i - 1];
    }
  }

  lemma ModAddPeriod(x: nat, g: nat)
    requires g > 0
    ensures (x + g) % g == x % g
  {
    ModUnique(x + g, x / g + 1, x % g, g);
  }

  /** The separator before the last group. */
  lemma EmittedAt(d: string, g: nat, sep: string, tail: bool)
    requires |d| > g > 0
    ensures Emitted(d, |d| - g, g, sep, tail) == Emitted(d[..|d| - g], |d| - g, g, sep, false) + sep
  {
    var m := |d| - g;
    EmittedPrefix(d, m - 1, g, sep, tail);
    ModUnique(g, 1, 0, g);
    assert d[..m][m - 1] == d[m - 1];
  }

  /** The left-to-right loop produces the grouping defined from the right. */
  lemma {:induction false} EmittedGrouped(d: string, g: nat, sep: string)
    requires g > 0
    ensures Emitted(d, |d|, g, sep, false) == Grouped(d, g, sep)
    decreases |d|
  {
    if |d| <= g {
      EmittedTail(d, 0, |d|, g, sep, false);
      assert d[0..|d|] == d;
    } else {
      var m := |d| - g;
      EmittedAt(d, g, sep, false);
      EmittedTail(d, m, |d|, g, sep, false);
      EmittedGrouped(d[..m], g, sep);
      var gs := Groups(d[..m], g);
      assert |gs| > 0;
      assert (gs + [d[m..]])[..|gs|] == gs;
    }
  }

  /** An incomplete trailing chunk only adds one separator at the very end. */
  lemma EmittedTrailing(d: string, g: nat, sep: string)
    requires g > 0 && |d| > 0
    ensures Emitted(d, |d|, g, sep, true) == Emitted(d, |d|, g, sep, false) + sep
  {
    TailIrrelevant(d, |d| - 1, g, sep);
  }

  lemma {:induction false} TailIrrelevant(d: string, i: nat, g: nat, sep: string)
    requires i < |d| && g > 0
    ensures Emitted(d, i, g, sep, true) == Emitted(d, i, g, sep, false)
    decreases i
  {
    if i > 0 {
      TailIrrelevant(d, i - 1, g, sep);
    }
  }

  /** The loop's initial group counter, as a function of the digits still to come: the digits
      that the first group lacks to be complete. */
  function Pad(m: nat, g: nat): nat
    requires g > 0
  {
    (g - m % g) % g
  }

  /** Pushing one digit completes a group exactly when the digits after it are a multiple of g;
      the counter is then reset, and otherwise it advances by one. */
  lemma PadStep(m: nat, g: nat)
    requires g >= 2 && m >= 1
    ensures Pad(m, g) + 1 == g <==> (m - 1) % g == 0
    ensures (m - 1) % g == 0 ==> Pad(m - 1, g) == 0
    ensures (m - 1) % g != 0 ==> Pad(m - 1, g) == Pad(m, g) + 1
  {
    var r := m % g;
    if r > 0 {
      ModUnique(m - 1, m / g, r - 1, g);
      ModUnique(g - r, 0, g - r, g);
      if r == 1 {
        ModUnique(g, 1, 0, g);
      } else {
        ModUnique(g - r + 1, 0, g - r + 1, g);
      }
    } else {
      ModUnique(m - 1, m / g - 1, g - 1, g);
      ModUnique(g, 1, 0, g);
      ModUnique(1, 0, 1, g);
    }
  }
}
