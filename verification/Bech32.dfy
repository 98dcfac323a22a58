/** The bech32 and bech32m checksum (miner/bech32.c; BIP173 section "Bech32", BIP350) and what
    it detects. The exclusive-or algebra is stated over named operations so that only the
    smallest lemmas look at bits. */
module Bech32 {

  const BECH32_CONST: bv32 := 1
  const BECH32M_CONST: bv32 := 0x2bc830a3

  function X(a: bv32, b: bv32): bv32 { a ^ b }

  function Wide(v: bv5): bv32 { v as bv32 }

  function Top(chk: bv32): bv32 { chk >> 25 }

  function Up(chk: bv32): bv32 { (chk & 0x1ffffff) << 5 }

  /** One generator word, if its bit of the five shifted out is set. */
  function Picked(top: bv32, j: bv32, gen: bv32): bv32
    requires j < 5
  {
    if (top >> j) & 1 != 0 then gen else 0
  }

  /** The generator words selected by the five bits shifted out. */
  function Feedback(top: bv32): bv32 {
    X(X(X(X(Picked(top, 0, 0x3b6a57b2), Picked(top, 1, 0x26508e6d)), Picked(top, 2, 0x1ea119fa)),
        Picked(top, 3, 0x3d4233dd)), Picked(top, 4, 0x2a1462b3))
  }

  /** One symbol into the checksum. */
  function Step(chk: bv32, v: bv5): bv32 {
    X(X(Up(chk), Wide(v)), Feedback(Top(chk)))
  }

  function Run(chk: bv32, values: seq<bv5>): bv32 {
    if values == [] then chk else Step(Run(chk, values[..|values| - 1]), values[|values| - 1])
  }

  const GEN: seq<bv32> := [0x3b6a57b2, 0x26508e6d, 0x1ea119fa, 0x3d4233dd, 0x2a1462b3]

  function Turn(top: bv32, j: nat): bv32
    requires j < 5
  {
    if j == 0 then Picked(top, 0, 0x3b6a57b2) else if j == 1 then Picked(top, 1, 0x26508e6d)
    else if j == 2 then Picked(top, 2, 0x1ea119fa) else if j == 3 then Picked(top, 3, 0x3d4233dd)
    else Picked(top, 4, 0x2a1462b3)
  }

  /** The checksum after j turns of the loop over the generator words. */
  function Folded(chk: bv32, top: bv32, j: nat): bv32
    requires j <= 5
  {
    if j == 0 then chk else X(Folded(chk, top, j - 1), Turn(top, j - 1))
  }

  /** polymod. */
  method Polymod(values: seq<bv5>) returns (chk: bv32)
    ensures chk == Run(1, values)
  {
    hide Step, Run, X, Up, Wide, Top, Folded;
    chk := 1;
    RunStart(values);
    for i := 0 to |values|
      invariant chk == Run(1, values[..i])
    {
      var top := Top(chk);
      ghost var before := chk;
      chk := X(Up(chk), Wide(values[i]));
      ghost var s := chk;
      FoldStart(s, top);
      for j := 0 to 5
        invariant chk == Folded(s, top, j)
      {
        FoldNext(s, top, j);
        if (top >> (j as bv32)) & 1 != 0 { chk := X(chk, GEN[j]); }
      }
      LoopIsStep(before, values[i]);
      RunNext(values, i);
    }
    assert values[..|values|] == values;
  }

  lemma FoldStart(s: bv32, top: bv32)
    ensures Folded(s, top, 0) == s
  {
  }

  lemma FoldNext(s: bv32, top: bv32, j: nat)
    requires j < 5
    ensures Folded(s, top, j + 1)
         == if (top >> (j as bv32)) & 1 != 0 then X(Folded(s, top, j), GEN[j]) else Folded(s, top, j)
  {
    hide X;
    XZero(Folded(s, top, j));
    if j == 0 { } else if j == 1 { } else if j == 2 { } else if j == 3 { } else { assert j == 4; }
  }

  lemma FoldTurn(s: bv32, top: bv32, j: nat)
    requires j < 5
    ensures Folded(s, top, j + 1) == X(Folded(s, top, j), Turn(top, j))
  {
    hide X, Turn;
  }

  lemma LoopIsStep(chk: bv32, v: bv5)
    ensures Folded(X(Up(chk), Wide(v)), Top(chk), 5) == Step(chk, v)
  {
    hide X, Picked, Up, Wide, Top;
    var s, t := X(Up(chk), Wide(v)), Top(chk);
    var a, b, c, d, e := Turn(t, 0), Turn(t, 1), Turn(t, 2), Turn(t, 3), Turn(t, 4);
    FoldStart(s, t);
    FoldTurn(s, t, 0); FoldTurn(s, t, 1); FoldTurn(s, t, 2); FoldTurn(s, t, 3); FoldTurn(s, t, 4);
    XAssoc(s, a, b);
    XAssoc(s, X(a, b), c);
    XAssoc(s, X(X(a, b), c), d);
    XAssoc(s, X(X(X(a, b), c), d), e);
  }

  lemma RunStart(values: seq<bv5>)
    ensures Run(1, values[..0]) == 1
  {
  }

  lemma RunNext(values: seq<bv5>, i: nat)
    requires i < |values|
    ensures Run(1, values[..i + 1]) == Step(Run(1, values[..i]), values[i])
  {
    hide Step;
    assert values[..i + 1][..i] == values[..i];
  }

  lemma RunEmpty(c: bv32)
    ensures Run(c, []) == c
  {
  }

  /** One evaluated step of a run. */
  lemma RunNextFrom(c: bv32, values: seq<bv5>, i: nat, next: bv32)
    requires i < |values| && Step(Run(c, values[..i]), values[i]) == next
    ensures Run(c, values[..i + 1]) == next
  {
    hide Step;
    assert values[..i + 1][..i] == values[..i];
  }

  // ---------------------------------------------------------------- algebra of exclusive or

  lemma XZero(a: bv32)
    ensures X(a, 0) == a
  {
  }

  lemma XAssoc(a: bv32, b: bv32, c: bv32)
    ensures X(X(a, b), c) == X(a, X(b, c))
  {
  }

  lemma XCancel(a: bv32, b: bv32, c: bv32)
    requires X(a, b) == X(a, c) || X(b, a) == X(c, a)
    ensures b == c
  {
  }

  const STATES: bv32 := 0x40000000

  lemma XBound(a: bv32, b: bv32)
    requires a < STATES && b < STATES
    ensures X(a, b) < STATES
  {
  }

  lemma UpBound(c: bv32, v: bv5)
    ensures Up(c) < STATES && Wide(v) < STATES
  {
  }

  lemma PickedBound(t: bv32, j: bv32, gen: bv32)
    requires j < 5 && gen < STATES
    ensures Picked(t, j, gen) < STATES
  {
  }

  lemma StepBound(c: bv32, v: bv5)
    ensures Step(c, v) < STATES
  {
    hide X, Up, Wide, Picked, Top;
    var t := Top(c);
    var a, b, d, e, f := Picked(t, 0, GEN[0]), Picked(t, 1, GEN[1]), Picked(t, 2, GEN[2]), Picked(t, 3, GEN[3]), Picked(t, 4, GEN[4]);
    PickedBound(t, 0, GEN[0]); PickedBound(t, 1, GEN[1]); PickedBound(t, 2, GEN[2]);
    PickedBound(t, 3, GEN[3]); PickedBound(t, 4, GEN[4]);
    XBound(a, b);
    XBound(X(a, b), d);
    XBound(X(X(a, b), d), e);
    XBound(X(X(X(a, b), d), e), f);
    UpBound(c, v);
    XBound(Up(c), Wide(v));
    XBound(X(Up(c), Wide(v)), Feedback(t));
  }

  // ---------------------------------------------------------------- one step is injective

  /** The low five bits of the feedback, as a table of the generators' low bits. */
  function FeedbackLow(t: bv32): bv32 {
    X(X(X(X(Picked(t, 0, 18), Picked(t, 1, 13)), Picked(t, 2, 26)), Picked(t, 3, 29)), Picked(t, 4, 19))
  }

  lemma LowBits(t: bv32)
    ensures Low5(Feedback(t)) == FeedbackLow(t)
  {
    hide X, Low5, Picked;
    LowPicked(t, 0, 0x3b6a57b2, 18);
    LowPicked(t, 1, 0x26508e6d, 13);
    LowPicked(t, 2, 0x1ea119fa, 26);
    LowPicked(t, 3, 0x3d4233dd, 29);
    LowPicked(t, 4, 0x2a1462b3, 19);
    var a, b, c := Picked(t, 0, 0x3b6a57b2), Picked(t, 1, 0x26508e6d), Picked(t, 2, 0x1ea119fa);
    var d, e := Picked(t, 3, 0x3d4233dd), Picked(t, 4, 0x2a1462b3);
    LowX(a, b);
    LowX(X(a, b), c);
    LowX(X(X(a, b), c), d);
    LowX(X(X(X(a, b), c), d), e);
  }

  function Low5(a: bv32): bv32 { a & 31 }

  lemma LowX(a: bv32, b: bv32)
    ensures Low5(X(a, b)) == X(Low5(a), Low5(b))
  {
  }

  /** The generators' low five bits, one after the other. */
  lemma LowPicked(t: bv32, j: bv32, gen: bv32, low: bv32)
    requires j < 5 && gen & 31 == low
    ensures Low5(Picked(t, j, gen)) == Picked(t, j, low)
  {
  }

  lemma LowInjective(t: bv32, u: bv32)
    requires t < 32 && u < 32 && FeedbackLow(t) == FeedbackLow(u)
    ensures t == u
  {
  }

  lemma TopSmall(c: bv32)
    requires c < STATES
    ensures Top(c) < 32
  {
  }

  /** Up clears the low five bits, so they come from the feedback alone. */
  lemma LowOfSum(a: bv32, b: bv32, v: bv32, f: bv32, g: bv32)
    requires X(X(Up(a), v), f) == X(X(Up(b), v), g)
    ensures f & 31 == g & 31
  {
  }

  lemma PartsGiveWhole(c: bv32, d: bv32)
    requires c < STATES && d < STATES && Top(c) == Top(d) && Up(c) == Up(d)
    ensures c == d
  {
  }

  /** On 30-bit states, one step with the same symbol never merges two states. */
  lemma StepInjective(c: bv32, d: bv32, v: bv5)
    requires c < STATES && d < STATES && Step(c, v) == Step(d, v)
    ensures c == d
  {
    hide X, Up, Wide, Feedback, Top;
    LowOfSum(c, d, Wide(v), Feedback(Top(c)), Feedback(Top(d)));
    LowBits(Top(c));
    LowBits(Top(d));
    TopSmall(c);
    TopSmall(d);
    LowInjective(Top(c), Top(d));
    XCancel(Feedback(Top(c)), X(Up(c), Wide(v)), X(Up(d), Wide(v)));
    XCancel(Wide(v), Up(c), Up(d));
    PartsGiveWhole(c, d);
  }

  lemma WideInjective(v: bv5, w: bv5)
    requires Wide(v) == Wide(w)
    ensures v == w
  {
  }

  lemma StepSymbol(c: bv32, v: bv5, w: bv5)
    requires Step(c, v) == Step(c, w)
    ensures v == w
  {
    hide X, Up, Wide, Feedback, Top;
    XCancel(Feedback(Top(c)), X(Up(c), Wide(v)), X(Up(c), Wide(w)));
    XCancel(Up(c), Wide(v), Wide(w));
    WideInjective(v, w);
  }

  lemma {:induction false} RunBound(c: bv32, values: seq<bv5>)
    requires c < STATES
    ensures Run(c, values) < STATES
  {
    hide Step;
    if values != [] {
      StepBound(Run(c, values[..|values| - 1]), values[|values| - 1]);
    }
  }

  /** Two different states stay different under the same symbols, however many. */
  lemma {:induction false} RunInjective(c: bv32, d: bv32, values: seq<bv5>)
    requires c < STATES && d < STATES && Run(c, values) == Run(d, values)
    ensures c == d
  {
    hide Step;
    if values != [] {
      var front := values[..|values| - 1];
      RunBound(c, front);
      RunBound(d, front);
      StepInjective(Run(c, front), Run(d, front), values[|values| - 1]);
      RunInjective(c, d, front);
    }
  }

  lemma {:induction false} RunConcat(c: bv32, a: seq<bv5>, b: seq<bv5>)
    ensures Run(c, a + b) == Run(Run(c, a), b)
  {
    hide Step;
    if b == [] {
      assert a + b == a;
    } else {
      var front := b[..|b| - 1];
      assert (a + b)[..|a| + |b| - 1] == a + front;
      RunConcat(c, a, front);
    }
  }

  lemma RunOne(a: seq<bv5>, v: bv5)
    ensures Run(1, a + [v]) == Step(Run(1, a), v)
  {
    hide Step;
    assert (a + [v])[..|a|] == a;
  }

  /** Any one symbol changed, at any place of a word of any length, changes the checksum. */
  lemma SubstitutionDetected(values: seq<bv5>, k: nat, w: bv5)
    requires k < |values| && values[k] != w
    ensures Run(1, values) != Run(1, values[k := w])
  {
    hide Step, Run;
    var other := values[k := w];
    var a, b := values[..k], values[k + 1..];
    assert values == (a + [values[k]]) + b;
    assert other == (a + [w]) + b;
    RunConcat(1, a + [values[k]], b);
    RunConcat(1, a + [w], b);
    RunOne(a, values[k]);
    RunOne(a, w);
    var c := Run(1, a);
    StepBound(c, values[k]);
    StepBound(c, w);
    if Run(1, values) == Run(1, other) {
      RunInjective(Step(c, values[k]), Step(c, w), b);
      StepSymbol(c, values[k], w);
    }
  }

  // ---------------------------------------------------------------- six symbols are determined

  function Left5(e: bv32): bv32 { e << 5 }

  lemma SameTop(c: bv32, e: bv32)
    requires e < 0x2000000
    ensures Top(X(c, e)) == Top(c)
  {
  }

  lemma UpDifference(c: bv32, e: bv32)
    requires e < 0x2000000
    ensures Up(X(c, e)) == X(Up(c), Left5(e))
  {
  }

  lemma XSwap(a: bv32, b: bv32, c: bv32)
    ensures X(X(a, b), c) == X(X(a, c), b)
  {
    hide X;
    XAssoc(a, b, c);
    XAssoc(a, c, b);
    XCommutes(b, c);
  }

  lemma XCommutes(a: bv32, b: bv32)
    ensures X(a, b) == X(b, a)
  {
  }

  lemma XTwice(a: bv32, b: bv32)
    ensures X(X(a, b), b) == a
  {
  }

  lemma Regroup(s: bv32, e: bv32, v: bv32, w: bv32, f: bv32)
    ensures X(X(X(s, e), w), f) == X(X(X(s, v), f), X(e, X(v, w)))
  {
    hide X;
    var sv := X(s, v);
    XAssoc(X(sv, f), e, X(v, w));
    XAssoc(X(X(sv, f), e), v, w);
    XSwap(X(sv, f), e, v);
    XSwap(sv, f, v);
    XTwice(s, v);
    XSwap(s, f, e);
    XSwap(X(s, e), f, w);
  }

  /** A difference below 2^25 between two states just moves up five bits. */
  lemma StepDifference(c: bv32, e: bv32, v: bv5, w: bv5)
    requires e < 0x2000000
    ensures Step(X(c, e), w) == X(Step(c, v), X(Left5(e), X(Wide(v), Wide(w))))
  {
    hide X, Up, Wide, Feedback, Top, Left5;
    SameTop(c, e);
    UpDifference(c, e);
    Regroup(Up(c), Left5(e), Wide(v), Wide(w), Feedback(Top(c)));
  }

  /** Difference of two runs from one state. */
  function Difference(a: seq<bv5>, b: seq<bv5>): bv32
    requires |a| == |b|
  {
    if a == [] then 0
    else X(Left5(Difference(a[..|a| - 1], b[..|b| - 1])), X(Wide(a[|a| - 1]), Wide(b[|b| - 1])))
  }

  /** Bound on the difference of k symbols: 2^(5k). */
  function Cap(k: nat): bv32
    requires k <= 5
  {
    if k == 0 then 1 else if k == 1 then 0x20 else if k == 2 then 0x400
    else if k == 3 then 0x8000 else if k == 4 then 0x100000 else 0x2000000
  }

  lemma CapGrows(e: bv32, k: nat, v: bv5, w: bv5)
    requires k < 5 && e < Cap(k)
    ensures X(Left5(e), X(Wide(v), Wide(w))) < Cap(k + 1)
  {
  }

  lemma {:induction false} DifferenceSmall(a: seq<bv5>, b: seq<bv5>)
    requires |a| == |b| <= 5
    ensures Difference(a, b) < Cap(|a|)
  {
    hide X, Wide, Left5;
    if a == [] {
      assert Cap(0) == 1;
    } else {
      var n := |a| - 1;
      DifferenceSmall(a[..n], b[..n]);
      CapGrows(Difference(a[..n], b[..n]), n, a[n], b[n]);
    }
  }

  lemma DifferenceBelow(a: seq<bv5>, b: seq<bv5>)
    requires |a| == |b| <= 5
    ensures Difference(a, b) < 0x2000000
  {
    hide Difference;
    DifferenceSmall(a, b);
    CapLimit(Difference(a, b), |a|);
  }

  lemma CapLimit(e: bv32, k: nat)
    requires k <= 5 && e < Cap(k)
    ensures e < 0x2000000
  {
  }

  lemma {:induction false} RunsDiffer(c: bv32, a: seq<bv5>, b: seq<bv5>)
    requires |a| == |b| <= 6
    ensures Run(c, b) == X(Run(c, a), Difference(a, b))
  {
    hide Step, X, Wide, Left5, Cap;
    if a == [] {
      XZero(c);
    } else {
      var n := |a| - 1;
      var x, y := a[..n], b[..n];
      RunsDiffer(c, x, y);
      DifferenceSmall(x, y);
      CapLimit(Difference(x, y), n);
      StepDifference(Run(c, x), Difference(x, y), a[n], b[n]);
    }
  }

  lemma LastSymbol(e: bv32, v: bv5, w: bv5)
    requires e < 0x2000000 && X(Left5(e), X(Wide(v), Wide(w))) == 0
    ensures e == 0 && v == w
  {
  }

  lemma DifferenceUnfolds(a: seq<bv5>, b: seq<bv5>)
    requires |a| == |b| > 0
    ensures var n := |a| - 1;
            Difference(a, b) == X(Left5(Difference(a[..n], b[..n])), X(Wide(a[n]), Wide(b[n])))
  {
    hide X, Wide, Left5;
  }

  lemma LastPair(a: seq<bv5>, b: seq<bv5>)
    requires 0 < |a| == |b| <= 6 && Difference(a, b) == 0
    ensures var n := |a| - 1; Difference(a[..n], b[..n]) == 0 && a[n] == b[n]
  {
    hide *;
    var n := |a| - 1;
    var e := Difference(a[..n], b[..n]);
    assert e < 0x2000000 by { DifferenceBelow(a[..n], b[..n]); }
    DifferenceUnfolds(a, b);
    LastSymbol(e, a[n], b[n]);
  }

  /** A difference of six symbols or fewer that vanishes is no difference. */
  lemma {:induction false} NoDifference(a: seq<bv5>, b: seq<bv5>)
    requires |a| == |b| <= 6 && Difference(a, b) == 0
    ensures a == b
  {
    hide Difference;
    if a != [] {
      var n := |a| - 1;
      LastPair(a, b);
      NoDifference(a[..n], b[..n]);
      assert a == a[..n] + [a[n]] && b == b[..n] + [b[n]];
    }
  }

  /** The six checksum symbols are determined by what precedes them. */
  lemma ChecksumUnique(prefix: seq<bv5>, a: seq<bv5>, b: seq<bv5>)
    requires |a| == |b| == 6 && Run(1, prefix + a) == Run(1, prefix + b)
    ensures a == b
  {
    hide Step, X, Run, Difference;
    RunConcat(1, prefix, a);
    RunConcat(1, prefix, b);
    var s := Run(Run(1, prefix), a);
    RunsDiffer(Run(1, prefix), a, b);
    XZero(s);
    XCancel(s, 0, Difference(a, b));
    NoDifference(a, b);
  }
}
