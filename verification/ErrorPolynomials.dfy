/** Errors as (locator, magnitude) pairs, with their locator, evaluator and syndrome
  * polynomials. */
module ErrorPolynomials {
  import opened Basics
  import opened Options
  import opened FieldAddition
  import opened GF256
  import opened Polynomials
  import opened PolynomialFacts
  import opened KeyEquation

  datatype Error = Error(locator: byte, magnitude: byte)

  /** The product of 1 + X * x over all locators X. */
  function Locator(es: seq<Error>): Poly {
    if |es| == 0 then Const(1)
    else var e := es[|es| - 1]; Times(Locator(es[..|es| - 1]), Lin(e.locator))
  }

  /** The sum over all errors of the magnitude times the product of the other factors. */
  function Evaluator(es: seq<Error>): Poly {
    if |es| == 0 then Nil
    else
      var e, before := es[|es| - 1], es[..|es| - 1];
      Plus(Times(Lin(e.locator), Evaluator(before)), Times(Const(e.magnitude), Locator(before)))
  }

  /** Y + Y X x + Y X^2 x^2 + ..., R terms. */
  function Geometric(X: byte, Y: byte, R: nat): Poly
    decreases R
  {
    if R == 0 then Nil else Mk(Y, Geometric(X, Mul(X, Y), R - 1))
  }

  function SyndromeOf(es: seq<Error>, R: nat): Poly {
    if |es| == 0 then Nil
    else
      var e := es[|es| - 1];
      Plus(SyndromeOf(es[..|es| - 1], R), Geometric(e.locator, e.magnitude, R))
  }

  /** Locators are non-zero and different. */
  predicate Distinct(es: seq<Error>) {
    && (forall i :: 0 <= i < |es| ==> es[i].locator != 0)
    && (forall i, j :: 0 <= i < j < |es| ==> es[i].locator != es[j].locator)
  }

  // ---- the key equation of a list of errors ----

  lemma {:induction false} GeometricTimesLin(X: byte, Y: byte, R: nat) returns (c: byte)
    ensures Times(Lin(X), Geometric(X, Y, R)) == Plus(Const(Y), Shift(R, Const(c)))
    decreases R
  {
    hide Mul, Add, Plus, Times, Scale;
    PlusLaws();
    if R == 0 {
      c := Y;
      TimesNil(Lin(X));
    } else {
      var G := Geometric(X, Mul(X, Y), R - 1);
      c := GeometricTimesLin(X, Mul(X, Y), R - 1);
      var rest := Shift(R - 1, Const(c));
      TimesMkRight(Lin(X), Y, G);
      ScaleLin(Y, X);
      PlusMk(Y, Const(Mul(X, Y)), 0, Times(Lin(X), G));
      PlusMk(Y, Nil, 0, rest);
      AddLaws();
      assert Plus(Const(Mul(X, Y)), Plus(Const(Mul(X, Y)), rest)) == rest;
    }
  }

  lemma ScaleLin(c: byte, X: byte)
    ensures Scale(c, Lin(X)) == Mk(c, Const(Mul(X, c)))
  {
    hide Mul;
    ScaleMk(c, 1, Const(X));
    ScaleMk(c, X, Nil);
    MulComm(c, 1);
    MulOne(c);
    MulComm(c, X);
  }

  lemma {:induction false} ErrorsSolveKeyEquation(es: seq<Error>, R: nat)
    ensures Truncate(R, Times(Locator(es), SyndromeOf(es, R))) == Truncate(R, Evaluator(es))
  {
    if |es| == 0 {
      TimesNil(Locator(es));
    } else {
      var e, before := es[|es| - 1], es[..|es| - 1];
      ErrorsSolveKeyEquation(before, R);
      AddError(Locator(before), SyndromeOf(before, R), Evaluator(before), e, R);
    }
  }

  lemma AddError(L: Poly, S: Poly, W: Poly, e: Error, R: nat)
    requires Truncate(R, Times(L, S)) == Truncate(R, W)
    ensures var F, G := Lin(e.locator), Geometric(e.locator, e.magnitude, R);
      Truncate(R, Times(Times(L, F), Plus(S, G)))
      == Truncate(R, Plus(Times(F, W), Times(Const(e.magnitude), L)))
  {
    hide Plus, Times, Truncate, Lin, Geometric, Const, Shift;
    var F, G, Y := Lin(e.locator), Geometric(e.locator, e.magnitude, R), Const(e.magnitude);
    TimesPlusRight(Times(L, F), S, G);
    TruncatePlus(R, Times(Times(L, F), S), Times(Times(L, F), G));
    TruncatePlus(R, Times(F, W), Times(Y, L));
    TimesComm(L, F);
    TimesAssoc(F, L, S);
    TruncateTimes(R, F, Times(L, S), W);
    TimesAssoc(L, F, G);
    var c := GeometricTimesLin(e.locator, e.magnitude, R);
    TruncatePlus(R, Y, Shift(R, Const(c)));
    TruncateShift(R, Const(c));
    PlusLaws();
    TruncateTimes(R, L, Times(F, G), Y);
    TimesComm(L, Y);
  }

  // ---- lengths ----

  lemma LinLen(X: byte)
    requires X != 0
    ensures Lin(X) != Nil && Len(Lin(X)) == 2
  {
    assert Len(Const(X)) == 1;
  }

  lemma {:induction false} LocatorShape(es: seq<Error>)
    requires forall i :: 0 <= i < |es| ==> es[i].locator != 0
    ensures Len(Locator(es)) == |es| + 1 && Coef(Locator(es), 0) == 1
    ensures Len(Evaluator(es)) <= |es|
  {
    if |es| > 0 {
      var e, before := es[|es| - 1], es[..|es| - 1];
      LocatorShape(before);
      var L, W, F := Locator(before), Evaluator(before), Lin(e.locator);
      hide Mul, Times, Plus;
      LinLen(e.locator);
      LenTimes(L, F);
      LowTimes(L, F);
      MulOne(1);
      TimesNil(F);
      if W != Nil { LenTimes(F, W); }
      TimesConst(e.magnitude, L);
      ScaleZero(L);
      if e.magnitude != 0 { LenScale(e.magnitude, L); }
      LenPlus(Times(F, W), Times(Const(e.magnitude), L));
    }
  }

  lemma {:induction false} LenGeometric(X: byte, Y: byte, R: nat)
    ensures Len(Geometric(X, Y, R)) <= R
    decreases R
  {
    hide Mul;
    if R > 0 { LenGeometric(X, Mul(X, Y), R - 1); }
  }

  lemma {:induction false} LenSyndromeOf(es: seq<Error>, R: nat)
    ensures Len(SyndromeOf(es, R)) <= R
  {
    if |es| > 0 {
      hide Plus, Geometric;
      var e, before := es[|es| - 1], es[..|es| - 1];
      LenSyndromeOf(before, R);
      LenGeometric(e.locator, e.magnitude, R);
      LenPlus(SyndromeOf(before, R), Geometric(e.locator, e.magnitude, R));
    }
  }

  // ---- values at the inverse locators ----

  lemma LinRoot(X: byte, z: byte)
    requires z != 0
    ensures Eval(Lin(X), z) == 0 <==> X == Inverse(z)
  {
    hide Mul, Add, Inverse, Lin, Eval;
    AddLaws();
    EvalLin(X, z);
    MulInverse(z);
    if Mul(X, z) == 1 {
      MulAssoc(X, z, Inverse(z));
      MulComm(X, 1);
      MulOne(X);
      MulOne(Inverse(z));
    }
  }

  lemma InverseInverse(X: byte)
    requires X != 0
    ensures Inverse(X) != 0 && Inverse(Inverse(X)) == X
  {
    hide Mul, Inverse;
    MulInverse(X);
    MulInverse(Inverse(X));
    var i := Inverse(X);
    MulAssoc(X, i, Inverse(i));
    MulComm(X, 1);
    MulOne(X);
    MulOne(Inverse(i));
  }

  lemma {:induction false} LocatorRoots(es: seq<Error>, z: byte)
    requires z != 0
    ensures Eval(Locator(es), z) == 0 <==> exists k :: 0 <= k < |es| && es[k].locator == Inverse(z)
  {
    hide Mul, Inverse, Lin, Times;
    if |es| == 0 {
      EvalConst(1, z);
    } else {
      var n := |es| - 1;
      LocatorRoots(es[..n], z);
      EvalTimes(Locator(es[..n]), Lin(es[n].locator), z);
      MulZero(Eval(Locator(es[..n]), z), Eval(Lin(es[n].locator), z));
      LinRoot(es[n].locator, z);
    }
  }

  /** Forney's denominator for error i: the product of 1 + X_j / X_i over the other errors
    * among the first n, multiplied in the order of the loop. */
  ghost function Denominator(locs: seq<byte>, i: nat, n: nat): byte
    requires i < |locs| && n <= |locs| && locs[i] != 0
  {
    if n == 0 then 1
    else if n - 1 == i then Denominator(locs, i, n - 1)
    else Mul(Denominator(locs, i, n - 1), Add(1, Mul(locs[n - 1], Inverse(locs[i]))))
  }

  function Locators(es: seq<Error>): (locs: seq<byte>)
    ensures |locs| == |es|
    ensures forall i :: 0 <= i < |es| ==> locs[i] == es[i].locator
  {
    seq(|es|, i requires 0 <= i < |es| => es[i].locator)
  }

  lemma {:induction false} DenominatorIsLocator(es: seq<Error>, i: nat, n: nat)
    requires i < |es| && n <= i && es[i].locator != 0
    ensures Eval(Locator(es[..n]), Inverse(es[i].locator)) == Denominator(Locators(es), i, n)
  {
    hide Mul, Inverse, Lin, Times, Add, Eval;
    var z := Inverse(es[i].locator);
    if n == 0 {
      EvalConst(1, z);
    } else {
      DenominatorIsLocator(es, i, n - 1);
      assert es[..n][..n - 1] == es[..n - 1];
      EvalTimes(Locator(es[..n - 1]), Lin(es[n - 1].locator), z);
      EvalLin(es[n - 1].locator, z);
    }
  }

  lemma EvaluatorStep(e: Error, before: seq<Error>, z: byte)
    ensures Eval(Evaluator(before + [e]), z)
         == Add(Mul(Eval(Lin(e.locator), z), Eval(Evaluator(before), z)), Mul(e.magnitude, Eval(Locator(before), z)))
  {
    hide Mul, Lin, Times, Plus, Add, Eval;
    assert (before + [e])[..|before|] == before;
    EvalPlus(Times(Lin(e.locator), Evaluator(before)), Times(Const(e.magnitude), Locator(before)), z);
    EvalTimes(Lin(e.locator), Evaluator(before), z);
    EvalTimes(Const(e.magnitude), Locator(before), z);
    EvalConst(e.magnitude, z);
  }

  lemma OnlyLast(a: byte, b: byte)
    ensures Add(Mul(0, a), b) == b
  {
    hide Mul, Add;
    MulZero(0, a);
    AddLaws();
  }

  lemma OnlyFirst(a: byte, b: byte)
    ensures Add(a, Mul(b, 0)) == a
  {
    hide Mul, Add;
    MulZero(b, 0);
    AddLaws();
  }

  lemma SwapIn(f: byte, m: byte, D: byte)
    ensures Mul(f, Mul(m, D)) == Mul(m, Mul(D, f))
  {
    hide Mul;
    MulComm(f, Mul(m, D));
    MulAssoc(m, D, f);
  }

  lemma {:induction false} EvaluatorAt(es: seq<Error>, i: nat, n: nat)
    requires i < n <= |es| && es[i].locator != 0
    ensures Eval(Evaluator(es[..n]), Inverse(es[i].locator))
         == Mul(es[i].magnitude, Denominator(Locators(es), i, n))
  {
    hide Mul, Inverse, Lin, Add, Eval, Evaluator, Locator;
    var e, before := es[n - 1], es[..n - 1];
    var z := Inverse(es[i].locator);
    assert es[..n] == before + [e];
    EvaluatorStep(e, before, z);
    InverseInverse(es[i].locator);
    if n - 1 == i {
      DenominatorIsLocator(es, i, i);
      LinRoot(e.locator, z);
      OnlyLast(Eval(Evaluator(before), z), Mul(e.magnitude, Eval(Locator(before), z)));
    } else {
      EvaluatorAt(es, i, n - 1);
      assert before[i] == es[i];
      LocatorRoots(before, z);
      OnlyFirst(Mul(Eval(Lin(e.locator), z), Eval(Evaluator(before), z)), e.magnitude);
      EvalLin(e.locator, z);
      SwapIn(Eval(Lin(e.locator), z), es[i].magnitude, Denominator(Locators(es), i, n - 1));
    }
  }

  lemma {:induction false} DenominatorNonZero(locs: seq<byte>, i: nat, n: nat)
    requires i < |locs| && n <= |locs|
    requires forall j :: 0 <= j < |locs| ==> locs[j] != 0
    requires forall j, k :: 0 <= j < k < |locs| ==> locs[j] != locs[k]
    ensures Denominator(locs, i, n) != 0
  {
    hide Mul, Inverse, Lin, Add, Eval;
    MulOne(1);
    if n > 0 {
      DenominatorNonZero(locs, i, n - 1);
      if n - 1 != i {
        MulInverse(locs[i]);
        InverseInverse(locs[i]);
        var z := Inverse(locs[i]);
        EvalLin(locs[n - 1], z);
        LinRoot(locs[n - 1], z);
        MulZero(Denominator(locs, i, n - 1), Eval(Lin(locs[n - 1]), z));
      }
    }
  }

  // ---- uniqueness ----

  /** A non-zero polynomial that vanishes at all inverse locators has more coefficients
    * than there are errors. */
  lemma InverseLocatorBound(p: Poly, es: seq<Error>)
    requires Distinct(es) && p != Nil
    requires forall i :: 0 <= i < |es| ==> Eval(p, Inverse(es[i].locator)) == 0
    ensures |es| < Len(p)
  {
    hide Inverse, Eval;
    var roots := seq(|es|, i requires 0 <= i < |es| => Inverse(es[i].locator));
    forall i, j | 0 <= i < j < |es| ensures roots[i] != roots[j] {
      InverseInverse(es[i].locator);
      InverseInverse(es[j].locator);
    }
    RootBound(p, roots);
  }

  /** A short polynomial is determined by its values at the inverse locators. */
  lemma EvaluatorUnique(p: Poly, q: Poly, es: seq<Error>)
    requires Distinct(es) && Len(p) <= |es| && Len(q) <= |es|
    requires forall i :: 0 <= i < |es| ==> Eval(p, Inverse(es[i].locator)) == Eval(q, Inverse(es[i].locator))
    ensures p == q
  {
    hide Inverse, Plus, Add, Eval;
    AddLaws();
    PlusCancels(p, q);
    var d := Plus(p, q);
    LenPlus(p, q);
    forall i | 0 <= i < |es| ensures Eval(d, Inverse(es[i].locator)) == 0 {
      EvalPlus(p, q, Inverse(es[i].locator));
    }
    if d != Nil { InverseLocatorBound(d, es); }
  }

  /** A polynomial with constant term 1 whose degree is the number of the given inverse
    * roots is the locator polynomial. */
  lemma LocatorUnique(sigma: Poly, es: seq<Error>)
    requires Distinct(es)
    requires Coef(sigma, 0) == 1 && Len(sigma) == |es| + 1
    requires forall i :: 0 <= i < |es| ==> Eval(sigma, Inverse(es[i].locator)) == 0
    ensures sigma == Locator(es)
  {
    var L := Locator(es);
    LocatorShape(es);
    hide Mul, Inverse, Plus, Add, Eval, Locator;
    AddLaws();
    forall i | 0 <= i < |es|
      ensures Eval(sigma.rest, Inverse(es[i].locator)) == Eval(L.rest, Inverse(es[i].locator))
    {
      var z := Inverse(es[i].locator);
      InverseInverse(es[i].locator);
      LocatorRoots(es, z);
      EqualTails(sigma, L, z);
    }
    EvaluatorUnique(sigma.rest, L.rest, es);
  }

  lemma EqualTails(p: Poly, q: Poly, z: byte)
    requires p.Cons? && q.Cons? && p.low == q.low && z != 0
    requires Eval(p, z) == Eval(q, z)
    ensures Eval(p.rest, z) == Eval(q.rest, z)
  {
    var a, b := Eval(p.rest, z), Eval(q.rest, z);
    assert Add(p.low, Mul(z, a)) == Add(p.low, Mul(z, b));
    hide Mul, Add, Eval;
    AddLaws();
    assert Add(p.low, Add(p.low, Mul(z, a))) == Mul(z, a);
    MulDistributes(z, a, b);
    MulZero(z, Add(a, b));
  }

  /** The Euclidean algorithm finds exactly the locator and evaluator polynomials of any
    * at most R/2 errors. */
  lemma ErrorsFound(es: seq<Error>, R: nat)
    requires Distinct(es) && 0 < |es| && 2 * |es| <= R
    requires forall i :: 0 <= i < |es| ==> es[i].magnitude != 0
    ensures SyndromeOf(es, R) != Nil
    ensures Euclid(Shift(R, Const(1)), SyndromeOf(es, R), R) == Some((Locator(es), Evaluator(es)))
  {
    var S, L, W := SyndromeOf(es, R), Locator(es), Evaluator(es);
    LocatorShape(es);
    LenSyndromeOf(es, R);
    ErrorsSolveKeyEquation(es, R);
    TruncateShort(R, W);
    hide Times, SyndromeOf, Locator, Evaluator, Truncate, Euclid, Shift, Const;
    var u := KeyEquationComplete(S, R, L, W);
    var (sigma, omega) := Euclid(Shift(R, Const(1)), S, R).value;
    KeyEquationSound(S, R);
    NoCommonFactor(es, u, sigma, omega);
    if S == Nil { TimesNil(L); EvaluatorNonZero(es); TruncateNil(R); }
  }

  lemma TruncateNil(R: nat)
    ensures Truncate(R, Nil) == Nil
  {}

  lemma EvaluatorNonZeroAt(es: seq<Error>, i: nat)
    requires Distinct(es) && i < |es| && es[i].magnitude != 0
    ensures Eval(Evaluator(es), Inverse(es[i].locator)) != 0
  {
    hide Mul, Inverse, Eval, Evaluator;
    EvaluatorAt(es, i, |es|);
    assert es[..|es|] == es;
    DenominatorNonZero(Locators(es), i, |es|);
    MulZero(es[i].magnitude, Denominator(Locators(es), i, |es|));
  }

  lemma EvaluatorNonZero(es: seq<Error>)
    requires Distinct(es) && 0 < |es| && es[0].magnitude != 0
    ensures Evaluator(es) != Nil
  {
    EvaluatorNonZeroAt(es, 0);
  }

  lemma NoCommonFactor(es: seq<Error>, u: Poly, sigma: Poly, omega: Poly)
    requires Distinct(es)
    requires forall i :: 0 <= i < |es| ==> es[i].magnitude != 0
    requires Locator(es) == Times(u, sigma) && Evaluator(es) == Times(u, omega)
    requires Coef(sigma, 0) == 1
    ensures sigma == Locator(es) && omega == Evaluator(es)
  {
    hide Mul, Inverse, Times, Eval, Locator, Evaluator, Add;
    LocatorShape(es);
    ZeroTimes(sigma);
    LenTimes(u, sigma);
    forall i | 0 <= i < |es| ensures Eval(sigma, Inverse(es[i].locator)) == 0 {
      var z := Inverse(es[i].locator);
      EvaluatorNonZeroAt(es, i);
      InverseInverse(es[i].locator);
      LocatorRoots(es, z);
      EvalTimes(u, sigma, z);
      EvalTimes(u, omega, z);
      MulZero(Eval(u, z), Eval(sigma, z));
      MulZero(Eval(u, z), Eval(omega, z));
    }
    InverseLocatorBound(sigma, es);
    LowTimes(u, sigma);
    assert u == Const(u.low);
    MulComm(u.low, 1);
    MulOne(u.low);
    TimesOne(sigma);
    TimesOne(omega);
  }
}
