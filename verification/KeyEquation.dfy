/** The extended Euclidean algorithm that solves the Reed-Solomon key equation, on
  * polynomials: what every iteration keeps, and why the result is the solution. */
module KeyEquation {
  import opened Basics
  import opened Options
  import opened GF256
  import opened Polynomials
  import opened PolynomialFacts

  /** The degree as the decoder computes it: 0 for the zero polynomial too. */
  function Degree(p: Poly): nat { if p == Nil then 0 else Len(p) - 1 }

  // ---- division with remainder ----

  lemma Eliminate(r: Poly, d: Poly) returns (k: nat, c: byte)
    requires r != Nil && d != Nil && Len(d) <= Len(r)
    ensures k == Len(r) - Len(d) && c == Mul(Lead(r), Inverse(Lead(d)))
    ensures Len(Plus(r, Shift(k, Scale(c, d)))) < Len(r)
  {
    hide Mul, Inverse, Plus;
    k, c := Len(r) - Len(d), Mul(Lead(r), Inverse(Lead(d)));
    MulInverse(Lead(d));
    MulZero(Lead(r), Inverse(Lead(d)));
    MulAssoc(Lead(r), Inverse(Lead(d)), Lead(d));
    MulComm(Lead(r), 1);
    MulOne(Lead(r));
    LenScale(c, d);
    LenShift(k, Scale(c, d));
    LenPlus(r, Shift(k, Scale(c, d)));
  }

  /** Long division: adds to the quotient q and reduces r until it is shorter than d. */
  ghost function DivideFrom(q: Poly, r: Poly, d: Poly): (Poly, Poly)
    requires d != Nil
    decreases Len(r)
  {
    if r == Nil || Len(r) < Len(d) then (q, r)
    else
      var k, c := Len(r) - Len(d), Mul(Lead(r), Inverse(Lead(d)));
      assert Len(Plus(r, Shift(k, Scale(c, d)))) < Len(r) by { var _, _ := Eliminate(r, d); }
      DivideFrom(Plus(q, Shift(k, Const(c))), Plus(r, Shift(k, Scale(c, d))), d)
  }

  lemma MonomialTimes(k: nat, c: byte, d: Poly)
    ensures Times(Shift(k, Const(c)), d) == Shift(k, Scale(c, d))
  {
    TimesComm(Shift(k, Const(c)), d);
    TimesShift(k, d, Const(c));
    TimesComm(d, Const(c));
    TimesConst(c, d);
  }

  lemma CancelTwice(a: Poly, b: Poly, c: Poly)
    ensures Plus(Plus(a, b), Plus(c, b)) == Plus(a, c)
  {
    hide Plus;
    PlusLaws();
    assert Plus(Plus(a, b), Plus(c, b)) == Plus(Plus(a, c), Plus(b, b));
  }

  lemma {:induction false} DivideFromIdentity(q: Poly, r: Poly, d: Poly)
    requires d != Nil
    ensures var (q', r') := DivideFrom(q, r, d);
      Plus(Times(q, d), r) == Plus(Times(q', d), r') && Len(r') < Len(d)
    decreases Len(r)
  {
    hide Plus, Times, Scale, Shift, Const, Mul, Inverse;
    if r != Nil && Len(r) >= Len(d) {
      var k, c := Eliminate(r, d);
      var m, n := Shift(k, Const(c)), Shift(k, Scale(c, d));
      DivideFromIdentity(Plus(q, m), Plus(r, n), d);
      MonomialTimes(k, c, d);
      TimesPlusLeft(q, m, d);
      CancelTwice(Times(q, d), n, r);
    }
  }

  // ---- the iteration ----

  /** The four polynomials that the loop reassigns. */
  datatype State = State(rLast: Poly, r: Poly, tLast: Poly, t: Poly)

  ghost function Step(s: State): State
    requires s.r != Nil
  {
    var (q, rem) := DivideFrom(Nil, s.rLast, s.r);
    State(s.r, rem, s.t, Plus(Times(q, s.t), s.tLast))
  }

  lemma StepIdentity(s: State) returns (q: Poly)
    requires s.r != Nil
    ensures s.rLast == Plus(Times(q, s.r), Step(s).r)
    ensures Step(s) == State(s.r, Step(s).r, s.t, Plus(Times(q, s.t), s.tLast))
    ensures Len(Step(s).r) < Len(s.r)
  {
    q := DivideFrom(Nil, s.rLast, s.r).0;
    DivideFromIdentity(Nil, s.rLast, s.r);
  }

  lemma CoefScale(c: byte, p: Poly)
    ensures Coef(Scale(c, p), 0) == Mul(c, Coef(p, 0))
  {
    hide Mul;
    MulZero(c, 0);
  }

  ghost function Run(s: State, R: nat): (res: Option<(Poly, Poly)>)
    ensures res.Some? ==> Coef(res.value.0, 0) == 1
    decreases Degree(s.r)
  {
    if 2 * Degree(s.r) >= R then
      if s.r == Nil then None
      else if Degree(Step(s).r) >= Degree(s.r) then None
      else Run(Step(s), R)
    else if Coef(s.t, 0) == 0 then None
    else
      var inverse := Inverse(Coef(s.t, 0));
      MulInverse(Coef(s.t, 0));
      CoefScale(inverse, s.t);
      Some((Scale(inverse, s.t), Scale(inverse, s.r)))
  }

  ghost function Euclid(a: Poly, b: Poly, R: nat): (res: Option<(Poly, Poly)>)
    ensures res.Some? ==> Coef(res.value.0, 0) == 1
  {
    if Degree(a) < Degree(b) then Run(State(b, a, Nil, Const(1)), R)
    else Run(State(a, b, Nil, Const(1)), R)
  }

  /** What every iteration keeps, for the syndrome polynomial S. */
  ghost predicate Invariant(s: State, S: Poly, R: nat) {
    && Len(s.tLast) < Len(s.t)
    && Len(s.r) < Len(s.rLast)
    && Len(s.t) + Len(s.rLast) == R + 2
    && 2 * Degree(s.rLast) >= R
    && Truncate(R, Times(s.t, S)) == Truncate(R, s.r)
    && Truncate(R, Times(s.tLast, S)) == Truncate(R, s.rLast)
  }

  lemma InitialInvariant(S: Poly, R: nat)
    requires Len(S) <= R
    ensures Invariant(State(Shift(R, Const(1)), S, Nil, Const(1)), S, R)
  {
    LenShift(R, Const(1));
    TimesOne(S);
    TruncateShift(R, Const(1));
  }

  lemma StepKeepsInvariant(s: State, S: Poly, R: nat)
    requires s.r != Nil && 2 * Degree(s.r) >= R
    requires Invariant(s, S, R)
    ensures Invariant(Step(s), S, R)
    ensures Len(Step(s).r) < Len(s.r)
  {
    hide Plus, Times, Truncate, Step;
    var q := StepIdentity(s);
    var s' := Step(s);
    QuotientLength(s.rLast, q, s.r, s'.r);
    LenTimes(q, s.t);
    LenPlus(Times(q, s.t), s.tLast);
    StepKeepsCongruence(s, q, S, R);
  }

  lemma QuotientLength(n: Poly, q: Poly, d: Poly, r: Poly)
    requires d != Nil && n == Plus(Times(q, d), r) && Len(r) < Len(d) < Len(n)
    ensures q != Nil && Len(q) == Len(n) - Len(d) + 1
  {
    hide Plus, Times, Len, Lead, Normal;
    if q == Nil {
      ZeroTimes(d);
      PlusZero(r);
    } else {
      LenTimes(q, d);
      LenPlus(Times(q, d), r);
    }
  }

  lemma StepKeepsCongruence(s: State, q: Poly, S: Poly, R: nat)
    requires s.r != Nil && Invariant(s, S, R)
    requires s.rLast == Plus(Times(q, s.r), Step(s).r)
    requires Step(s) == State(s.r, Step(s).r, s.t, Plus(Times(q, s.t), s.tLast))
    ensures Truncate(R, Times(Step(s).t, S)) == Truncate(R, Step(s).r)
  {
    hide Plus, Times, Truncate, Step;
    var s' := Step(s);
    TimesPlusLeft(Times(q, s.t), s.tLast, S);
    TimesAssoc(q, s.t, S);
    TruncatePlus(R, Times(q, Times(s.t, S)), Times(s.tLast, S));
    TruncateTimes(R, q, Times(s.t, S), s.r);
    TruncatePlus(R, Times(q, s.r), s'.r);
    PlusLaws();
  }

  /** A product modulo x^n depends only on the factors modulo x^n. */
  lemma TruncateTimes(n: nat, p: Poly, a: Poly, b: Poly)
    requires Truncate(n, a) == Truncate(n, b)
    ensures Truncate(n, Times(p, a)) == Truncate(n, Times(p, b))
  {
    hide Plus, Times, Truncate, Shift;
    TruncateTimesLow(n, p, a);
    TruncateTimesLow(n, p, b);
  }

  lemma TruncateTimesLow(n: nat, p: Poly, a: Poly)
    ensures Truncate(n, Times(p, a)) == Truncate(n, Times(p, Truncate(n, a)))
  {
    hide Plus, Times, Truncate, Shift;
    PlusLaws();
    TruncateDrop(n, a);
    TimesPlusRight(p, Truncate(n, a), Shift(n, Drop(n, a)));
    TimesShift(n, p, Drop(n, a));
    TruncatePlus(n, Times(p, Truncate(n, a)), Shift(n, Times(p, Drop(n, a))));
    TruncateShift(n, Times(p, Drop(n, a)));
  }

  // ---- soundness: the result solves the key equation ----

  lemma {:induction false} RunSound(s: State, S: Poly, R: nat)
    requires R > 0 && Invariant(s, S, R)
    ensures var res := Run(s, R); res.Some? ==>
      var (sigma, omega) := res.value;
      && Coef(sigma, 0) == 1
      && 2 * Degree(sigma) <= R
      && 2 * Degree(omega) < R
      && Truncate(R, Times(sigma, S)) == omega
    decreases Degree(s.r)
  {
    hide Times, Truncate, Plus, Mul, Inverse;
    if 2 * Degree(s.r) >= R {
      StepKeepsInvariant(s, S, R);
      if Degree(Step(s).r) < Degree(s.r) { RunSound(Step(s), S, R); }
    } else if Coef(s.t, 0) != 0 {
      var c := Inverse(Coef(s.t, 0));
      MulInverse(Coef(s.t, 0));
      LenScale(c, s.t);
      LenScale(c, s.r);
      CoefScale(c, s.t);
      TimesScale(c, s.t, S);
      TruncateScale(R, c, Times(s.t, S));
      TruncateShort(R, s.r);
    }
  }

  lemma {:induction false} TruncateScale(n: nat, c: byte, p: Poly)
    ensures Truncate(n, Scale(c, p)) == Scale(c, Truncate(n, p))
  {
    hide Mul;
    if n > 0 && p.Cons? {
      TruncateScale(n - 1, c, p.rest);
      TruncateMk(n, Mul(c, p.low), Scale(c, p.rest));
      ScaleMk(c, p.low, Truncate(n - 1, p.rest));
    }
  }

  // ---- completeness: every small solution is a multiple of the result ----

  lemma StepCombination(s: State, p: Poly, q: Poly, W: Poly, L: Poly) returns (p': Poly, q': Poly)
    requires s.r != Nil
    requires W == Plus(Times(p, s.rLast), Times(q, s.r))
    requires L == Plus(Times(p, s.tLast), Times(q, s.t))
    ensures W == Plus(Times(p', Step(s).rLast), Times(q', Step(s).r))
    ensures L == Plus(Times(p', Step(s).tLast), Times(q', Step(s).t))
  {
    hide Plus, Times, Step;
    var Q := StepIdentity(s);
    var s' := Step(s);
    p', q' := Plus(Times(p, Q), q), p;
    PlusLaws();
    TimesPlusRight(p, Times(Q, s.r), s'.r);
    TimesAssoc(p, Q, s.r);
    TimesPlusLeft(Times(p, Q), q, s.r);
    TimesPlusRight(p, Times(Q, s.t), s.tLast);
    TimesAssoc(p, Q, s.t);
    TimesPlusLeft(Times(p, Q), q, s.t);
    CancelTwice(Times(q, s.t), Times(Times(p, Q), s.t), Times(p, s.tLast));
  }

  lemma {:induction false} RunComplete(s: State, S: Poly, R: nat, p: Poly, q: Poly, W: Poly, L: Poly)
    returns (u: Poly)
    requires R > 0 && Invariant(s, S, R)
    requires W == Plus(Times(p, s.rLast), Times(q, s.r))
    requires L == Plus(Times(p, s.tLast), Times(q, s.t))
    requires 2 * Degree(W) < R && 2 * Degree(L) <= R && Coef(L, 0) != 0
    ensures Run(s, R).Some?
    ensures L == Times(u, Run(s, R).value.0) && W == Times(u, Run(s, R).value.1)
    decreases Degree(s.r)
  {
    hide Times, Truncate, Plus, Mul, Inverse, Scale;
    if 2 * Degree(s.r) >= R {
      StepKeepsInvariant(s, S, R);
      var p', q' := StepCombination(s, p, q, W, L);
      u := RunComplete(Step(s), S, R, p', q', W, L);
    } else {
      NoLastPart(s, S, R, p, q, W, L);
      PlusLaws();
      ZeroTimes(s.rLast);
      ZeroTimes(s.tLast);
      LowTimes(q, s.t);
      var t0 := Coef(s.t, 0);
      MulZero(Coef(q, 0), t0);
      u := Scale(t0, q);
      UnscaleFactor(t0, q, s.t);
      UnscaleFactor(t0, q, s.r);
    }
  }

  lemma PlusZero(p: Poly)
    ensures Plus(Nil, p) == p == Plus(p, Nil)
  {}

  lemma ZeroTimes(p: Poly)
    ensures Times(Nil, p) == Nil
  {}

  lemma UnscaleFactor(c: byte, q: Poly, p: Poly)
    requires c != 0
    ensures Times(Scale(c, q), Scale(Inverse(c), p)) == Times(q, p)
  {
    hide Mul, Inverse, Scale, Times;
    TimesScale(c, q, Scale(Inverse(c), p));
    TimesComm(q, Scale(Inverse(c), p));
    TimesScale(Inverse(c), p, q);
    TimesComm(p, q);
    ScaleScale(c, Inverse(c), Times(q, p));
    MulInverse(c);
    ScaleOne(Times(q, p));
  }

  /** When the loop has stopped, the combination cannot use the previous row. */
  lemma NoLastPart(s: State, S: Poly, R: nat, p: Poly, q: Poly, W: Poly, L: Poly)
    requires R > 0 && Invariant(s, S, R) && 2 * Degree(s.r) < R
    requires W == Plus(Times(p, s.rLast), Times(q, s.r))
    requires L == Plus(Times(p, s.tLast), Times(q, s.t))
    requires 2 * Degree(W) < R && 2 * Degree(L) <= R && L != Nil
    ensures p == Nil
  {
    hide Times, Truncate, Plus;
    if p != Nil {
      PlusLaws();
      LenTimes(p, s.rLast);
      LenPlus(Times(p, s.rLast), Times(q, s.r));
      ZeroTimes(s.r);
      TimesNil(q);
      LenTimes(q, s.r);
      LenTimes(q, s.t);
      TimesNil(p);
      if s.tLast != Nil { LenTimes(p, s.tLast); }
      LenPlus(Times(p, s.tLast), Times(q, s.t));
    }
  }

  /** Every solution (L, W) of the key equation with L(0) != 0 and small degrees is found,
    * up to a common factor. */
  lemma KeyEquationComplete(S: Poly, R: nat, L: Poly, W: Poly) returns (u: Poly)
    requires R > 0 && Len(S) <= R
    requires 2 * Degree(W) < R && 2 * Degree(L) <= R && Coef(L, 0) != 0
    requires Truncate(R, Times(L, S)) == W
    ensures var res := Euclid(Shift(R, Const(1)), S, R);
      res.Some? && L == Times(u, res.value.0) && W == Times(u, res.value.1)
  {
    hide Times, Truncate, Plus, Run;
    var XR := Shift(R, Const(1));
    var s := State(XR, S, Nil, Const(1));
    InitialInvariant(S, R);
    var p := Drop(R, Times(L, S));
    TruncateDrop(R, Times(L, S));
    TimesShift(R, p, Const(1));
    TimesOne(p);
    TimesOne(L);
    TimesNil(p);
    PlusLaws();
    u := RunComplete(s, S, R, p, L, W, L);
  }

  lemma KeyEquationSound(S: Poly, R: nat)
    requires R > 0 && Len(S) <= R
    ensures var res := Euclid(Shift(R, Const(1)), S, R); res.Some? ==>
      var (sigma, omega) := res.value;
      && Coef(sigma, 0) == 1
      && 2 * Degree(sigma) <= R
      && 2 * Degree(omega) < R
      && Truncate(R, Times(sigma, S)) == omega
  {
    InitialInvariant(S, R);
    RunSound(State(Shift(R, Const(1)), S, Nil, Const(1)), S, R);
  }
}
