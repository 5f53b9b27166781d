/** Roots of polynomials, truncation modulo a power of x, and division with remainder. */
module PolynomialFacts {
  import opened Basics
  import opened FieldAddition
  import opened GF256
  import opened Polynomials

  // ---- roots ----

  /** x + a */
  function Minus(a: byte): Poly { Mk(a, Const(1)) }

  /** 1 + a * x */
  function Lin(a: byte): Poly { Mk(1, Const(a)) }

  lemma EvalConst(c: byte, z: byte)
    ensures Eval(Const(c), z) == c
  {
    hide Mul, Add;
    AddLaws();
    MulZero(z, 0);
  }

  lemma EvalMinus(a: byte, z: byte)
    ensures Eval(Minus(a), z) == Add(a, z)
  {
    hide Mul, Add, Eval, Const, Mk;
    EvalMk(a, Const(1), z);
    EvalConst(1, z);
    MulComm(z, 1);
    MulOne(z);
  }

  lemma EvalLin(a: byte, z: byte)
    ensures Eval(Lin(a), z) == Add(1, Mul(a, z))
  {
    hide Mul, Add, Eval, Const, Mk;
    EvalMk(1, Const(a), z);
    EvalConst(a, z);
    MulComm(z, a);
  }

  /** The quotient of p by x + a (Horner's scheme). */
  function Quotient(p: Poly, a: byte): Poly {
    if p.Nil? then Nil else Mk(Eval(p.rest, a), Quotient(p.rest, a))
  }

  lemma {:induction false} QuotientIdentity(p: Poly, a: byte)
    ensures p == Plus(Times(Minus(a), Quotient(p, a)), Const(Eval(p, a)))
  {
    hide Mul, Add, Plus, Scale;
    PlusLaws();
    AddLaws();
    if p.Nil? {
      TimesNil(Minus(a));
    } else {
      var e, q := Eval(p.rest, a), Quotient(p.rest, a);
      QuotientIdentity(p.rest, a);
      TimesMkRight(Minus(a), e, q);
      ScaleMinus(e, a);
      var m := Times(Minus(a), q);
      PlusMk(Mul(a, e), Const(e), 0, m);
      PlusMk(Mul(a, e), Plus(Const(e), m), Eval(p, a), Nil);
      assert Add(Mul(a, e), Add(p.low, Mul(a, e))) == p.low;
    }
  }

  lemma ScaleMinus(c: byte, a: byte)
    ensures Scale(c, Minus(a)) == Mk(Mul(a, c), Const(c))
  {
    hide Mul;
    MulComm(c, a);
    MulComm(c, 1);
    MulOne(c);
    ScaleMk(c, a, Const(1));
    ScaleMk(c, 1, Nil);
  }

  /** A non-zero polynomial has fewer distinct roots than coefficients. */
  lemma {:induction false} RootBound(p: Poly, roots: seq<byte>)
    requires p != Nil
    requires forall i, j :: 0 <= i < j < |roots| ==> roots[i] != roots[j]
    requires forall i :: 0 <= i < |roots| ==> Eval(p, roots[i]) == 0
    ensures |roots| < Len(p)
    decreases |roots|
  {
    if |roots| > 0 {
      hide Mul, Add, Plus, Times, Eval, Quotient, Minus, Mk;
      var a, others := roots[0], roots[1..];
      var q := Quotient(p, a);
      AddLaws();
      PlusLaws();
      QuotientIdentity(p, a);
      ConstZero();
      assert p == Times(Minus(a), q);
      MinusLen(a);
      if q == Nil { TimesNil(Minus(a)); }
      LenTimes(Minus(a), q);
      forall i | 0 <= i < |others|
        ensures Eval(q, others[i]) == 0
      {
        EvalTimes(Minus(a), q, others[i]);
        EvalMinus(a, others[i]);
        MulZero(Add(a, others[i]), Eval(q, others[i]));
      }
      RootBound(q, others);
    }
  }

  lemma ConstZero()
    ensures Const(0) == Nil
  {}

  lemma MinusLen(a: byte)
    ensures Minus(a) != Nil && Len(Minus(a)) == 2
  {}

  // ---- powers of x and truncation ----

  /** p times x to the power n. */
  function Shift(n: nat, p: Poly): Poly { if n == 0 then p else Mk(0, Shift(n - 1, p)) }

  /** p modulo x to the power n: its first n coefficients. */
  function Truncate(n: nat, p: Poly): Poly {
    if n == 0 || p.Nil? then Nil else Mk(p.low, Truncate(n - 1, p.rest))
  }

  function Drop(n: nat, p: Poly): Poly {
    if n == 0 || p.Nil? then p else Drop(n - 1, p.rest)
  }

  lemma {:induction false} TruncateDrop(n: nat, p: Poly)
    ensures p == Plus(Truncate(n, p), Shift(n, Drop(n, p)))
  {
    hide Add;
    AddLaws();
    if n > 0 {
      if p.Nil? {
        ShiftNil(n);
      } else {
        TruncateDrop(n - 1, p.rest);
        PlusMk(p.low, Truncate(n - 1, p.rest), 0, Shift(n - 1, Drop(n, p)));
      }
    }
  }

  lemma {:induction false} ShiftNil(n: nat)
    ensures Shift(n, Nil) == Nil
  {
    if n > 0 { ShiftNil(n - 1); }
  }

  lemma TruncateMk(n: nat, c: byte, p: Poly)
    requires n > 0
    ensures Truncate(n, Mk(c, p)) == Mk(c, Truncate(n - 1, p))
  {}

  lemma {:induction false} TruncatePlus(n: nat, p: Poly, q: Poly)
    ensures Truncate(n, Plus(p, q)) == Plus(Truncate(n, p), Truncate(n, q))
  {
    hide Add;
    if n > 0 && p.Cons? && q.Cons? {
      TruncatePlus(n - 1, p.rest, q.rest);
      TruncateMk(n, Add(p.low, q.low), Plus(p.rest, q.rest));
      PlusMk(p.low, Truncate(n - 1, p.rest), q.low, Truncate(n - 1, q.rest));
    }
  }

  lemma {:induction false} TruncateShift(n: nat, p: Poly)
    ensures Truncate(n, Shift(n, p)) == Nil
  {
    if n > 0 {
      TruncateShift(n - 1, p);
      TruncateMk(n, 0, Shift(n - 1, p));
    }
  }

  lemma {:induction false} TruncateShort(n: nat, p: Poly)
    requires Len(p) <= n
    ensures Truncate(n, p) == p
  {
    if p.Cons? { TruncateShort(n - 1, p.rest); }
  }

  lemma {:induction false} LenTruncate(n: nat, p: Poly)
    ensures Len(Truncate(n, p)) <= n
  {
    if n > 0 && p.Cons? { LenTruncate(n - 1, p.rest); }
  }

  lemma {:induction false} TimesShift(n: nat, p: Poly, q: Poly)
    ensures Times(p, Shift(n, q)) == Shift(n, Times(p, q))
  {
    if n > 0 {
      TimesShift(n - 1, p, q);
      TimesMkRight(p, 0, Shift(n - 1, q));
      ScaleZero(p);
    }
  }

  lemma {:induction false} ShiftPlus(n: nat, p: Poly, q: Poly)
    ensures Shift(n, Plus(p, q)) == Plus(Shift(n, p), Shift(n, q))
  {
    hide Add;
    AddLaws();
    if n > 0 {
      ShiftPlus(n - 1, p, q);
      PlusMk(0, Shift(n - 1, p), 0, Shift(n - 1, q));
    }
  }

  lemma {:induction false} LenShift(n: nat, p: Poly)
    requires p != Nil
    ensures Shift(n, p) != Nil && Len(Shift(n, p)) == n + Len(p) && Lead(Shift(n, p)) == Lead(p)
  {
    if n > 0 { LenShift(n - 1, p); }
  }

  lemma {:induction false} EvalShift(n: nat, p: Poly, a: byte)
    ensures Eval(Shift(n, p), a) == Mul(Power(a, n), Eval(p, a))
  {
    hide Mul, Add;
    AddLaws();
    MulOne(Eval(p, a));
    if n > 0 {
      EvalShift(n - 1, p, a);
      EvalMk(0, Shift(n - 1, p), a);
      MulAssoc(a, Power(a, n - 1), Eval(p, a));
    }
  }

  function Power(a: byte, n: nat): byte { if n == 0 then 1 else Mul(a, Power(a, n - 1)) }

  /** Modulo x^n, a factor with a non-zero constant term can be cancelled. */
  lemma {:induction false} CancelUnit(n: nat, p: Poly, q: Poly)
    requires p != Nil && p.low != 0 && Len(q) <= n
    requires Truncate(n, Times(p, q)) == Nil
    ensures q == Nil
  {
    if q != Nil {
      LowTimes(p, q);
      hide Mul, Add, Times, Plus, Mk;
      MulZero(p.low, q.low);
      if q.low == 0 {
        PlusLaws();
        ScaleZero(p);
        TimesMkRight(p, 0, q.rest);
        assert Mk(0, q.rest) == q by { MkCons(q); }
        TruncateMk(n, 0, Times(p, q.rest));
        MkNil(Truncate(n - 1, Times(p, q.rest)));
        CancelUnit(n - 1, p, q.rest);
      } else {
        TruncateLow(n, Times(p, q));
      }
    }
  }

  lemma MkCons(p: Poly)
    requires p != Nil
    ensures Mk(p.low, p.rest) == p
  {}

  lemma MkNil(p: Poly)
    ensures Mk(0, p) == Nil ==> p == Nil
  {}

  lemma TruncateLow(n: nat, p: Poly)
    requires n > 0 && Coef(p, 0) != 0
    ensures Truncate(n, p) != Nil
  {}

  lemma LowTimes(p: Poly, q: Poly)
    ensures Coef(Times(p, q), 0) == Mul(Coef(p, 0), Coef(q, 0))
  {
    hide Mul, Add;
    AddLaws();
    if p == Nil {
      MulZero(0, Coef(q, 0));
    } else {
      MulZero(p.low, 0);
      LowPlus(Scale(p.low, q), Mk(0, Times(p.rest, q)));
    }
  }

  lemma LowPlus(p: Poly, q: Poly)
    ensures Coef(Plus(p, q), 0) == Add(Coef(p, 0), Coef(q, 0))
  {
    hide Add;
    AddLaws();
  }
}
