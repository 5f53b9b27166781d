/** Polynomials over GF(256) as coefficient lists, lowest degree first, in normal form:
  * the mathematical reference for the coefficient arrays of the decoder. */
module Polynomials {
  import opened Basics
  import opened FieldAddition
  import opened GF256

  datatype RawPoly = Nil | Cons(low: byte, rest: RawPoly)

  /** No leading zero: the zero polynomial is Nil. */
  predicate Normal(p: RawPoly) {
    p.Nil? || ((p.rest.Nil? ==> p.low != 0) && Normal(p.rest))
  }

  type Poly = p: RawPoly | Normal(p) witness Nil

  /** c + x * p */
  function Mk(c: byte, p: Poly): Poly { if c == 0 && p.Nil? then Nil else Cons(c, p) }

  function Const(c: byte): Poly { Mk(c, Nil) }

  /** Number of coefficients: the degree plus one, and 0 for the zero polynomial. */
  function Len(p: RawPoly): nat { if p.Nil? then 0 else 1 + Len(p.rest) }

  function Lead(p: Poly): (c: byte)
    requires p != Nil
    ensures c != 0
  {
    if p.rest.Nil? then p.low else Lead(p.rest)
  }

  function Coef(p: Poly, k: nat): byte {
    if p.Nil? then 0 else if k == 0 then p.low else Coef(p.rest, k - 1)
  }

  function Eval(p: Poly, a: byte): byte {
    if p.Nil? then 0 else Add(p.low, Mul(a, Eval(p.rest, a)))
  }

  // ---- addition ----

  function Plus(p: Poly, q: Poly): Poly {
    if p.Nil? then q else if q.Nil? then p else Mk(Add(p.low, q.low), Plus(p.rest, q.rest))
  }

  lemma PlusMk(a: byte, p: Poly, b: byte, q: Poly)
    ensures Plus(Mk(a, p), Mk(b, q)) == Mk(Add(a, b), Plus(p, q))
  {
    hide Add;
    AddLaws();
  }

  lemma {:induction false} PlusComm(p: Poly, q: Poly)
    ensures Plus(p, q) == Plus(q, p)
  {
    hide Add;
    AddLaws();
    if p.Cons? && q.Cons? { PlusComm(p.rest, q.rest); }
  }

  lemma {:induction false} PlusAssoc(p: Poly, q: Poly, r: Poly)
    ensures Plus(Plus(p, q), r) == Plus(p, Plus(q, r))
  {
    hide Add;
    if p.Cons? && q.Cons? && r.Cons? {
      AddLaws();
      PlusAssoc(p.rest, q.rest, r.rest);
    }
  }

  lemma {:induction false} PlusCancels(p: Poly, q: Poly)
    ensures Plus(p, q) == Nil <==> p == q
  {
    hide Add;
    AddLaws();
    if p.Cons? && q.Cons? { PlusCancels(p.rest, q.rest); }
  }

  lemma PlusLaws()
    ensures forall p, q :: Plus(p, q) == Plus(q, p)
    ensures forall p, q, r :: Plus(Plus(p, q), r) == Plus(p, Plus(q, r))
    ensures forall p, q :: Plus(p, q) == Nil <==> p == q
    ensures forall p :: Plus(p, Nil) == p
    ensures forall p :: Plus(Nil, p) == p
  {
    forall p: Poly, q: Poly ensures Plus(p, q) == Plus(q, p) { PlusComm(p, q); }
    forall p: Poly, q: Poly ensures Plus(p, q) == Nil <==> p == q { PlusCancels(p, q); }
    forall p: Poly, q: Poly, r: Poly ensures Plus(Plus(p, q), r) == Plus(p, Plus(q, r)) { PlusAssoc(p, q, r); }
  }

  lemma {:induction false} LenPlus(p: Poly, q: Poly)
    ensures Len(p) != Len(q) ==> Len(Plus(p, q)) == if Len(p) < Len(q) then Len(q) else Len(p)
    ensures Len(Plus(p, q)) <= if Len(p) < Len(q) then Len(q) else Len(p)
    ensures Len(p) < Len(q) ==> Lead(Plus(p, q)) == Lead(q)
    ensures Len(p) == Len(q) > 0 && Lead(p) == Lead(q) ==> Len(Plus(p, q)) < Len(p)
  {
    hide Add;
    AddLaws();
    if p.Cons? && q.Cons? { LenPlus(p.rest, q.rest); }
  }

  lemma {:induction false} EvalPlus(p: Poly, q: Poly, a: byte)
    ensures Eval(Plus(p, q), a) == Add(Eval(p, a), Eval(q, a))
  {
    hide Add, Mul;
    AddLaws();
    MulZero(a, 0);
    if p.Cons? && q.Cons? {
      EvalPlus(p.rest, q.rest, a);
      MulDistributes(a, Eval(p.rest, a), Eval(q.rest, a));
    }
  }

  // ---- multiplication by a constant ----

  function Scale(c: byte, p: Poly): Poly {
    if p.Nil? then Nil else Mk(Mul(c, p.low), Scale(c, p.rest))
  }

  lemma ScaleMk(c: byte, a: byte, p: Poly)
    ensures Scale(c, Mk(a, p)) == Mk(Mul(c, a), Scale(c, p))
  {
    hide Mul;
    MulZero(c, 0);
  }

  lemma {:induction false} ScaleZero(p: Poly)
    ensures Scale(0, p) == Nil
  {
    hide Mul;
    if p.Cons? { MulZero(0, p.low); ScaleZero(p.rest); }
  }

  lemma {:induction false} ScaleOne(p: Poly)
    ensures Scale(1, p) == p
  {
    hide Mul;
    if p.Cons? { MulOne(p.low); ScaleOne(p.rest); }
  }

  lemma {:induction false} ScaleScale(c: byte, d: byte, p: Poly)
    ensures Scale(c, Scale(d, p)) == Scale(Mul(c, d), p)
  {
    hide Mul;
    if p.Cons? {
      ScaleScale(c, d, p.rest);
      MulAssoc(c, d, p.low);
      ScaleMk(c, Mul(d, p.low), Scale(d, p.rest));
    }
  }

  lemma {:induction false} ScalePlus(c: byte, p: Poly, q: Poly)
    ensures Scale(c, Plus(p, q)) == Plus(Scale(c, p), Scale(c, q))
  {
    hide Mul, Add;
    if p.Cons? && q.Cons? {
      ScalePlus(c, p.rest, q.rest);
      MulDistributes(c, p.low, q.low);
      ScaleMk(c, Add(p.low, q.low), Plus(p.rest, q.rest));
      PlusMk(Mul(c, p.low), Scale(c, p.rest), Mul(c, q.low), Scale(c, q.rest));
    }
  }

  lemma {:induction false} ScaleAdd(c: byte, d: byte, p: Poly)
    ensures Scale(Add(c, d), p) == Plus(Scale(c, p), Scale(d, p))
  {
    hide Mul, Add;
    if p.Cons? {
      ScaleAdd(c, d, p.rest);
      MulComm(Add(c, d), p.low);
      MulComm(c, p.low);
      MulComm(d, p.low);
      MulDistributes(p.low, c, d);
      PlusMk(Mul(c, p.low), Scale(c, p.rest), Mul(d, p.low), Scale(d, p.rest));
    }
  }

  lemma {:induction false} LenScale(c: byte, p: Poly)
    requires c != 0
    ensures Len(Scale(c, p)) == Len(p)
    ensures p != Nil ==> Scale(c, p) != Nil && Lead(Scale(c, p)) == Mul(c, Lead(p))
  {
    hide Mul;
    if p.Cons? {
      LenScale(c, p.rest);
      MulZero(c, p.low);
    }
  }

  lemma {:induction false} EvalScale(c: byte, p: Poly, a: byte)
    ensures Eval(Scale(c, p), a) == Mul(c, Eval(p, a))
  {
    hide Mul, Add;
    AddLaws();
    MulZero(a, 0);
    MulZero(c, 0);
    if p.Cons? {
      EvalScale(c, p.rest, a);
      var e := Eval(p.rest, a);
      MulDistributes(c, p.low, Mul(a, e));
      MulAssoc(c, a, e);
      MulAssoc(a, c, e);
      MulComm(a, c);
    }
  }

  // ---- multiplication ----

  function Times(p: Poly, q: Poly): Poly {
    if p.Nil? then Nil else Plus(Scale(p.low, q), Mk(0, Times(p.rest, q)))
  }

  lemma TimesMk(a: byte, p: Poly, q: Poly)
    ensures Times(Mk(a, p), q) == Plus(Scale(a, q), Mk(0, Times(p, q)))
  {
    hide Scale, Plus;
    PlusLaws();
    ScaleZero(q);
  }

  lemma TimesConst(c: byte, p: Poly)
    ensures Times(Const(c), p) == Scale(c, p)
  {
    hide Scale, Plus;
    PlusLaws();
    ScaleZero(p);
  }

  lemma {:induction false} TimesMkRight(p: Poly, a: byte, q: Poly)
    ensures Times(p, Mk(a, q)) == Plus(Scale(a, p), Mk(0, Times(p, q)))
  {
    hide Mul, Add, Plus, Scale;
    PlusLaws();
    AddLaws();
    if p.Nil? {
      ScaleNil(a);
    } else {
      var b, s := p.low, p.rest;
      TimesMkRight(s, a, q);
      ScaleMk(b, a, q);
      ScaleMk(a, b, s);
      MulComm(a, b);
      PlusMk(Mul(b, a), Scale(b, q), 0, Times(s, Mk(a, q)));
      PlusMk(Mul(b, a), Scale(a, s), 0, Times(p, q));
      assert p == Mk(b, s);
    }
  }

  lemma ScaleNil(c: byte)
    ensures Scale(c, Nil) == Nil
  {}

  lemma {:induction false} TimesComm(p: Poly, q: Poly)
    ensures Times(p, q) == Times(q, p)
  {
    if p.Nil? {
      TimesNil(q);
    } else {
      TimesComm(p.rest, q);
      TimesMkRight(q, p.low, p.rest);
    }
  }

  lemma {:induction false} TimesNil(p: Poly)
    ensures Times(p, Nil) == Nil
  {
    if p.Cons? { TimesNil(p.rest); }
  }

  lemma {:induction false} TimesPlusLeft(p: Poly, q: Poly, r: Poly)
    ensures Times(Plus(p, q), r) == Plus(Times(p, r), Times(q, r))
  {
    if p.Cons? && q.Cons? {
      hide Mul, Add, Scale;
      TimesPlusLeft(p.rest, q.rest, r);
      TimesMk(Add(p.low, q.low), Plus(p.rest, q.rest), r);
      ScaleAdd(p.low, q.low, r);
      AddLaws();
      PlusMk(0, Times(p.rest, r), 0, Times(q.rest, r));
      hide Plus;
      PlusLaws();
    }
  }

  lemma {:induction false} TimesScale(c: byte, p: Poly, q: Poly)
    ensures Times(Scale(c, p), q) == Scale(c, Times(p, q))
  {
    hide Mul;
    if p.Cons? {
      TimesScale(c, p.rest, q);
      TimesMk(Mul(c, p.low), Scale(c, p.rest), q);
      ScaleScale(c, p.low, q);
      ScaleMk(c, 0, Times(p.rest, q));
      MulZero(c, 0);
      ScalePlus(c, Scale(p.low, q), Mk(0, Times(p.rest, q)));
    }
  }

  lemma {:induction false} TimesAssoc(p: Poly, q: Poly, r: Poly)
    ensures Times(Times(p, q), r) == Times(p, Times(q, r))
  {
    hide Mul;
    if p.Cons? {
      TimesAssoc(p.rest, q, r);
      TimesPlusLeft(Scale(p.low, q), Mk(0, Times(p.rest, q)), r);
      TimesScale(p.low, q, r);
      TimesMk(0, Times(p.rest, q), r);
      ScaleZero(r);
    }
  }

  lemma TimesPlusRight(p: Poly, q: Poly, r: Poly)
    ensures Times(p, Plus(q, r)) == Plus(Times(p, q), Times(p, r))
  {
    TimesComm(p, Plus(q, r));
    TimesComm(p, q);
    TimesComm(p, r);
    TimesPlusLeft(q, r, p);
  }

  lemma TimesOne(p: Poly)
    ensures Times(Const(1), p) == p == Times(p, Const(1))
  {
    TimesConst(1, p);
    ScaleOne(p);
    TimesComm(p, Const(1));
  }

  /** There are no zero divisors: degrees add up, and leading coefficients multiply. */
  lemma {:induction false} LenTimes(p: Poly, q: Poly)
    requires p != Nil && q != Nil
    ensures Len(Times(p, q)) == Len(p) + Len(q) - 1
    ensures Lead(Times(p, q)) == Mul(Lead(p), Lead(q))
  {
    hide Mul, Plus, Scale;
    PlusLaws();
    if p.low != 0 {
      LenScale(p.low, q);
    } else {
      ScaleZero(q);
    }
    if p.rest.Cons? {
      LenTimes(p.rest, q);
      LenPlus(Scale(p.low, q), Mk(0, Times(p.rest, q)));
    }
  }

  lemma {:induction false} EvalTimes(p: Poly, q: Poly, a: byte)
    ensures Eval(Times(p, q), a) == Mul(Eval(p, a), Eval(q, a))
  {
    hide Mul, Add;
    AddLaws();
    var e := Eval(q, a);
    if p.Nil? {
      MulZero(0, e);
    } else {
      EvalTimes(p.rest, q, a);
      EvalPlus(Scale(p.low, q), Mk(0, Times(p.rest, q)), a);
      EvalScale(p.low, q, a);
      EvalMk(0, Times(p.rest, q), a);
      MulComm(e, p.low);
      MulComm(e, Mul(a, Eval(p.rest, a)));
      MulComm(e, Eval(p, a));
      MulAssoc(a, Eval(p.rest, a), e);
      MulDistributes(e, p.low, Mul(a, Eval(p.rest, a)));
    }
  }

  lemma EvalMk(c: byte, p: Poly, a: byte)
    ensures Eval(Mk(c, p), a) == Add(c, Mul(a, Eval(p, a)))
  {
    hide Mul, Add;
    AddLaws();
    MulZero(a, 0);
  }
}
