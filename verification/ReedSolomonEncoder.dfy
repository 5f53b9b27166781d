/** Systematic Reed-Solomon encoding (ISO/IEC 18004:2015, section 7.5.2): the partner of the
  * decoder. */
module ReedSolomonEncoder {
  import opened Basics
  import opened FieldAddition
  import opened GF256
  import opened Polynomials
  import opened PolynomialFacts
  import opened KeyEquation
  import opened ReedSolomon

  /** The product of x - 2^i for i < R. */
  function Generator(R: nat): Poly {
    if R == 0 then Const(1) else Times(Generator(R - 1), Minus(Exp(R - 1)))
  }

  lemma {:induction false} GeneratorFacts(R: nat, s: nat)
    ensures Generator(R) != Nil && Len(Generator(R)) == R + 1
    ensures s < R ==> Eval(Generator(R), Exp(s)) == 0
  {
    if R > 0 {
      GeneratorFacts(R - 1, s);
      hide Exp, Mul, Times, Minus, Eval, Add;
      MinusLen(Exp(R - 1));
      LenTimes(Generator(R - 1), Minus(Exp(R - 1)));
      EvalTimes(Generator(R - 1), Minus(Exp(R - 1)), Exp(s));
      MulZero(Eval(Generator(R - 1), Exp(s)), Eval(Minus(Exp(R - 1)), Exp(s)));
      EvalMinus(Exp(R - 1), Exp(s));
      AddIsXor(Exp(R - 1), Exp(s));
      if s == R - 1 { XorCancels(Exp(s), Exp(s)); }
    }
  }

  /** The n lowest coefficients as bytes, highest degree first. */
  function ToBytes(p: Poly, n: nat): (w: seq<byte>)
    requires Len(p) <= n
    ensures |w| == n
  {
    if n == 0 then []
    else if p.Nil? then ToBytes(Nil, n - 1) + [0]
    else ToBytes(p.rest, n - 1) + [p.low]
  }

  lemma {:induction false} AbsToBytes(p: Poly, n: nat)
    requires Len(p) <= n
    ensures Abs(ToBytes(p, n)) == p
  {
    if n > 0 {
      var rest: Poly, low: byte := if p.Nil? then Nil else p.rest, if p.Nil? then 0 else p.low;
      AbsToBytes(rest, n - 1);
      AbsAppend(ToBytes(rest, n - 1), low);
    }
  }

  lemma {:induction false} AbsConcat(a: seq<byte>, b: seq<byte>)
    ensures Abs(a + b) == Plus(Shift(|b|, Abs(a)), Abs(b))
  {
    hide Plus, Add, Mk, Abs;
    if |b| == 0 {
      assert a + b == a;
      AbsEmpty();
      PlusZero(Abs(a));
    } else {
      var n := |b| - 1;
      AbsConcat(a, b[..n]);
      assert a + b == (a + b[..n]) + [b[n]] && b == b[..n] + [b[n]];
      AbsAppend(a + b[..n], b[n]);
      AbsAppend(b[..n], b[n]);
      PlusMk(0, Shift(n, Abs(a)), b[n], Abs(b[..n]));
      AddIsXor(0, b[n]);
      XorZero(b[n]);
    }
  }

  lemma AbsEmpty()
    ensures Abs([]) == Nil
  {}

  /** The data followed by R check bytes: the remainder of data * x^R by the generator. */
  ghost function Encode(data: seq<byte>, R: nat): (w: seq<byte>)
    ensures |w| == |data| + R && w[..|data|] == data
  {
    GeneratorFacts(R, 0);
    DivideFromIdentity(Nil, Shift(R, Abs(data)), Generator(R));
    data + ToBytes(DivideFrom(Nil, Shift(R, Abs(data)), Generator(R)).1, R)
  }

  lemma EncodeIsCodeword(data: seq<byte>, R: nat)
    ensures IsCodeword(Encode(data, R), R)
  {
    hide Exp, Plus, Times, Eval, Shift, Mul, Add, Generator, Abs, DivideFrom;
    var g, n := Generator(R), Shift(R, Abs(data));
    GeneratorFacts(R, 0);
    DivideFromIdentity(Nil, n, g);
    var (q, rem) := DivideFrom(Nil, n, g);
    ZeroTimes(g);
    PlusZero(n);
    AbsToBytes(rem, R);
    AbsConcat(data, ToBytes(rem, R));
    PlusAssoc(Times(q, g), rem, rem);
    PlusCancels(rem, rem);
    PlusZero(Times(q, g));
    assert Abs(Encode(data, R)) == Times(q, g);
    forall s | 0 <= s < R ensures Eval(Abs(Encode(data, R)), Exp(s)) == 0 {
      GeneratorFacts(R, s);
      EvalTimes(q, g, Exp(s));
      MulZero(Eval(q, Exp(s)), 0);
    }
  }
}
