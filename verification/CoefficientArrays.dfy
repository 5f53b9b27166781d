/** The field object with its tables, and the polynomial operations on coefficient arrays
  * (highest degree first), each proved against the reference polynomials. */
module CoefficientArrays {
  import opened Basics
  import opened FieldAddition
  import opened GF256
  import opened Polynomials
  import opened PolynomialFacts
  import opened KeyEquation
  import opened ReedSolomon

  /** The field with its power and logarithm tables. */
  class GenericGF {
    const expTable: array<byte>
    const logTable: array<int>

    ghost predicate Valid()
      reads this, expTable, logTable
    {
      && expTable.Length == 256 && logTable.Length == 256
      && (forall i :: 0 <= i < 256 ==> expTable[i] == FieldAddition.Exp(i))
      && (forall a: byte :: a != 0 ==> logTable[a] == GF256.Log(a))
    }

    constructor ()
      ensures Valid() && fresh(expTable) && fresh(logTable)
    {
      expTable := new byte[256](_ => 0);
      logTable := new int[256](_ => 0);
      new;
      FillPowers(expTable);
      FillLogarithms(expTable, logTable);
    }

    /** The table product is the carry-less product modulo 0x11D. */
    function Multiply(a: byte, b: byte): (r: byte)
      requires Valid()
      reads this, expTable, logTable
      ensures r == Mul(a, b)
    {
      hide Mul, FieldAddition.Exp;
      MulZero(a, b);
      if a == 0 || b == 0 then 0
      else
        MulExps(GF256.Log(a), GF256.Log(b));
        ExpCycle(GF256.Log(a) + GF256.Log(b));
        expTable[(logTable[a] + logTable[b]) % 255]
    }

    function Inverse(a: byte): (r: byte)
      requires Valid() && a != 0
      reads this, expTable, logTable
      ensures r == GF256.Inverse(a)
    {
      expTable[256 - logTable[a] - 1]
    }

    function Log(a: byte): (i: int)
      requires Valid() && a != 0
      reads this, expTable, logTable
      ensures i == GF256.Log(a)
    {
      logTable[a]
    }

    function Exp(i: nat): (a: byte)
      requires Valid() && i < 256
      reads this, expTable, logTable
      ensures a == FieldAddition.Exp(i)
    {
      expTable[i]
    }
  }

  method FillPowers(expTable: array<byte>)
    requires expTable.Length == 256
    modifies expTable
    ensures forall k :: 0 <= k < 256 ==> expTable[k] == Exp(k)
  {
    hide Xor, Double, Exp;
    var x: nat := 1;
    ExpZero();
    for i := 0 to 256
      invariant x < 256 && x == Exp(i)
      invariant forall k :: 0 <= k < i ==> expTable[k] == Exp(k)
    {
      expTable[i] := x;
      DoubleAsComputed(x);
      ExpNext(i);
      x := x * 2;
      if x >= 256 {
        x := Xor(x, 0x11D) % 256;
      }
    }
  }

  method FillLogarithms(expTable: array<byte>, logTable: array<int>)
    requires expTable.Length == 256 == logTable.Length
    requires forall k :: 0 <= k < 256 ==> expTable[k] == Exp(k)
    modifies logTable
    ensures forall a: byte :: a != 0 ==> logTable[a] == Log(a)
  {
    hide Exp, Log;
    for i := 0 to 255
      invariant forall k :: 0 <= k < i ==> logTable[Exp(k)] == k
    {
      forall k | 0 <= k < i ensures Exp(k) != Exp(i) {
        if Exp(k) == Exp(i) { ExpInjective(k, i); }
      }
      logTable[expTable[i]] := i;
    }
    forall a: byte | a != 0 ensures logTable[a] == Log(a) {
      assert Exp(Log(a)) == a;
    }
  }

  lemma ExpNext(i: nat)
    ensures FieldAddition.Exp(i + 1) == Double(FieldAddition.Exp(i))
  {}

  lemma DoubleAsComputed(x: byte)
    ensures Double(x) == if 2 * x >= 256 then Xor(2 * x, 0x11D) % 256 else 2 * x
  {
    hide Xor;
  }

  // ---- coefficient arrays ----

  /** Coefficients, highest degree first, with no leading zero except for the polynomial 0. */
  type GFPoly = s: seq<byte> | |s| > 0 && (|s| > 1 ==> s[0] != 0) witness [0]

  lemma {:induction false} AbsZeros(s: seq<byte>)
    requires forall i :: 0 <= i < |s| ==> s[i] == 0
    ensures Abs(s) == Nil
  {
    if |s| > 0 { AbsZeros(s[..|s| - 1]); }
  }

  lemma {:induction false} AbsLeadingZeros(s: seq<byte>, k: nat)
    requires k <= |s| && forall i :: 0 <= i < k ==> s[i] == 0
    ensures Abs(s) == Abs(s[k..])
  {
    if k == |s| {
      AbsZeros(s);
    } else {
      AbsLeadingZeros(s[..|s| - 1], k);
      assert s[k..][..|s| - k - 1] == s[..|s| - 1][k..];
    }
  }

  lemma {:induction false} AbsLead(s: seq<byte>)
    requires |s| > 0 && s[0] != 0
    ensures Abs(s) != Nil && Len(Abs(s)) == |s| && Lead(Abs(s)) == s[0]
  {
    if |s| > 1 { AbsLead(s[..|s| - 1]); }
  }

  lemma {:induction false} AbsCoef(s: seq<byte>, k: nat)
    requires k < |s|
    ensures Coef(Abs(s), k) == s[|s| - 1 - k]
  {
    if k > 0 { AbsCoef(s[..|s| - 1], k - 1); }
  }

  lemma AbsNormal(p: GFPoly)
    ensures KeyEquation.Degree(Abs(p)) == |p| - 1
    ensures Abs(p) == Nil <==> p[0] == 0
    ensures p[0] != 0 ==> Len(Abs(p)) == |p| && Lead(Abs(p)) == p[0]
  {
    if p[0] != 0 {
      AbsLead(p);
    } else {
      AbsZeros(p);
    }
  }

  predicate IsZero(p: GFPoly) { p[0] == 0 }
  function DegreeOf(p: GFPoly): nat { |p| - 1 }
  function GetCoefficient(p: GFPoly, degree: nat): byte
    requires degree <= DegreeOf(p)
  {
    p[|p| - 1 - degree]
  }

  /** The constructor: strips leading zeros. */
  method GenericGFPoly(coefficients: seq<byte>) returns (p: GFPoly)
    requires |coefficients| > 0
    ensures Abs(p) == Abs(coefficients)
  {
    var n := |coefficients|;
    if n > 1 && coefficients[0] == 0 {
      var firstNonZero := 1;
      while firstNonZero < n && coefficients[firstNonZero] == 0
        invariant 1 <= firstNonZero <= n
        invariant forall i :: 0 <= i < firstNonZero ==> coefficients[i] == 0
      {
        firstNonZero := firstNonZero + 1;
      }
      AbsLeadingZeros(coefficients, firstNonZero);
      if firstNonZero == n {
        p := [0];
      } else {
        var stripped := new byte[n - firstNonZero];
        for i := 0 to stripped.Length
          invariant forall k :: 0 <= k < i ==> stripped[k] == coefficients[firstNonZero + k]
        {
          stripped[i] := coefficients[firstNonZero + i];
        }
        assert stripped[..] == coefficients[firstNonZero..];
        p := stripped[..];
      }
    } else {
      p := coefficients;
    }
  }

  /** Adding the shorter array to the end of the longer one adds the polynomials. */
  lemma {:induction false} AbsAligned(s: seq<byte>, a: seq<byte>, b: seq<byte>)
    requires |a| <= |b| == |s|
    requires forall i :: 0 <= i < |b| - |a| ==> s[i] == b[i]
    requires forall i :: 0 <= i < |a| ==> s[|b| - |a| + i] == Add(a[i], b[|b| - |a| + i])
    ensures Abs(s) == Plus(Abs(a), Abs(b))
  {
    hide Add, Mk, Plus;
    if |a| == 0 {
      assert s == b;
      PlusZero(Abs(b));
    } else {
      var n := |b| - 1;
      AbsAligned(s[..n], a[..|a| - 1], b[..n]);
      PlusMk(a[|a| - 1], Abs(a[..|a| - 1]), b[n], Abs(b[..n]));
    }
  }

  method AddOrSubtract(p: GFPoly, q: GFPoly) returns (r: GFPoly)
    ensures Abs(r) == Plus(Abs(p), Abs(q))
  {
    hide Add, Plus, Abs;
    AbsNormal(p);
    AbsNormal(q);
    PlusComm(Abs(p), Abs(q));
    PlusZero(Abs(p));
    PlusZero(Abs(q));
    if IsZero(p) { return q; }
    if IsZero(q) { return p; }
    var smaller: seq<byte>, larger: seq<byte> := p, q;
    if |smaller| > |larger| {
      smaller, larger := larger, smaller;
    }
    var sumDiff := new byte[|larger|](_ => 0);
    var lengthDiff := |larger| - |smaller|;
    for i := 0 to lengthDiff
      invariant forall k :: 0 <= k < i ==> sumDiff[k] == larger[k]
    {
      sumDiff[i] := larger[i];
    }
    for i := lengthDiff to |larger|
      invariant forall k :: 0 <= k < lengthDiff ==> sumDiff[k] == larger[k]
      invariant forall k :: lengthDiff <= k < i ==> sumDiff[k] == Add(smaller[k - lengthDiff], larger[k])
    {
      sumDiff[i] := Add(smaller[i - lengthDiff], larger[i]);
    }
    AbsAligned(sumDiff[..], smaller, larger);
    r := GenericGFPoly(sumDiff[..]);
  }

  // ---- multiplication ----

  lemma {:induction false} AbsScaled(s: seq<byte>, p: seq<byte>, c: byte)
    requires |s| == |p| && forall i :: 0 <= i < |p| ==> s[i] == Mul(p[i], c)
    ensures Abs(s) == Scale(c, Abs(p))
  {
    hide Mul, Mk, Scale;
    if |p| == 0 {
      ScaleNil(c);
    } else {
      var n := |p| - 1;
      AbsScaled(s[..n], p[..n], c);
      MulComm(p[n], c);
      ScaleMk(c, p[n], Abs(p[..n]));
    }
  }

  method MultiplyScalar(field: GenericGF, p: GFPoly, scalar: byte) returns (r: GFPoly)
    requires field.Valid()
    ensures Abs(r) == Scale(scalar, Abs(p))
  {
    hide Mul, Scale, Abs, Exp;
    ScaleZero(Abs(p));
    ScaleOne(Abs(p));
    AbsNormal([0]);
    if scalar == 0 { return [0]; }
    if scalar == 1 { return p; }
    var product := new byte[|p|](_ => 0);
    for i := 0 to |p|
      invariant forall k :: 0 <= k < i ==> product[k] == Mul(p[k], scalar)
    {
      product[i] := field.Multiply(p[i], scalar);
    }
    AbsScaled(product[..], p, scalar);
    r := GenericGFPoly(product[..]);
  }

  lemma {:induction false} AbsShifted(s: seq<byte>, k: nat)
    requires k <= |s| && forall i :: |s| - k <= i < |s| ==> s[i] == 0
    ensures Abs(s) == Shift(k, Abs(s[..|s| - k]))
  {
    if k == 0 {
      assert s[..|s|] == s;
    } else {
      AbsShifted(s[..|s| - 1], k - 1);
      assert s[..|s| - 1][..|s| - k] == s[..|s| - k];
    }
  }

  method MultiplyByMonomial(field: GenericGF, p: GFPoly, degree: nat, coefficient: byte) returns (r: GFPoly)
    requires field.Valid()
    ensures Abs(r) == Shift(degree, Scale(coefficient, Abs(p)))
  {
    hide Mul, Scale, Abs, Exp, Shift;
    if coefficient == 0 {
      ScaleZero(Abs(p));
      ShiftNil(degree);
      AbsNormal([0]);
      return [0];
    }
    var product := new byte[|p| + degree](_ => 0);
    for i := 0 to |p|
      invariant forall k :: 0 <= k < i ==> product[k] == Mul(p[k], coefficient)
      invariant forall k :: i <= k < |p| + degree ==> product[k] == 0
    {
      product[i] := field.Multiply(p[i], coefficient);
    }
    AbsShifted(product[..], degree);
    AbsScaled(product[..][..|p|], p, coefficient);
    r := GenericGFPoly(product[..]);
  }

  method BuildMonomial(degree: nat, coefficient: byte) returns (r: GFPoly)
    ensures Abs(r) == Shift(degree, Const(coefficient))
  {
    hide Abs, Shift;
    if coefficient == 0 {
      ShiftNil(degree);
      AbsNormal([0]);
      return [0];
    }
    var coefficients := new byte[degree + 1](_ => 0);
    coefficients[0] := coefficient;
    AbsShifted(coefficients[..], degree);
    AbsSingle(coefficient);
    assert coefficients[..][..1] == [coefficient];
    r := GenericGFPoly(coefficients[..]);
  }

  lemma AbsSingle(c: byte)
    ensures Abs([c]) == Const(c)
  {
    assert Abs([c][..0]) == Nil;
  }

  /** Adding c times b to the last |b| entries of a row. */
  lemma RowAdded(after: seq<byte>, before: seq<byte>, b: seq<byte>, c: byte, d: nat)
    requires |before| == |after| == d + |b|
    requires forall k :: 0 <= k < d ==> after[k] == before[k]
    requires forall k :: 0 <= k < |b| ==> after[d + k] == Add(before[d + k], Mul(c, b[k]))
    ensures Abs(after) == Plus(Scale(c, Abs(b)), Abs(before))
  {
    hide *;
    var row := seq(|b|, k requires 0 <= k < |b| => Mul(b[k], c));
    AbsScaled(row, b, c);
    forall k | 0 <= k < |b| ensures after[d + k] == Add(row[k], before[d + k]) {
      MulComm(c, b[k]);
      AddComm(row[k], before[d + k]);
    }
    AbsAligned(after, row, before);
  }

  /** The inner loop of the product: adds c times b to a stretch of the array. */
  method AddRow(field: GenericGF, product: array<byte>, i: nat, c: byte, b: seq<byte>)
    requires field.Valid() && i + |b| <= product.Length
    requires product as object !in {field.expTable as object, field.logTable as object}
    modifies product
    ensures forall k :: 0 <= k < product.Length && !(i <= k < i + |b|) ==> product[k] == old(product[k])
    ensures forall k :: 0 <= k < |b| ==> product[i + k] == Add(old(product[i + k]), Mul(c, b[k]))
  {
    hide *;
    for j := 0 to |b|
      invariant forall k :: 0 <= k < product.Length && !(i <= k < i + j) ==> product[k] == old(product[k])
      invariant forall k :: 0 <= k < j ==> product[i + k] == Add(old(product[i + k]), Mul(c, b[k]))
      invariant field.Valid()
    {
      product[i + j] := Add(product[i + j], field.Multiply(c, b[j]));
    }
  }

  method MultiplyPoly(field: GenericGF, p: GFPoly, q: GFPoly) returns (r: GFPoly)
    requires field.Valid()
    ensures Abs(r) == Times(Abs(p), Abs(q))
  {
    hide *;
    AbsNormal(p);
    AbsNormal(q);
    AbsNormal([0]);
    if p[0] == 0 || q[0] == 0 {
      ZeroTimes(Abs(q));
      TimesNil(Abs(p));
      return [0];
    }
    var m, n := |p|, |q|;
    var product := new byte[m + n - 1](_ => 0);
    ZeroTimes(Abs(q));
    AbsZeros(product[..n - 1]);
    AbsZeros(p[..0]);
    for i := 0 to m
      invariant Abs(product[..i + n - 1]) == Times(Abs(p[..i]), Abs(q))
      invariant forall k :: i + n - 1 <= k < m + n - 1 ==> product[k] == 0
    {
      var aCoeff := p[i];
      ghost var before := product[..i + n];
      assert before[..i + n - 1] == product[..i + n - 1];
      NextRow(before, p, q, i);
      AddRow(field, product, i, aCoeff, q);
      RowAdded(product[..i + n], before, q, aCoeff, i);
    }
    assert product[..] == product[..m + n - 1] && p[..m] == p;
    r := GenericGFPoly(product[..]);
  }

  lemma NextRow(before: seq<byte>, p: seq<byte>, q: seq<byte>, i: nat)
    requires i < |p| && |before| == i + |q| > 0 && before[|before| - 1] == 0
    requires Abs(before[..|before| - 1]) == Times(Abs(p[..i]), Abs(q))
    ensures Plus(Scale(p[i], Abs(q)), Abs(before)) == Times(Abs(p[..i + 1]), Abs(q))
  {
    assert p[..i + 1][..i] == p[..i];
    hide Plus, Scale, Times, Mk;
    TimesMk(p[i], Abs(p[..i]), Abs(q));
  }

  method EvaluateAt(field: GenericGF, p: GFPoly, a: byte) returns (result: byte)
    requires field.Valid()
    ensures result == Eval(Abs(p), a)
  {
    hide Mul, Add, Abs, Eval, Exp, Mk;
    if a == 0 {
      EvalAtZero(Abs(p));
      AbsCoef(p, 0);
      return GetCoefficient(p, 0);
    }
    assert p[..|p|] == p;
    if a == 1 {
      result := 0;
      HornerStart(p, a);
      for i := 0 to |p|
        invariant result == Eval(Abs(p[..i]), a)
      {
        HornerStep(p, i, a);
        MulOne(result);
        AddComm(p[i], result);
        result := Add(result, p[i]);
      }
      return;
    }
    result := p[0];
    HornerStart(p, a);
    HornerStep(p, 0, a);
    MulZero(a, 0);
    AddIsXor(p[0], 0);
    XorZero(p[0]);
    for i := 1 to |p|
      invariant result == Eval(Abs(p[..i]), a)
    {
      HornerStep(p, i, a);
      AddComm(p[i], Mul(a, result));
      result := Add(field.Multiply(a, result), p[i]);
    }
  }

  lemma HornerStart(p: seq<byte>, a: byte)
    ensures Eval(Abs(p[..0]), a) == 0
  {}

  lemma HornerStep(p: seq<byte>, i: nat, a: byte)
    requires i < |p|
    ensures Eval(Abs(p[..i + 1]), a) == Add(p[i], Mul(a, Eval(Abs(p[..i]), a)))
  {
    hide Mul, Add, Eval, Mk;
    assert p[..i + 1] == p[..i] + [p[i]];
    AbsAppend(p[..i], p[i]);
    EvalMk(p[i], Abs(p[..i]), a);
  }

  lemma EvalAtZero(p: Poly)
    ensures Eval(p, 0) == Coef(p, 0)
  {
    if p.Cons? {
      MulZero(0, Eval(p.rest, 0));
      AddIsXor(p.low, 0);
      XorZero(p.low);
    }
  }
}
