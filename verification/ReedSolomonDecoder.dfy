/** The Reed-Solomon decoder of the QR library, as it runs on tables and arrays. */
module ReedSolomonDecoder {
  import opened Basics
  import opened Options
  import opened FieldAddition
  import opened GF256
  import opened Polynomials
  import opened PolynomialFacts
  import opened KeyEquation
  import opened ErrorPolynomials
  import opened ReedSolomon
  import opened DecoderTheorems
  import opened CoefficientArrays

  method RunEuclideanAlgorithm(field: GenericGF, a: GFPoly, b: GFPoly, R: nat)
    returns (res: Option<(GFPoly, GFPoly)>)
    requires field.Valid()
    ensures match res
      case None => Euclid(Abs(a), Abs(b), R) == None
      case Some((sigma, omega)) => Euclid(Abs(a), Abs(b), R) == Some((Abs(sigma), Abs(omega)))
  {
    hide Abs, Step, Scale, Shift, Plus, Times, Inverse, Mul, Exp, DivideFrom, Const;
    var rLast, r: GFPoly := a, b;
    AbsNormal(a);
    AbsNormal(b);
    if |a| - 1 < |b| - 1 {
      rLast, r := b, a;
    }
    var tLast: GFPoly, t: GFPoly := [0], [1];
    AbsNormal([0]);
    AbsSingle(1);
    while 2 * (|r| - 1) >= R
      invariant Run(State(Abs(rLast), Abs(r), Abs(tLast), Abs(t)), R) == Euclid(Abs(a), Abs(b), R)
      decreases |r|
    {
      ghost var s := State(Abs(rLast), Abs(r), Abs(tLast), Abs(t));
      var tLastLast := tLast;
      AbsNormal(r);
      if r[0] == 0 { return None; }
      var quotient, remainder := Divide(field, rLast, r);
      AbsNormal(remainder);
      rLast, tLast := r, t;
      r := remainder;
      var product := MultiplyPoly(field, quotient, tLast);
      t := AddOrSubtract(product, tLastLast);
      StepResult(s, Abs(quotient), Abs(r));
      if |r| >= |rLast| { return None; }
    }
    AbsNormal(r);
    AbsCoef(t, 0);
    var sigmaTildeAtZero := t[|t| - 1];
    if sigmaTildeAtZero == 0 { return None; }
    var inverse := field.Inverse(sigmaTildeAtZero);
    var sigma := MultiplyScalar(field, t, inverse);
    var omega := MultiplyScalar(field, r, inverse);
    return Some((sigma, omega));
  }

  lemma StepResult(s: State, q: Poly, rem: Poly)
    requires s.r != Nil && (q, rem) == DivideFrom(Nil, s.rLast, s.r)
    ensures Step(s) == State(s.r, rem, s.t, Plus(Times(q, s.t), s.tLast))
  {}

  /** The inner loop: long division by a non-zero divisor. */
  method Divide(field: GenericGF, dividend: GFPoly, divisor: GFPoly) returns (q: GFPoly, r: GFPoly)
    requires field.Valid() && divisor[0] != 0
    ensures Abs(divisor) != Nil
    ensures (Abs(q), Abs(r)) == DivideFrom(Nil, Abs(dividend), Abs(divisor))
  {
    hide Abs, Scale, Shift, Plus, Times, Inverse, Mul, Exp, Const;
    r := dividend;
    q := [0];
    AbsNormal([0]);
    AbsNormal(divisor);
    AbsNormal(r);
    var dltInverse := field.Inverse(divisor[0]);
    while |r| >= |divisor| && r[0] != 0
      invariant DivideFrom(Abs(q), Abs(r), Abs(divisor)) == DivideFrom(Nil, Abs(dividend), Abs(divisor))
      decreases Len(Abs(r))
    {
      AbsNormal(r);
      var degreeDiff := |r| - |divisor|;
      var scale := field.Multiply(r[0], dltInverse);
      ghost var k, c := Eliminate(Abs(r), Abs(divisor));
      var monomial := BuildMonomial(degreeDiff, scale);
      q := AddOrSubtract(q, monomial);
      var product := MultiplyByMonomial(field, divisor, degreeDiff, scale);
      r := AddOrSubtract(r, product);
    }
    AbsNormal(r);
  }

  method FindErrorLocations(field: GenericGF, errorLocator: GFPoly) returns (res: Option<seq<byte>>)
    requires field.Valid()
    ensures res == Locations(Abs(errorLocator))
  {
    hide Abs, Exp, Inverse, Eval, Mul;
    var numErrors := |errorLocator| - 1;
    AbsNormal(errorLocator);
    if numErrors == 1 {
      AbsCoef(errorLocator, 1);
      return Some([GetCoefficient(errorLocator, 1)]);
    }
    var result := new byte[numErrors](_ => 0);
    var errorCount := 0;
    var i := 1;
    ghost var sigma := Abs(errorLocator);
    while i < 256 && errorCount < numErrors
      invariant 1 <= i <= 256 && errorCount <= numErrors
      invariant result[..errorCount] + RootInverses(sigma, i, numErrors - errorCount) ==
        RootInverses(sigma, 1, numErrors)
    {
      ghost var found := result[..errorCount];
      var value := EvaluateAt(field, errorLocator, i);
      if value == 0 {
        result[errorCount] := field.Inverse(i);
        errorCount := errorCount + 1;
        assert result[..errorCount] == found + [Inverse(i)];
      }
      i := i + 1;
    }
    assert result[..errorCount] == RootInverses(sigma, 1, numErrors);
    if errorCount != numErrors { return None; }
    assert result[..] == result[..errorCount];
    return Some(result[..]);
  }

  method FindErrorMagnitudes(field: GenericGF, errorEvaluator: GFPoly, locs: seq<byte>) returns (result: seq<byte>)
    requires field.Valid()
    requires forall j :: 0 <= j < |locs| ==> locs[j] != 0
    requires forall j, k :: 0 <= j < k < |locs| ==> locs[j] != locs[k]
    ensures |result| == |locs|
    ensures forall i :: 0 <= i < |locs| ==> result[i] == Magnitude(Abs(errorEvaluator), locs, i)
  {
    hide Abs, Exp, Inverse, Eval, Mul, Add;
    var s := |locs|;
    var magnitudes := new byte[s](_ => 0);
    for i := 0 to s
      invariant forall k :: 0 <= k < i ==> magnitudes[k] == Magnitude(Abs(errorEvaluator), locs, k)
    {
      var xiInverse := field.Inverse(locs[i]);
      var denominator: byte := 1;
      for j := 0 to s
        invariant denominator == Denominator(locs, i, j)
      {
        if i != j {
          denominator := field.Multiply(denominator, Add(1, field.Multiply(locs[j], xiInverse)));
        }
      }
      DenominatorNonZero(locs, i, s);
      var value := EvaluateAt(field, errorEvaluator, xiInverse);
      magnitudes[i] := field.Multiply(value, field.Inverse(denominator));
    }
    result := magnitudes[..];
  }

  /** `decode`: corrects a copy of the received bytes in place; None is the source's null. */
  method DecodeBytes(bytes: seq<byte>, twoS: nat) returns (res: Option<seq<byte>>)
    requires |bytes| > 0 && twoS <= 256
    ensures res == Decode(bytes, twoS)
  {
    hide *;
    var outputBytes := new byte[|bytes|](i requires 0 <= i < |bytes| => bytes[i]);
    assert outputBytes[..] == bytes;
    var field := new GenericGF();
    var poly := GenericGFPoly(outputBytes[..]);
    var syndromeCoefficients := new byte[twoS](_ => 0);
    var error := false;
    for s := 0 to twoS
      invariant field.Valid()
      invariant outputBytes[..] == bytes
      invariant forall k :: 0 <= k < s ==> syndromeCoefficients[twoS - 1 - k] == Eval(Abs(bytes), Exp(k))
      invariant error <==> exists k :: 0 <= k < s && Eval(Abs(bytes), Exp(k)) != 0
    {
      var evaluation := EvaluateAt(field, poly, field.Exp(s));
      syndromeCoefficients[twoS - 1 - s] := evaluation;
      if evaluation != 0 {
        error := true;
      }
    }
    SyndromeFromZero(bytes, 0, twoS);
    DecodeUnfold(bytes, twoS);
    if !error {
      return Some(outputBytes[..]);
    }
    SyndromeArray(bytes, syndromeCoefficients[..], 0, twoS);
    var syndrome := GenericGFPoly(syndromeCoefficients[..]);
    var monomial := BuildMonomial(twoS, 1);
    var sigmaOmega := RunEuclideanAlgorithm(field, monomial, syndrome, twoS);
    if sigmaOmega == None { return None; }
    var (sigma, omega) := sigmaOmega.value;
    res := CorrectBytes(field, bytes, outputBytes, sigma, omega);
  }

  lemma DecodeUnfold(w: seq<byte>, R: nat)
    ensures Syndrome(w, R) == SyndromeFrom(w, 0, R)
    ensures Syndrome(w, R) == Nil ==> Decode(w, R) == Some(w)
    ensures Syndrome(w, R) != Nil ==>
      Decode(w, R) == match Euclid(Shift(R, Const(1)), Syndrome(w, R), R)
                      case None => None
                      case Some((sigma, omega)) => Correct(w, sigma, omega)
  {}

  lemma {:induction false} SyndromeArray(w: seq<byte>, coefficients: seq<byte>, s: nat, R: nat)
    requires s <= R && |coefficients| == R - s
    requires forall k :: s <= k < R ==> coefficients[R - 1 - k] == Eval(Abs(w), Exp(k))
    ensures Abs(coefficients) == SyndromeFrom(w, s, R)
    decreases R - s
  {
    hide Eval, Exp, Mk;
    if s < R {
      var n := |coefficients| - 1;
      assert coefficients[n] == Eval(Abs(w), Exp(s));
      SyndromeArray(w, coefficients[..n], s + 1, R);
    }
  }

  /** The last part of `decode`: locations, magnitudes, and the patching loop. */
  method CorrectBytes(field: GenericGF, ghost bytes: seq<byte>, outputBytes: array<byte>, sigma: GFPoly, omega: GFPoly)
    returns (res: Option<seq<byte>>)
    requires field.Valid() && outputBytes[..] == bytes
    requires outputBytes != field.expTable
    requires Coef(Abs(sigma), 0) == 1
    modifies outputBytes
    ensures res == Correct(bytes, Abs(sigma), Abs(omega))
  {
    hide Abs, Exp, Inverse, Eval, Mul, Add, Locations, Magnitude;
    var errorLocations := FindErrorLocations(field, sigma);
    LocationsExact(Abs(sigma));
    if errorLocations == None { return None; }
    var locs := errorLocations.value;
    var errorMagnitudes := FindErrorMagnitudes(field, omega, locs);
    ghost var es := Corrections(Abs(omega), locs);
    assert es[..0] == [];
    for i := 0 to |locs|
      invariant field.Valid()
      invariant Apply(bytes, es[..i]) == Some(outputBytes[..])
    {
      assert es[..i + 1][..i] == es[..i];
      var position := outputBytes.Length - 1 - field.Log(locs[i]);
      if position < 0 {
        ApplyStops(bytes, es, i + 1);
        return None;
      }
      ghost var before := outputBytes[..];
      outputBytes[position] := Add(outputBytes[position], errorMagnitudes[i]);
      assert outputBytes[..] == before[position := Add(before[position], es[i].magnitude)];
    }
    assert es[..|locs|] == es;
    return Some(outputBytes[..]);
  }

  /** Once a position falls outside the word, the answer is None. */
  lemma {:induction false} ApplyStops(w: seq<byte>, es: seq<Error>, n: nat)
    requires n <= |es| && forall i :: 0 <= i < |es| ==> es[i].locator != 0
    requires Apply(w, es[..n]) == None
    ensures Apply(w, es) == None
    decreases |es| - n
  {
    if n < |es| {
      assert es[..n + 1][..n] == es[..n];
      ApplyStops(w, es, n + 1);
    } else {
      assert es[..n] == es;
    }
  }
}
