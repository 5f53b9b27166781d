/** The decoder on words: Chien search, Forney's formula, and the correctness of `decode`. */
module DecoderTheorems {
  import opened Basics
  import opened Options
  import opened FieldAddition
  import opened GF256
  import opened Polynomials
  import opened PolynomialFacts
  import opened KeyEquation
  import opened ErrorPolynomials
  import opened ReedSolomon

  // ---- Chien search ----

  /** The inverses of the first `wanted` roots of sigma among i, i + 1, ..., 255. */
  ghost function RootInverses(sigma: Poly, i: nat, wanted: nat): seq<byte>
    requires i > 0
    decreases 256 - i
  {
    if i >= 256 || wanted == 0 then []
    else if Eval(sigma, i) == 0 then [Inverse(i)] + RootInverses(sigma, i + 1, wanted - 1)
    else RootInverses(sigma, i + 1, wanted)
  }

  /** `findErrorLocations`: a locator of degree 1 is read off directly. */
  ghost function Locations(sigma: Poly): Option<seq<byte>> {
    if Degree(sigma) == 1 then Some([Coef(sigma, 1)])
    else
      var found := RootInverses(sigma, 1, Degree(sigma));
      if |found| == Degree(sigma) then Some(found) else None
  }

  /** Non-zero, pairwise different, and all of them inverses of roots of sigma. */
  ghost predicate InverseRoots(sigma: Poly, locs: seq<byte>) {
    && (forall i :: 0 <= i < |locs| ==> locs[i] != 0 && Eval(sigma, Inverse(locs[i])) == 0)
    && (forall i, j :: 0 <= i < j < |locs| ==> locs[i] != locs[j])
  }

  /** found lists inverses of roots from i on, and all of them if it is short. */
  ghost predicate Collected(sigma: Poly, i: nat, wanted: nat, found: seq<byte>) {
    && |found| <= wanted
    && InverseRoots(sigma, found)
    && (forall k :: 0 <= k < |found| ==> found[k] != 0 && Inverse(found[k]) >= i)
    && (|found| < wanted ==> forall z: byte :: 0 < i <= z && Eval(sigma, z) == 0 ==> Inverse(z) in found)
  }

  lemma {:induction false} RootInversesFacts(sigma: Poly, i: nat, wanted: nat)
    requires i > 0
    ensures Collected(sigma, i, wanted, RootInverses(sigma, i, wanted))
    decreases 256 - i
  {
    hide Eval, Inverse, Collected;
    if i >= 256 || wanted == 0 {
      CollectEnd(sigma, i, wanted);
    } else {
      if Eval(sigma, i) == 0 {
        RootInversesFacts(sigma, i + 1, wanted - 1);
        CollectOne(sigma, i, wanted, RootInverses(sigma, i + 1, wanted - 1));
      } else {
        RootInversesFacts(sigma, i + 1, wanted);
        CollectNone(sigma, i, wanted, RootInverses(sigma, i + 1, wanted));
      }
    }
  }

  lemma CollectEnd(sigma: Poly, i: nat, wanted: nat)
    requires i >= 256 || wanted == 0
    ensures Collected(sigma, i, wanted, [])
  {}

  lemma CollectNone(sigma: Poly, i: byte, wanted: nat, tail: seq<byte>)
    requires 0 < i && Eval(sigma, i) != 0
    requires Collected(sigma, i + 1, wanted, tail)
    ensures Collected(sigma, i, wanted, tail)
  {
    hide Eval, Inverse;
  }

  lemma CollectOne(sigma: Poly, i: byte, wanted: nat, tail: seq<byte>)
    requires 0 < i && 0 < wanted && Eval(sigma, i) == 0
    requires Collected(sigma, i + 1, wanted - 1, tail)
    ensures Collected(sigma, i, wanted, [Inverse(i)] + tail)
  {
    hide Eval, Inverse;
    InverseInverse(i);
    var found := [Inverse(i)] + tail;
    forall k | 0 <= k < |found|
      ensures found[k] != 0 && Inverse(found[k]) >= i && Eval(sigma, Inverse(found[k])) == 0
    {
      if k > 0 { assert found[k] == tail[k - 1]; }
    }
    forall j, k | 0 <= j < k < |found| ensures found[j] != found[k] {
      assert found[k] == tail[k - 1];
      if j > 0 { assert found[j] == tail[j - 1]; }
    }
  }

  lemma LinearRoot(sigma: Poly)
    requires Coef(sigma, 0) == 1 && Degree(sigma) == 1
    ensures sigma == Lin(Coef(sigma, 1)) && Coef(sigma, 1) != 0
  {
    assert Len(sigma.rest) == 1;
    assert Len(sigma.rest.rest) == 0;
  }

  /** The search returns the inverses of as many distinct roots as the degree, or None when
    * there are not that many. */
  lemma LocationsExact(sigma: Poly)
    requires Coef(sigma, 0) == 1
    ensures Locations(sigma).Some? ==>
      InverseRoots(sigma, Locations(sigma).value) && |Locations(sigma).value| == Degree(sigma)
    ensures Locations(sigma).Some? <==> exists locs :: InverseRoots(sigma, locs) && |locs| == Degree(sigma)
  {
    hide Eval, Inverse;
    if Degree(sigma) == 1 {
      var X := Coef(sigma, 1);
      LinearRoot(sigma);
      InverseInverse(X);
      LinRoot(X, Inverse(X));
      assert InverseRoots(sigma, [X]);
    } else {
      RootInversesFacts(sigma, 1, Degree(sigma));
      if locs :| InverseRoots(sigma, locs) && |locs| == Degree(sigma) {
        MissingRoot(sigma, locs, RootInverses(sigma, 1, Degree(sigma)));
      }
    }
  }

  lemma MissingRoot(sigma: Poly, locs: seq<byte>, found: seq<byte>)
    requires InverseRoots(sigma, locs) && |found| <= |locs|
    requires |found| < |locs| ==> forall z: byte :: 1 <= z && Eval(sigma, z) == 0 ==> Inverse(z) in found
    ensures |found| == |locs|
  {
    hide Eval, Inverse;
    if |found| < |locs| {
      forall k | 0 <= k < |locs| ensures locs[k] in found { InverseInverse(locs[k]); }
      NoRepetition(locs, found);
    }
  }

  /** Different values drawn from a list are no more than the list is long. */
  lemma {:induction false} NoRepetition(a: seq<byte>, b: seq<byte>)
    requires forall i, j :: 0 <= i < j < |a| ==> a[i] != a[j]
    requires forall i :: 0 <= i < |a| ==> a[i] in b
    ensures |a| <= |b|
    decreases |a|
  {
    if |a| > 0 {
      var k :| 0 <= k < |b| && b[k] == a[0];
      var a', b' := a[1..], b[..k] + b[k + 1..];
      forall i | 0 <= i < |a'| ensures a'[i] in b' {
        var m :| 0 <= m < |b| && b[m] == a'[i];
        assert m != k;
        assert b'[if m < k then m else m - 1] == a'[i];
      }
      NoRepetition(a', b');
    }
  }

  // ---- Forney's formula ----

  ghost function Magnitude(omega: Poly, locs: seq<byte>, i: nat): byte
    requires i < |locs|
    requires forall j :: 0 <= j < |locs| ==> locs[j] != 0
    requires forall j, k :: 0 <= j < k < |locs| ==> locs[j] != locs[k]
  {
    DenominatorNonZero(locs, i, |locs|);
    Mul(Eval(omega, Inverse(locs[i])), Inverse(Denominator(locs, i, |locs|)))
  }

  ghost function Corrections(omega: Poly, locs: seq<byte>): (es: seq<Error>)
    requires forall j :: 0 <= j < |locs| ==> locs[j] != 0
    requires forall j, k :: 0 <= j < k < |locs| ==> locs[j] != locs[k]
    ensures |es| == |locs| && Distinct(es) && Locators(es) == locs
    ensures forall i :: 0 <= i < |locs| ==> es[i] == Error(locs[i], Magnitude(omega, locs, i))
  {
    seq(|locs|, i requires 0 <= i < |locs| => Error(locs[i], Magnitude(omega, locs, i)))
  }

  /** Forney's formula: the corrections have the values of omega at the inverse roots. */
  lemma ForneyValues(omega: Poly, locs: seq<byte>, i: nat)
    requires i < |locs|
    requires forall j :: 0 <= j < |locs| ==> locs[j] != 0
    requires forall j, k :: 0 <= j < k < |locs| ==> locs[j] != locs[k]
    ensures Eval(Evaluator(Corrections(omega, locs)), Inverse(locs[i])) == Eval(omega, Inverse(locs[i]))
  {
    hide Eval, Inverse, Mul, Evaluator, Denominator;
    var es := Corrections(omega, locs);
    EvaluatorAt(es, i, |es|);
    assert es[..|es|] == es;
    DenominatorNonZero(locs, i, |locs|);
    var D, v := Denominator(locs, i, |locs|), Eval(omega, Inverse(locs[i]));
    MulInverse(D);
    MulAssoc(v, Inverse(D), D);
    MulComm(v, 1);
    MulOne(v);
  }

  /** Forney's formula applied to the true evaluator gives the true magnitudes. */
  lemma ForneyRecovers(es: seq<Error>)
    requires Distinct(es)
    ensures Corrections(Evaluator(es), Locators(es)) == es
  {
    hide Eval, Inverse, Mul, Evaluator, Denominator;
    var locs := Locators(es);
    forall i | 0 <= i < |es| ensures Corrections(Evaluator(es), locs)[i] == es[i] {
      EvaluatorAt(es, i, |es|);
      assert es[..|es|] == es;
      DenominatorNonZero(locs, i, |locs|);
      var D, Y := Denominator(locs, i, |locs|), es[i].magnitude;
      MulInverse(D);
      MulAssoc(Y, D, Inverse(D));
      MulComm(Y, 1);
      MulOne(Y);
    }
  }

  // ---- decode ----

  /** The reference for `decode`: None is the source's null. */
  ghost function Decode(w: seq<byte>, R: nat): (r: Option<seq<byte>>)
    ensures r.Some? ==> |r.value| == |w|
  {
    var S := Syndrome(w, R);
    if S == Nil then Some(w)
    else
      match Euclid(Shift(R, Const(1)), S, R)
      case None => None
      case Some((sigma, omega)) => Correct(w, sigma, omega)
  }

  ghost function Correct(w: seq<byte>, sigma: Poly, omega: Poly): (r: Option<seq<byte>>)
    requires Coef(sigma, 0) == 1
    ensures r.Some? ==> |r.value| == |w|
  {
    LocationsExact(sigma);
    match Locations(sigma)
    case None => None
    case Some(locs) => Apply(w, Corrections(omega, locs))
  }

  // ---- the bounded-distance guarantee ----

  /** Every error pattern of weight at most R/2 on a codeword of at most 255 bytes is
    * corrected to that codeword. */
  lemma BoundedDistance(c: seq<byte>, w: seq<byte>, R: nat)
    requires |c| == |w| <= 255 && IsCodeword(c, R)
    requires 2 * Distance(c, w) <= R
    ensures Decode(w, R) == Some(c)
  {
    var es := ErrorsBetween(c, w, |c|);
    ErrorsBetweenFacts(c, w, |c|);
    ErrorsBetweenCount(c, w, |c|);
    hide Add, Exp, Position, SyndromeOf, SyndromeFrom, Euclid, Eval, Shift;
    ListSyndrome(c, w, es, R);
    if |es| == 0 {
      assert forall p :: 0 <= p < |c| ==> !Hits(es, |c|, p);
      assert c == w;
    } else {
      ErrorsFound(es, R);
      CorrectRecovers(c, w, es, R);
    }
  }

  lemma CorrectRecovers(c: seq<byte>, w: seq<byte>, es: seq<Error>, R: nat)
    requires |c| == |w| <= 255 && IsCodeword(c, R) && ListsDifferences(c, w, es, |c|)
    requires 2 * |es| <= R
    ensures Coef(Locator(es), 0) == 1 && Correct(w, Locator(es), Evaluator(es)) == Some(c)
  {
    hide Add, Exp, Position, SyndromeOf, SyndromeFrom, Locator, Evaluator, Inverse, Eval, Locations, Corrections;
    var sigma := Locator(es);
    LocatorShape(es);
    forall i | 0 <= i < |es| ensures Eval(sigma, Inverse(es[i].locator)) == 0 {
      InverseInverse(es[i].locator);
      LocatorRoots(es, Inverse(es[i].locator));
    }
    assert InverseRoots(sigma, Locators(es));
    LocationsExact(sigma);
    var locs := Locations(sigma).value;
    SameErrors(c, w, es, locs, R);
    UndoListed(c, w, Corrections(Evaluator(es), locs));
  }

  /** A complete list of differences accounts for all the syndromes of the received word. */
  lemma ListSyndrome(c: seq<byte>, w: seq<byte>, es: seq<Error>, R: nat)
    requires |c| == |w| && IsCodeword(c, R) && ListsDifferences(c, w, es, |c|)
    ensures Syndrome(w, R) == SyndromeOf(es, R)
  {
    hide Add, Exp, Position, SyndromeOf, SyndromeFrom, Eval;
    ApplyListed(c, w, es);
    assert Apply(c, es).value == w;
    SyndromeApply(c, es, R);
    SyndromeFromZero(c, 0, R);
    PlusZero(SyndromeOf(es, R));
  }

  /** Applying a complete list of differences to the received word takes them back. */
  lemma UndoListed(c: seq<byte>, w: seq<byte>, es: seq<Error>)
    requires |c| == |w| && ListsDifferences(c, w, es, |c|)
    ensures Apply(w, es) == Some(c)
  {
    hide Add, Exp, Position;
    forall p | 0 <= p < |c| ensures Add(c[p], w[p]) == Add(w[p], c[p]) {
      AddComm(c[p], w[p]);
    }
    assert Listed(w, c, es);
    ApplyListed(w, c, es);
    assert Apply(w, es).value == c;
  }

  /** The locations found in any order, with Forney's magnitudes, list the same differences. */
  lemma SameErrors(c: seq<byte>, w: seq<byte>, es: seq<Error>, locs: seq<byte>, R: nat)
    requires |c| == |w| <= 255 && IsCodeword(c, R) && ListsDifferences(c, w, es, |c|)
    requires InverseRoots(Locator(es), locs) && |locs| == |es| && 2 * |es| <= R
    ensures ListsDifferences(c, w, Corrections(Evaluator(es), locs), |c|)
  {
    hide Add, Exp, Position, SyndromeOf, Locator, Evaluator, Inverse, Eval, Truncate, Times;
    var fs := Reordered(c, w, es, locs);
    LocatorShape(es);
    LocatorShape(fs);
    LocatorUnique(Locator(es), fs);
    ListSyndrome(c, w, es, R);
    ListSyndrome(c, w, fs, R);
    ErrorsSolveKeyEquation(es, R);
    ErrorsSolveKeyEquation(fs, R);
    TruncateShort(R, Evaluator(es));
    TruncateShort(R, Evaluator(fs));
    ForneyRecovers(fs);
    assert Locators(fs) == locs;
  }

  /** The difference at the position of locator X. */
  ghost function ErrorAt(c: seq<byte>, w: seq<byte>, X: byte): Error
    requires |c| == |w| && X != 0
  {
    var p := Position(|c|, X);
    Error(X, if 0 <= p < |c| then Add(c[p], w[p]) else 0)
  }

  lemma SameLocators(es: seq<Error>, locs: seq<byte>)
    requires Distinct(es) && InverseRoots(Locator(es), locs) && |locs| == |es|
    ensures forall X :: X in locs <==> X in Locators(es)
  {
    hide Locator, Inverse, Eval;
    forall i | 0 <= i < |locs| ensures locs[i] in Locators(es) {
      InverseInverse(locs[i]);
      LocatorRoots(es, Inverse(locs[i]));
      var k :| 0 <= k < |es| && es[k].locator == locs[i];
      assert Locators(es)[k] == locs[i];
    }
    forall k | 0 <= k < |es| ensures Locators(es)[k] in locs {
      AllUsed(locs, Locators(es), k);
    }
  }

  /** The differences listed in the order of their locators in locs. */
  lemma Reordered(c: seq<byte>, w: seq<byte>, es: seq<Error>, locs: seq<byte>) returns (fs: seq<Error>)
    requires |c| == |w| && ListsDifferences(c, w, es, |c|)
    requires InverseRoots(Locator(es), locs) && |locs| == |es|
    ensures ListsDifferences(c, w, fs, |c|) && |fs| == |locs| && Locators(fs) == locs
  {
    hide Add, Exp, Position, Locator, Inverse, Eval;
    SameLocators(es, locs);
    fs := seq(|locs|, i requires 0 <= i < |locs| => ErrorAt(c, w, locs[i]));
    forall i | 0 <= i < |fs|
      ensures 0 <= Position(|c|, fs[i].locator) < |c| && fs[i].magnitude != 0
    {
      assert locs[i] in Locators(es);
      var k :| 0 <= k < |es| && Locators(es)[k] == locs[i];
      assert es[k].locator == fs[i].locator;
    }
    assert Distinct(fs) && Locators(fs) == locs;
    forall p | 0 <= p < |c| ensures Hits(fs, |c|, p) <==> Hits(es, |c|, p) {
      SameHits(es, fs, |c|, p);
    }
  }

  lemma SameHits(es: seq<Error>, fs: seq<Error>, len: nat, p: int)
    requires Distinct(es) && Distinct(fs)
    requires forall X :: X in Locators(es) <==> X in Locators(fs)
    ensures Hits(es, len, p) <==> Hits(fs, len, p)
  {
    hide Position;
    if i :| 0 <= i < |es| && Position(len, es[i].locator) == p {
      assert Locators(es)[i] in Locators(fs);
    }
    if i :| 0 <= i < |fs| && Position(len, fs[i].locator) == p {
      assert Locators(fs)[i] in Locators(es);
    }
  }

  /** Different values drawn from a list of the same length use every entry. */
  lemma AllUsed(a: seq<byte>, b: seq<byte>, k: nat)
    requires |a| == |b| && k < |b|
    requires forall i, j :: 0 <= i < j < |a| ==> a[i] != a[j]
    requires forall i, j :: 0 <= i < j < |b| ==> b[i] != b[j]
    requires forall i :: 0 <= i < |a| ==> a[i] in b
    ensures b[k] in a
  {
    if b[k] !in a {
      var rest := b[..k] + b[k + 1..];
      forall i | 0 <= i < |a| ensures a[i] in rest {
        var m :| 0 <= m < |b| && b[m] == a[i];
        assert rest[if m < k then m else m - 1] == a[i];
      }
      NoRepetition(a, rest);
    }
  }

  // ---- what an answer means ----

  lemma {:induction false} FewChanges(w: seq<byte>, es: seq<Error>)
    requires forall i :: 0 <= i < |es| ==> es[i].locator != 0
    requires Apply(w, es).Some?
    ensures Distance(w, Apply(w, es).value) <= |es|
  {
    hide Add, Exp;
    if |es| == 0 {
      assert Differences(w, w, |w|) == {};
    } else {
      var n := |es| - 1;
      FewChanges(w, es[..n]);
      var v, p := Apply(w, es[..n]).value, Position(|w|, es[n].locator);
      var before, after := Differences(w, v, |w|), Differences(w, Apply(w, es).value, |w|);
      assert after <= before + {p};
      SubsetSize(after, before + {p});
    }
  }

  /** The corrections that `decode` applies: sigma is their locator polynomial, and they
    * take the values of omega. */
  lemma CorrectionList(w: seq<byte>, sigma: Poly, omega: Poly) returns (es: seq<Error>)
    requires Coef(sigma, 0) == 1 && Correct(w, sigma, omega).Some?
    ensures Distinct(es) && |es| == Degree(sigma) && sigma == Locator(es)
    ensures Apply(w, es) == Correct(w, sigma, omega)
    ensures forall i :: 0 <= i < |es| ==>
      Eval(omega, Inverse(es[i].locator)) == Eval(Evaluator(es), Inverse(es[i].locator))
  {
    hide Eval, Inverse, Evaluator, Locator, Locations, Magnitude;
    LocationsExact(sigma);
    var locs := Locations(sigma).value;
    es := Corrections(omega, locs);
    LocatorUnique(sigma, es);
    forall i | 0 <= i < |es|
      ensures Eval(omega, Inverse(es[i].locator)) == Eval(Evaluator(es), Inverse(es[i].locator))
    {
      ForneyValues(omega, locs, i);
    }
  }

  /** `decode` found errors, computed these two polynomials, and gave an answer. */
  ghost predicate Corrected(w: seq<byte>, sigma: Poly, omega: Poly, R: nat) {
    && Syndrome(w, R) != Nil
    && Euclid(Shift(R, Const(1)), Syndrome(w, R), R) == Some((sigma, omega))
    && Correct(w, sigma, omega).Some?
  }

  /** The answer is a codeword exactly when the evaluator has smaller degree than the
    * locator, and it never changes more than R/2 bytes. */
  lemma CorrectExact(w: seq<byte>, sigma: Poly, omega: Poly, R: nat)
    requires Corrected(w, sigma, omega, R)
    ensures 2 * Distance(w, Correct(w, sigma, omega).value) <= R
    ensures IsCodeword(Correct(w, sigma, omega).value, R) <==> Degree(omega) < Degree(sigma)
  {
    var S := Syndrome(w, R);
    LenSyndromeFrom(w, 0, R);
    SyndromeFromZero(Correct(w, sigma, omega).value, 0, R);
    hide Times, Truncate, Plus, SyndromeOf, SyndromeFrom, Euclid, Shift, Correct, Evaluator, Locator, Eval, Exp, Apply;
    KeyEquationSound(S, R);
    var es := CorrectionList(w, sigma, omega);
    FewChanges(w, es);
    SyndromeApply(w, es, R);
    PlusCancels(S, SyndromeOf(es, R));
    SameSyndrome(sigma, omega, es, S, R);
    if Degree(omega) < Degree(sigma) {
      LocatorShape(es);
      EvaluatorUnique(omega, Evaluator(es), es);
    }
  }

  /** The corrections explain the syndromes exactly when their evaluator is omega. */
  lemma SameSyndrome(sigma: Poly, omega: Poly, es: seq<Error>, S: Poly, R: nat)
    requires Distinct(es) && 2 * |es| <= R && S != Nil && Len(S) <= R
    requires sigma == Locator(es) && Coef(sigma, 0) == 1 && 2 * Degree(omega) < R
    requires Truncate(R, Times(sigma, S)) == omega
    ensures S == SyndromeOf(es, R) <==> omega == Evaluator(es)
    ensures omega == Evaluator(es) ==> Degree(omega) < Degree(sigma)
  {
    hide Times, Truncate, Plus, SyndromeOf, Evaluator, Locator;
    var T := SyndromeOf(es, R);
    LocatorShape(es);
    LenSyndromeOf(es, R);
    ErrorsSolveKeyEquation(es, R);
    TruncateShort(R, Evaluator(es));
    if omega == Evaluator(es) {
      TimesPlusRight(sigma, S, T);
      TruncatePlus(R, Times(sigma, S), Times(sigma, T));
      PlusCancels(omega, omega);
      LenPlus(S, T);
      CancelUnit(R, sigma, Plus(S, T));
      PlusCancels(S, T);
      if omega == Nil { CancelUnit(R, sigma, S); }
    }
  }

  lemma DistanceSymmetric(a: seq<byte>, b: seq<byte>)
    requires |a| == |b|
    ensures Distance(a, b) == Distance(b, a)
  {
    assert Differences(a, b, |a|) == Differences(b, a, |a|);
  }

  /** An answer changes at most R/2 bytes of the word. */
  lemma DecodeStaysNear(w: seq<byte>, R: nat)
    requires Decode(w, R).Some?
    ensures 2 * Distance(Decode(w, R).value, w) <= R
  {
    hide Exp, Euclid, Correct, Shift;
    var S := Syndrome(w, R);
    DistanceSymmetric(Decode(w, R).value, w);
    if S == Nil {
      assert Differences(w, w, |w|) == {};
    } else {
      var (sigma, omega) := Euclid(Shift(R, Const(1)), S, R).value;
      CorrectExact(w, sigma, omega, R);
    }
  }

  /** `decode` answers with a codeword exactly when some codeword lies within R/2 of the
    * received word. */
  lemma DecodeCodewordIffNear(w: seq<byte>, R: nat)
    requires |w| <= 255
    ensures (Decode(w, R).Some? && IsCodeword(Decode(w, R).value, R))
        <==> exists c :: |c| == |w| && IsCodeword(c, R) && 2 * Distance(c, w) <= R
  {
    hide Exp, Decode;
    if Decode(w, R).Some? {
      DecodeStaysNear(w, R);
    }
    if c :| |c| == |w| && IsCodeword(c, R) && 2 * Distance(c, w) <= R {
      BoundedDistance(c, w, R);
    }
  }

  /** When an answer is a codeword, in terms of the two polynomials that were computed. */
  lemma DecodeCodewordIffDegrees(w: seq<byte>, R: nat)
    requires Decode(w, R).Some?
    ensures IsCodeword(Decode(w, R).value, R) <==>
      Syndrome(w, R) == Nil
      || var (sigma, omega) := Euclid(Shift(R, Const(1)), Syndrome(w, R), R).value; Degree(omega) < Degree(sigma)
  {
    hide Exp, Euclid, Correct, Shift;
    SyndromeFromZero(w, 0, R);
    var S := Syndrome(w, R);
    if S != Nil {
      var (sigma, omega) := Euclid(Shift(R, Const(1)), S, R).value;
      CorrectExact(w, sigma, omega, R);
    }
  }

  /** Where `decode` answers with something else: a word whose syndrome polynomial is not zero
    * but of degree below R/2 is given back as it came, although it is no codeword. */
  lemma LowSyndromeUnchanged(w: seq<byte>, R: nat)
    requires Syndrome(w, R) != Nil && 2 * Degree(Syndrome(w, R)) < R
    ensures Decode(w, R) == Some(w) && !IsCodeword(w, R)
  {
    var S := Syndrome(w, R);
    hide Exp, Mul, Inverse, Syndrome, Apply;
    LenShift(R, Const(1));
    var sigma, omega := Euclid(Shift(R, Const(1)), S, R).value.0, Euclid(Shift(R, Const(1)), S, R).value.1;
    InverseInverse(1);
    LenScale(Inverse(1), Const(1));
    assert Degree(sigma) == 0;
    assert Locations(sigma) == Some([]);
    NoCorrections(w, omega);
    SyndromeIsZero(w, R);
  }

  lemma SyndromeIsZero(w: seq<byte>, R: nat)
    ensures Syndrome(w, R) == Nil <==> IsCodeword(w, R)
  {
    SyndromeFromZero(w, 0, R);
  }

  lemma NoCorrections(w: seq<byte>, omega: Poly)
    ensures Apply(w, Corrections(omega, [])) == Some(w)
  {}

  /** One such word, with two check symbols: its syndromes are 3 and 0. */
  lemma NotACodeword()
    ensures Decode([1, 2], 2) == Some([1, 2]) && !IsCodeword([1, 2], 2)
  {
    var w: seq<byte> := [1, 2];
    TwoByteSyndrome();
    LowSyndromeUnchanged(w, 2);
  }

  lemma TwoByteSyndrome()
    ensures Syndrome([1, 2], 2) == Const(3)
  {
    assert [1, 2][..1] == [1] && [1][..0] == [];
    assert Abs([1]) == Mk(1, Nil);
    assert Abs([1, 2]) == Mk(2, Mk(1, Nil));
    assert Exp(0) == 1 && Exp(1) == 2;
    EvalMk(2, Mk(1, Nil), 1);
    EvalMk(2, Mk(1, Nil), 2);
    EvalConst(1, 1);
    EvalConst(1, 2);
    MulOne(1);
    MulOne(2);
    MulComm(1, 2);
    assert SyndromeFrom([1, 2], 2, 2) == Nil;
  }
}
