/** Reed-Solomon decoding of a received word: the mathematical reference for `decode`, and
  * the proof that it corrects exactly the words within half the number of check symbols of
  * a codeword. */
module ReedSolomon {
  import opened Basics
  import opened Options
  import opened FieldAddition
  import opened GF256
  import opened Polynomials
  import opened PolynomialFacts
  import opened KeyEquation
  import opened ErrorPolynomials

  // ---- words and their syndromes ----

  /** A word read as a polynomial: the last byte is the constant term. */
  function Abs(w: seq<byte>): Poly {
    if |w| == 0 then Nil else Mk(w[|w| - 1], Abs(w[..|w| - 1]))
  }

  /** The syndrome polynomial: coefficient s is the value of the word at 2^s. */
  function SyndromeFrom(w: seq<byte>, s: nat, R: nat): Poly
    decreases R - s
  {
    if s >= R then Nil else Mk(Eval(Abs(w), Exp(s)), SyndromeFrom(w, s + 1, R))
  }

  function Syndrome(w: seq<byte>, R: nat): Poly { SyndromeFrom(w, 0, R) }

  /** All R syndromes are zero. */
  predicate IsCodeword(w: seq<byte>, R: nat) {
    forall s :: 0 <= s < R ==> Eval(Abs(w), Exp(s)) == 0
  }

  lemma {:induction false} SyndromeFromZero(w: seq<byte>, s: nat, R: nat)
    ensures SyndromeFrom(w, s, R) == Nil <==> forall k :: s <= k < R ==> Eval(Abs(w), Exp(k)) == 0
    decreases R - s
  {
    hide Exp, Eval, Abs;
    if s < R { SyndromeFromZero(w, s + 1, R); }
  }

  lemma {:induction false} LenSyndromeFrom(w: seq<byte>, s: nat, R: nat)
    requires s <= R
    ensures Len(SyndromeFrom(w, s, R)) <= R - s
    decreases R - s
  {
    hide Exp, Eval, Abs;
    if s < R { LenSyndromeFrom(w, s + 1, R); }
  }

  // ---- changing one byte of a word ----

  lemma AbsAppend(w: seq<byte>, c: byte)
    ensures Abs(w + [c]) == Mk(c, Abs(w))
  {
    assert (w + [c])[..|w|] == w;
  }

  lemma {:induction false} EvalChanged(w: seq<byte>, p: nat, Y: byte, a: byte)
    requires p < |w|
    ensures Eval(Abs(w[p := Add(w[p], Y)]), a) == Add(Eval(Abs(w), a), Mul(Power(a, |w| - 1 - p), Y))
  {
    hide Mul, Add, Eval, Mk, Abs;
    var n := |w| - 1;
    var v, c := w[..n], w[n];
    var E := Eval(Abs(v), a);
    assert w == v + [c];
    AbsAppend(v, c);
    EvalMk(c, Abs(v), a);
    if p == n {
      assert w[p := Add(c, Y)] == v + [Add(c, Y)];
      AbsAppend(v, Add(c, Y));
      EvalMk(Add(c, Y), Abs(v), a);
      MulOne(Y);
      AddGroup(c, Y, Mul(a, E));
    } else {
      var f, v' := Power(a, n - 1 - p), v[p := Add(v[p], Y)];
      EvalChanged(v, p, Y, a);
      assert w[p := Add(w[p], Y)] == v' + [c];
      AbsAppend(v', c);
      EvalMk(c, Abs(v'), a);
      MulDistributes(a, E, Mul(f, Y));
      MulAssoc(a, f, Y);
      AddGroup(c, Mul(a, E), Mul(a, Mul(f, Y)));
    }
  }

  lemma {:induction false} PowerOfExp(s: nat, k: nat)
    ensures Power(Exp(s), k) == Exp(s * k)
  {
    hide Mul, Exp;
    if k == 0 {
      ExpZero();
    } else {
      PowerOfExp(s, k - 1);
      MulExps(s, s * (k - 1));
      assert s * k == s + s * (k - 1);
    }
  }

  lemma ExpZero()
    ensures Exp(0) == 1
  {}

  lemma TermChanged(w: seq<byte>, p: nat, Y: byte, s: nat)
    requires p < |w|
    ensures Eval(Abs(w[p := Add(w[p], Y)]), Exp(s))
         == Add(Eval(Abs(w), Exp(s)), Mul(Power(Exp(|w| - 1 - p), s), Y))
  {
    hide Mul, Add, Eval, Exp, Abs;
    var k := |w| - 1 - p;
    EvalChanged(w, p, Y, Exp(s));
    PowerOfExp(s, k);
    PowerOfExp(k, s);
    assert s * k == k * s;
  }

  lemma {:induction false} SyndromeChanged(w: seq<byte>, p: nat, Y: byte, s: nat, R: nat)
    requires p < |w| && s <= R
    ensures var X := Exp(|w| - 1 - p);
      SyndromeFrom(w[p := Add(w[p], Y)], s, R)
      == Plus(SyndromeFrom(w, s, R), Geometric(X, Mul(Power(X, s), Y), R - s))
    decreases R - s
  {
    if s < R {
      hide Mul, Add, Eval, Exp, Plus, Mk, Abs;
      var X := Exp(|w| - 1 - p);
      SyndromeChanged(w, p, Y, s + 1, R);
      MulAssoc(X, Power(X, s), Y);
      TermChanged(w, p, Y, s);
      PlusMk(Eval(Abs(w), Exp(s)), SyndromeFrom(w, s + 1, R),
             Mul(Power(X, s), Y), Geometric(X, Mul(X, Mul(Power(X, s), Y)), R - s - 1));
    }
  }

  // ---- applying corrections ----

  /** Where the error with locator X sits in a word of n bytes; negative if nowhere. */
  ghost function Position(n: nat, X: byte): int
    requires X != 0
  {
    n - 1 - Log(X)
  }

  lemma PositionExp(n: nat, p: nat)
    requires p < n <= 255
    ensures Exp(n - 1 - p) != 0 && Position(n, Exp(n - 1 - p)) == p
  {
    hide Exp;
    ExpNonZero(n - 1 - p);
    ExpInjective(Log(Exp(n - 1 - p)), n - 1 - p);
  }

  /** Adds each magnitude at its position; None when a position is outside the word. */
  ghost function Apply(w: seq<byte>, es: seq<Error>): (r: Option<seq<byte>>)
    requires forall i :: 0 <= i < |es| ==> es[i].locator != 0
    ensures r.Some? ==> |r.value| == |w|
  {
    if |es| == 0 then Some(w)
    else
      var n := |es| - 1;
      match Apply(w, es[..n])
      case None => None
      case Some(v) =>
        var p := Position(|w|, es[n].locator);
        if p < 0 then None else Some(v[p := Add(v[p], es[n].magnitude)])
  }

  lemma {:induction false} SyndromeApply(w: seq<byte>, es: seq<Error>, R: nat)
    requires forall i :: 0 <= i < |es| ==> es[i].locator != 0
    requires Apply(w, es).Some?
    ensures Syndrome(Apply(w, es).value, R) == Plus(Syndrome(w, R), SyndromeOf(es, R))
  {
    hide Plus, Add, Exp, Geometric, SyndromeFrom, Mul;
    if |es| == 0 {
      PlusZero(Syndrome(w, R));
    } else {
      var n := |es| - 1;
      SyndromeApply(w, es[..n], R);
      var v, e := Apply(w, es[..n]).value, es[n];
      SyndromeChanged(v, Position(|w|, e.locator), e.magnitude, 0, R);
      MulOne(e.magnitude);
      PlusAssoc(Syndrome(w, R), SyndromeOf(es[..n], R), Geometric(e.locator, e.magnitude, R));
    }
  }

  /** The listed errors sit inside the word and turn a into b there. */
  ghost predicate Listed(a: seq<byte>, b: seq<byte>, es: seq<Error>)
    requires |a| == |b| && Distinct(es)
  {
    forall i :: 0 <= i < |es| ==>
      0 <= Position(|a|, es[i].locator) < |a|
      && es[i].magnitude == Add(a[Position(|a|, es[i].locator)], b[Position(|a|, es[i].locator)])
  }

  ghost predicate Hits(es: seq<Error>, len: nat, p: int)
    requires Distinct(es)
  {
    exists i :: 0 <= i < |es| && Position(len, es[i].locator) == p
  }

  lemma DistinctPositions(es: seq<Error>, len: nat, i: nat, j: nat)
    requires Distinct(es) && i < |es| && j < |es| && i != j
    ensures Position(len, es[i].locator) != Position(len, es[j].locator)
  {
    hide Exp;
  }

  lemma {:induction false} ApplyListed(a: seq<byte>, b: seq<byte>, es: seq<Error>)
    requires |a| == |b| && Distinct(es) && Listed(a, b, es)
    ensures Apply(a, es).Some?
    ensures forall p :: 0 <= p < |a| ==> Apply(a, es).value[p] == if Hits(es, |a|, p) then b[p] else a[p]
  {
    hide Add, Exp, Position;
    if |es| > 0 {
      var n := |es| - 1;
      var before, e := es[..n], es[n];
      assert Listed(a, b, before);
      ApplyListed(a, b, before);
      var v := Apply(a, before).value;
      var q := Position(|a|, e.locator);
      assert !Hits(before, |a|, q) by {
        forall i | 0 <= i < n ensures Position(|a|, before[i].locator) != q { DistinctPositions(es, |a|, i, n); }
      }
      AddTwice(a[q], b[q]);
      assert Apply(a, es) == Some(v[q := b[q]]);
      forall p | 0 <= p < |a|
        ensures v[q := b[q]][p] == if Hits(es, |a|, p) then b[p] else a[p]
      {
        HitsAppend(before, e, |a|, p);
        assert before + [e] == es;
      }
    }
  }

  lemma HitsAppend(es: seq<Error>, e: Error, len: nat, p: int)
    requires Distinct(es + [e])
    ensures Distinct(es) && e.locator != 0
    ensures Hits(es + [e], len, p) <==> Hits(es, len, p) || Position(len, e.locator) == p
  {
    hide Position;
    var all := es + [e];
    assert forall i :: 0 <= i < |es| ==> es[i] == all[i];
    assert all[|es|] == e;
  }

  // ---- distance and the list of differences ----

  /** The positions before n where a and b differ. */
  function Differences(a: seq<byte>, b: seq<byte>, n: nat): set<int>
    requires n <= |a| == |b|
  {
    set p | 0 <= p < n && a[p] != b[p]
  }

  /** The Hamming distance. */
  function Distance(a: seq<byte>, b: seq<byte>): nat
    requires |a| == |b|
  {
    |Differences(a, b, |a|)|
  }

  /** The differences at the first n positions, as errors. */
  function ErrorsBetween(a: seq<byte>, b: seq<byte>, n: nat): seq<Error>
    requires n <= |a| == |b|
  {
    if n == 0 then []
    else
      var before := ErrorsBetween(a, b, n - 1);
      if a[n - 1] == b[n - 1] then before
      else before + [Error(Exp(|a| - n), Add(a[n - 1], b[n - 1]))]
  }

  lemma {:induction false} ErrorsBetweenCount(a: seq<byte>, b: seq<byte>, n: nat)
    requires n <= |a| == |b|
    ensures |ErrorsBetween(a, b, n)| == |Differences(a, b, n)|
  {
    if n > 0 {
      ErrorsBetweenCount(a, b, n - 1);
      hide Add, Exp;
      if a[n - 1] == b[n - 1] {
        assert Differences(a, b, n) == Differences(a, b, n - 1);
      } else {
        assert Differences(a, b, n) == Differences(a, b, n - 1) + {n - 1};
      }
    }
  }

  /** es lists exactly the differences of a and b before position n. */
  ghost predicate ListsDifferences(a: seq<byte>, b: seq<byte>, es: seq<Error>, n: nat)
    requires n <= |a| == |b|
  {
    && Distinct(es)
    && (forall i :: 0 <= i < |es| ==> es[i].magnitude != 0)
    && (forall i :: 0 <= i < |es| ==> Position(|a|, es[i].locator) < n)
    && Listed(a, b, es)
    && (forall p :: 0 <= p < n ==> (Hits(es, |a|, p) <==> a[p] != b[p]))
  }

  lemma {:induction false} ErrorsBetweenFacts(a: seq<byte>, b: seq<byte>, n: nat)
    requires n <= |a| == |b| <= 255
    ensures ListsDifferences(a, b, ErrorsBetween(a, b, n), n)
  {
    hide Add, Exp, Position;
    if n > 0 {
      ErrorsBetweenFacts(a, b, n - 1);
      PositionExp(|a|, n - 1);
      var before := ErrorsBetween(a, b, n - 1);
      if a[n - 1] == b[n - 1] {
        assert !Hits(before, |a|, n - 1);
      } else {
        var e := Error(Exp(|a| - n), Add(a[n - 1], b[n - 1]));
        XorCancels(a[n - 1], b[n - 1]);
        AddIsXor(a[n - 1], b[n - 1]);
        AppendDifference(a, b, before, e, n);
      }
    }
  }

  lemma AppendDifference(a: seq<byte>, b: seq<byte>, es: seq<Error>, e: Error, n: nat)
    requires 0 < n <= |a| == |b| && ListsDifferences(a, b, es, n - 1)
    requires a[n - 1] != b[n - 1] && e.magnitude != 0
    requires e.locator != 0 && Position(|a|, e.locator) == n - 1 && e.magnitude == Add(a[n - 1], b[n - 1])
    ensures ListsDifferences(a, b, es + [e], n)
  {
    hide Add, Exp, Position;
    var all := es + [e];
    forall i | 0 <= i < |es| ensures all[i].locator != e.locator { assert all[i] == es[i]; }
    assert Distinct(all);
    forall p | 0 <= p < n ensures Hits(all, |a|, p) <==> a[p] != b[p] {
      HitsAppend(es, e, |a|, p);
    }
  }
}
