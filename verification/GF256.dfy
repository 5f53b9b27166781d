/** The field with 256 elements: the reference definition of its multiplication, and the proof
  * that it is a field whose non-zero elements are the 255 powers of the element 2. */
module GF256 {
  import opened Basics
  import opened FieldAddition
  import opened WordPowers

  // ---- the powers of 2 run through all 255 non-zero elements ----

  lemma OneDifference(m: nat, n: nat)
    requires Exp(m) == 1 && Exp(n) == 1 && n <= m
    ensures Exp(m - n) == 1
  {
    hide Shifted;
    ShiftedPlus(n, m - n, 1);
    ShiftedInjective(n, Exp(m - n), 1);
  }

  lemma {:induction false} OneMultiple(g: nat, k: nat)
    requires Exp(g) == 1
    ensures Exp(g * k) == 1
  {
    if k > 0 {
      OneMultiple(g, k - 1);
      ShiftedPlus(g * (k - 1), g, 1);
      assert g * k == g * (k - 1) + g;
    }
  }

  /** Euclid's algorithm on exponents: 2 to a common divisor is 1 too. */
  lemma {:induction false} CommonDivisor(m: nat, n: nat) returns (g: nat, p: nat, q: nat)
    requires m > 0 && n > 0 && Exp(m) == 1 && Exp(n) == 1
    ensures Exp(g) == 1 && m == g * p && n == g * q
  {
    hide Exp;
    if m == n {
      g, p, q := m, 1, 1;
    } else if m > n {
      OneDifference(m, n);
      g, p, q := CommonDivisor(m - n, n);
      p := p + q;
    } else {
      OneDifference(n, m);
      g, p, q := CommonDivisor(m, n - m);
      q := q + p;
    }
  }

  lemma SmallFactorOf255(c: nat, x: nat)
    requires c < 16 && c * x == 255
    ensures c == 1 || c == 3 || c == 5 || c == 15
  {
    if
    case c == 0 => case c == 1 => case c == 2 => case c == 3 => case c == 4 => case c == 5 =>
    case c == 6 => case c == 7 => case c == 8 => case c == 9 => case c == 10 => case c == 11 =>
    case c == 12 => case c == 13 => case c == 14 => case c == 15 =>
  }

  lemma FactorBound(g: nat, p: nat, m: nat, n: nat)
    requires g >= m && p >= n
    ensures g * p >= m * n
  {}

  lemma DivisorOf255(g: nat, p: nat) returns (k: nat)
    requires g * p == 255 && g < 255
    ensures g * k == 15 || g * k == 51 || g * k == 85
  {
    if g < 16 {
      SmallFactorOf255(g, p);
      k := if g == 1 then 15 else if g == 3 then 5 else if g == 5 then 3 else 1;
    } else {
      if p >= 16 {
        FactorBound(g, p, 16, 16);
        assert false;
      }
      SmallFactorOf255(p, g);
      k := if p == 15 then 3 else 1;
    }
  }

  lemma DivisorBelow(g: nat, q: nat, d: nat)
    requires d == g * q && d > 0
    ensures g <= d
  {
    FactorBound(g, q, g, 1);
  }

  lemma OrderIs255(d: nat)
    requires 0 < d < 255
    ensures Exp(d) != 1
  {
    if Exp(d) == 1 {
      hide *;
      OrderCandidates();
      var g, p, q := CommonDivisor(255, d);
      DivisorBelow(g, q, d);
      var k := DivisorOf255(g, p);
      OneMultiple(g, k);
    }
  }

  lemma ExpInjective(i: nat, j: nat)
    requires i < 255 && j < 255 && Exp(i) == Exp(j)
    ensures i == j
  {
    hide Shifted;
    if i < j { ShiftedPlus(i, j - i, 1); ShiftedInjective(i, Exp(j - i), 1); OrderIs255(j - i); }
    if j < i { ShiftedPlus(j, i - j, 1); ShiftedInjective(j, Exp(i - j), 1); OrderIs255(i - j); }
  }

  function FirstPowers(n: nat): set<byte> { set i | 0 <= i < n :: Exp(i) }

  lemma {:induction false} FirstPowersDistinct(n: nat)
    requires n <= 255
    ensures |FirstPowers(n)| == n
  {
    if n > 0 {
      hide Exp;
      FirstPowersDistinct(n - 1);
      assert FirstPowers(n) == FirstPowers(n - 1) + {Exp(n - 1)};
      if Exp(n - 1) in FirstPowers(n - 1) {
        var i :| 0 <= i < n - 1 && Exp(i) == Exp(n - 1);
        ExpInjective(i, n - 1);
      }
    }
  }

  lemma {:induction false} RangeSize(n: nat, s: set<int>)
    requires forall x <- s :: 1 <= x <= n
    ensures |s| <= n
  {
    if n > 0 {
      RangeSize(n - 1, s - {n});
    } else {
      assert forall x: int :: x !in s;
    }
  }

  /** Every non-zero element is a power of 2. */
  lemma ExpSurjective(a: byte)
    requires a != 0
    ensures exists i :: 0 <= i < 255 && Exp(i) == a
  {
    hide Exp;
    var s := FirstPowers(255);
    FirstPowersDistinct(255);
    assert |s| == 255;
    forall x <- s ensures x != 0 { var i :| 0 <= i < 255 && Exp(i) == x; ExpNonZero(i); }
    RangeSize(255, s + {a});
    assert a !in s ==> |s + {a}| == |s| + 1;
  }

  lemma ExpNonZero(i: nat)
    ensures Exp(i) != 0
  {
    ShiftedZero(i, 1);
  }

  lemma ExpCycle(n: nat)
    ensures Exp(n) == Exp(n % 255)
  {
    hide Shifted;
    OrderCandidates();
    OneMultiple(255, n / 255);
    ShiftedPlus(n % 255, 255 * (n / 255), 1);
  }

  ghost function Log(a: byte): (i: nat)
    requires a != 0
    ensures i < 255 && Exp(i) == a
  {
    ExpSurjective(a);
    var i :| 0 <= i < 255 && Exp(i) == a;
    i
  }

  // ---- multiplication ----

  /** Carry-less product of a and b modulo the primitive polynomial: shift and add over
    * the binary digits of b. */
  function Mul(a: byte, b: byte): byte
    decreases b
  {
    if b == 0 then 0 else Add(Double(Mul(a, b / 2)), if b % 2 == 1 then a else 0)
  }

  lemma {:induction false} MulDouble(a: byte, b: byte)
    ensures Mul(Double(a), b) == Double(Mul(a, b))
    decreases b
  {
    hide Add, Double;
    AddLaws();
    DoubleZero(0);
    if b > 0 {
      MulDouble(a, b / 2);
      DoubleLinear(Double(Mul(a, b / 2)), if b % 2 == 1 then a else 0);
    }
  }

  lemma {:induction false} MulOne(b: byte)
    ensures Mul(1, b) == b
    decreases b
  {
    if b > 0 {
      MulOne(b / 2);
      hide Xor;
      XorPair(b / 2, 0, 0, b % 2);
      XorZero(b / 2);
    }
  }

  /** Multiplying by a power of 2 is repeated doubling. */
  lemma {:induction false} MulExp(i: nat, b: byte)
    ensures Mul(Exp(i), b) == Shifted(i, b)
  {
    hide Mul, Double;
    if i == 0 {
      MulOne(b);
    } else {
      MulExp(i - 1, b);
      MulDouble(Exp(i - 1), b);
    }
  }

  lemma {:induction false} MulZeroLeft(b: byte)
    ensures Mul(0, b) == 0
    decreases b
  {
    hide Add, Double;
    AddLaws();
    DoubleZero(0);
    if b > 0 { MulZeroLeft(b / 2); }
  }

  lemma MulExps(i: nat, j: nat)
    ensures Mul(Exp(i), Exp(j)) == Exp(i + j)
  {
    hide Mul, Shifted;
    MulExp(i, Exp(j));
    ShiftedPlus(i, j, 1);
  }

  lemma MulZero(a: byte, b: byte)
    ensures Mul(a, b) == 0 <==> a == 0 || b == 0
  {
    hide Mul, Shifted;
    if a == 0 {
      MulZeroLeft(b);
    } else {
      MulExp(Log(a), b);
      ShiftedZero(Log(a), b);
    }
  }

  lemma MulComm(a: byte, b: byte)
    ensures Mul(a, b) == Mul(b, a)
  {
    hide Mul, Exp;
    MulZero(a, b);
    MulZero(b, a);
    if a != 0 && b != 0 {
      MulExps(Log(a), Log(b));
      MulExps(Log(b), Log(a));
    }
  }

  lemma MulAssoc(a: byte, b: byte, c: byte)
    ensures Mul(Mul(a, b), c) == Mul(a, Mul(b, c))
  {
    hide Mul, Shifted;
    if a == 0 || b == 0 {
      MulZero(a, b);
      MulZero(b, c);
      MulZero(0, c);
      MulZero(a, Mul(b, c));
    } else {
      var i, j := Log(a), Log(b);
      MulExps(i, j);
      MulExp(i + j, c);
      MulExp(j, c);
      MulExp(i, Mul(b, c));
      ShiftedPlus(i, j, c);
    }
  }

  lemma MulDistributes(a: byte, b: byte, c: byte)
    ensures Mul(a, Add(b, c)) == Add(Mul(a, b), Mul(a, c))
  {
    hide Mul, Add, Shifted;
    if a == 0 {
      AddLaws();
      MulZero(a, b);
      MulZero(a, c);
      MulZero(a, Add(b, c));
    } else {
      var i := Log(a);
      MulExp(i, b);
      MulExp(i, c);
      MulExp(i, Add(b, c));
      ShiftedLinear(i, b, c);
    }
  }

  /** The multiplicative inverse. */
  ghost function Inverse(a: byte): byte
    requires a != 0
  {
    Exp(255 - Log(a))
  }

  lemma MulInverse(a: byte)
    requires a != 0
    ensures Mul(a, Inverse(a)) == 1 == Mul(Inverse(a), a)
    ensures Inverse(a) != 0
  {
    hide Mul, Exp;
    OrderCandidates();
    ExpNonZero(255 - Log(a));
    MulExps(Log(a), 255 - Log(a));
    MulExps(255 - Log(a), Log(a));
  }
}
