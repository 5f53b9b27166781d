/** Bytes as elements of the field with 256 elements that QR codes use (primitive polynomial
  * 0x11D): addition, which is exclusive or, doubling, and the powers of the element 2. */
module FieldAddition {
  import opened Basics

  // ---- bitwise exclusive or on numbers ----

  function Xor(a: nat, b: nat): nat {
    if a == 0 then b
    else if b == 0 then a
    else 2 * Xor(a / 2, b / 2) + (if a % 2 == b % 2 then 0 else 1)
  }

  lemma XorStep(a: nat, b: nat)
    ensures Xor(a, b) / 2 == Xor(a / 2, b / 2)
    ensures Xor(a, b) % 2 == if a % 2 == b % 2 then 0 else 1
  {}

  lemma XorPair(p: nat, q: nat, i: nat, j: nat)
    requires i < 2 && j < 2
    ensures Xor(2 * p + i, 2 * q + j) == 2 * Xor(p, q) + (if i == j then 0 else 1)
  {}

  lemma XorZero(a: nat)
    ensures Xor(a, 0) == a == Xor(0, a)
  {}

  lemma {:induction false} XorComm(a: nat, b: nat)
    ensures Xor(a, b) == Xor(b, a)
  {
    if a > 0 && b > 0 { XorComm(a / 2, b / 2); }
  }

  predicate Regroups(a: nat, b: nat, c: nat) { Xor(Xor(a, b), c) == Xor(a, Xor(b, c)) }

  lemma {:induction false} XorAssoc(a: nat, b: nat, c: nat)
    ensures Regroups(a, b, c)
  {
    if a > 0 && b > 0 && c > 0 {
      XorAssoc(a / 2, b / 2, c / 2);
      XorStep(a, b);
      XorStep(b, c);
      XorStep(Xor(a, b), c);
      XorStep(a, Xor(b, c));
      var l, r := Xor(Xor(a, b), c), Xor(a, Xor(b, c));
      assert l / 2 == r / 2 && l % 2 == r % 2;
    }
  }

  lemma {:induction false} XorCancels(a: nat, b: nat)
    ensures Xor(a, b) == 0 <==> a == b
  {
    if a > 0 && b > 0 { XorCancels(a / 2, b / 2); }
  }

  function Pow2(n: nat): (p: nat)
    ensures p > 0
  {
    if n == 0 then 1 else 2 * Pow2(n - 1)
  }

  /** The top bit of an exclusive or is the exclusive or of the top bits. */
  lemma {:induction false} XorTop(a: nat, b: nat, n: nat)
    requires a < 2 * Pow2(n) && b < 2 * Pow2(n)
    ensures Xor(a, b) < 2 * Pow2(n)
    ensures Xor(a, b) >= Pow2(n) <==> (a >= Pow2(n)) != (b >= Pow2(n))
  {
    if n > 0 {
      XorStep(a, b);
      XorTop(a / 2, b / 2, n - 1);
    }
  }

  lemma Powers()
    ensures Pow2(3) == 8 && Pow2(7) == 128 && Pow2(8) == 256
  {
    assert Pow2(5) == 4 * Pow2(3) == 32;
  }

  // ---- addition ----

  /** Field addition, which is also subtraction. */
  function Add(a: byte, b: byte): byte {
    Powers();
    XorTop(a, b, 7);
    Xor(a, b)
  }

  lemma AddLaws()
    ensures forall a, b :: Add(a, b) == Add(b, a)
    ensures forall a, b, c :: Add(Add(a, b), c) == Add(a, Add(b, c))
    ensures forall a, b :: Add(a, b) == 0 <==> a == b
    ensures forall a :: Add(a, 0) == a
    ensures forall a :: Add(0, a) == a
  {
    hide Xor;
    forall a: byte, b: byte ensures Add(a, b) == Add(b, a) { XorComm(a, b); }
    forall a: byte, b: byte ensures Add(a, b) == 0 <==> a == b { XorCancels(a, b); }
    forall a: byte ensures Add(a, 0) == a == Add(0, a) { XorZero(a); }
    forall a: byte, b: byte, c: byte ensures Add(Add(a, b), c) == Add(a, Add(b, c)) { XorAssoc(a, b, c); }
  }

  lemma AddIsXor(a: byte, b: byte)
    ensures Add(a, b) == Xor(a, b)
  {}

  lemma AddComm(a: byte, b: byte)
    ensures Add(a, b) == Add(b, a)
  {
    XorComm(a, b);
  }

  lemma AddGroup(a: byte, b: byte, c: byte)
    ensures Add(Add(a, b), c) == Add(a, Add(b, c)) == Add(Add(a, c), b)
  {
    hide Add;
    AddLaws();
  }

  lemma AddTwice(a: byte, b: byte)
    ensures Add(a, Add(a, b)) == b && Add(a, Add(b, a)) == b
  {
    hide Add;
    AddLaws();
    assert Add(Add(a, a), b) == b;
  }

  // ---- multiplication by 2 and by its powers ----

  /** Doubling: shift left, and on overflow add the primitive polynomial 0x11D. */
  function Double(a: byte): byte {
    if a < 128 then 2 * a
    else
      Powers();
      XorTop(2 * a, 0x11D, 8);
      Xor(2 * a, 0x11D)
  }

  lemma DoubleLinear(a: byte, b: byte)
    ensures Double(Add(a, b)) == Add(Double(a), Double(b))
  {
    hide Xor;
    Powers();
    XorTop(a, b, 7);
    XorPair(a, b, 0, 0);
    var p := 0x11D;
    XorComm(2 * b, p);
    XorAssoc(2 * a, p, 2 * b);
    XorAssoc(2 * a, 2 * b, p);
    XorAssoc(Xor(2 * a, p), 2 * b, p);
    XorAssoc(Xor(2 * a, 2 * b), p, p);
    XorCancels(p, p);
    XorZero(Xor(2 * a, 2 * b));
  }

  lemma DoubleZero(a: byte)
    ensures Double(a) == 0 <==> a == 0
  {
    if a >= 128 { XorStep(2 * a, 0x11D); }
  }

  /** Multiplication by 2 to the power n. */
  function Shifted(n: nat, a: byte): byte {
    if n == 0 then a else Double(Shifted(n - 1, a))
  }

  lemma {:induction false} ShiftedPlus(m: nat, n: nat, a: byte)
    ensures Shifted(m + n, a) == Shifted(m, Shifted(n, a))
  {
    hide Double;
    if m > 0 { ShiftedPlus(m - 1, n, a); }
  }

  lemma {:induction false} ShiftedLinear(n: nat, a: byte, b: byte)
    ensures Shifted(n, Add(a, b)) == Add(Shifted(n, a), Shifted(n, b))
  {
    hide Double, Add;
    if n > 0 {
      ShiftedLinear(n - 1, a, b);
      DoubleLinear(Shifted(n - 1, a), Shifted(n - 1, b));
    }
  }

  lemma {:induction false} ShiftedZero(n: nat, a: byte)
    ensures Shifted(n, a) == 0 <==> a == 0
  {
    hide Double;
    if n > 0 {
      ShiftedZero(n - 1, a);
      DoubleZero(Shifted(n - 1, a));
    }
  }

  lemma ShiftedInjective(n: nat, a: byte, b: byte)
    requires Shifted(n, a) == Shifted(n, b)
    ensures a == b
  {
    hide Add, Double;
    AddLaws();
    ShiftedLinear(n, a, b);
    ShiftedZero(n, Add(a, b));
  }

  // ---- the powers of 2 ----

  /** 2 to the power n, in the field. */
  function Exp(n: nat): byte { Shifted(n, 1) }
}
