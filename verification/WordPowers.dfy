/** The powers of 2 that decide the order of the element 2, evaluated on machine words. */
module WordPowers {
  import opened Basics
  import opened FieldAddition

  // The same doubling on machine words, where a chain of 255 doublings can be evaluated.

  function WordDouble(w: bv8): bv8 { if w & 0x80 == 0 then w << 1 else (w << 1) ^ 0x1D }
  function WordShifted(n: nat): bv8 { if n == 0 then 1 else WordDouble(WordShifted(n - 1)) }
  function WordValue(w: bv8): int { w as int }
  function WordBit(w: bv8, mask: bv8): (b: int)
    ensures b == 0 || b == 1
  {
    if w & mask == 0 then 0 else 1
  }

  lemma WordBits(w: bv8)
    ensures WordValue(w) == 128 * WordBit(w, 128) + 64 * WordBit(w, 64) + 32 * WordBit(w, 32) + 16 * WordBit(w, 16)
                     + 8 * WordBit(w, 8) + 4 * WordBit(w, 4) + 2 * WordBit(w, 2) + WordBit(w, 1)
  {}

  lemma WordDoubleBits(w: bv8)
    ensures WordBit(WordDouble(w), 1) == WordBit(w, 128)
    ensures WordBit(WordDouble(w), 2) == WordBit(w, 1)
    ensures WordBit(WordDouble(w), 4) == if WordBit(w, 128) == WordBit(w, 2) then 0 else 1
    ensures WordBit(WordDouble(w), 8) == if WordBit(w, 128) == WordBit(w, 4) then 0 else 1
    ensures WordBit(WordDouble(w), 16) == if WordBit(w, 128) == WordBit(w, 8) then 0 else 1
    ensures WordBit(WordDouble(w), 32) == WordBit(w, 16)
    ensures WordBit(WordDouble(w), 64) == WordBit(w, 32)
    ensures WordBit(WordDouble(w), 128) == WordBit(w, 64)
  {}

  lemma DoubleBits(h: nat, d3: nat, d2: nat, d1: nat, d0: nat)
    requires h < 8 && d3 < 2 && d2 < 2 && d1 < 2 && d0 < 2
    ensures Double(128 + 16 * h + 8 * d3 + 4 * d2 + 2 * d1 + d0)
         == 32 * h + 16 * (1 - d3) + 8 * (1 - d2) + 4 * (1 - d1) + 2 * d0 + 1
  {
    hide Xor;
    var b3 := 16 + 2 * h + d3;
    var b2 := 2 * b3 + d2;
    var b1 := 2 * b2 + d1;
    XorPair(2 * b1 + d0, 142, 0, 1);
    XorPair(b1, 71, d0, 0);
    XorPair(b2, 35, d1, 1);
    XorPair(b3, 17, d2, 1);
    XorPair(8 + h, 8, d3, 1);
    XorEight(h);
  }

  lemma DoubleLow(a: byte)
    requires a < 128
    ensures Double(a) == 2 * a
  {}

  lemma XorEight(h: nat)
    requires h < 8
    ensures Xor(8 + h, 8) == h
  {
    hide Xor;
    XorPair(4 + h / 2, 4, h % 2, 0);
    XorPair(2 + h / 4, 2, h / 2 % 2, 0);
    XorPair(1, 1, h / 4, 0);
    XorCancels(1, 1);
  }

  lemma WordDoubleAgrees(w: bv8)
    ensures 0 <= WordValue(w) < 256 && WordValue(WordDouble(w)) == Double(WordValue(w))
  {
    hide Double, WordBit, WordDouble, WordValue;
    WordBits(w);
    WordBits(WordDouble(w));
    WordDoubleBits(w);
    if WordBit(w, 128) == 0 {
      DoubleLow(WordValue(w));
    }
    var high := 4 * WordBit(w, 64) + 2 * WordBit(w, 32) + WordBit(w, 16);
    DoubleBits(high, WordBit(w, 8), WordBit(w, 4), WordBit(w, 2), WordBit(w, 1));
  }

  lemma {:induction false} WordShiftedAgrees(n: nat)
    ensures WordValue(WordShifted(n)) == Exp(n)
  {
    if n > 0 {
      hide Double, WordDouble, WordValue;
      WordShiftedAgrees(n - 1);
      WordDoubleAgrees(WordShifted(n - 1));
    }
  }

  // 5 and 17 doublings at a time
  function Word5(w: bv8): bv8 { WordDouble(WordDouble(WordDouble(WordDouble(WordDouble(w))))) }
  function Word17(w: bv8): bv8 { WordDouble(WordDouble(Word5(Word5(Word5(w))))) }

  lemma WordPlus5(n: nat)
    ensures WordShifted(n + 5) == Word5(WordShifted(n))
  {
    hide WordDouble;
    assert WordShifted(n + 1) == WordDouble(WordShifted(n));
    assert WordShifted(n + 3) == WordDouble(WordDouble(WordShifted(n + 1)));
  }

  lemma WordPlus17(n: nat)
    ensures WordShifted(n + 17) == Word17(WordShifted(n))
  {
    hide WordDouble, Word5;
    WordPlus5(n);
    WordPlus5(n + 5);
    WordPlus5(n + 10);
  }

  lemma Word17Values()
    ensures Word17(1) == 152 && Word17(152) == 78 && Word17(78) == 10
        && Word17(10) == 153 && Word17(153) == 214 && Word17(214) == 68
        && Word17(68) == 147 && Word17(147) == 79 && Word17(79) == 146
        && Word17(146) == 215 && Word17(215) == 220 && Word17(220) == 221
        && Word17(221) == 69 && Word17(69) == 11 && Word17(11) == 1
  {}

  lemma WordOrder()
    ensures WordShifted(15) == 38 && WordShifted(51) == 10 && WordShifted(85) == 214 && WordShifted(255) == 1
  {
    assert Word5(1) == 32 && Word5(32) == 116 && Word5(116) == 38;
    Word17Values();
    hide Word5, Word17, WordDouble;
    assert WordShifted(0) == 1;
    WordPlus5(0); WordPlus5(5); WordPlus5(10);
    WordPlus17(0); WordPlus17(17); WordPlus17(34); WordPlus17(51); WordPlus17(68);
    WordPlus17(85); WordPlus17(102); WordPlus17(119); WordPlus17(136); WordPlus17(153);
    WordPlus17(170); WordPlus17(187); WordPlus17(204); WordPlus17(221); WordPlus17(238);
  }

  /** 2 to the power 255 is 1, and to the powers 15, 51 and 85 it is not. */
  lemma OrderCandidates()
    ensures Exp(255) == 1 && Exp(15) != 1 && Exp(51) != 1 && Exp(85) != 1
  {
    hide WordShifted, Exp;
    WordOrder();
    WordShiftedAgrees(255);
    WordShiftedAgrees(15);
    WordShiftedAgrees(51);
    WordShiftedAgrees(85);
  }
}
