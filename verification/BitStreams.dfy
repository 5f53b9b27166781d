/** The bit stream over the decoded bytes. */
module BitStreams {
  import opened Basics
  import opened Options
  import opened FieldAddition

  // ---- bits and their values ----

  /** Bit k of a byte sequence, counting from the most significant bit of the first byte. */
  function BitAt(bytes: seq<byte>, k: nat): bool
    requires k < 8 * |bytes|
  {
    bytes[k / 8] / Pow2(7 - k % 8) % 2 == 1
  }

  function Bits(bytes: seq<byte>): (bits: seq<bool>)
    ensures |bits| == 8 * |bytes|
  {
    seq(8 * |bytes|, k requires 0 <= k < 8 * |bytes| => BitAt(bytes, k))
  }

  /** The number that a bit sequence spells, most significant bit first. */
  function Value(bits: seq<bool>): nat {
    if |bits| == 0 then 0
    else 2 * Value(bits[..|bits| - 1]) + (if bits[|bits| - 1] then 1 else 0)
  }

  /** The n lowest binary digits of v, most significant first. */
  function ToBits(v: nat, n: nat): (bits: seq<bool>)
    ensures |bits| == n
  {
    if n == 0 then [] else ToBits(v / 2, n - 1) + [v % 2 == 1]
  }

  lemma {:induction false} ValueToBits(v: nat, n: nat)
    requires v < Pow2(n)
    ensures Value(ToBits(v, n)) == v
  {
    if n > 0 {
      ValueToBits(v / 2, n - 1);
      assert ToBits(v, n)[..n - 1] == ToBits(v / 2, n - 1);
    }
  }

  lemma {:induction false} ToBitsValue(bits: seq<bool>)
    ensures Value(bits) < Pow2(|bits|) && ToBits(Value(bits), |bits|) == bits
  {
    if |bits| > 0 {
      ToBitsValue(bits[..|bits| - 1]);
    }
  }

  lemma {:induction false} ValueConcat(a: seq<bool>, b: seq<bool>)
    ensures Value(a + b) == Value(a) * Pow2(|b|) + Value(b)
  {
    if |b| == 0 {
      assert a + b == a;
    } else {
      hide Pow2;
      ValueConcat(a, b[..|b| - 1]);
      assert (a + b)[..|a + b| - 1] == a + b[..|b| - 1] && (a + b)[|a + b| - 1] == b[|b| - 1];
      Pow2Next(|b|);
      DoubleProduct(Value(a), Pow2(|b| - 1));
    }
  }

  lemma Pow2Next(n: nat)
    requires n > 0
    ensures Pow2(n) == 2 * Pow2(n - 1)
  {}

  lemma DoubleProduct(a: nat, b: nat)
    ensures 2 * (a * b) == a * (2 * b)
  {}

  // ---- bits inside one byte ----

  lemma MulAtLeast(a: int, b: int, p: nat)
    requires a >= b
    ensures a * p >= b * p
  {
    assert (a - b) * p >= 0;
  }

  lemma DivModUnique(c: nat, m: nat, q: nat, r: nat)
    requires m > 0 && r < m && c == q * m + r
    ensures c / m == q && c % m == r
  {
    var d := c / m;
    assert c == d * m + c % m;
    if d > q { MulAtLeast(d, q + 1, m); }
    if d < q { MulAtLeast(q, d + 1, m); }
  }

  /** The last binary digit of c and the digits before it, modulo m. */
  lemma HalveMod(c: nat, m: nat)
    requires m > 0
    ensures c % (2 * m) == 2 * (c / 2 % m) + c % 2
  {
    var q, r := c / 2 / m, c / 2 % m;
    assert c / 2 == q * m + r;
    assert c == q * (2 * m) + (2 * r + c % 2);
    DivModUnique(c, 2 * m, q, 2 * r + c % 2);
  }

  lemma DivDiv(b: nat, p: nat)
    requires p > 0
    ensures b / p / 2 == b / (2 * p)
  {
    var y := b / p;
    var x, odd := y / 2, y % 2;
    assert b == y * p + b % p;
    assert y * p == x * (2 * p) + odd * p by { assert y == 2 * x + odd; Distribute(2 * x, odd, p); }
    MulAtLeast(1, odd, p);
    DivModUnique(b, 2 * p, x, odd * p + b % p);
  }

  /** n bits of a byte above its `skip` lowest ones: `(b & mask) >> skip` with a mask of n
    * ones shifted left by skip. */
  function MaskedShift(b: byte, skip: nat, n: nat): nat { b / Pow2(skip) % Pow2(n) }

  lemma MaskedShiftStep(b: byte, skip: nat, n: nat)
    requires n > 0
    ensures MaskedShift(b, skip, n) == 2 * MaskedShift(b, skip + 1, n - 1) + b / Pow2(skip) % 2
  {
    var p := Pow2(skip);
    DivDiv(b, p);
    HalveMod(b / p, Pow2(n - 1));
  }

  lemma {:induction false} ByteSlice(bytes: seq<byte>, i: nat, from: nat, n: nat)
    requires i < |bytes| && from + n <= 8
    ensures Value(Bits(bytes)[8 * i + from..8 * i + from + n]) == MaskedShift(bytes[i], 8 - from - n, n)
  {
    hide MaskedShift, Bits, BitAt;
    if n == 0 {
      WholeByte(bytes[i], 8 - from);
    } else {
      ByteSlice(bytes, i, from, n - 1);
      var k := 8 * i + from + n - 1;
      var s := Bits(bytes)[8 * i + from..k + 1];
      assert s[..n - 1] == Bits(bytes)[8 * i + from..k];
      LastBit(bytes, i, from + n - 1);
      MaskedShiftStep(bytes[i], 8 - from - n, n);
    }
  }

  lemma LastBit(bytes: seq<byte>, i: nat, k: nat)
    requires i < |bytes| && k < 8
    ensures Bits(bytes)[8 * i + k] <==> bytes[i] / Pow2(7 - k) % 2 == 1
  {
    assert (8 * i + k) / 8 == i && (8 * i + k) % 8 == k;
  }

  lemma WholeByte(b: byte, skip: nat)
    ensures MaskedShift(b, skip, 0) == 0
    ensures MaskedShift(b, 0, 8) == b < Pow2(8)
  {
    Powers();
  }

  // ---- the stream ----

  /** A 32-bit pattern read as a signed number, which is what the shifts produce. */
  function ToInt32(v: nat): int { if v < 0x8000_0000 then v else v - 0x1_0000_0000 }

  /** `v << k` on 32-bit integers. */
  function ShiftLeft(v: int, k: nat): int { ToInt32((v * Pow2(k)) % 0x1_0000_0000) }

  lemma {:induction false} Pow2Plus(a: nat, b: nat)
    ensures Pow2(a + b) == Pow2(a) * Pow2(b)
  {
    if a > 0 { Pow2Plus(a - 1, b); }
  }

  lemma Pow2Grows(a: nat, b: nat)
    requires a <= b
    ensures Pow2(a) <= Pow2(b)
  {
    Pow2Plus(a, b - a);
    assert Pow2(a) * Pow2(b - a) >= Pow2(a) * 1;
  }

  lemma Pow2Values()
    ensures Pow2(31) == 0x8000_0000 && Pow2(32) == 0x1_0000_0000
  {
    Powers();
    hide Pow2;
    Pow2Plus(8, 8);
    Pow2Plus(16, 16);
    Pow2Plus(8, 7);
    Pow2Plus(16, 15);
  }

  lemma ShiftInBelow(V: nat, P: nat, H: nat, c: nat)
    requires H * P == 0x8000_0000 && V < 2 * H && V < 0x8000_0000 && c < P
    ensures ToInt32((V * P) % 0x1_0000_0000) + c == ToInt32(V * P + c)
  {
    MulBelow(V, 2 * H, P);
    assert (2 * H) * P == 0x1_0000_0000;
    if V < H {
      MulBelow(V, H, P);
    } else {
      MulAtLeast(V, H, P);
    }
    var x := V * P;
    assert x % 0x1_0000_0000 == x;
  }

  lemma Split2To31(n: nat)
    requires n <= 8
    ensures Pow2(31 - n) * Pow2(n) == 0x8000_0000 && Pow2(32 - n) == 2 * Pow2(31 - n)
  {
    Pow2Values();
    Pow2Plus(31 - n, n);
  }

  /** Shifting n bits in below a value of B bits, up to the 32nd bit. */
  lemma ShiftIn(V: nat, B: nat, n: nat, c: nat)
    requires V < Pow2(B) && 1 <= n <= 8 && B + n <= 32 && c < Pow2(n)
    ensures ShiftLeft(ToInt32(V), n) + c == ToInt32(V * Pow2(n) + c)
  {
    hide Pow2;
    Pow2Values();
    Pow2Grows(B, 31);
    Pow2Grows(B, 32 - n);
    Split2To31(n);
    ShiftInBelow(V, Pow2(n), Pow2(31 - n), c);
  }

  lemma MulBelow(a: nat, b: nat, p: nat)
    requires a < b
    ensures a * p + p <= b * p
  {
    assert (a + 1) * p <= b * p by { MulAtLeast(b, a + 1, p); }
  }

  lemma Append(all: seq<bool>, start: nat, pos: nat, n: nat)
    requires start <= pos && pos + n <= |all|
    ensures Value(all[start..pos + n]) == Value(all[start..pos]) * Pow2(n) + Value(all[pos..pos + n])
    ensures Value(all[start..pos]) < Pow2(pos - start)
    ensures Value(all[pos..pos + n]) < Pow2(n)
  {
    assert all[start..pos + n] == all[start..pos] + all[pos..pos + n];
    ValueConcat(all[start..pos], all[pos..pos + n]);
    ToBitsValue(all[start..pos]);
    ToBitsValue(all[pos..pos + n]);
  }

  /** One shift step of `readBits` extends the value by the next n bits of byte i. */
  lemma NextBits(bytes: seq<byte>, start: nat, i: nat, n: nat, result: int)
    requires start <= 8 * i && i < |bytes| && 1 <= n <= 8 && 8 * i + n - start <= 32
    requires result == ToInt32(Value(Bits(bytes)[start..8 * i]))
    ensures ShiftLeft(result, n) + MaskedShift(bytes[i], 8 - n, n) == ToInt32(Value(Bits(bytes)[start..8 * i + n]))
  {
    hide *;
    var all := Bits(bytes);
    ByteSlice(bytes, i, 0, n);
    Append(all, start, 8 * i, n);
    ShiftIn(Value(all[start..8 * i]), 8 * i - start, n, MaskedShift(bytes[i], 8 - n, n));
  }

  /** The bits left in the current byte. */
  lemma FirstBits(bytes: seq<byte>, i: nat, from: nat, n: nat)
    requires i < |bytes| && from + n <= 8
    ensures MaskedShift(bytes[i], 8 - from - n, n) == ToInt32(Value(Bits(bytes)[8 * i + from..8 * i + from + n]))
  {
    ByteSlice(bytes, i, from, n);
    ToBitsValue(Bits(bytes)[8 * i + from..8 * i + from + n]);
    Pow2Grows(n, 8);
    Powers();
  }

  class BitStream {
    const bytes: seq<byte>
    var byteOffset: nat
    var bitOffset: nat

    ghost predicate Valid()
      reads this
    {
      && bitOffset < 8 && byteOffset <= |bytes|
      && (bitOffset > 0 ==> byteOffset < |bytes|)
    }

    ghost function Position(): nat
      reads this
    {
      8 * byteOffset + bitOffset
    }

    /** The bits not read yet. */
    ghost function Rest(): seq<bool>
      requires Valid()
      reads this
    {
      Bits(bytes)[Position()..]
    }

    constructor (bytes: seq<byte>)
      ensures Valid() && this.bytes == bytes && Position() == 0
    {
      this.bytes := bytes;
      byteOffset := 0;
      bitOffset := 0;
    }

    function Available(): (n: nat)
      requires Valid()
      reads this
      ensures n == |Rest()|
    {
      8 * (|bytes| - byteOffset) - bitOffset
    }

    /** None is the thrown error. Masking and shifting a byte is written as division and
      * remainder by powers of 2; results of 32 bits are signed, as the shifts make them. */
    method ReadBits(numBits: int) returns (r: Option<int>)
      requires Valid()
      modifies this
      ensures Valid()
      ensures r.Some? <==> 1 <= numBits <= 32 && numBits <= old(Available())
      ensures r.Some? ==> Rest() == old(Rest())[numBits..] && r.value == ToInt32(Value(old(Rest())[..numBits]))
      ensures r == None ==> Position() == old(Position())
    {
      if numBits < 1 || numBits > 32 || numBits > Available() { return None; }
      ghost var start, all := Position(), Bits(bytes);
      var result := ReadAvailable(numBits);
      SplitRest(all, start, numBits);
      r := Some(result);
    }

    /** The reading itself, once the request is known to be available. */
    method ReadAvailable(numBits: int) returns (result: int)
      requires Valid() && 1 <= numBits <= 32 && Position() + numBits <= 8 * |bytes|
      modifies this
      ensures Valid() && Position() == old(Position()) + numBits
      ensures result == ToInt32(Value(Bits(bytes)[old(Position())..Position()]))
    {
      hide Value, Bits, BitAt, Pow2, ToInt32, ShiftLeft, MaskedShift;
      var n := numBits;
      ghost var start := Position();
      result := 0;
      EmptyValue(Bits(bytes), start);
      if bitOffset > 0 {
        var bitsLeft := 8 - bitOffset;
        var toRead := if n < bitsLeft then n else bitsLeft;
        var bitsToNotRead := bitsLeft - toRead;
        FirstBits(bytes, byteOffset, bitOffset, toRead);
        result := MaskedShift(bytes[byteOffset], bitsToNotRead, toRead);
        n := n - toRead;
        bitOffset := bitOffset + toRead;
        if bitOffset == 8 {
          bitOffset := 0;
          byteOffset := byteOffset + 1;
        }
      }
      if n > 0 {
        while n >= 8
          invariant Valid() && bitOffset == 0 && n >= 0
          invariant start <= Position() && Position() + n == start + numBits
          invariant result == ToInt32(Value(Bits(bytes)[start..Position()]))
        {
          WholeByte(bytes[byteOffset], 0);
          NextBits(bytes, start, byteOffset, 8, result);
          result := ShiftLeft(result, 8) + bytes[byteOffset];
          byteOffset := byteOffset + 1;
          n := n - 8;
        }
        if n > 0 {
          var bitsToNotRead := 8 - n;
          NextBits(bytes, start, byteOffset, n, result);
          result := ShiftLeft(result, n) + MaskedShift(bytes[byteOffset], bitsToNotRead, n);
          bitOffset := bitOffset + n;
        }
      }
    }
  }

  lemma SplitRest(all: seq<bool>, start: nat, n: nat)
    requires start + n <= |all|
    ensures all[start..][..n] == all[start..start + n]
    ensures all[start..][n..] == all[start + n..]
  {}

  lemma EmptyValue(all: seq<bool>, start: nat)
    requires start <= |all|
    ensures ToInt32(Value(all[start..start])) == 0
  {}

  lemma SmallValue(bits: seq<bool>)
    requires |bits| <= 31
    ensures ToInt32(Value(bits)) == Value(bits)
  {
    ToBitsValue(bits);
    Pow2Grows(|bits|, 31);
    Pow2Values();
  }

  /** What two successive reads of m and n bits return, and one read of m + n bits. */
  lemma ReadsCompose(bits: seq<bool>, m: nat, n: nat)
    requires m + n <= |bits| && m < 32 && n < 32 && m + n <= 32
    ensures var first, second := ToInt32(Value(bits[..m])), ToInt32(Value(bits[m..][..n]));
      first >= 0 && second >= 0 && ToInt32(Value(bits[..m + n])) == ToInt32(first * Pow2(n) + second)
  {
    SmallValue(bits[..m]);
    SmallValue(bits[m..][..n]);
    assert bits[..m + n] == bits[..m] + bits[m..][..n];
    ValueConcat(bits[..m], bits[m..][..n]);
  }
}
