/** The segments of a QR code's data (ISO/IEC 18004:2015, section 7.4): the reference parser
  * on bits, the encoder, and the round trip. */
module Segments {
  import opened Basics
  import opened Text
  import opened FieldAddition
  import opened BitStreams

  /** One decoded chunk. The text of byte and kanji chunks needs character tables and is not
    * modelled. */
  datatype Chunk =
    | Numeric(text: string)
    | Alphanumeric(text: string)
    | Byte(bytes: seq<int>)
    | Kanji(bytes: seq<int>)
    | Eci(assignmentNumber: int)

  /** The outcome of `decode`: a result, `undefined` when the data stops without a
    * terminator, or a thrown error. */
  datatype Outcome = Complete(chunks: seq<Chunk>) | Incomplete | Malformed

  /** The outcome of reading part of the bits: the value and the bits after it, or an error. */
  datatype Parsed<+T> = Ok(value: T, rest: seq<bool>) | Error {
    predicate IsFailure() { Error? }
    function PropagateFailure<U>(): Parsed<U>
      requires Error?
    {
      Error
    }
    function Extract(): (T, seq<bool>)
      requires Ok?
    {
      (value, rest)
    }
  }

  predicate Below(s: seq<nat>, n: nat) { forall i :: 0 <= i < |s| ==> s[i] < n }

  function Read(bits: seq<bool>, n: nat): (r: Parsed<nat>)
    ensures r.Ok? ==> n <= |bits| && r.rest == bits[n..]
  {
    if n <= |bits| then Ok(Value(bits[..n]), bits[n..]) else Error
  }

  // ---- the character count widths ----

  /** 0, 1 and 2 for versions up to 9, up to 26, and above. */
  function SizeOf(version: nat): (size: nat)
    ensures size < 3
  {
    if version <= 9 then 0 else if version <= 26 then 1 else 2
  }

  function NumericWidth(size: nat): nat requires size < 3 { [10, 12, 14][size] }
  function AlphanumericWidth(size: nat): nat requires size < 3 { [9, 11, 13][size] }
  function ByteWidth(size: nat): nat requires size < 3 { [8, 16, 16][size] }
  function KanjiWidth(size: nat): nat requires size < 3 { [8, 10, 12][size] }

  // ---- numeric segments ----

  function Digits(bits: seq<bool>, length: nat): (r: Parsed<string>)
    ensures r.Ok? ==> |r.rest| <= |bits|
  {
    if length >= 3 then
      var (num, after) :- Read(bits, 10);
      if num >= 1000 then Error
      else
        var (text, rest) :- Digits(after, length - 3);
        Ok([Digit(num / 100), Digit(num / 10 % 10), Digit(num % 10)] + text, rest)
    else if length == 2 then
      var (num, rest) :- Read(bits, 7);
      if num >= 100 then Error else Ok([Digit(num / 10), Digit(num % 10)], rest)
    else if length == 1 then
      var (num, rest) :- Read(bits, 4);
      if num >= 10 then Error else Ok([Digit(num)], rest)
    else Ok("", bits)
  }

  function EncodeDigits(ds: seq<nat>): seq<bool>
    requires Below(ds, 10)
  {
    if |ds| >= 3 then ToBits(100 * ds[0] + 10 * ds[1] + ds[2], 10) + EncodeDigits(ds[3..])
    else if |ds| == 2 then ToBits(10 * ds[0] + ds[1], 7)
    else if |ds| == 1 then ToBits(ds[0], 4)
    else []
  }

  function DigitText(ds: seq<nat>): string
    requires Below(ds, 10)
  {
    seq(|ds|, i requires 0 <= i < |ds| => Digit(ds[i]))
  }

  // ---- alphanumeric segments ----

  const ALPHANUMERIC := "0123456789ABCDEFGHIJKLMNOPQRSTUVWXYZ $%*+-./:"

  function Characters(bits: seq<bool>, length: nat): (r: Parsed<string>)
    ensures r.Ok? ==> |r.rest| <= |bits|
  {
    if length >= 2 then
      var (v, after) :- Read(bits, 11);
      if v / 45 >= |ALPHANUMERIC| then Error
      else
        var (text, rest) :- Characters(after, length - 2);
        Ok([ALPHANUMERIC[v / 45], ALPHANUMERIC[v % 45]] + text, rest)
    else if length == 1 then
      var (a, rest) :- Read(bits, 6);
      if a >= |ALPHANUMERIC| then Error else Ok([ALPHANUMERIC[a]], rest)
    else Ok("", bits)
  }

  function EncodeCharacters(cs: seq<nat>): seq<bool>
    requires Below(cs, 45)
  {
    if |cs| >= 2 then ToBits(45 * cs[0] + cs[1], 11) + EncodeCharacters(cs[2..])
    else if |cs| == 1 then ToBits(cs[0], 6)
    else []
  }

  function CharacterText(cs: seq<nat>): string
    requires Below(cs, 45)
  {
    seq(|cs|, i requires 0 <= i < |cs| => ALPHANUMERIC[cs[i]])
  }

  // ---- byte segments ----

  function ByteValues(bits: seq<bool>, length: nat): (r: Parsed<seq<int>>)
    ensures r.Ok? ==> |r.rest| <= |bits|
  {
    if length == 0 then Ok([], bits)
    else
      var (b, after) :- Read(bits, 8);
      var (bytes, rest) :- ByteValues(after, length - 1);
      Ok([b] + bytes, rest)
  }

  function EncodeBytes(bytes: seq<nat>): seq<bool> {
    if |bytes| == 0 then [] else ToBits(bytes[0], 8) + EncodeBytes(bytes[1..])
  }

  // ---- kanji segments ----

  /** The two Shift JIS bytes of a 13-bit kanji value. */
  function KanjiBytes(k: nat): seq<int> {
    var packed := k / 0xC0 * 256 + k % 0xC0;
    var c := if packed < 0x1F00 then packed + 0x8140 else packed + 0xC140;
    [c / 256, c % 256]
  }

  function KanjiValues(bits: seq<bool>, length: nat): (r: Parsed<seq<int>>)
    ensures r.Ok? ==> |r.rest| <= |bits|
  {
    if length == 0 then Ok([], bits)
    else
      var (k, after) :- Read(bits, 13);
      var (bytes, rest) :- KanjiValues(after, length - 1);
      Ok(KanjiBytes(k) + bytes, rest)
  }

  function EncodeKanji(ks: seq<nat>): seq<bool> {
    if |ks| == 0 then [] else ToBits(ks[0], 13) + EncodeKanji(ks[1..])
  }

  function AllKanjiBytes(ks: seq<nat>): seq<int> {
    if |ks| == 0 then [] else KanjiBytes(ks[0]) + AllKanjiBytes(ks[1..])
  }

  // ---- whole messages ----

  function EciNumber(bits: seq<bool>): (r: Parsed<int>)
    ensures r.Ok? ==> |r.rest| <= |bits|
  {
    var (b0, r0) :- Read(bits, 1);
    if b0 == 0 then
      var (n, rest) :- Read(r0, 7);
      Parsed<int>.Ok(n, rest)
    else
      var (b1, r1) :- Read(r0, 1);
      if b1 == 0 then
        var (n, rest) :- Read(r1, 14);
        Parsed<int>.Ok(n, rest)
      else
        var (b2, r2) :- Read(r1, 1);
        if b2 == 0 then
          var (n, rest) :- Read(r2, 21);
          Parsed<int>.Ok(n, rest)
        else Parsed<int>.Ok(-1, r2)
  }

  predicate Known(mode: nat) { mode == 1 || mode == 2 || mode == 4 || mode == 7 || mode == 8 }

  /** The chunk after one of the known mode indicators. */
  function Segment(mode: nat, bits: seq<bool>, size: nat): (r: Parsed<Chunk>)
    requires size < 3 && Known(mode)
    ensures r.Ok? ==> |r.rest| <= |bits|
  {
    if mode == 7 then
      var (n, rest) :- EciNumber(bits);
      Ok(Eci(n), rest)
    else if mode == 1 then
      var (length, after) :- Read(bits, NumericWidth(size));
      var (text, rest) :- Digits(after, length);
      Ok(Numeric(text), rest)
    else if mode == 2 then
      var (length, after) :- Read(bits, AlphanumericWidth(size));
      var (text, rest) :- Characters(after, length);
      Ok(Alphanumeric(text), rest)
    else if mode == 4 then
      var (length, after) :- Read(bits, ByteWidth(size));
      var (bytes, rest) :- ByteValues(after, length);
      Ok(Byte(bytes), rest)
    else
      var (length, after) :- Read(bits, KanjiWidth(size));
      var (bytes, rest) :- KanjiValues(after, length);
      Ok(Kanji(bytes), rest)
  }

  /** The reference for the loop of `decode`; unknown modes are skipped, as there. */
  function Parse(bits: seq<bool>, size: nat, chunks: seq<Chunk>): Outcome
    requires size < 3
    decreases |bits|
  {
    if |bits| < 4 then
      if Value(bits) == 0 then Complete(chunks) else Incomplete
    else
      var mode, after := Value(bits[..4]), bits[4..];
      if mode == 0 then Complete(chunks)
      else if !Known(mode) then Parse(after, size, chunks)
      else
        match Segment(mode, after, size)
        case Error => Malformed
        case Ok(chunk, rest) => Parse(rest, size, chunks + [chunk])
  }

  function Codes(text: string): seq<int> { seq(|text|, i requires 0 <= i < |text| => text[i] as int) }

  function ChunkBytes(chunk: Chunk): seq<int> {
    match chunk
    case Numeric(text) => Codes(text)
    case Alphanumeric(text) => Codes(text)
    case Byte(bytes) => bytes
    case Kanji(bytes) => bytes
    case Eci(_) => []
  }

  /** The byte list that accompanies the chunks. */
  function AllBytes(chunks: seq<Chunk>): seq<int> {
    if |chunks| == 0 then [] else AllBytes(chunks[..|chunks| - 1]) + ChunkBytes(chunks[|chunks| - 1])
  }

  // ---- encoding ----

  /** What an encoder puts into a symbol. */
  datatype Message =
    | DigitsMessage(digits: seq<nat>)
    | CharactersMessage(characters: seq<nat>)
    | BytesMessage(bytes: seq<nat>)
    | KanjiMessage(kanji: seq<nat>)
    | EciMessage(number: nat)

  /** The values and lengths that fit the segment's fields. */
  predicate Fits(m: Message, size: nat)
    requires size < 3
  {
    match m
    case DigitsMessage(ds) => |ds| < Pow2(NumericWidth(size)) && Below(ds, 10)
    case CharactersMessage(cs) => |cs| < Pow2(AlphanumericWidth(size)) && Below(cs, 45)
    case BytesMessage(bs) => |bs| < Pow2(ByteWidth(size)) && Below(bs, 256)
    case KanjiMessage(ks) => |ks| < Pow2(KanjiWidth(size)) && Below(ks, Pow2(13))
    case EciMessage(n) => n < Pow2(21)
  }

  predicate AllFit(ms: seq<Message>, size: nat)
    requires size < 3
  {
    forall i :: 0 <= i < |ms| ==> Fits(ms[i], size)
  }

  function EncodeMessage(m: Message, size: nat): seq<bool>
    requires size < 3 && Fits(m, size)
  {
    match m
    case DigitsMessage(ds) => ToBits(1, 4) + (ToBits(|ds|, NumericWidth(size)) + EncodeDigits(ds))
    case CharactersMessage(cs) => ToBits(2, 4) + (ToBits(|cs|, AlphanumericWidth(size)) + EncodeCharacters(cs))
    case BytesMessage(bs) => ToBits(4, 4) + (ToBits(|bs|, ByteWidth(size)) + EncodeBytes(bs))
    case KanjiMessage(ks) => ToBits(8, 4) + (ToBits(|ks|, KanjiWidth(size)) + EncodeKanji(ks))
    case EciMessage(n) =>
      if n < Pow2(7) then ToBits(7, 4) + ([false] + ToBits(n, 7))
      else if n < Pow2(14) then ToBits(7, 4) + ([true, false] + ToBits(n, 14))
      else ToBits(7, 4) + ([true, true, false] + ToBits(n, 21))
  }

  function EncodeAll(ms: seq<Message>, size: nat): seq<bool>
    requires size < 3 && AllFit(ms, size)
  {
    if |ms| == 0 then [] else EncodeMessage(ms[0], size) + EncodeAll(ms[1..], size)
  }

  /** What a message decodes to. */
  function Meaning(m: Message, size: nat): Chunk
    requires size < 3 && Fits(m, size)
  {
    match m
    case DigitsMessage(ds) => Numeric(DigitText(ds))
    case CharactersMessage(cs) => Alphanumeric(CharacterText(cs))
    case BytesMessage(bs) => Byte(bs)
    case KanjiMessage(ks) => Kanji(AllKanjiBytes(ks))
    case EciMessage(n) => Eci(n)
  }

  function Meanings(ms: seq<Message>, size: nat): seq<Chunk>
    requires size < 3 && AllFit(ms, size)
  {
    seq(|ms|, i requires 0 <= i < |ms| => Meaning(ms[i], size))
  }

  // ---- the round trip ----

  lemma ReadBack(v: nat, n: nat, tail: seq<bool>)
    requires v < Pow2(n)
    ensures Read(ToBits(v, n) + tail, n) == Ok(v, tail)
  {
    ValueToBits(v, n);
    assert (ToBits(v, n) + tail)[..n] == ToBits(v, n);
    assert (ToBits(v, n) + tail)[n..] == tail;
  }

  lemma Pow2Small()
    ensures Pow2(4) == 16 && Pow2(6) == 64 && Pow2(7) == 128 && Pow2(8) == 256
    ensures Pow2(10) == 1024 && Pow2(11) == 2048
  {
    Powers();
    assert Pow2(10) == 4 * Pow2(8);
  }

  lemma Decimal(a: nat, b: nat, c: nat)
    requires a < 10 && b < 10 && c < 10
    ensures (100 * a + 10 * b + c) / 100 == a && (100 * a + 10 * b + c) / 10 % 10 == b
    ensures (100 * a + 10 * b + c) % 10 == c
  {}

  lemma DigitsStep(bits: seq<bool>, length: nat, num: nat, others: seq<bool>)
    requires length >= 3 && num < 1000 && Read(bits, 10) == Ok(num, others)
    requires Digits(others, length - 3).Ok?
    ensures Digits(bits, length) ==
      Ok([Digit(num / 100), Digit(num / 10 % 10), Digit(num % 10)] + Digits(others, length - 3).value,
         Digits(others, length - 3).rest)
  {}

  lemma BelowMeans(ds: seq<nat>, limit: nat)
    requires Below(ds, limit)
    ensures forall i :: 0 <= i < |ds| ==> ds[i] < limit
    ensures forall i :: 0 <= i <= |ds| ==> Below(ds[i..], limit)
  {}

  lemma TripleIs(ds: seq<nat>)
    requires Below(ds, 10) && |ds| >= 3
    ensures EncodeDigits(ds) == ToBits(100 * ds[0] + 10 * ds[1] + ds[2], 10) + EncodeDigits(ds[3..])
    ensures DigitText(ds) == [Digit(ds[0]), Digit(ds[1]), Digit(ds[2])] + DigitText(ds[3..])
  {
    hide ToBits, Digit;
  }

  lemma DigitsTriple(ds: seq<nat>, tail: seq<bool>)
    requires Below(ds, 10) && |ds| >= 3
    requires Digits(EncodeDigits(ds[3..]) + tail, |ds| - 3) == Ok(DigitText(ds[3..]), tail)
    ensures Digits(EncodeDigits(ds) + tail, |ds|) == Ok(DigitText(ds), tail)
  {
    hide *;
    BelowMeans(ds, 10);
    var num, others := 100 * ds[0] + 10 * ds[1] + ds[2], EncodeDigits(ds[3..]) + tail;
    Pow2Small();
    TripleIs(ds);
    Concat(ToBits(num, 10), EncodeDigits(ds[3..]), tail);
    ReadBack(num, 10, others);
    Decimal(ds[0], ds[1], ds[2]);
    DigitsStep(ToBits(num, 10) + others, |ds|, num, others);
  }

  lemma DigitsTwo(bits: seq<bool>, num: nat, rest: seq<bool>)
    requires num < 100 && Read(bits, 7) == Ok(num, rest)
    ensures Digits(bits, 2) == Ok([Digit(num / 10), Digit(num % 10)], rest)
  {}

  lemma DigitsOne(bits: seq<bool>, num: nat, rest: seq<bool>)
    requires num < 10 && Read(bits, 4) == Ok(num, rest)
    ensures Digits(bits, 1) == Ok([Digit(num)], rest)
  {}

  lemma DigitsShort(ds: seq<nat>, tail: seq<bool>)
    requires Below(ds, 10) && |ds| < 3
    ensures Digits(EncodeDigits(ds) + tail, |ds|) == Ok(DigitText(ds), tail)
  {
    Pow2Small();
    hide Read, ToBits, Digit, Pow2;
    if |ds| == 2 {
      var num := 10 * ds[0] + ds[1];
      ReadBack(num, 7, tail);
      DigitsTwo(ToBits(num, 7) + tail, num, tail);
      assert num / 10 == ds[0] && num % 10 == ds[1];
      assert DigitText(ds) == [Digit(ds[0]), Digit(ds[1])];
    } else if |ds| == 1 {
      ReadBack(ds[0], 4, tail);
      DigitsOne(ToBits(ds[0], 4) + tail, ds[0], tail);
      assert DigitText(ds) == [Digit(ds[0])];
    } else {
      assert EncodeDigits(ds) + tail == tail;
    }
  }

  lemma {:induction false} DigitsRoundTrip(ds: seq<nat>, tail: seq<bool>)
    requires Below(ds, 10)
    ensures Digits(EncodeDigits(ds) + tail, |ds|) == Ok(DigitText(ds), tail)
  {
    hide Digits, EncodeDigits, DigitText;
    if |ds| >= 3 {
      DigitsRoundTrip(ds[3..], tail);
      DigitsTriple(ds, tail);
    } else {
      DigitsShort(ds, tail);
    }
  }

  lemma Pair(a: nat, b: nat)
    requires a < 45 && b < 45
    ensures (45 * a + b) / 45 == a && (45 * a + b) % 45 == b && 45 * a + b < 2048
  {}

  lemma PairIs(cs: seq<nat>)
    requires Below(cs, 45) && |cs| >= 2
    ensures EncodeCharacters(cs) == ToBits(45 * cs[0] + cs[1], 11) + EncodeCharacters(cs[2..])
  {
    hide ToBits;
  }

  lemma TextPair(cs: seq<nat>)
    requires Below(cs, 45) && |cs| >= 2
    ensures CharacterText(cs) == [ALPHANUMERIC[cs[0]], ALPHANUMERIC[cs[1]]] + CharacterText(cs[2..])
  {
    var tail := CharacterText(cs[2..]);
    assert |CharacterText(cs)| == |cs| == 2 + |tail|;
    forall i | 2 <= i < |cs| ensures CharacterText(cs)[i] == tail[i - 2] {}
  }

  lemma CharactersStep(bits: seq<bool>, length: nat, v: nat, others: seq<bool>)
    requires length >= 2 && v < 2025 && Read(bits, 11) == Ok(v, others)
    requires Characters(others, length - 2).Ok?
    ensures v / 45 < 45 && Characters(bits, length) ==
      Ok([ALPHANUMERIC[v / 45], ALPHANUMERIC[v % 45]] + Characters(others, length - 2).value,
         Characters(others, length - 2).rest)
  {}

  lemma CharactersPair(cs: seq<nat>, tail: seq<bool>)
    requires Below(cs, 45) && |cs| >= 2
    requires Characters(EncodeCharacters(cs[2..]) + tail, |cs| - 2) == Ok(CharacterText(cs[2..]), tail)
    ensures Characters(EncodeCharacters(cs) + tail, |cs|) == Ok(CharacterText(cs), tail)
  {
    hide *;
    BelowMeans(cs, 45);
    var v, others := 45 * cs[0] + cs[1], EncodeCharacters(cs[2..]) + tail;
    Pow2Small();
    PairIs(cs);
    TextPair(cs);
    Pair(cs[0], cs[1]);
    Concat(ToBits(v, 11), EncodeCharacters(cs[2..]), tail);
    ReadBack(v, 11, others);
    CharactersStep(ToBits(v, 11) + others, |cs|, v, others);
  }

  lemma CharactersOne(bits: seq<bool>, a: nat, rest: seq<bool>)
    requires a < 45 && Read(bits, 6) == Ok(a, rest)
    ensures Characters(bits, 1) == Ok([ALPHANUMERIC[a]], rest)
  {}

  lemma {:induction false} CharactersRoundTrip(cs: seq<nat>, tail: seq<bool>)
    requires Below(cs, 45)
    ensures Characters(EncodeCharacters(cs) + tail, |cs|) == Ok(CharacterText(cs), tail)
  {
    Pow2Small();
    hide Read, ToBits, Pow2;
    if |cs| >= 2 {
      CharactersRoundTrip(cs[2..], tail);
      CharactersPair(cs, tail);
    } else if |cs| == 1 {
      ReadBack(cs[0], 6, tail);
      CharactersOne(ToBits(cs[0], 6) + tail, cs[0], tail);
      assert CharacterText(cs) == [ALPHANUMERIC[cs[0]]];
    } else {
      assert EncodeCharacters(cs) + tail == tail;
    }
  }

  lemma {:induction false} BytesRoundTrip(bytes: seq<nat>, tail: seq<bool>)
    requires Below(bytes, 256)
    ensures ByteValues(EncodeBytes(bytes) + tail, |bytes|) == Ok(bytes, tail)
  {
    Pow2Small();
    hide Read, ToBits;
    if |bytes| == 0 {
      assert EncodeBytes(bytes) + tail == tail;
    } else {
      BytesRoundTrip(bytes[1..], tail);
      ReadBack(bytes[0], 8, EncodeBytes(bytes[1..]) + tail);
      Concat(ToBits(bytes[0], 8), EncodeBytes(bytes[1..]), tail);
      assert [bytes[0]] + bytes[1..] == bytes;
    }
  }

  lemma {:induction false} KanjiRoundTrip(ks: seq<nat>, tail: seq<bool>)
    requires Below(ks, Pow2(13))
    ensures KanjiValues(EncodeKanji(ks) + tail, |ks|) == Ok(AllKanjiBytes(ks), tail)
  {
    hide Read, ToBits, Pow2, KanjiBytes;
    if |ks| == 0 {
      assert EncodeKanji(ks) + tail == tail;
    } else {
      KanjiRoundTrip(ks[1..], tail);
      ReadBack(ks[0], 13, EncodeKanji(ks[1..]) + tail);
      Concat(ToBits(ks[0], 13), EncodeKanji(ks[1..]), tail);
    }
  }

  lemma ReadBit(b: bool, tail: seq<bool>)
    ensures Read([b] + tail, 1) == Ok(if b then 1 else 0, tail)
  {
    assert ([b] + tail)[..1] == [b] && ([b] + tail)[1..] == tail;
    assert Value([b]) == 2 * Value([b][..0]) + (if b then 1 else 0);
  }

  lemma EciShort(n: nat, tail: seq<bool>)
    requires n < Pow2(7)
    ensures EciNumber([false] + ToBits(n, 7) + tail) == Ok(n, tail)
  {
    hide Read, ToBits, Pow2;
    var rest := ToBits(n, 7) + tail;
    Concat([false], ToBits(n, 7), tail);
    ReadBit(false, rest);
    ReadBack(n, 7, tail);
  }

  lemma EciMedium(n: nat, tail: seq<bool>)
    requires n < Pow2(14)
    ensures EciNumber([true, false] + ToBits(n, 14) + tail) == Ok(n, tail)
  {
    hide Read, ToBits, Pow2;
    var rest := ToBits(n, 14) + tail;
    assert [true, false] + ToBits(n, 14) + tail == [true] + ([false] + rest);
    ReadBit(true, [false] + rest);
    ReadBit(false, rest);
    ReadBack(n, 14, tail);
  }

  lemma EciLong(n: nat, tail: seq<bool>)
    requires n < Pow2(21)
    ensures EciNumber([true, true, false] + ToBits(n, 21) + tail) == Ok(n, tail)
  {
    hide Read, ToBits, Pow2;
    var rest := ToBits(n, 21) + tail;
    assert [true, true, false] + ToBits(n, 21) + tail == [true] + ([true] + ([false] + rest));
    ReadBit(true, [true] + ([false] + rest));
    ReadBit(true, [false] + rest);
    ReadBit(false, rest);
    ReadBack(n, 21, tail);
  }

  function ModeOf(m: Message): (mode: nat)
    ensures Known(mode)
  {
    match m
    case DigitsMessage(_) => 1
    case CharactersMessage(_) => 2
    case BytesMessage(_) => 4
    case KanjiMessage(_) => 8
    case EciMessage(_) => 7
  }

  /** The bits after the mode indicator. */
  function Body(m: Message, size: nat): seq<bool>
    requires size < 3 && Fits(m, size)
  {
    EncodeMessage(m, size)[4..]
  }

  lemma SegmentRoundTrip(m: Message, size: nat, tail: seq<bool>)
    requires size < 3 && Fits(m, size)
    ensures EncodeMessage(m, size) == ToBits(ModeOf(m), 4) + Body(m, size)
    ensures Segment(ModeOf(m), Body(m, size) + tail, size) == Ok(Meaning(m, size), tail)
  {
    hide Read, ToBits, Pow2, Digits, Characters, ByteValues, KanjiValues, EciNumber, EncodeDigits, EncodeCharacters,
      EncodeBytes, EncodeKanji, NumericWidth, AlphanumericWidth, ByteWidth, KanjiWidth, DigitText, CharacterText;
    match m
    case DigitsMessage(ds) =>
      DigitsRoundTrip(ds, tail);
      Counted(|ds|, NumericWidth(size), EncodeDigits(ds), tail);
    case CharactersMessage(cs) =>
      CharactersRoundTrip(cs, tail);
      Counted(|cs|, AlphanumericWidth(size), EncodeCharacters(cs), tail);
    case BytesMessage(bs) =>
      BytesRoundTrip(bs, tail);
      Counted(|bs|, ByteWidth(size), EncodeBytes(bs), tail);
    case KanjiMessage(ks) =>
      KanjiRoundTrip(ks, tail);
      Counted(|ks|, KanjiWidth(size), EncodeKanji(ks), tail);
    case EciMessage(n) =>
      if n < Pow2(7) {
        EciShort(n, tail);
      } else if n < Pow2(14) {
        EciMedium(n, tail);
      } else {
        EciLong(n, tail);
      }
  }

  lemma Counted(length: nat, width: nat, data: seq<bool>, tail: seq<bool>)
    requires length < Pow2(width)
    ensures Read(ToBits(length, width) + data + tail, width) == Ok(length, data + tail)
  {
    hide Read, Pow2, ToBits;
    ReadBack(length, width, data + tail);
    Concat(ToBits(length, width), data, tail);
  }

  /** A terminator: four zero bits, or fewer when the symbol is full. */
  predicate Terminated(tail: seq<bool>) {
    if |tail| >= 4 then Value(tail[..4]) == 0 else Value(tail) == 0
  }

  lemma ParseEnd(tail: seq<bool>, size: nat, chunks: seq<Chunk>)
    requires size < 3 && Terminated(tail)
    ensures Parse(tail, size, chunks) == Complete(chunks)
  {}

  /** Any list of segments before a terminator is parsed back. */
  lemma {:induction false} MessagesRoundTrip(ms: seq<Message>, size: nat, tail: seq<bool>, chunks: seq<Chunk>)
    requires size < 3 && Terminated(tail)
    requires AllFit(ms, size)
    ensures Parse(EncodeAll(ms, size) + tail, size, chunks) == Complete(chunks + Meanings(ms, size))
    decreases |ms|
  {
    hide EncodeMessage, Fits, Meaning, Segment, ToBits, Body, Parse, Terminated;
    if |ms| == 0 {
      assert EncodeAll(ms, size) + tail == tail;
      assert chunks + Meanings(ms, size) == chunks;
      ParseEnd(tail, size, chunks);
    } else {
      var m, others := ms[0], ms[1..];
      var rest := EncodeAll(others, size) + tail;
      MessagesRoundTrip(others, size, tail, chunks + [Meaning(m, size)]);
      ParseMessage(m, size, rest, chunks);
      Concat(EncodeMessage(m, size), EncodeAll(others, size), tail);
      assert chunks + [Meaning(m, size)] + Meanings(others, size) == chunks + Meanings(ms, size);
    }
  }

  lemma ParseStep(bits: seq<bool>, size: nat, chunks: seq<Chunk>, mode: nat, rest: seq<bool>, chunk: Chunk)
    requires size < 3 && Known(mode) && |bits| >= 4 && Value(bits[..4]) == mode
    requires Segment(mode, bits[4..], size) == Ok(chunk, rest)
    ensures Parse(bits, size, chunks) == Parse(rest, size, chunks + [chunk])
  {}

  /** One step of the parser over one encoded message. */
  lemma ParseMessage(m: Message, size: nat, rest: seq<bool>, chunks: seq<Chunk>)
    requires size < 3 && Fits(m, size)
    ensures Parse(EncodeMessage(m, size) + rest, size, chunks) == Parse(rest, size, chunks + [Meaning(m, size)])
  {
    KnownBelow16(ModeOf(m));
    hide *;
    var body := Body(m, size) + rest;
    SegmentRoundTrip(m, size, rest);
    Concat(ToBits(ModeOf(m), 4), Body(m, size), rest);
    ModeBits(ModeOf(m), body);
    ParseStep(ToBits(ModeOf(m), 4) + body, size, chunks, ModeOf(m), rest, Meaning(m, size));
  }

  lemma KnownBelow16(mode: nat)
    requires Known(mode)
    ensures mode < 16
  {}

  lemma ModeBits(mode: nat, body: seq<bool>)
    requires mode < 16
    ensures |ToBits(mode, 4) + body| >= 4
    ensures Value((ToBits(mode, 4) + body)[..4]) == mode && (ToBits(mode, 4) + body)[4..] == body
  {
    Pow2Small();
    ValueToBits(mode, 4);
    assert (ToBits(mode, 4) + body)[..4] == ToBits(mode, 4);
  }
}
