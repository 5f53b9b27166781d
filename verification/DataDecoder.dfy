/** The segment decoders and their loop, as they consume the bit stream, proved against the
  * reference parser. */
module DataDecoder {
  import opened Basics
  import opened Text
  import opened Options
  import opened BitStreams
  import opened Segments

  /** `readBits` for the widths that the decoders use, in terms of the reference `Read`. */
  method ReadSmall(stream: BitStream, n: nat) returns (r: Option<nat>)
    requires stream.Valid() && 1 <= n <= 31
    modifies stream
    ensures stream.Valid()
    ensures match r
      case None => Read(old(stream.Rest()), n) == Error && stream.Rest() == old(stream.Rest())
      case Some(v) => Read(old(stream.Rest()), n) == Ok(v, stream.Rest())
  {
    hide Value, Bits;
    if n <= stream.Available() { SmallValue(stream.Rest()[..n]); }
    var v := stream.ReadBits(n);
    r := if v == None then None else Some(v.value);
  }

  /** Putting text in front of what is still to be parsed. */
  function After<T>(prefix: seq<T>, r: Parsed<seq<T>>): Parsed<seq<T>> {
    match r
    case Error => Error
    case Ok(value, rest) => Ok(prefix + value, rest)
  }

  lemma AfterAfter<T>(a: seq<T>, b: seq<T>, r: Parsed<seq<T>>)
    ensures After(a, After(b, r)) == After(a + b, r)
  {
    if r.Ok? { assert a + b + r.value == a + (b + r.value); }
  }

  lemma AfterNothing<T>(r: Parsed<seq<T>>)
    ensures After([], r) == r
  {
    if r.Ok? { assert [] + r.value == r.value; }
  }

  // ---- numeric ----

  function ThreeDigits(num: nat): string
    requires num < 1000
  {
    [Digit(num / 100), Digit(num / 10 % 10), Digit(num % 10)]
  }

  lemma DigitsIteration(text: string, bits: seq<bool>, length: nat, num: nat, after: seq<bool>)
    requires length >= 3 && num < 1000 && Read(bits, 10) == Ok(num, after)
    ensures After(text, Digits(bits, length)) == After(text + ThreeDigits(num), Digits(after, length - 3))
    ensures Codes(text + ThreeDigits(num)) == Codes(text) + [48 + num / 100, 48 + num / 10 % 10, 48 + num % 10]
  {
    AfterAfter(text, ThreeDigits(num), Digits(after, length - 3));
  }

  lemma DigitsError(text: string, bits: seq<bool>, length: nat)
    requires length >= 3 && (Read(bits, 10) == Error || Read(bits, 10).value >= 1000)
    ensures After(text, Digits(bits, length)) == Error
  {}

  /** The one or two digits after the last group of three. */
  lemma DigitsEnd(text: string, bits: seq<bool>, length: nat, num: nat, after: seq<bool>)
    requires 1 <= length <= 2 && Read(bits, if length == 2 then 7 else 4) == Ok(num, after)
    ensures length == 1 && num < 10 ==>
      After(text, Digits(bits, length)) == Ok(text + [Digit(num)], after)
      && Codes(text + [Digit(num)]) == Codes(text) + [48 + num]
    ensures length == 2 && num < 100 ==>
      After(text, Digits(bits, length)) == Ok(text + [Digit(num / 10), Digit(num % 10)], after)
      && Codes(text + [Digit(num / 10), Digit(num % 10)]) == Codes(text) + [48 + num / 10, 48 + num % 10]
    ensures (length == 1 && num >= 10) || (length == 2 && num >= 100) ==> After(text, Digits(bits, length)) == Error
  {}

  lemma DigitsNone(bits: seq<bool>, text: string, length: nat)
    ensures length == 0 ==> After(text, Digits(bits, length)) == Ok(text, bits)
    ensures 1 <= length <= 2 && Read(bits, if length == 2 then 7 else 4) == Error ==>
      After(text, Digits(bits, length)) == Error
  {
    assert text + "" == text;
  }

  method DecodeNumeric(stream: BitStream, size: nat) returns (r: Option<(seq<int>, string)>)
    requires stream.Valid() && size < 3
    modifies stream
    ensures stream.Valid()
    ensures match Segment(1, old(stream.Rest()), size)
      case Error => r == None
      case Ok(chunk, rest) =>
        r.Some? && chunk == Numeric(r.value.1) && r.value.0 == Codes(r.value.1) && stream.Rest() == rest
  {
    hide Read, Digit, Value, Digits, After, Codes;
    var bytes: seq<int>, text: string := [], "";
    var count := ReadSmall(stream, NumericWidth(size));
    if count == None { return None; }
    var length := count.value;
    ghost var goal := Digits(stream.Rest(), length);
    AfterNothing(goal);
    NoCodes();
    while length >= 3
      invariant stream.Valid()
      invariant After(text, Digits(stream.Rest(), length)) == goal
      invariant bytes == Codes(text)
    {
      ghost var rest := stream.Rest();
      var group := ReadSmall(stream, 10);
      if group == None || group.value >= 1000 {
        DigitsError(text, rest, length);
        return None;
      }
      var num := group.value;
      DigitsIteration(text, rest, length, num, stream.Rest());
      bytes := bytes + [48 + num / 100, 48 + num / 10 % 10, 48 + num % 10];
      text := text + ThreeDigits(num);
      length := length - 3;
    }
    ghost var rest := stream.Rest();
    DigitsNone(rest, text, length);
    if length == 2 {
      var group := ReadSmall(stream, 7);
      if group == None { return None; }
      var num := group.value;
      DigitsEnd(text, rest, length, num, stream.Rest());
      if num >= 100 { return None; }
      bytes := bytes + [48 + num / 10, 48 + num % 10];
      text := text + [Digit(num / 10), Digit(num % 10)];
    } else if length == 1 {
      var group := ReadSmall(stream, 4);
      if group == None { return None; }
      var num := group.value;
      DigitsEnd(text, rest, length, num, stream.Rest());
      if num >= 10 { return None; }
      bytes := bytes + [48 + num];
      text := text + [Digit(num)];
    }
    return Some((bytes, text));
  }

  lemma NoCodes()
    ensures Codes("") == []
  {}

  // ---- alphanumeric ----

  function TwoCharacters(v: nat): string
    requires v / 45 < 45
  {
    [ALPHANUMERIC[v / 45], ALPHANUMERIC[v % 45]]
  }

  lemma CharactersIteration(text: string, bits: seq<bool>, length: nat, v: nat, after: seq<bool>)
    requires length >= 2 && Read(bits, 11) == Ok(v, after)
    ensures v / 45 < 45 ==>
      After(text, Characters(bits, length)) == After(text + TwoCharacters(v), Characters(after, length - 2))
    ensures v / 45 >= 45 ==> After(text, Characters(bits, length)) == Error
  {
    if v / 45 < 45 { AfterAfter(text, TwoCharacters(v), Characters(after, length - 2)); }
  }

  lemma CharactersEnd(text: string, bits: seq<bool>, length: nat)
    ensures length == 0 ==> After(text, Characters(bits, length)) == Ok(text, bits)
    ensures length >= 2 && Read(bits, 11) == Error ==> After(text, Characters(bits, length)) == Error
    ensures length == 1 && Read(bits, 6) == Error ==> After(text, Characters(bits, length)) == Error
    ensures length == 1 && Read(bits, 6).Ok? ==>
      var (a, after) := (Read(bits, 6).value, Read(bits, 6).rest);
      After(text, Characters(bits, length)) == if a >= 45 then Error else Ok(text + [ALPHANUMERIC[a]], after)
  {
    assert text + "" == text;
  }

  /** An index past the table throws, because the missing entry has no character code. */
  method DecodeAlphanumeric(stream: BitStream, size: nat) returns (r: Option<(seq<int>, string)>)
    requires stream.Valid() && size < 3
    modifies stream
    ensures stream.Valid()
    ensures match Segment(2, old(stream.Rest()), size)
      case Error => r == None
      case Ok(chunk, rest) =>
        r.Some? && chunk == Alphanumeric(r.value.1) && r.value.0 == Codes(r.value.1) && stream.Rest() == rest
  {
    hide Read, Value, Characters, After, Codes;
    var bytes: seq<int>, text: string := [], "";
    var count := ReadSmall(stream, AlphanumericWidth(size));
    if count == None { return None; }
    var length := count.value;
    ghost var goal := Characters(stream.Rest(), length);
    AfterNothing(goal);
    NoCodes();
    while length >= 2
      invariant stream.Valid()
      invariant After(text, Characters(stream.Rest(), length)) == goal
      invariant bytes == Codes(text)
    {
      ghost var rest := stream.Rest();
      CharactersEnd(text, rest, length);
      var pair := ReadSmall(stream, 11);
      if pair == None { return None; }
      var v := pair.value;
      CharactersIteration(text, rest, length, v, stream.Rest());
      if v / 45 >= 45 { return None; }
      CodesAppend(text, TwoCharacters(v));
      bytes := bytes + Codes(TwoCharacters(v));
      text := text + TwoCharacters(v);
      length := length - 2;
    }
    CharactersEnd(text, stream.Rest(), length);
    if length == 1 {
      var last := ReadSmall(stream, 6);
      if last == None || last.value >= 45 { return None; }
      CodesAppend(text, [ALPHANUMERIC[last.value]]);
      bytes := bytes + Codes([ALPHANUMERIC[last.value]]);
      text := text + [ALPHANUMERIC[last.value]];
    }
    return Some((bytes, text));
  }

  lemma CodesAppend(a: string, b: string)
    ensures Codes(a + b) == Codes(a) + Codes(b)
  {}

  // ---- bytes and kanji ----

  lemma ByteIteration(prefix: seq<int>, bits: seq<bool>, length: nat)
    requires length > 0
    ensures After(prefix, ByteValues(bits, length)) ==
      match Read(bits, 8)
      case Error => Error
      case Ok(b, after) => After(prefix + [b], ByteValues(after, length - 1))
  {
    if Read(bits, 8).Ok? { AfterAfter(prefix, [Read(bits, 8).value], ByteValues(Read(bits, 8).rest, length - 1)); }
  }

  lemma KanjiIteration(prefix: seq<int>, bits: seq<bool>, length: nat)
    requires length > 0
    ensures After(prefix, KanjiValues(bits, length)) ==
      match Read(bits, 13)
      case Error => Error
      case Ok(k, after) => After(prefix + KanjiBytes(k), KanjiValues(after, length - 1))
  {
    if Read(bits, 13).Ok? {
      AfterAfter(prefix, KanjiBytes(Read(bits, 13).value), KanjiValues(Read(bits, 13).rest, length - 1));
    }
  }

  lemma NothingLeft(prefix: seq<int>, bits: seq<bool>)
    ensures After(prefix, ByteValues(bits, 0)) == Ok(prefix, bits) == After(prefix, KanjiValues(bits, 0))
  {
    assert prefix + [] == prefix;
  }

  method DecodeByte(stream: BitStream, size: nat) returns (r: Option<seq<int>>)
    requires stream.Valid() && size < 3
    modifies stream
    ensures stream.Valid()
    ensures match Segment(4, old(stream.Rest()), size)
      case Error => r == None
      case Ok(chunk, rest) => r.Some? && chunk == Byte(r.value) && stream.Rest() == rest
  {
    hide Read, Value, ByteValues, After;
    var bytes: seq<int> := [];
    var count := ReadSmall(stream, ByteWidth(size));
    if count == None { return None; }
    var length := count.value;
    AfterNothing(ByteValues(stream.Rest(), length));
    ghost var goal := ByteValues(stream.Rest(), length);
    for i := 0 to length
      invariant stream.Valid()
      invariant After(bytes, ByteValues(stream.Rest(), length - i)) == goal
    {
      ByteIteration(bytes, stream.Rest(), length - i);
      var b := ReadSmall(stream, 8);
      if b == None { return None; }
      bytes := bytes + [b.value];
    }
    NothingLeft(bytes, stream.Rest());
    return Some(bytes);
  }

  method DecodeKanji(stream: BitStream, size: nat) returns (r: Option<seq<int>>)
    requires stream.Valid() && size < 3
    modifies stream
    ensures stream.Valid()
    ensures match Segment(8, old(stream.Rest()), size)
      case Error => r == None
      case Ok(chunk, rest) => r.Some? && chunk == Kanji(r.value) && stream.Rest() == rest
  {
    hide Read, Value, KanjiValues, After;
    var bytes: seq<int> := [];
    var count := ReadSmall(stream, KanjiWidth(size));
    if count == None { return None; }
    var length := count.value;
    AfterNothing(KanjiValues(stream.Rest(), length));
    ghost var goal := KanjiValues(stream.Rest(), length);
    for i := 0 to length
      invariant stream.Valid()
      invariant After(bytes, KanjiValues(stream.Rest(), length - i)) == goal
    {
      KanjiIteration(bytes, stream.Rest(), length - i);
      var k := ReadSmall(stream, 13);
      if k == None { return None; }
      var c := k.value / 0xC0 * 256 + k.value % 0xC0;
      if c < 0x1F00 {
        c := c + 0x8140;
      } else {
        c := c + 0xC140;
      }
      bytes := bytes + [c / 256, c % 256];
    }
    NothingLeft(bytes, stream.Rest());
    return Some(bytes);
  }

  // ---- ECI and the loop ----

  method DecodeEci(stream: BitStream) returns (r: Option<int>)
    requires stream.Valid()
    modifies stream
    ensures stream.Valid()
    ensures match Segment(7, old(stream.Rest()), 0)
      case Error => r == None
      case Ok(chunk, rest) => r.Some? && chunk == Eci(r.value) && stream.Rest() == rest
  {
    hide Read, Value;
    var number: Option<nat>;
    var flag := ReadSmall(stream, 1);
    if flag == None { return None; }
    if flag.value == 0 {
      number := ReadSmall(stream, 7);
    } else {
      flag := ReadSmall(stream, 1);
      if flag == None { return None; }
      if flag.value == 0 {
        number := ReadSmall(stream, 14);
      } else {
        flag := ReadSmall(stream, 1);
        if flag == None { return None; }
        if flag.value != 0 {
          return Some(-1);
        }
        number := ReadSmall(stream, 21);
      }
    }
    return if number == None then None else Some(number.value);
  }

  datatype Result = Returned(bytes: seq<int>, chunks: seq<Chunk>, version: nat) | Undefined | Thrown

  /** One chunk and its bytes, after a known mode indicator; None is a thrown error. */
  method DecodeSegment(stream: BitStream, mode: nat, size: nat) returns (r: Option<(seq<int>, Chunk)>)
    requires stream.Valid() && size < 3 && Known(mode)
    modifies stream
    ensures stream.Valid()
    ensures match Segment(mode, old(stream.Rest()), size)
      case Error => r == None
      case Ok(chunk, rest) => r == Some((ChunkBytes(chunk), chunk)) && stream.Rest() == rest
  {
    hide Read, Value, Digits, Characters, ByteValues, KanjiValues, Codes;
    if mode == 7 {
      var n := DecodeEci(stream);
      return if n == None then None else Some(([], Eci(n.value)));
    } else if mode == 1 {
      var n := DecodeNumeric(stream, size);
      return if n == None then None else Some((n.value.0, Numeric(n.value.1)));
    } else if mode == 2 {
      var a := DecodeAlphanumeric(stream, size);
      return if a == None then None else Some((a.value.0, Alphanumeric(a.value.1)));
    } else if mode == 4 {
      var b := DecodeByte(stream, size);
      return if b == None then None else Some((b.value, Byte(b.value)));
    } else {
      var k := DecodeKanji(stream, size);
      return if k == None then None else Some((k.value, Kanji(k.value)));
    }
  }

  /** `decode`: every round of the loop consumes at least the four mode bits. */
  method DecodeData(data: seq<byte>, version: nat) returns (r: Result)
    ensures match Parse(Bits(data), SizeOf(version), [])
      case Complete(chunks) => r == Returned(AllBytes(chunks), chunks, version)
      case Incomplete => r == Undefined
      case Malformed => r == Thrown
  {
    hide Read, Value, Segment, Bits;
    var stream := new BitStream(data);
    var size := SizeOf(version);
    var bytes: seq<int>, chunks: seq<Chunk> := [], [];
    assert stream.Rest() == Bits(data);
    while stream.Available() >= 4
      invariant stream.Valid() && fresh(stream)
      invariant Parse(stream.Rest(), size, chunks) == Parse(Bits(data), size, [])
      invariant bytes == AllBytes(chunks)
      decreases stream.Available()
    {
      ghost var rest := stream.Rest();
      var mode := ReadSmall(stream, 4);
      ReadMeans(rest, 4);
      if mode.value == 0 {
        return Returned(bytes, chunks, version);
      }
      if Known(mode.value) {
        var segment := DecodeSegment(stream, mode.value, size);
        if segment == None { return Thrown; }
        bytes := bytes + segment.value.0;
        chunks := chunks + [segment.value.1];
        assert chunks[..|chunks| - 1] + [segment.value.1] == chunks;
      }
    }
    ghost var rest := stream.Rest();
    NoBits(rest);
    ReadMeans(rest, |rest|);
    var remaining := stream.Available();
    assert rest[..remaining] == rest;
    if remaining == 0 {
      return Returned(bytes, chunks, version);
    }
    var padding := ReadSmall(stream, remaining);
    if padding.value == 0 {
      return Returned(bytes, chunks, version);
    }
    return Undefined;
  }

  lemma ReadMeans(bits: seq<bool>, n: nat)
    requires n <= |bits|
    ensures Read(bits, n) == Ok(Value(bits[..n]), bits[n..])
  {}

  lemma NoBits(bits: seq<bool>)
    ensures |bits| == 0 ==> Value(bits) == 0
  {}
}
