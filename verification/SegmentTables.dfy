/** The tables of the segment modes, written out apart from the parser: the widths of the counts,
  * the alphanumeric characters, the kanji numbers, and the bytes that accompany the chunks
  * (ISO/IEC 18004:2015, sections 7.4.1 to 7.4.6). */
module SegmentTables {
  import opened Options
  import opened FieldAddition
  import opened BitStreams
  import opened Segments

  // ---- the count widths ----

  lemma CountWidths(version: nat)
    requires 1 <= version <= 40
    ensures 1 <= version <= 9 ==> var s := SizeOf(version);
      NumericWidth(s) == 10 && AlphanumericWidth(s) == 9 && ByteWidth(s) == 8 && KanjiWidth(s) == 8
    ensures 10 <= version <= 26 ==> var s := SizeOf(version);
      NumericWidth(s) == 12 && AlphanumericWidth(s) == 11 && ByteWidth(s) == 16 && KanjiWidth(s) == 10
    ensures 27 <= version <= 40 ==> var s := SizeOf(version);
      NumericWidth(s) == 14 && AlphanumericWidth(s) == 13 && ByteWidth(s) == 16 && KanjiWidth(s) == 12
  {}

  // ---- the alphanumeric characters ----

  /** The number of a character. */
  function NumberOf(c: char): Option<nat> {
    if '0' <= c <= '9' then Some((c - '0') as nat)
    else if 'A' <= c <= 'Z' then Some((c - 'A') as nat + 10)
    else
      match c
      case ' ' => Some(36)
      case '$' => Some(37)
      case '%' => Some(38)
      case '*' => Some(39)
      case '+' => Some(40)
      case '-' => Some(41)
      case '.' => Some(42)
      case '/' => Some(43)
      case ':' => Some(44)
      case _ => None
  }

  lemma NumberIsBelow(c: char)
    ensures NumberOf(c).Some? ==> NumberOf(c).value < 45
  {}

  lemma DigitAt(k: nat)
    requires k < 10
    ensures ALPHANUMERIC[k] as int == '0' as int + k
  {
    assert ALPHANUMERIC == "0" + ALPHANUMERIC[1..];
  }

  lemma LetterAt(k: nat)
    requires 10 <= k < 36
    ensures ALPHANUMERIC[k] == 'A' + (k - 10) as char
  {}

  lemma SignAt(k: nat)
    requires 36 <= k < 45
    ensures ALPHANUMERIC[k] == " $%*+-./:"[k - 36]
  {}

  /** Each number stands for its character. */
  lemma CharacterAt(c: char)
    requires NumberOf(c).Some?
    ensures NumberOf(c).value < 45 && ALPHANUMERIC[NumberOf(c).value] == c
  {
    NumberIsBelow(c);
    var k := NumberOf(c).value;
    if k < 10 { DigitAt(k); } else if k < 36 { LetterAt(k); } else { SignAt(k); }
  }

  /** The numbers of a text. */
  function NumbersOf(text: string): (ns: seq<nat>)
    requires forall i :: 0 <= i < |text| ==> NumberOf(text[i]).Some?
    ensures |ns| == |text| && forall i :: 0 <= i < |text| ==> ns[i] == NumberOf(text[i]).value
  {
    seq(|text|, i requires 0 <= i < |text| => NumberOf(text[i]).value)
  }

  /** Any text of these characters, written by their numbers, is read as that text. */
  lemma TextComesBack(text: string, size: nat, tail: seq<bool>)
    requires size < 3 && |text| < Pow2(AlphanumericWidth(size))
    requires forall i :: 0 <= i < |text| ==> NumberOf(text[i]).Some?
    ensures Below(NumbersOf(text), 45)
    ensures var m := CharactersMessage(NumbersOf(text));
      && EncodeMessage(m, size) == ToBits(2, 4) + Body(m, size)
      && Segment(2, Body(m, size) + tail, size) == Ok(Alphanumeric(text), tail)
  {
    hide ToBits, Segment, EncodeCharacters, AlphanumericWidth, Body;
    forall i | 0 <= i < |text| ensures NumbersOf(text)[i] < 45 && ALPHANUMERIC[NumbersOf(text)[i]] == text[i] {
      CharacterAt(text[i]);
    }
    hide NumberOf;
    assert CharacterText(NumbersOf(text)) == text;
    SegmentRoundTrip(CharactersMessage(NumbersOf(text)), size, tail);
  }

  // ---- kanji ----

  /** The Shift JIS characters that a kanji segment can hold. */
  predicate IsKanji(high: nat, low: nat) {
    var c := 256 * high + low;
    0x40 <= low <= 0xFC && (0x8140 <= c <= 0x9FFC || 0xE040 <= c <= 0xEBBF)
  }

  /** The number of such a character: the offset of its range is taken off, and the two bytes of
    * what is left are put together in base 192. */
  function KanjiNumber(high: nat, low: nat): nat
    requires IsKanji(high, low)
  {
    var rest := 256 * high + low - (if 256 * high + low <= 0x9FFC then 0x8140 else 0xC140);
    rest / 256 * 0xC0 + rest % 256
  }

  /** Each kanji comes back as its two bytes. */
  lemma KanjiComesBack(high: nat, low: nat)
    requires IsKanji(high, low)
    ensures KanjiNumber(high, low) < 0x2000 && KanjiBytes(KanjiNumber(high, low)) == [high, low]
  {
    var c := 256 * high + low;
    var first := c <= 0x9FFC;
    var a, b: nat := if first then high - 0x81 else high - 0xC1, low - 0x40;
    var rest := c - (if first then 0x8140 else 0xC140);
    assert rest == 256 * a + b && b < 0xC0;
    assert rest / 256 == a && rest % 256 == b;
    var k := a * 0xC0 + b;
    assert k / 0xC0 == a && k % 0xC0 == b;
    assert c / 256 == high && c % 256 == low;
  }

  // ---- the bytes beside the chunks ----

  lemma {:induction false} BytesConcat(a: seq<Chunk>, b: seq<Chunk>)
    ensures AllBytes(a + b) == AllBytes(a) + AllBytes(b)
  {
    if |b| == 0 {
      assert a + b == a && AllBytes(a) + [] == AllBytes(a);
    } else {
      var init, last := b[..|b| - 1], b[|b| - 1];
      BytesConcat(a, init);
      assert (a + b)[..|a + b| - 1] == a + init && (a + b)[|a + b| - 1] == last;
      assert AllBytes(a) + (AllBytes(init) + ChunkBytes(last)) == AllBytes(a) + AllBytes(init) + ChunkBytes(last);
    }
  }

  /** Characters give their codes, byte and kanji chunks their bytes, and designators nothing. */
  lemma BytesOfChunk(text: string, bytes: seq<int>, n: int)
    ensures |AllBytes([Numeric(text)])| == |text| == |AllBytes([Alphanumeric(text)])|
    ensures forall i :: 0 <= i < |text| ==>
      AllBytes([Numeric(text)])[i] == text[i] as int == AllBytes([Alphanumeric(text)])[i]
    ensures AllBytes([Byte(bytes)]) == bytes == AllBytes([Kanji(bytes)]) && AllBytes([Eci(n)]) == []
  {
    assert [Numeric(text)][..0] == [] && [Alphanumeric(text)][..0] == [] && [Byte(bytes)][..0] == [];
    assert [Kanji(bytes)][..0] == [] && [Eci(n)][..0] == [];
  }

  // ---- two worked examples (sections 7.4.3 and 7.4.4) ----

  /** The digits 01234567: the mode 1, their count, and groups of three, three and two digits. */
  lemma NumericExample()
    ensures EncodeMessage(DigitsMessage([0, 1, 2, 3, 4, 5, 6, 7]), 0) ==
      ToBits(1, 4) + (ToBits(8, 10) + (ToBits(12, 10) + (ToBits(345, 10) + ToBits(67, 7))))
    ensures Meaning(DigitsMessage([0, 1, 2, 3, 4, 5, 6, 7]), 0) == Numeric("01234567")
  {
    hide ToBits;
    var ds := [0, 1, 2, 3, 4, 5, 6, 7];
    FieldAddition.Powers();
    assert ds[3..][3..] == [6, 7];
    assert EncodeDigits(ds[3..]) == ToBits(345, 10) + EncodeDigits([6, 7]);
  }

  /** The text AC-42: the mode 2, its count, and two pairs and a single character. */
  lemma AlphanumericExample()
    ensures EncodeMessage(CharactersMessage([10, 12, 41, 4, 2]), 0) ==
      ToBits(2, 4) + (ToBits(5, 9) + (ToBits(462, 11) + (ToBits(1849, 11) + ToBits(2, 6))))
    ensures Meaning(CharactersMessage([10, 12, 41, 4, 2]), 0) == Alphanumeric("AC-42")
  {
    hide ToBits;
    var cs := [10, 12, 41, 4, 2];
    FieldAddition.Powers();
    assert cs[2..][2..] == [2];
    assert EncodeCharacters(cs[2..]) == ToBits(1849, 11) + EncodeCharacters([2]);
    ExampleText();
  }

  lemma ExampleText()
    ensures CharacterText([10, 12, 41, 4, 2]) == "AC-42"
  {
    assert ALPHANUMERIC[10] == 'A' && ALPHANUMERIC[12] == 'C' && ALPHANUMERIC[41] == '-';
    assert ALPHANUMERIC[4] == '4' && ALPHANUMERIC[2] == '2';
  }
}
