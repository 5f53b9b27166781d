/** Whole responses written out: a status line, one header field and a body, and what the program
  * makes of them however the peer splits its bytes. */
module HttpMessages {
  import opened Options
  import opened Text
  import opened HttpStream
  import opened HttpBody
  import opened HttpHeaders
  import opened HttpResponse

  // ---- the head ----

  /** A status line of HTTP/1.0 or HTTP/1.1. */
  function StatusLine(minor: char, code: nat, reason: string): string {
    "HTTP/1." + [minor] + " " + DecimalText(code) + " " + reason
  }

  function Head(line: string, field: string): string { line + ("\r\n" + (field + ("\r\n" + "\r\n"))) }

  /** Text of one line that is not empty. */
  predicate Plain(text: string) { |text| > 0 && '\r' !in text && '\0' !in text && |text| < 1000 }

  lemma ThreeDigits(code: nat)
    requires 100 <= code <= 599
    ensures DecimalText(code) == [Digit(code / 100), Digit(code / 10 % 10), Digit(code % 10)]
  {
    assert DecimalText(code) == DecimalText(code / 10) + [Digit(code % 10)];
    assert DecimalText(code / 10) == DecimalText(code / 10 / 10) + [Digit(code / 10 % 10)];
    assert code / 10 / 10 == code / 100;
  }

  /** The code that a status line writes is the status. */
  lemma StatusRead(minor: char, code: nat, reason: string, rest: string)
    requires (minor == '0' || minor == '1') && 100 <= code <= 599
    ensures StatusCode(StatusLine(minor, code, reason) + rest) == Some(code)
  {
    ThreeDigits(code);
    var text := StatusLine(minor, code, reason) + rest;
    assert text[..7] == "HTTP/1.";
    assert text[9..12] == DecimalText(code) && text[7] == minor && text[8] == ' ' && text[12] == ' ';
  }

  /** The place of the blank line: not in the line, not at its end, not in the field. */
  lemma BlankLineAt(line: string, field: string)
    requires Plain(line) && Plain(field)
    ensures Find(Head(line, field), BLANK_LINE, 0) == Some(|line| + 2 + |field|)
  {
    hide Find;
    var head, at := Head(line, field), |line| + 2 + |field|;
    assert head[at..at + 4] == BLANK_LINE;
    forall j | 0 <= j < at ensures !OccursAt(head, BLANK_LINE, j) {
      if j == |line| {
        assert head[j + 2] == field[0];
        if j + 4 <= |head| { assert head[j..j + 4][2] == head[j + 2]; }
      } else {
        assert head[j] == if j < |line| then line[j] else if j == |line| + 1 then '\n' else field[j - |line| - 2];
        NotThere(head, BLANK_LINE, j);
      }
    }
    FindFirst(head, BLANK_LINE, 0, at);
  }

  lemma NoNulInHead(line: string, field: string)
    requires Plain(line) && Plain(field)
    ensures CString(Head(line, field)) == Head(line, field)
  {
    CStringWhole(Head(line, field));
  }

  lemma HeadMarker(line: string, field: string)
    requires Plain(line) && Plain(field)
    ensures Marker(Head(line, field)) == Some(|Head(line, field)| - 4) && |Head(line, field)| < MAX_HEADER_BLOCK
  {
    NoNulInHead(line, field);
    BlankLineAt(line, field);
    hide CString, Find;
  }

  lemma HeadLines(line: string, field: string)
    requires Plain(line) && Plain(field)
    ensures var head := Head(line, field);
      && |line| + 2 <= |head| && Find(head, CRLF, 0) == Some(|line|) && FieldLines(head[|line| + 2..]) == Some([field])
  {
    var head, after := Head(line, field), field + ("\r\n" + "\r\n");
    assert head[|line| + 2..] == after;
    FoundAfter(line, CRLF, after);
    FoundAfter(field, CRLF, CRLF);
    NoFields();
    hide Find;
    assert after[|field| + 2..] == CRLF && after[..|field|] == field;
    assert FieldLines(after) == Some([field] + []);
    assert [field] + [] == [field];
  }

  lemma HeadParses(minor: char, code: nat, reason: string, field: string)
    requires (minor == '0' || minor == '1') && 100 <= code <= 599
    requires Plain(StatusLine(minor, code, reason)) && Plain(field)
    ensures ParseHead(Head(StatusLine(minor, code, reason), field)) ==
      OneCoding(Step(Framing(code, false, None), field))
  {
    hide *;
    var line := StatusLine(minor, code, reason);
    StatusRead(minor, code, reason, "\r\n" + (field + ("\r\n" + "\r\n")));
    HeadIs(line, field);
    HeadLines(line, field);
    OneFieldFrame(code, field);
    ParseOneField(Head(line, field), code, |line|, field);
  }

  lemma HeadIs(line: string, field: string)
    ensures Head(line, field) == line + ("\r\n" + (field + ("\r\n" + "\r\n")))
  {}

  lemma ParseOneField(head: string, code: nat, at: nat, field: string)
    requires StatusCode(head) == Some(code) && at + 2 <= |head| && Find(head, CRLF, 0) == Some(at)
    requires FieldLines(head[at + 2..]) == Some([field])
    ensures ParseHead(head) == OneCoding(Frame(code, [field]))
  {
    hide StatusCode, Find, FieldLines, Frame, OneCoding;
  }

  lemma OneFieldFrame(code: nat, field: string)
    ensures Frame(code, [field]) == Step(Framing(code, false, None), field)
  {
    hide Step;
    assert [field][..0] == [];
    assert Frame(code, []) == Some(Framing(code, false, None));
  }

  // ---- the fields ----

  lemma FieldIs(name: string, value: string)
    requires ':' !in name && |value| > 0 && !IsBlank(value[0])
    ensures FieldOf(name + (": " + value)) == Some(Field(name, value))
  {
    hide Find;
    var line := name + (": " + value);
    assert line == name + (":" + (" " + value));
    FoundAfter(name, ":", " " + value);
    assert line[..|name|] == name && line[|name| + 1..] == " " + value;
    assert (" " + value)[1..] == value && (" " + value)[0] == ' ';
    assert SkipBlanks(" " + value) == SkipBlanks(value) == value;
  }

  lemma {:induction false} RunOfDigits(text: string)
    requires AllDigits(text)
    ensures DigitRun(text) == |text|
  {
    if |text| > 0 { RunOfDigits(text[1..]); }
  }

  lemma LengthRead(n: nat)
    requires n <= MAX_RESPONSE_BODY
    ensures LengthOf(DecimalText(n)) == Some(n)
  {
    RunOfDigits(DecimalText(n));
    DecimalRoundTrip(n);
    assert DecimalText(n)[|DecimalText(n)|..] == "" && DecimalText(n)[..|DecimalText(n)|] == DecimalText(n);
  }

  /** A spelling of a word has the word's characters that are no letters. */
  lemma SpellingKeeps(name: string, word: string, c: char)
    requires SameIgnoringCase(name, word) && c !in word && !('a' <= c <= 'z') && !('A' <= c <= 'Z')
    ensures c !in name
  {
    if i :| 0 <= i < |name| && name[i] == c {
      assert Lower(name[i]) == Lower(word[i]);
      assert word[i] in word;
    }
  }

  lemma LengthNameIsPlain(name: string)
    requires SameIgnoringCase(name, "Content-Length")
    ensures |name| == 14 && ':' !in name && '\r' !in name && '\0' !in name
  {
    SpellingKeeps(name, "Content-Length", ':');
    SpellingKeeps(name, "Content-Length", '\r');
    SpellingKeeps(name, "Content-Length", '\0');
    assert |name| == |"Content-Length"|;
    hide SameIgnoringCase;
  }

  lemma CodingNameIsPlain(name: string)
    requires SameIgnoringCase(name, "Transfer-Encoding")
    ensures |name| == 17 && ':' !in name && '\r' !in name && '\0' !in name
  {
    SpellingKeeps(name, "Transfer-Encoding", ':');
    SpellingKeeps(name, "Transfer-Encoding", '\r');
    SpellingKeeps(name, "Transfer-Encoding", '\0');
    assert |name| == |"Transfer-Encoding"|;
    hide SameIgnoringCase;
  }

  /** The two fields that frame a body. */
  function LengthField(name: string, n: nat): string { name + (": " + DecimalText(n)) }

  function CodingField(name: string): string { name + (": " + "chunked") }

  lemma LengthStep(name: string, n: nat, code: nat)
    requires SameIgnoringCase(name, "Content-Length") && n <= MAX_RESPONSE_BODY
    ensures Step(Framing(code, false, None), LengthField(name, n)) == Some(Framing(code, false, Some(n)))
  {
    LengthNameIsPlain(name);
    assert !SameIgnoringCase(name, "Transfer-Encoding");
    LengthRead(n);
    assert IsDigit(DecimalText(n)[0]);
    hide SameIgnoringCase, LengthOf, FieldOf, DecimalText;
    FieldIs(name, DecimalText(n));
  }

  lemma CodingStep(name: string, code: nat)
    requires SameIgnoringCase(name, "Transfer-Encoding")
    ensures Step(Framing(code, false, None), CodingField(name)) == Some(Framing(code, true, None))
  {
    CodingNameIsPlain(name);
    ChunkedIsRead();
    hide SameIgnoringCase, LengthOf, FieldOf, TrimBlanks;
    FieldIs(name, "chunked");
  }

  lemma ChunkedIsRead()
    ensures TrimBlanks("chunked") == "chunked" && SameIgnoringCase("chunked", "chunked")
  {}

  // ---- the responses ----

  lemma RespondsTo(head: string, f: Framing, body: string, turns: seq<Turn>, ending: Ending)
    requires FramedHead(head, f)
    ensures Respond(head + body, turns, ending) ==
      match BodyFrom(f, body, ending) case None => None case Some(b) => Some(Response(f.status, b))
  {
    hide Marker, ParseHead, BodyFrom, Respond;
    var all := head + body;
    MarkerOfPart(all, |head|);
    assert all[..|head|] == head && all[|head|..] == body;
    ShortBlock(all, turns, ending);
  }

  lemma FieldIsPlain(name: string, value: string)
    requires 0 < |name| < 100 && |value| < 100
    requires '\r' !in name && '\0' !in name && '\r' !in value && '\0' !in value
    ensures Plain(name + (": " + value))
  {}

  lemma LengthFieldIsPlain(name: string, n: nat)
    requires SameIgnoringCase(name, "Content-Length") && n <= MAX_RESPONSE_BODY
    ensures Plain(LengthField(name, n))
  {
    LengthNameIsPlain(name);
    NumberIsPlain(n);
    hide Plain, SameIgnoringCase, DecimalText;
    FieldIsPlain(name, DecimalText(n));
  }

  lemma CodingFieldIsPlain(name: string)
    requires SameIgnoringCase(name, "Transfer-Encoding")
    ensures Plain(CodingField(name))
  {
    CodingNameIsPlain(name);
    hide Plain, SameIgnoringCase;
    FieldIsPlain(name, "chunked");
  }

  lemma LengthHead(minor: char, code: nat, reason: string, name: string, n: nat)
    requires (minor == '0' || minor == '1') && 100 <= code <= 599 && Plain(StatusLine(minor, code, reason))
    requires SameIgnoringCase(name, "Content-Length") && n <= MAX_RESPONSE_BODY
    ensures FramedHead(Head(StatusLine(minor, code, reason), LengthField(name, n)), Framing(code, false, Some(n)))
  {
    hide *;
    LengthFieldIsPlain(name, n);
    HeadMarker(StatusLine(minor, code, reason), LengthField(name, n));
    HeadParses(minor, code, reason, LengthField(name, n));
    LengthStep(name, n, code);
    OnlyLength(code, n);
    FramedMeans(Head(StatusLine(minor, code, reason), LengthField(name, n)), Framing(code, false, Some(n)));
  }

  lemma CodingHead(minor: char, code: nat, reason: string, name: string)
    requires (minor == '0' || minor == '1') && 100 <= code <= 599 && Plain(StatusLine(minor, code, reason))
    requires SameIgnoringCase(name, "Transfer-Encoding")
    ensures FramedHead(Head(StatusLine(minor, code, reason), CodingField(name)), Framing(code, true, None))
  {
    hide *;
    CodingFieldIsPlain(name);
    HeadMarker(StatusLine(minor, code, reason), CodingField(name));
    HeadParses(minor, code, reason, CodingField(name));
    CodingStep(name, code);
    OnlyLength(code, 0);
    FramedMeans(Head(StatusLine(minor, code, reason), CodingField(name)), Framing(code, true, None));
  }

  /** A head that ends in its only blank line and gives this framing. */
  predicate FramedHead(head: string, f: Framing) {
    Marker(head) == Some(|head| - 4) && 4 <= |head| < MAX_HEADER_BLOCK && ParseHead(head) == Some(f)
  }

  lemma FramedMeans(head: string, f: Framing)
    requires Marker(head) == Some(|head| - 4) && |head| < MAX_HEADER_BLOCK && ParseHead(head) == Some(f)
    ensures FramedHead(head, f)
  {
    hide ParseHead;
  }

  lemma Limit()
    ensures MAX_RESPONSE_BODY == 8_388_608
  {}

  /** A body of a given length comes back whole, after any status and reason and whatever the
    * spelling of the field's name. */
  lemma LengthResponse(minor: char, code: nat, reason: string, name: string, body: string, rest: string,
    turns: seq<Turn>, ending: Ending)
    requires (minor == '0' || minor == '1') && 100 <= code <= 599 && Plain(StatusLine(minor, code, reason))
    requires SameIgnoringCase(name, "Content-Length") && |body| <= 8_388_608
    ensures Respond(Head(StatusLine(minor, code, reason), LengthField(name, |body|)) + (body + rest),
                    turns, ending) == Some(Response(code, body))
  {
    hide *;
    Limit();
    LengthHead(minor, code, reason, name, |body|);
    RespondsTo(Head(StatusLine(minor, code, reason), LengthField(name, |body|)), Framing(code, false, Some(|body|)),
               body + rest, turns, ending);
    BodyOfLength(code, body, rest, ending);
  }

  lemma OnlyLength(code: nat, n: nat)
    ensures OneCoding(Some(Framing(code, false, Some(n)))) == Some(Framing(code, false, Some(n)))
    ensures OneCoding(Some(Framing(code, true, None))) == Some(Framing(code, true, None))
  {}

  lemma BodyOfLength(code: nat, body: string, rest: string, ending: Ending)
    ensures BodyFrom(Framing(code, false, Some(|body|)), body + rest, ending) == Some(body)
  {
    assert (body + rest)[..|body|] == body;
  }

  lemma {:induction false} NumberIsPlain(n: nat)
    requires n <= MAX_RESPONSE_BODY
    ensures 0 < |DecimalText(n)| <= 7 && '\r' !in DecimalText(n) && '\0' !in DecimalText(n)
  {
    var text := DecimalText(n);
    SeventhPower();
    Shorter(n, 7);
    assert forall i :: 0 <= i < |text| ==> IsDigit(text[i]);
  }

  lemma SeventhPower()
    ensures Power10(7) == 10_000_000
  {
    assert Power10(3) == 1000;
  }

  function Power10(k: nat): nat { if k == 0 then 1 else 10 * Power10(k - 1) }

  lemma {:induction false} Shorter(n: nat, k: nat)
    ensures k > 0 && n < Power10(k) ==> |DecimalText(n)| <= k
  {
    if k > 0 {
      assert Power10(k) == 10 * Power10(k - 1);
      if n >= 10 { Shorter(n / 10, k - 1); }
    }
  }

  /** A body in pieces, each after its size in hexadecimal, comes back whole. */
  lemma PiecesResponse(minor: char, code: nat, reason: string, name: string, pieces: seq<string>,
    sizes: seq<string>, zero: string, rest: string, turns: seq<Turn>, ending: Ending)
    requires (minor == '0' || minor == '1') && 100 <= code <= 599 && Plain(StatusLine(minor, code, reason))
    requires SameIgnoringCase(name, "Transfer-Encoding")
    requires |sizes| == |pieces| && Writes(zero, 0) && |Joined(pieces)| <= 8_388_608
    requires forall i :: 0 <= i < |pieces| ==> |pieces[i]| > 0 && Writes(sizes[i], |pieces[i]|)
    ensures Respond(Head(StatusLine(minor, code, reason), CodingField(name))
                      + (EncodePieces(pieces, sizes, zero) + rest),
                    turns, ending) == Some(Response(code, Joined(pieces)))
  {
    hide *;
    Limit();
    CodingHead(minor, code, reason, name);
    PiecesRoundTrip(pieces, sizes, zero, rest, 0);
    var body := EncodePieces(pieces, sizes, zero) + rest;
    RespondsTo(Head(StatusLine(minor, code, reason), CodingField(name)), Framing(code, true, None), body, turns,
               ending);
    ChunkedBody(code, body, ending);
  }

  lemma ChunkedBody(code: nat, bytes: string, ending: Ending)
    ensures BodyFrom(Framing(code, true, None), bytes, ending) ==
      match Dechunk(bytes, 0) case None => None case Some(d) => Some(d.out)
  {
    hide Dechunk;
  }
}
