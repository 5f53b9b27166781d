/** The three ways a response body is framed. */
module HttpBody {
  import opened Basics
  import opened Options
  import opened Text
  import opened HttpStream

  const MAX_RESPONSE_BODY := 8 * 1024 * 1024
  const MAX_HEADER_BLOCK := 32 * 1024
  const IO_BUFFER := 4096
  const LINE := 1024

  // ---- chunk sizes ----

  function HexRun(text: string): (n: nat)
    ensures n <= |text| && forall i :: 0 <= i < n ==> HexValue(text[i]).Some?
    ensures n < |text| ==> HexValue(text[n]).None?
  {
    if |text| == 0 || HexValue(text[0]).None? then 0 else 1 + HexRun(text[1..])
  }

  /** The value of a run of hexadecimal digits. */
  function HexNumber(digits: string): nat
    requires forall i :: 0 <= i < |digits| ==> HexValue(digits[i]).Some?
  {
    if |digits| == 0 then 0
    else 16 * HexNumber(digits[..|digits| - 1]) + HexValue(digits[|digits| - 1]).value
  }

  /** Where `strtoull` with base 16 starts on a text that begins with a digit: after a "0x"
    * that a digit follows. */
  function DigitsFrom(line: string): nat {
    if |line| > 2 && line[0] == '0' && (line[1] == 'x' || line[1] == 'X') && HexValue(line[2]).Some? then 2 else 0
  }

  /** The chunk size of a size line: a number, then nothing or an extension. */
  function ChunkSize(line: string): Option<nat> {
    if |line| == 0 || HexValue(line[0]).None? then None
    else
      var start := DigitsFrom(line) as int;
      if start > |line| then None
      else
        var count := HexRun(line[start..]);
        var end := start + count;
        if end < |line| && line[end] != ';' then None
        else
          var size := HexNumber(line[start..end]);
          if size > MAX_RESPONSE_BODY then None else Some(size)
  }

  /** A size line as RFC 9112 section 7.1 writes it: hexadecimal digits of either case, with or
    * without leading zeros, and an extension that starts with a semicolon. */
  lemma GrammarSize(digits: string, extension: string)
    requires |digits| > 0 && forall i :: 0 <= i < |digits| ==> HexValue(digits[i]).Some?
    requires |extension| > 0 ==> extension[0] == ';'
    ensures ChunkSize(digits + extension) ==
      if HexNumber(digits) <= MAX_RESPONSE_BODY then Some(HexNumber(digits)) else None
  {
    var line := digits + extension;
    assert DigitsFrom(line) == 0 by {
      if |digits| > 1 { assert line[1] == digits[1]; }
      if |digits| == 1 && |extension| > 0 { assert line[1] == extension[0]; }
    }
    assert line[0] == digits[0];
    assert line[0..] == line;
    RunOf(digits, extension);
    assert line[0..|digits|] == digits;
  }

  lemma {:induction false} RunOf(digits: string, extension: string)
    requires forall i :: 0 <= i < |digits| ==> HexValue(digits[i]).Some?
    requires |extension| > 0 ==> extension[0] == ';'
    ensures HexRun(digits + extension) == |digits|
  {
    if |digits| > 0 {
      assert (digits + extension)[1..] == digits[1..] + extension;
      RunOf(digits[1..], extension);
    } else {
      assert digits + extension == extension;
    }
  }

  // ---- the chunked coding ----

  datatype Chunk = Chunk(line: string, data: string)

  /** The size line of the last chunk, and the trailer lines. */
  datatype Last = Last(line: string, trailers: seq<string>)

  datatype Decoded = Decoded(out: string, rest: string)

  predicate ValidChunk(c: Chunk) { LineText(c.line, LINE) && |c.data| > 0 && ChunkSize(c.line) == Some(|c.data|) }

  predicate ValidLast(l: Last) {
    && LineText(l.line, LINE) && ChunkSize(l.line) == Some(0)
    && (forall i :: 0 <= i < |l.trailers| ==> LineText(l.trailers[i], LINE) && |l.trailers[i]| > 0)
    && TrailerBytes(l.trailers) <= MAX_HEADER_BLOCK
  }

  /** The bytes of the trailer lines and of the empty line after them. */
  function TrailerBytes(trailers: seq<string>): nat {
    if |trailers| == 0 then 2 else |trailers[0]| + 2 + TrailerBytes(trailers[1..])
  }

  function EncodeTrailers(trailers: seq<string>): string {
    if |trailers| == 0 then "\r\n" else trailers[0] + "\r\n" + EncodeTrailers(trailers[1..])
  }

  function EncodeChunks(chunks: seq<Chunk>, last: Last): string {
    if |chunks| == 0 then last.line + "\r\n" + EncodeTrailers(last.trailers)
    else chunks[0].line + "\r\n" + (chunks[0].data + ("\r\n" + EncodeChunks(chunks[1..], last)))
  }

  function BodyOf(chunks: seq<Chunk>): string {
    if |chunks| == 0 then "" else chunks[0].data + BodyOf(chunks[1..])
  }

  predicate ValidChunks(chunks: seq<Chunk>) { forall i :: 0 <= i < |chunks| ==> ValidChunk(chunks[i]) }

  /** The rest after the trailers, when `sofar` trailer bytes have been read. */
  function SkipTrailers(b: string, sofar: nat): Option<string>
    decreases |b|
  {
    match LineOf(b, LINE)
    case None => None
    case Some((line, rest)) =>
      LineExact(b, LINE, line, rest);
      if sofar + |line| + 2 > MAX_HEADER_BLOCK then None
      else if |line| == 0 then Some(rest)
      else SkipTrailers(rest, sofar + |line| + 2)
  }

  /** The body of a chunked message, when `total` bytes of it have been written. */
  function Dechunk(b: string, total: nat): Option<Decoded>
    requires total <= MAX_RESPONSE_BODY
    decreases |b|
  {
    match LineOf(b, LINE)
    case None => None
    case Some((line, rest)) =>
      LineExact(b, LINE, line, rest);
      match ChunkSize(line)
      case None => None
      case Some(size) =>
        if total > MAX_RESPONSE_BODY - size then None
        else if size == 0 then
          match SkipTrailers(rest, 0)
          case None => None
          case Some(after) => Some(Decoded("", after))
        else if |rest| < size + 2 || rest[size] != '\r' || rest[size + 1] != '\n' then None
        else
          match Dechunk(rest[size + 2..], total + size)
          case None => None
          case Some(d) => Some(Decoded(rest[..size] + d.out, d.rest))
  }

  lemma {:induction false} TrailersRoundTrip(trailers: seq<string>, rest: string, sofar: nat)
    requires forall i :: 0 <= i < |trailers| ==> LineText(trailers[i], LINE) && |trailers[i]| > 0
    ensures SkipTrailers(EncodeTrailers(trailers) + rest, sofar) ==
      if sofar + TrailerBytes(trailers) <= MAX_HEADER_BLOCK then Some(rest) else None
    decreases |trailers|
  {
    var b := EncodeTrailers(trailers) + rest;
    if |trailers| == 0 {
      assert b == "" + "\r\n" + rest;
      LineExact(b, LINE, "", rest);
    } else {
      hide LineOf, LineText;
      var line, more := trailers[0], EncodeTrailers(trailers[1..]) + rest;
      assert b == line + "\r\n" + more;
      LineExact(b, LINE, line, more);
      TrailersRoundTrip(trailers[1..], rest, sofar + |line| + 2);
    }
  }

  lemma {:induction false} SkippedAreTrailers(b: string, sofar: nat) returns (trailers: seq<string>)
    requires SkipTrailers(b, sofar).Some?
    ensures forall i :: 0 <= i < |trailers| ==> LineText(trailers[i], LINE) && |trailers[i]| > 0
    ensures sofar + TrailerBytes(trailers) <= MAX_HEADER_BLOCK
    ensures b == EncodeTrailers(trailers) + SkipTrailers(b, sofar).value
    decreases |b|
  {
    var (line, rest) := LineOf(b, LINE).value;
    LineExact(b, LINE, line, rest);
    hide LineOf, LineText;
    if |line| == 0 {
      trailers := [];
      assert "" + "\r\n" + rest == "\r\n" + rest;
    } else {
      var more := SkippedAreTrailers(rest, sofar + |line| + 2);
      trailers := [line] + more;
      assert trailers[1..] == more;
      Concat(line + "\r\n", EncodeTrailers(more), SkipTrailers(b, sofar).value);
    }
  }

  lemma ChunkStep(c: Chunk, more: string, total: nat)
    requires ValidChunk(c) && total + |c.data| <= MAX_RESPONSE_BODY
    ensures Dechunk(c.line + "\r\n" + (c.data + ("\r\n" + more)), total) ==
      match Dechunk(more, total + |c.data|) case None => None case Some(d) => Some(Decoded(c.data + d.out, d.rest))
  {
    hide LineOf, LineText, ChunkSize;
    var after := c.data + ("\r\n" + more);
    LineExact(c.line + "\r\n" + after, LINE, c.line, after);
    assert after[..|c.data|] == c.data && after[|c.data| + 2..] == more;
  }

  lemma LastStep(last: Last, rest: string, total: nat)
    requires ValidLast(last) && total <= MAX_RESPONSE_BODY
    ensures Dechunk(last.line + "\r\n" + EncodeTrailers(last.trailers) + rest, total) == Some(Decoded("", rest))
  {
    TrailersRoundTrip(last.trailers, rest, 0);
    hide LineOf, LineText, ChunkSize, SkipTrailers;
    var after := EncodeTrailers(last.trailers) + rest;
    Concat(last.line + "\r\n", EncodeTrailers(last.trailers), rest);
    LineExact(last.line + "\r\n" + after, LINE, last.line, after);
  }

  /** Any chunking of any body within the limit is decoded to exactly that body, and nothing
    * after its encoding is read. */
  lemma {:induction false} ChunksRoundTrip(chunks: seq<Chunk>, last: Last, rest: string, total: nat)
    requires ValidChunks(chunks) && ValidLast(last) && total + |BodyOf(chunks)| <= MAX_RESPONSE_BODY
    ensures Dechunk(EncodeChunks(chunks, last) + rest, total) == Some(Decoded(BodyOf(chunks), rest))
    decreases |chunks|
  {
    hide Dechunk, ValidChunk, ValidLast;
    if |chunks| == 0 {
      LastStep(last, rest, total);
    } else {
      var c, more := chunks[0], EncodeChunks(chunks[1..], last) + rest;
      assert EncodeChunks(chunks, last) + rest == c.line + "\r\n" + (c.data + ("\r\n" + more));
      ChunksRoundTrip(chunks[1..], last, rest, total + |c.data|);
      ChunkStep(c, more, total);
    }
  }

  /** What the first size line of a decoded text says. */
  lemma FirstChunk(b: string, total: nat) returns (c: Chunk, more: string)
    requires total <= MAX_RESPONSE_BODY && Dechunk(b, total).Some?
    ensures LineText(c.line, LINE) && ChunkSize(c.line) == Some(|c.data|) && total + |c.data| <= MAX_RESPONSE_BODY
    ensures |c.data| == 0 ==> b == c.line + "\r\n" + more && SkipTrailers(more, 0).Some?
    ensures |c.data| == 0 ==> Dechunk(b, total) == Some(Decoded("", SkipTrailers(more, 0).value))
    ensures |c.data| > 0 ==> b == c.line + "\r\n" + (c.data + ("\r\n" + more)) && Dechunk(more, total + |c.data|).Some?
    ensures |c.data| > 0 ==> Dechunk(b, total) == DecodedAfter(c.data, Dechunk(more, total + |c.data|))
  {
    var (line, rest) := LineOf(b, LINE).value;
    LineExact(b, LINE, line, rest);
    hide LineOf, LineText, ChunkSize, SkipTrailers;
    var size := ChunkSize(line).value;
    if size == 0 {
      c, more := Chunk(line, ""), rest;
    } else {
      c, more := Chunk(line, rest[..size]), rest[size + 2..];
      assert rest == rest[..size] + ("\r\n" + more);
    }
  }

  /** Whatever is decoded was such an encoding, and never exceeds the limit. */
  lemma {:induction false} DechunkedIsChunks(b: string, total: nat) returns (chunks: seq<Chunk>, last: Last)
    requires total <= MAX_RESPONSE_BODY && Dechunk(b, total).Some?
    ensures ValidChunks(chunks) && ValidLast(last)
    ensures var d := Dechunk(b, total).value;
      b == EncodeChunks(chunks, last) + d.rest && d.out == BodyOf(chunks) && total + |d.out| <= MAX_RESPONSE_BODY
    decreases |b|
  {
    hide Dechunk, LineText, ChunkSize, SkipTrailers;
    var d := Dechunk(b, total).value;
    var c, more := FirstChunk(b, total);
    if |c.data| == 0 {
      var trailers := SkippedAreTrailers(more, 0);
      chunks, last := [], Last(c.line, trailers);
      Concat(c.line + "\r\n", EncodeTrailers(trailers), d.rest);
    } else {
      chunks, last := DechunkedIsChunks(more, total + |c.data|);
      EncodedChunk(c.line, c.data, EncodeChunks(chunks, last), d.rest);
      assert ([c] + chunks)[1..] == chunks;
      chunks := [c] + chunks;
    }
  }

  lemma EncodedChunk(line: string, data: string, more: string, rest: string)
    ensures line + "\r\n" + (data + ("\r\n" + (more + rest))) == line + "\r\n" + (data + ("\r\n" + more)) + rest
  {}

  /** The chunked body of some bytes, exactly: they decode to a body and a rest if and only if
    * they are an encoding of that body, no longer than the limit, followed by that rest. */
  lemma ChunkedExact(b: string, d: Decoded)
    ensures Dechunk(b, 0) == Some(d) <==>
      exists chunks, last :: Encodes(chunks, last, b, d)
  {
    hide Dechunk, ValidLast, ValidChunk;
    if Dechunk(b, 0) == Some(d) {
      var chunks, last := DechunkedIsChunks(b, 0);
      assert Encodes(chunks, last, b, d);
    }
    if chunks, last :| Encodes(chunks, last, b, d) {
      ChunksRoundTrip(chunks, last, d.rest, 0);
    }
  }

  /** The bytes are this chunking of the body, followed by the rest. */
  predicate Encodes(chunks: seq<Chunk>, last: Last, b: string, d: Decoded) {
    && ValidChunks(chunks) && ValidLast(last)
    && b == EncodeChunks(chunks, last) + d.rest
    && d.out == BodyOf(chunks) && |d.out| <= MAX_RESPONSE_BODY
  }

  // ---- sizes and bodies written out ----

  /** The text writes the number in base 16, with digits of either case and any leading zeros. */
  predicate WritesHex(text: string, n: nat) {
    if |text| == 0 then n == 0
    else
      var last := text[|text| - 1];
      && (last == "0123456789abcdef"[n % 16] || last == "0123456789ABCDEF"[n % 16])
      && WritesHex(text[..|text| - 1], n / 16)
  }

  predicate AllHex(text: string) { forall i :: 0 <= i < |text| ==> HexValue(text[i]).Some? }

  /** Digits have the number that they write, and no other. */
  lemma {:induction false} HexNumberExact(text: string, n: nat)
    ensures AllHex(text) && HexNumber(text) == n <==> WritesHex(text, n)
    decreases |text|
  {
    if |text| > 0 {
      var init, last := text[..|text| - 1], text[|text| - 1];
      HexDigitsExact(last, n % 16);
      HexNumberExact(init, n / 16);
      AllHexLast(text);
      hide HexValue;
    }
  }

  lemma AllHexLast(text: string)
    requires |text| > 0
    ensures AllHex(text) <==> AllHex(text[..|text| - 1]) && HexValue(text[|text| - 1]).Some?
  {
    hide HexValue;
  }

  /** A size line has the size that its digits write. */
  lemma SizeLine(digits: string, size: nat, extension: string)
    requires |digits| > 0 && WritesHex(digits, size) && (|extension| > 0 ==> extension[0] == ';')
    ensures ChunkSize(digits + extension) == if size <= MAX_RESPONSE_BODY then Some(size) else None
  {
    HexNumberExact(digits, size);
    GrammarSize(digits, extension);
    hide ChunkSize, WritesHex, HexNumber;
  }

  /** The shortest text that writes a number. */
  function HexText(n: nat): string {
    (if n < 16 then "" else HexText(n / 16)) + ["0123456789abcdef"[n % 16]]
  }

  /** Every size within the limit has a size line of at most six digits. */
  lemma {:induction false} HexTextWrites(n: nat)
    ensures WritesHex(HexText(n), n) && |HexText(n)| > 0 && (n <= MAX_RESPONSE_BODY ==> |HexText(n)| <= 6)
  {
    SixthPower();
    LengthOfHex(n, 6);
    hide HexText, WritesHex, Power16;
    WritesItself(n);
  }

  lemma {:induction false} WritesItself(n: nat)
    ensures WritesHex(HexText(n), n)
  {
    if n >= 16 {
      WritesItself(n / 16);
      assert HexText(n)[..|HexText(n)| - 1] == HexText(n / 16);
    } else {
      assert HexText(n)[..0] == "";
    }
  }

  lemma SixthPower()
    ensures Power16(6) == 0x100_0000
  {
    assert Power16(3) == 0x1000;
  }

  function Power16(k: nat): nat { if k == 0 then 1 else 16 * Power16(k - 1) }

  lemma {:induction false} LengthOfHex(n: nat, k: nat)
    ensures k > 0 && n < Power16(k) ==> |HexText(n)| <= k
  {
    if k > 0 {
      assert Power16(k) == 16 * Power16(k - 1);
      if n >= 16 { LengthOfHex(n / 16, k - 1); }
    }
  }

  /** Pieces of a body after their sizes, and the zero that ends them, without trailers. */
  function EncodePieces(pieces: seq<string>, sizes: seq<string>, zero: string): string
    requires |sizes| == |pieces|
  {
    if |pieces| == 0 then zero + "\r\n" + "\r\n"
    else sizes[0] + "\r\n" + (pieces[0] + ("\r\n" + EncodePieces(pieces[1..], sizes[1..], zero)))
  }

  function Joined(pieces: seq<string>): string {
    if |pieces| == 0 then "" else pieces[0] + Joined(pieces[1..])
  }

  predicate Writes(size: string, n: nat) { 0 < |size| <= 1000 && WritesHex(size, n) }

  lemma {:induction false} HexIsText(text: string, n: nat)
    requires WritesHex(text, n)
    ensures '\0' !in text && '\r' !in text
  {
    if |text| > 0 {
      HexIsText(text[..|text| - 1], n / 16);
      assert text == text[..|text| - 1] + [text[|text| - 1]];
    }
  }

  lemma SizeIsChunk(size: string, data: string)
    requires Writes(size, |data|) && 0 < |data| <= MAX_RESPONSE_BODY
    ensures ValidChunk(Chunk(size, data))
  {
    HexIsText(size, |data|);
    SizeLine(size, |data|, "");
    assert size + "" == size;
    hide ChunkSize, WritesHex;
  }

  lemma ZeroIsLast(zero: string)
    requires Writes(zero, 0)
    ensures ValidLast(Last(zero, []))
  {
    HexIsText(zero, 0);
    SizeLine(zero, 0, "");
    assert zero + "" == zero;
    hide ChunkSize, WritesHex;
  }

  /** Any pieces, each written after its size in hexadecimal, are decoded to their body. */
  lemma {:induction false} PiecesRoundTrip(pieces: seq<string>, sizes: seq<string>, zero: string, rest: string,
    total: nat)
    requires |sizes| == |pieces| && Writes(zero, 0) && total + |Joined(pieces)| <= MAX_RESPONSE_BODY
    requires forall i :: 0 <= i < |pieces| ==> |pieces[i]| > 0 && Writes(sizes[i], |pieces[i]|)
    ensures Dechunk(EncodePieces(pieces, sizes, zero) + rest, total) == Some(Decoded(Joined(pieces), rest))
    decreases |pieces|
  {
    hide Dechunk, Writes, ValidChunk, ValidLast;
    if |pieces| == 0 {
      ZeroIsLast(zero);
      LastStep(Last(zero, []), rest, total);
      assert EncodeTrailers([]) == "\r\n";
    } else {
      var more := EncodePieces(pieces[1..], sizes[1..], zero);
      SizeIsChunk(sizes[0], pieces[0]);
      PiecesRoundTrip(pieces[1..], sizes[1..], zero, rest, total + |pieces[0]|);
      EncodedChunk(sizes[0], pieces[0], more, rest);
      ChunkStep(Chunk(sizes[0], pieces[0]), more + rest, total);
    }
  }

  // ---- the copying loops ----

  method CopyExactBody(stream: TlsStream, len: nat) returns (ok: bool, out: string)
    requires stream.Valid()
    modifies stream, stream.connection
    ensures stream.Valid() && (ok <==> len <= |old(stream.Remaining())|)
    ensures ok ==> out == old(stream.Remaining())[..len] && stream.Remaining() == old(stream.Remaining())[len..]
  {
    ghost var all := stream.Remaining();
    var left: nat := len;
    out := "";
    assert out + stream.Remaining() == all;
    while left != 0
      invariant stream.Valid() && left + |out| == len && all == out + stream.Remaining()
      decreases left
    {
      var want := if left < IO_BUFFER then left else IO_BUFFER;
      var got, bytes := stream.Exact(want);
      if !got { return false, out; }
      Concat(out, bytes, stream.Remaining());
      out := out + bytes;
      left := left - want;
    }
    ok := true;
  }

  method CopyToClose(stream: TlsStream) returns (ok: bool, out: string)
    requires stream.Valid()
    modifies stream, stream.connection
    ensures stream.Valid()
    ensures ok <==> stream.connection.ending != Failure && |old(stream.Remaining())| <= MAX_RESPONSE_BODY
    ensures ok ==> out == old(stream.Remaining()) && stream.Remaining() == ""
    ensures |out| <= MAX_RESPONSE_BODY
  {
    ghost var all := stream.Remaining();
    out := "";
    assert out + stream.Remaining() == all;
    while true
      invariant stream.Valid() && all == out + stream.Remaining() && |out| <= MAX_RESPONSE_BODY
      decreases |stream.Remaining()|
    {
      var rc, bytes := stream.Read(IO_BUFFER);
      if rc == 0 { return true, out; }
      if rc < 0 || |out| > MAX_RESPONSE_BODY - rc { return false, out; }
      Concat(out, bytes, stream.Remaining());
      out := out + bytes;
    }
  }

  /** The empty line that ends the trailers has been read. */
  method ReadTrailers(stream: TlsStream) returns (ok: bool)
    requires stream.Valid()
    modifies stream, stream.connection
    ensures stream.Valid()
    ensures ok <==> SkipTrailers(old(stream.Remaining()), 0).Some?
    ensures ok ==> Some(stream.Remaining()) == SkipTrailers(old(stream.Remaining()), 0)
  {
    var trailers: nat := 0;
    while true
      invariant stream.Valid() && SkipTrailers(old(stream.Remaining()), 0) == SkipTrailers(stream.Remaining(), trailers)
      decreases |stream.Remaining()|
    {
      ghost var before := stream.Remaining();
      var got, line := stream.Line(LINE);
      if !got { return false; }
      LineExact(before, LINE, line, stream.Remaining());
      trailers := trailers + |line| + 2;
      if trailers > MAX_HEADER_BLOCK { return false; }
      if |line| == 0 { return true; }
    }
  }

  /** What has been written and what is still to be decoded, together. */
  function DecodedAfter(out: string, d: Option<Decoded>): Option<Decoded> {
    match d case None => None case Some(d) => Some(Decoded(out + d.out, d.rest))
  }

  method CopyChunkedBody(stream: TlsStream) returns (ok: bool, out: string)
    requires stream.Valid()
    modifies stream, stream.connection
    ensures stream.Valid() && |out| <= MAX_RESPONSE_BODY
    ensures match Dechunk(old(stream.Remaining()), 0)
      case None => !ok
      case Some(d) => ok && out == d.out && stream.Remaining() == d.rest
  {
    hide LineOf, ChunkSize, SkipTrailers;
    out := "";
    ghost var goal := Dechunk(stream.Remaining(), 0);
    DecodedFrom("", "", goal);
    while true
      invariant stream.Valid() && |out| <= MAX_RESPONSE_BODY
      invariant goal == DecodedAfter(out, Dechunk(stream.Remaining(), |out|))
      decreases |stream.Remaining()|
    {
      ghost var before := stream.Remaining();
      var got, line := stream.Line(LINE);
      if !got { return false, out; }
      ghost var rest := stream.Remaining();
      LineExact(before, LINE, line, rest);
      var size := ChunkSize(line);
      if size == None || |out| > MAX_RESPONSE_BODY - size.value { return false, out; }
      var chunk := size.value;
      if chunk == 0 {
        var ended := ReadTrailers(stream);
        assert out + "" == out;
        return ended, out;
      }
      var copied, bytes := CopyExactBody(stream, chunk);
      if !copied { return false, out; }
      var more, crlf := stream.Exact(2);
      if !more { return false, out; }
      assert rest[chunk..] == crlf + stream.Remaining();
      assert rest[chunk] == crlf[0] && rest[chunk + 1] == crlf[1];
      if crlf[0] != '\r' || crlf[1] != '\n' { return false, out; }
      assert stream.Remaining() == rest[chunk + 2..];
      DecodedFrom(out, bytes, Dechunk(stream.Remaining(), |out| + chunk));
      out := out + bytes;
    }
  }

  lemma DecodedFrom(out: string, bytes: string, d: Option<Decoded>)
    ensures DecodedAfter(out, DecodedAfter(bytes, d)) == DecodedAfter(out + bytes, d)
    ensures DecodedAfter("", d) == d
  {
    if d.Some? {
      Concat(out, bytes, d.value.out);
      assert "" + d.value.out == d.value.out;
    }
  }
}
