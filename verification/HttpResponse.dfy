/** Reading a whole response: the header-gathering loop over one shared buffer, and the body
  * from what that loop read too far and from the connection. */
module HttpResponse {
  import opened Options
  import opened Text
  import opened HttpStream
  import opened HttpBody
  import opened HttpHeaders

  const BLANK_LINE := "\r\n\r\n"

  /** Where the headers end: after the first blank line before any NUL. */
  function Marker(text: string): Option<nat> { Find(CString(text), BLANK_LINE, 0) }

  /** The length of an acceptable header block. */
  function HeadLength(all: string): (r: Option<nat>)
    ensures r.Some? ==> r.value <= MAX_HEADER_BLOCK && r.value <= |all|
  {
    match Marker(all)
    case None => None
    case Some(m) => if m + 4 > MAX_HEADER_BLOCK then None else Some(m + 4)
  }

  /** How much has been read when the loop stops, reading as the turns go. */
  function Stop(all: string, turns: seq<Turn>, have: nat): (stop: nat)
    requires have <= |all|
    ensures have <= stop <= |all|
    decreases |all| - have
  {
    if have >= MAX_HEADER_BLOCK then have
    else
      var more := have + Amount(|all| - have, turns, IO_BUFFER);
      if more == have || Marker(all[..more]).Some? then more else Stop(all, TurnsAfter(turns), more)
  }

  // ---- the marker in a part and in the whole ----

  lemma {:induction false} CStringOfPart(all: string, n: nat)
    requires n <= |all|
    ensures CString(all[..n]) == if n <= |CString(all)| then all[..n] else CString(all)
  {
    CStringOfConcat(all[..n], all[n..]);
    assert all == all[..n] + all[n..];
    if '\0' !in all[..n] { CStringWhole(all[..n]); } else { CStringShort(all[..n]); }
  }

  lemma {:induction false} CStringWhole(a: string)
    requires '\0' !in a
    ensures CString(a) == a
  {
    if |a| > 0 {
      CStringWhole(a[1..]);
    }
  }

  lemma {:induction false} CStringShort(a: string)
    requires '\0' in a
    ensures |CString(a)| < |a|
  {
    if a[0] != '\0' { CStringShort(a[1..]); }
  }

  /** The marker of a part is the marker of the whole, and a part without one ends before the
    * whole's marker does. */
  lemma MarkerOfPart(all: string, n: nat)
    requires n <= |all|
    ensures Marker(all[..n]) == if Marker(all).Some? && Marker(all).value + 4 <= n then Marker(all) else None
  {
    CStringOfPart(all, n);
    var part, whole := CString(all[..n]), CString(all);
    assert part <= whole;
    forall i: nat | i + 4 <= |part| ensures OccursAt(part, BLANK_LINE, i) <==> OccursAt(whole, BLANK_LINE, i) {
      assert part[i..i + 4] == whole[i..i + 4];
    }
    if Marker(all).Some? && Marker(all).value + 4 <= n {
      FindFirst(part, BLANK_LINE, 0, Marker(all).value);
    } else if Marker(all[..n]).Some? {
      FindFirst(whole, BLANK_LINE, 0, Marker(all[..n]).value);
    }
  }

  /** The loop stops with the whole header block read exactly when there is an acceptable one:
    * how the bytes were split does not matter. It has then read fewer than a buffer too many. */
  lemma {:induction false} StopExact(all: string, turns: seq<Turn>, have: nat)
    requires have <= |all| && Marker(all[..have]).None?
    ensures var stop := Stop(all, turns, have);
      && (have < MAX_HEADER_BLOCK ==> stop < MAX_HEADER_BLOCK + IO_BUFFER)
      && (HeadLength(all).Some? <==> Marker(all[..stop]).Some? && Marker(all[..stop]).value + 4 <= MAX_HEADER_BLOCK)
      && (HeadLength(all).Some? ==> Marker(all[..stop]) == Marker(all))
      && (HeadLength(all).Some? ==> HeadLength(all).value <= stop < HeadLength(all).value + IO_BUFFER)
    decreases |all| - have
  {
    hide Marker, Amount, TurnsAfter;
    MarkerOfPart(all, have);
    assert all[..|all|] == all;
    if have < MAX_HEADER_BLOCK {
      var more := have + Amount(|all| - have, turns, IO_BUFFER);
      MarkerOfPart(all, more);
      if more > have && Marker(all[..more]).None? {
        StopExact(all, TurnsAfter(turns), more);
      }
    }
  }

  // ---- what the body is then read from ----

  /** The bytes that follow the headers as the body loop sees them. When the header block fills
    * its part of the buffer exactly and the last read went on past it, the NUL that ends the
    * header text stands on the first byte of the body. */
  function StreamAfter(all: string, head: nat, stop: nat): string
    requires head <= stop <= |all|
  {
    if head == MAX_HEADER_BLOCK && stop > head then "\0" + all[head + 1..] else all[head..]
  }

  lemma NoMarkerYet(all: string)
    ensures Marker(all[..0]) == None
  {
    assert CString(all[..0]) == "";
  }

  /** The same, from where the loop stops with these turns. */
  function Stream(all: string, turns: seq<Turn>): string
    requires HeadLength(all).Some?
  {
    NoMarkerYet(all);
    StopExact(all, turns, 0);
    StreamAfter(all, HeadLength(all).value, Stop(all, turns, 0))
  }

  datatype Response = Response(status: nat, body: string)

  /** The body, by the framing the headers gave it. */
  function BodyFrom(f: Framing, bytes: string, ending: Ending): Option<string> {
    if f.chunked then
      match Dechunk(bytes, 0) case None => None case Some(d) => Some(d.out)
    else if f.length.Some? then
      if f.length.value <= |bytes| then Some(bytes[..f.length.value]) else None
    else if ending != Failure && |bytes| <= MAX_RESPONSE_BODY then Some(bytes)
    else None
  }

  /** The response that all the bytes of a connection make. */
  function Respond(all: string, turns: seq<Turn>, ending: Ending): Option<Response> {
    match HeadLength(all)
    case None => None
    case Some(head) =>
      match ParseHead(all[..head])
      case None => None
      case Some(f) =>
        match BodyFrom(f, Stream(all, turns), ending)
        case None => None
        case Some(body) => Some(Response(f.status, body))
  }

  /** The same response, read directly from the bytes. */
  function Meaning(all: string, ending: Ending): Option<Response> {
    match HeadLength(all)
    case None => None
    case Some(head) =>
      match ParseHead(all[..head])
      case None => None
      case Some(f) =>
        match BodyFrom(f, all[head..], ending)
        case None => None
        case Some(body) => Some(Response(f.status, body))
  }

  /** After a shorter header block the stream is the bytes after the blank line, however the
    * peer splits them, and the response is what the bytes mean. */
  lemma ShortBlock(all: string, turns: seq<Turn>, ending: Ending)
    requires HeadLength(all) != Some(MAX_HEADER_BLOCK)
    ensures HeadLength(all).Some? ==> Stream(all, turns) == all[HeadLength(all).value..]
    ensures Respond(all, turns, ending) == Meaning(all, ending)
  {
    hide Marker, Stop, ParseHead, BodyFrom;
  }

  /** A header block that announces a chunked body, shorter than the limit. */
  predicate ChunkedHead(head: string, status: nat) {
    && Marker(head) == Some(|head| - 4) && |head| < MAX_HEADER_BLOCK
    && ParseHead(head) == Some(Framing(status, true, None))
  }

  predicate WithinLimits(chunks: seq<Chunk>, last: Last) {
    ValidChunks(chunks) && ValidLast(last) && |BodyOf(chunks)| <= MAX_RESPONSE_BODY
  }

  /** Any chunking of any body within the limits, after any acceptable headers, however split. */
  lemma ChunkedResponse(head: string, status: nat, chunks: seq<Chunk>, last: Last, rest: string, turns: seq<Turn>,
    ending: Ending)
    requires ChunkedHead(head, status) && WithinLimits(chunks, last)
    ensures Respond(head + (EncodeChunks(chunks, last) + rest), turns, ending) == Some(Response(status, BodyOf(chunks)))
  {
    hide ValidChunks, ValidLast, EncodeChunks, ParseHead, Respond, Stop, Dechunk, Marker;
    var body := EncodeChunks(chunks, last) + rest;
    var all := head + body;
    MarkerOfPart(all, |head|);
    assert all[..|head|] == head && all[|head|..] == body;
    ChunksRoundTrip(chunks, last, rest, 0);
    ShortBlock(all, turns, ending);
  }

  lemma BodyIsBounded(f: Framing, bytes: string, ending: Ending)
    requires f.length.Some? ==> f.length.value <= MAX_RESPONSE_BODY
    ensures BodyFrom(f, bytes, ending).Some? ==> |BodyFrom(f, bytes, ending).value| <= MAX_RESPONSE_BODY
  {
    if f.chunked && Dechunk(bytes, 0).Some? {
      var chunks, last := DechunkedIsChunks(bytes, 0);
    }
  }

  /** A body longer than the limit is never accepted, by any framing. */
  lemma ResponseIsBounded(all: string, turns: seq<Turn>, ending: Ending)
    ensures var r := Respond(all, turns, ending); r.Some? ==> |r.value.body| <= 8_388_608
  {
    hide Dechunk, Stream, Marker, FieldLines, Frame, StatusCode, BodyFrom;
    if Respond(all, turns, ending).Some? {
      var head := HeadLength(all).value;
      var f := ParseHead(all[..head]).value;
      HeadIsBounded(all[..head]);
      BodyIsBounded(f, Stream(all, turns), ending);
    }
  }

  lemma HeadIsBounded(text: string)
    ensures ParseHead(text).Some? && ParseHead(text).value.length.Some? ==>
      ParseHead(text).value.length.value <= MAX_RESPONSE_BODY
  {
    hide Frame, FieldLines, StatusCode;
    if ParseHead(text).Some? && ParseHead(text).value.length.Some? {
      LengthIsBounded(StatusCode(text).value, FieldLines(text[Find(text, CRLF, 0).value + 2..]).value);
    }
  }

  /** A chunked body that was cut short anywhere is refused. */
  lemma TruncatedIsRefused(chunks: seq<Chunk>, last: Last, cut: nat)
    requires WithinLimits(chunks, last)
    requires cut < |EncodeChunks(chunks, last)|
    ensures Dechunk(EncodeChunks(chunks, last)[..cut], 0) == None
  {
    hide ValidChunks, ValidLast, EncodeChunks, BodyOf, Dechunk;
    var whole := EncodeChunks(chunks, last);
    var part := whole[..cut];
    if Dechunk(part, 0).Some? {
      var d := Dechunk(part, 0).value;
      var chunks', last' := DechunkedIsChunks(part, 0);
      assert whole == EncodeChunks(chunks', last') + (d.rest + whole[cut..]);
      assert whole + "" == whole;
      ChunksRoundTrip(chunks, last, "", 0);
      ChunksRoundTrip(chunks', last', d.rest + whole[cut..], 0);
    }
  }

  // ---- the loop ----

  /** A turn that has nothing to read yet changes nothing. */
  lemma WantStep(all: string, turns: seq<Turn>, have: nat)
    requires have <= |all| && |turns| > 0 && turns[0].Want?
    ensures Stop(all, turns, have) == Stop(all, turns[1..], have)
  {
    hide Marker;
  }

  /** A turn that reads up to `more`: it ends the loop, or the loop goes on from there. */
  lemma ReadStep(all: string, turns: seq<Turn>, have: nat, more: nat)
    requires have <= |all| && have < MAX_HEADER_BLOCK && Marker(all[..have]).None? && !(|turns| > 0 && turns[0].Want?)
    requires more == have + Amount(|all| - have, turns, IO_BUFFER)
    ensures more == have ==> HeadLength(all) == None
    ensures more > have && Marker(all[..more]).None? ==>
      Stop(all, turns, have) == Stop(all, if |turns| > 0 then turns[1..] else [], more)
    ensures Marker(all[..more]).Some? ==>
      var length := Marker(all[..more]).value + 4;
      && HeadLength(all) == (if length <= MAX_HEADER_BLOCK then Some(length) else None)
      && Stop(all, turns, have) == more && length <= more < length + IO_BUFFER
  {
    hide Marker;
    MarkerOfPart(all, have);
    MarkerOfPart(all, more);
    assert all[..|all|] == all;
  }

  lemma TooLarge(all: string, have: nat)
    requires MAX_HEADER_BLOCK <= have <= |all| && Marker(all[..have]).None?
    ensures HeadLength(all) == None
  {
    MarkerOfPart(all, have);
  }

  // ---- the one length at which the split matters ----

  /** A marker that ends at `head` is in every part that reaches so far, and in no shorter one. */
  lemma MarkerAt(all: string, head: nat, n: nat)
    requires HeadLength(all) == Some(head) && n <= |all|
    ensures Marker(all[..n]) == if head <= n then Some((head - 4) as nat) else None
  {
    MarkerOfPart(all, n);
    hide Marker;
  }

  lemma WholeBuffer(available: nat)
    requires available >= IO_BUFFER
    ensures Amount(available, [], IO_BUFFER) == IO_BUFFER
    ensures Amount(available, [Upto(1)], IO_BUFFER) == 1
  {
    assert AfterWants([]) == [] && AfterWants([Upto(1)]) == [Upto(1)];
  }

  lemma {:induction false} StopByBuffers(all: string, head: nat, have: nat, buffers: nat)
    requires HeadLength(all) == Some(head) && buffers > 0
    requires have + IO_BUFFER * (buffers - 1) < head <= have + IO_BUFFER * buffers <= |all|
    ensures Stop(all, [], have) == have + IO_BUFFER * buffers
    decreases buffers
  {
    hide Stop, Marker, HeadLength, Amount;
    var more := have + IO_BUFFER;
    MarkerAt(all, head, have);
    MarkerAt(all, head, more);
    WholeBuffer(|all| - have);
    ReadStep(all, [], have, more);
    if buffers > 1 { StopByBuffers(all, head, more, buffers - 1); }
  }

  /** A header block of exactly the limit with a body byte after it: read by whole buffers the
    * loop stops at the blank line; with one byte read first it stops one byte further. */
  lemma FullBlockDependsOnSplit(all: string)
    requires HeadLength(all) == Some(MAX_HEADER_BLOCK) && |all| > MAX_HEADER_BLOCK
    ensures Stop(all, [], 0) == MAX_HEADER_BLOCK && Stop(all, [Upto(1)], 0) == MAX_HEADER_BLOCK + 1
    ensures Stream(all, []) == all[MAX_HEADER_BLOCK..]
    ensures Stream(all, [Upto(1)]) == "\0" + all[MAX_HEADER_BLOCK + 1..]
  {
    hide Stop, Marker, HeadLength, Amount;
    StopByBuffers(all, MAX_HEADER_BLOCK, 0, 8);
    MarkerAt(all, MAX_HEADER_BLOCK, 0);
    MarkerAt(all, MAX_HEADER_BLOCK, 1);
    WholeBuffer(|all|);
    ReadStep(all, [Upto(1)], 0, 1);
    assert [Upto(1)][1..] == [];
    StopByBuffers(all, MAX_HEADER_BLOCK, 1, 8);
  }

  lemma HeadlessStream(all: string, turns: seq<Turn>)
    requires HeadLength(all).Some?
    requires var head := HeadLength(all).value; head < MAX_HEADER_BLOCK || head == |all| || all[head] == '\0'
    ensures Stream(all, turns) == all[HeadLength(all).value..]
  {
    hide Marker, Stop, HeadLength;
    var head := HeadLength(all).value;
    if head < |all| { assert all[head..] == [all[head]] + all[head + 1..]; }
  }

  /** The body is read from exactly the bytes after the blank line, in whatever pieces they
    * come, if and only if the header block is shorter than its limit, or nothing follows it, or
    * what follows begins with a NUL anyway. */
  lemma StreamExact(all: string, head: nat)
    requires HeadLength(all) == Some(head)
    ensures (forall turns :: Stream(all, turns) == all[head..]) <==>
      head < MAX_HEADER_BLOCK || |all| == head || all[head] == '\0'
  {
    hide Marker, Stop, HeadLength, Stream;
    if head < MAX_HEADER_BLOCK || |all| == head || all[head] == '\0' {
      forall turns ensures Stream(all, turns) == all[head..] {
        HeadlessStream(all, turns);
      }
    } else {
      FullBlockDependsOnSplit(all);
      assert all[head..][0] == all[head];
      assert Stream(all, [Upto(1)]) != all[head..];
    }
  }

  /** A chunked body cannot begin with a NUL. */
  lemma NulIsNoChunk(rest: string)
    ensures Dechunk("\0" + rest, 0) == None
  {
    hide CString;
  }

  lemma NeverBoth(text: string)
    ensures ParseHead(text).Some? && ParseHead(text).value.chunked ==> ParseHead(text).value.length.None?
  {
    hide Frame, FieldLines, StatusCode, Find;
  }

  /** A NUL in place of the first byte changes what is read, unless nothing is. */
  lemma NulChanges(f: Framing, bytes: string, ending: Ending)
    requires bytes != "" && bytes[0] != '\0' && (f.chunked ==> f.length.None?)
    ensures BodyFrom(f, "\0" + bytes[1..], ending) == BodyFrom(f, bytes, ending) <==>
      BodyFrom(f, bytes, ending).None? || f.length == Some(0)
  {
    NulIsNoChunk(bytes[1..]);
    hide Dechunk;
    var other := "\0" + bytes[1..];
    assert |other| == |bytes| && other[0] != bytes[0];
    if !f.chunked && f.length.Some? && 0 < f.length.value <= |bytes| {
      assert other[..f.length.value][0] != bytes[..f.length.value][0];
    }
  }

  /** What a header block of exactly the limit must meet for its response to be safe: a body
    * that is absent, begins with a NUL, is refused in any case or is announced to be empty. */
  predicate Safe(all: string, ending: Ending) {
    && HeadLength(all) == Some(MAX_HEADER_BLOCK)
    && (|all| == MAX_HEADER_BLOCK || all[MAX_HEADER_BLOCK] == '\0' || Meaning(all, ending).None?
        || ParseHead(all[..MAX_HEADER_BLOCK]).value.length == Some(0))
  }

  lemma NulResponse(all: string, ending: Ending)
    requires HeadLength(all) == Some(MAX_HEADER_BLOCK) && |all| > MAX_HEADER_BLOCK && all[MAX_HEADER_BLOCK] != '\0'
    requires ParseHead(all[..MAX_HEADER_BLOCK]).Some?
    ensures var f := ParseHead(all[..MAX_HEADER_BLOCK]).value;
      BodyFrom(f, "\0" + all[MAX_HEADER_BLOCK + 1..], ending) == BodyFrom(f, all[MAX_HEADER_BLOCK..], ending)
      <==> Safe(all, ending)
  {
    NeverBoth(all[..MAX_HEADER_BLOCK]);
    var f, bytes := ParseHead(all[..MAX_HEADER_BLOCK]).value, all[MAX_HEADER_BLOCK..];
    assert bytes[1..] == all[MAX_HEADER_BLOCK + 1..] && bytes[0] == all[MAX_HEADER_BLOCK];
    NulChanges(f, bytes, ending);
    hide HeadLength, BodyFrom, ParseHead;
  }

  /** However the peer splits its bytes the response is what the bytes mean, if and only if the
    * header block is not of exactly the limit or its response is safe. */
  lemma SplitsDoNotMatter(all: string, ending: Ending)
    ensures (forall turns :: Respond(all, turns, ending) == Meaning(all, ending)) <==>
      HeadLength(all) != Some(MAX_HEADER_BLOCK) || Safe(all, ending)
  {
    hide *;
    if HeadLength(all) != Some(MAX_HEADER_BLOCK) {
      forall turns ensures Respond(all, turns, ending) == Meaning(all, ending) {
        ShortBlock(all, turns, ending);
      }
    } else {
      FullBlock(all, ending);
    }
  }

  lemma EitherStream(all: string, turns: seq<Turn>)
    requires HeadLength(all) == Some(MAX_HEADER_BLOCK)
    ensures |all| == MAX_HEADER_BLOCK || all[MAX_HEADER_BLOCK] == '\0' ==> Stream(all, turns) == all[MAX_HEADER_BLOCK..]
    ensures |all| > MAX_HEADER_BLOCK ==>
      Stream(all, turns) == all[MAX_HEADER_BLOCK..] || Stream(all, turns) == "\0" + all[MAX_HEADER_BLOCK + 1..]
  {
    hide Marker, Stop, HeadLength;
    if |all| == MAX_HEADER_BLOCK || all[MAX_HEADER_BLOCK] == '\0' { HeadlessStream(all, turns); }
  }

  lemma FullBlock(all: string, ending: Ending)
    requires HeadLength(all) == Some(MAX_HEADER_BLOCK)
    ensures (forall turns :: Respond(all, turns, ending) == Meaning(all, ending)) <==> Safe(all, ending)
  {
    hide HeadLength, Stream, BodyFrom, ParseHead;
    forall turns ensures Safe(all, ending) ==> Respond(all, turns, ending) == Meaning(all, ending) {
      EitherStream(all, turns);
      if |all| > MAX_HEADER_BLOCK && all[MAX_HEADER_BLOCK] != '\0' && ParseHead(all[..MAX_HEADER_BLOCK]).Some? {
        NulResponse(all, ending);
      }
    }
    if !Safe(all, ending) {
      FullBlockDependsOnSplit(all);
      NulResponse(all, ending);
      assert Respond(all, [Upto(1)], ending) != Meaning(all, ending);
    }
  }

  /** A successful response with a header block of exactly the limit, and the body "5". */
  function LongResponse(): string {
    "HTTP/1.1 200 " + seq(MAX_HEADER_BLOCK - 17, i => 'a') + BLANK_LINE + "5"
  }

  lemma FoundAfter(line: string, pattern: string, rest: string)
    requires |pattern| > 0 && pattern[0] !in line
    ensures Find(line + (pattern + rest), pattern, 0) == Some(|line|)
  {
    hide Find;
    var all := line + (pattern + rest);
    assert all[|line|..|line| + |pattern|] == pattern;
    forall j | 0 <= j < |line| ensures !OccursAt(all, pattern, j) {
      assert all[j] == line[j];
      NotThere(all, pattern, j);
    }
    FindFirst(all, pattern, 0, |line|);
  }

  /** Where a head of a status line only ends. */
  lemma OneLine(line: string, rest: string)
    requires '\0' !in line && '\0' !in rest && '\r' !in line
    ensures Marker(line + (BLANK_LINE + rest)) == Some(|line|)
  {
    hide Find, CString;
    CStringWhole(line + (BLANK_LINE + rest));
    FoundAfter(line, BLANK_LINE, rest);
  }

  lemma TwoEnds()
    ensures BLANK_LINE == CRLF + CRLF
  {}

  /** Its only line, after which there are no fields. */
  lemma FirstLine(line: string)
    requires '\r' !in line
    ensures Find(line + BLANK_LINE, CRLF, 0) == Some(|line|)
    ensures FieldLines((line + BLANK_LINE)[|line| + 2..]) == Some([])
  {
    hide Find, FieldLines;
    TwoEnds();
    FoundAfter(line, CRLF, CRLF);
    assert (line + (CRLF + CRLF))[|line| + 2..] == CRLF;
    NoFields();
  }

  lemma NoFields()
    ensures FieldLines(CRLF) == Some([])
  {
    FindFirst(CRLF, CRLF, 0, 0);
  }

  lemma LongHead()
    ensures HeadLength(LongResponse()) == Some(MAX_HEADER_BLOCK) && |LongResponse()| == MAX_HEADER_BLOCK + 1
    ensures LongResponse()[MAX_HEADER_BLOCK..] == "5"
    ensures ParseHead(LongResponse()[..MAX_HEADER_BLOCK]) == Some(Framing(200, false, None))
  {
    hide CString, Find, FieldLines;
    var line := "HTTP/1.1 200 " + seq(MAX_HEADER_BLOCK - 17, i => 'a');
    OneLine(line, "5");
    FirstLine(line);
    var text := line + BLANK_LINE;
    assert LongResponse() == line + (BLANK_LINE + "5");
    assert LongResponse()[..MAX_HEADER_BLOCK] == text;
    assert text[..7] == "HTTP/1." && text[7..13] == "1 200 ";
    assert StatusCode(text) == Some(200);
  }

  /** The program's answer to it depends on the pieces: read by whole buffers the body is "5",
    * with one byte read first it is one NUL. */
  lemma LongResponseDiffers()
    ensures Respond(LongResponse(), [], CloseNotify) == Meaning(LongResponse(), CloseNotify) == Some(Response(200, "5"))
    ensures Respond(LongResponse(), [Upto(1)], CloseNotify) == Some(Response(200, "\0"))
  {
    LongHead();
    var all := LongResponse();
    hide LongResponse, HeadLength, ParseHead, Stream;
    FullBlockDependsOnSplit(all);
    assert all[MAX_HEADER_BLOCK + 1..] == "";
    assert "\0" + "" == "\0";
  }

  /** Moves bytes to the end of the header part, whether or not the two places overlap. */
  method MoveUp(buffer: array<char>, from: nat, count: nat)
    requires buffer.Length == MAX_HEADER_BLOCK + IO_BUFFER && from + count <= buffer.Length && count <= IO_BUFFER
    modifies buffer
    ensures buffer[..MAX_HEADER_BLOCK] == old(buffer[..MAX_HEADER_BLOCK])
    ensures buffer[MAX_HEADER_BLOCK..MAX_HEADER_BLOCK + count] == old(buffer[from..from + count])
  {
    forall i | 0 <= i < count { buffer[MAX_HEADER_BLOCK + i] := buffer[from + i]; }
  }

  lemma StreamJoined(all: string, head: nat, stop: nat, prefix: string)
    requires head <= stop <= |all| && head <= MAX_HEADER_BLOCK
    requires prefix == if head == MAX_HEADER_BLOCK && stop > head then "\0" + all[head + 1..stop] else all[head..stop]
    ensures prefix + all[stop..] == StreamAfter(all, head, stop)
  {
    if head == MAX_HEADER_BLOCK && stop > head {
      assert all[head + 1..] == all[head + 1..stop] + all[stop..];
    } else {
      assert all[head..] == all[head..stop] + all[stop..];
    }
  }

  /** What the loop leaves: the header block in its place, and the body bytes it read too many
    * and those still to come making up the stream. */
  ghost predicate Gathered(all: string, turns: seq<Turn>, head: Option<nat>, prefixLen: nat, buffer: string,
    rest: string) {
    && head == HeadLength(all)
    && (head.Some? ==>
          var stop := Stop(all, turns, 0);
          && head.value <= stop && prefixLen == stop - head.value < IO_BUFFER
          && head.value <= |buffer| && buffer[..head.value] == all[..head.value]
          && MAX_HEADER_BLOCK + prefixLen <= |buffer|
          && buffer[MAX_HEADER_BLOCK..MAX_HEADER_BLOCK + prefixLen] + rest == StreamAfter(all, head.value, stop))
  }

  /** Before each turn. */
  ghost predicate Gathering(all: string, turns: seq<Turn>, have: nat, left: seq<Turn>) {
    && have <= |all| && have < MAX_HEADER_BLOCK + IO_BUFFER
    && Stop(all, turns, 0) == Stop(all, left, have)
    && Marker(all[..have]).None?
  }

  datatype Turned = Waited | NoMore | ReadTo(have: nat)

  /** One read into the buffer, after what is there. */
  method ReadTurn(connection: Connection, buffer: array<char>, have: nat, ghost all: string) returns (r: Turned)
    requires buffer.Length == MAX_HEADER_BLOCK + IO_BUFFER && have <= |all| && have < MAX_HEADER_BLOCK
    requires connection.data == all[have..] && buffer[..have] == all[..have]
    modifies connection, buffer
    ensures r.Waited? <==> |old(connection.turns)| > 0 && old(connection.turns)[0].Want?
    ensures r.NoMore? ==> have == |all|
    ensures r.ReadTo? ==> have < |all| && r.have == have + Amount(|all| - have, old(connection.turns), IO_BUFFER)
    ensures var now := if r.ReadTo? then r.have else have;
      now <= |all| && now < buffer.Length && connection.data == all[now..] && buffer[..now] == all[..now]
    ensures connection.turns == if |old(connection.turns)| > 0 then old(connection.turns)[1..] else []
  {
    hide Amount;
    var result := connection.SslRead(IO_BUFFER);
    match result
    case WantMore => return Waited;
    case Ended(_) => return NoMore;
    case Got(bytes) =>
      assert bytes == all[have..have + |bytes|] && connection.data == all[have + |bytes|..];
      Append(buffer, have, bytes, all);
      return ReadTo(have + |bytes|);
  }

  /** Gathers the headers into the buffer and moves what was read past them behind the header
    * part. The header block is `buffer[..head]`; the body begins with `prefixLen` bytes from
    * MAX_HEADER_BLOCK on. */
  method GatherHeaders(connection: Connection, buffer: array<char>) returns (head: Option<nat>, prefixLen: nat)
    requires buffer.Length == MAX_HEADER_BLOCK + IO_BUFFER
    modifies connection, buffer
    ensures Gathered(old(connection.data), old(connection.turns), head, prefixLen, buffer[..], connection.data)
  {
    hide *;
    ghost var all, turns := connection.data, connection.turns;
    var have: nat := 0;
    GatheringStarts(all, turns);
    assert all[0..] == all;
    while true
      invariant Gathering(all, turns, have, connection.turns) && have <= |all| && have < buffer.Length
      invariant connection.data == all[have..] && buffer[..have] == all[..have]
      decreases |all| - have, |connection.turns|
    {
      ghost var left := connection.turns;
      if have >= MAX_HEADER_BLOCK {
        GatheringFails(all, turns, have, left, buffer[..], connection.data);
        return None, 0;
      }
      var r := ReadTurn(connection, buffer, have, all);
      match r
      case Waited => GatheringWaits(all, turns, have, left);
      case NoMore =>
        GatheringFails(all, turns, have, left, buffer[..], connection.data);
        return None, 0;
      case ReadTo(more) =>
        GatheringReads(all, turns, have, left, more);
        have := more;
        var marker := Marker(buffer[..have]);
        if marker.Some? {
          head, prefixLen := EndHeaders(buffer, marker.value + 4, have, all);
          GatheringEnds(all, turns, have, head, prefixLen, buffer[..], connection.data);
          return;
        }
    }
  }

  lemma GatheringStarts(all: string, turns: seq<Turn>)
    ensures Gathering(all, turns, 0, turns)
  {
    NoMarkerYet(all);
  }

  lemma GatheringWaits(all: string, turns: seq<Turn>, have: nat, left: seq<Turn>)
    requires Gathering(all, turns, have, left) && |left| > 0 && left[0].Want?
    ensures Gathering(all, turns, have, left[1..])
  {
    hide Stop, Marker;
    WantStep(all, left, have);
  }

  lemma GatheringFails(all: string, turns: seq<Turn>, have: nat, left: seq<Turn>, buffer: string, rest: string)
    requires Gathering(all, turns, have, left)
    requires have >= MAX_HEADER_BLOCK || (have == |all| && !(|left| > 0 && left[0].Want?))
    ensures Gathered(all, turns, None, 0, buffer, rest)
  {
    hide Stop, Marker, HeadLength;
    if have >= MAX_HEADER_BLOCK { TooLarge(all, have); } else { ReadStep(all, left, have, have); }
  }

  lemma GatheringReads(all: string, turns: seq<Turn>, have: nat, left: seq<Turn>, more: nat)
    requires Gathering(all, turns, have, left) && have < |all| && have < MAX_HEADER_BLOCK
    requires !(|left| > 0 && left[0].Want?)
    requires more == have + Amount(|all| - have, left, IO_BUFFER)
    ensures Marker(all[..more]).None? ==> Gathering(all, turns, more, if |left| > 0 then left[1..] else [])
    ensures more < MAX_HEADER_BLOCK + IO_BUFFER
    ensures Marker(all[..more]).Some? ==> Stop(all, turns, 0) == more
    ensures Marker(all[..more]).Some? ==>
      Marker(all[..more]).value + 4 <= more < Marker(all[..more]).value + 4 + IO_BUFFER
  {
    hide Stop, Marker, HeadLength, Amount;
    ReadStep(all, left, have, more);
  }

  lemma GatheringEnds(all: string, turns: seq<Turn>, have: nat, head: Option<nat>, prefixLen: nat, buffer: string,
    rest: string)
    requires have <= |all| && Marker(all[..have]).Some? && Stop(all, turns, 0) == have && rest == all[have..]
    requires |buffer| == MAX_HEADER_BLOCK + IO_BUFFER
    requires EndedAt(all, Marker(all[..have]).value + 4, have, head, prefixLen, buffer)
    ensures Gathered(all, turns, head, prefixLen, buffer, rest)
  {
    hide Stop, Marker, StreamAfter;
    NoMarkerYet(all);
    StopExact(all, turns, 0);
  }

  /** Stores what was read and ends it with a NUL. */
  method Append(buffer: array<char>, have: nat, bytes: string, ghost all: string)
    requires have + |bytes| < buffer.Length && have + |bytes| <= |all|
    requires buffer[..have] == all[..have] && bytes == all[have..have + |bytes|]
    modifies buffer
    ensures buffer[..have + |bytes|] == all[..have + |bytes|]
  {
    forall i | 0 <= i < |bytes| { buffer[have + i] := bytes[i]; }
    buffer[have + |bytes|] := '\0';
  }

  /** The header text ended and what was read past it moved, if the text is not too long. */
  ghost predicate EndedAt(all: string, length: nat, have: nat, head: Option<nat>, prefixLen: nat, buffer: string) {
    && head == (if length <= MAX_HEADER_BLOCK then Some(length) else None)
    && (head.Some? ==>
          && length <= have <= |all| && prefixLen == have - length
          && length <= |buffer| && buffer[..length] == all[..length]
          && MAX_HEADER_BLOCK + prefixLen <= |buffer|
          && buffer[MAX_HEADER_BLOCK..MAX_HEADER_BLOCK + prefixLen] + all[have..] == StreamAfter(all, length, have))
  }

  method EndHeaders(buffer: array<char>, length: nat, have: nat, ghost all: string)
    returns (head: Option<nat>, prefixLen: nat)
    requires buffer.Length == MAX_HEADER_BLOCK + IO_BUFFER && length <= have <= |all| && have < buffer.Length
    requires length <= MAX_HEADER_BLOCK ==> have - length < IO_BUFFER
    requires buffer[..have] == all[..have]
    modifies buffer
    ensures EndedAt(all, length, have, head, prefixLen, buffer[..])
  {
    hide StreamAfter;
    if length > MAX_HEADER_BLOCK { return None, 0; }
    SetApart(buffer, length, have, all);
    assert buffer[..][..length] == buffer[..length];
    prefixLen := have - length;
    var end := MAX_HEADER_BLOCK + prefixLen;
    assert buffer[..][MAX_HEADER_BLOCK..end] == buffer[MAX_HEADER_BLOCK..end];
    return Some(length), prefixLen;
  }

  /** Ends the header text, after moving what follows it out of the way. */
  method SetApart(buffer: array<char>, length: nat, have: nat, ghost all: string)
    requires buffer.Length == MAX_HEADER_BLOCK + IO_BUFFER && length <= MAX_HEADER_BLOCK
    requires length <= have <= |all| && have < buffer.Length && have - length < IO_BUFFER
    requires buffer[..have] == all[..have]
    modifies buffer
    ensures buffer[..length] == all[..length]
    ensures buffer[MAX_HEADER_BLOCK..MAX_HEADER_BLOCK + (have - length)] + all[have..] == StreamAfter(all, length, have)
  {
    hide StreamAfter;
    var count := have - length;
    assert buffer[length..have] == all[length..have];
    MoveUp(buffer, length, count);
    assert buffer[..length] == buffer[..MAX_HEADER_BLOCK][..length] == all[..length];
    ghost var moved := buffer[MAX_HEADER_BLOCK..MAX_HEADER_BLOCK + count];
    buffer[length] := '\0';
    ghost var prefix := buffer[MAX_HEADER_BLOCK..MAX_HEADER_BLOCK + count];
    assert prefix == if length == MAX_HEADER_BLOCK && count > 0 then "\0" + moved[1..] else moved;
    StreamJoined(all, length, have, prefix);
  }

  /** The whole response. */
  method ReadResponse(connection: Connection, buffer: array<char>) returns (r: Option<Response>)
    requires buffer.Length == MAX_HEADER_BLOCK + IO_BUFFER
    modifies connection, buffer
    ensures r == Respond(old(connection.data), old(connection.turns), connection.ending)
  {
    hide Marker, Stop, StreamAfter, HeadLength, ParseHead, Dechunk;
    var head, prefixLen := GatherHeaders(connection, buffer);
    if head == None { return None; }
    assert buffer[..][..head.value] == buffer[..head.value];
    var end := MAX_HEADER_BLOCK + prefixLen;
    assert buffer[..][MAX_HEADER_BLOCK..end] == buffer[MAX_HEADER_BLOCK..end];
    var f := ParseResponseHeaders(buffer[..head.value]);
    if f == None { return None; }
    var stream := new TlsStream(buffer[MAX_HEADER_BLOCK..end], connection);
    var ok, body;
    if f.value.chunked {
      ok, body := CopyChunkedBody(stream);
    } else if f.value.length.Some? {
      ok, body := CopyExactBody(stream, f.value.length.value);
    } else {
      ok, body := CopyToClose(stream);
    }
    if !ok { return None; }
    return Some(Response(f.value.status, body));
  }
}
