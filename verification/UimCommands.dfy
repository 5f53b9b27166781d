/** What a line on standard input asks for, and the bytes that the modem then gets: the words and
  * the requests are written out here, apart from the code that reads and builds them. */
module UimCommands {
  import opened Basics
  import opened Options
  import opened Text
  import opened QmiFrames
  import opened QmiExchange
  import opened UimProtocol

  // ---- lines ----

  /** Any number of line ends. */
  predicate LineEnds(end: string) { forall i :: 0 <= i < |end| ==> end[i] == '\r' || end[i] == '\n' }

  predicate Clean(body: string) { |body| > 0 ==> body[|body| - 1] != '\r' && body[|body| - 1] != '\n' }

  /** A line that filled the buffer without coming to its end. */
  predicate Overlong(text: string) { |CString(text)| == 8191 && CString(text)[8190] != '\n' }

  /** A line of this word alone or of this word, a blank and anything. */
  predicate Begins(body: string, word: string) { body == word || WithBlank(body, word) }

  predicate WithBlank(body: string, word: string) { word + " " <= body }

  predicate WithArgument(body: string, word: string, argument: string) { body == word + " " + argument }

  /** What a line without its ends says. */
  predicate Says(body: string, c: Command) {
    match c
    case Quit => Begins(body, "quit")
    case Slots => Begins(body, "slots")
    case Ping => Begins(body, "ping")
    case Open(aid) => WithArgument(body, "open", aid)
    case Transmit(apdu) => WithArgument(body, "transmit", apdu)
    case Close(channel) => WithArgument(body, "close", channel)
    case Unknown =>
      && !Begins(body, "quit") && !Begins(body, "slots") && !Begins(body, "ping")
      && !WithBlank(body, "open") && !WithBlank(body, "transmit") && !WithBlank(body, "close")
    case TooLong => false
  }

  lemma {:induction false} StripEnds(body: string, end: string)
    requires LineEnds(end) && Clean(body)
    ensures Stripped(body + end) == body
  {
    if |end| > 0 {
      assert (body + end)[..|body + end| - 1] == body + end[..|end| - 1];
      StripEnds(body, end[..|end| - 1]);
    } else {
      assert body + end == body;
    }
  }

  lemma {:induction false} EveryLine(line: string) returns (body: string, end: string)
    ensures line == body + end && LineEnds(end) && Clean(body)
  {
    if Clean(line) {
      body, end := line, "";
    } else {
      var last := line[|line| - 1];
      body, end := EveryLine(line[..|line| - 1]);
      end := end + [last];
    }
  }

  lemma {:induction false} UpToAfter(word: string, rest: string)
    requires ' ' !in word && (rest == "" || rest[0] == ' ')
    ensures UpTo(word + rest, ' ') == |word|
  {
    if |word| > 0 {
      assert (word + rest)[1..] == word[1..] + rest;
      UpToAfter(word[1..], rest);
    } else {
      assert word + rest == rest;
    }
  }

  lemma WordIs(body: string, word: string)
    requires |word| > 0 && ' ' !in word
    ensures var n := UpTo(body, ' ');
      && (body[..n] == word && n == |body| <==> body == word)
      && (body[..n] == word && n < |body| <==> word + " " <= body)
  {
    var n := UpTo(body, ' ');
    if body == word { UpToAfter(word, ""); assert word + "" == word; }
    if word + " " <= body {
      var rest := body[|word|..];
      assert body == word + rest && rest[0] == ' ' by { assert (word + " ")[|word|] == ' '; }
      UpToAfter(word, rest);
    }
    if body[..n] == word && n < |body| { assert word + " " == body[..n + 1]; }
  }

  predicate Is(verb: string, word: string) { verb == word }

  lemma WordedIs(verb: string, argument: Option<string>)
    ensures var c := Worded(verb, argument);
      && (c.Quit? <==> Is(verb, "quit")) && (c.Slots? <==> Is(verb, "slots")) && (c.Ping? <==> Is(verb, "ping"))
      && (c.Open? <==> Is(verb, "open") && argument.Some?)
      && (c.Transmit? <==> Is(verb, "transmit") && argument.Some?)
      && (c.Close? <==> Is(verb, "close") && argument.Some?)
      && (c.Open? ==> argument == Some(c.aid)) && (c.Transmit? ==> argument == Some(c.apdu))
      && (c.Close? ==> argument == Some(c.channel)) && !c.TooLong?
  {}

  function Verb(body: string): string { body[..UpTo(body, ' ')] }

  function Rest(body: string): Option<string> {
    var n := UpTo(body, ' '); if n == |body| then None else Some(body[n + 1..])
  }

  lemma InterpretsFirst(text: string)
    ensures Interpret(text) ==
      if Overlong(text) then TooLong
      else Worded(Verb(Stripped(CString(text))), Rest(Stripped(CString(text))))
  {
    hide CString, Stripped, UpTo, Worded;
  }

  lemma AloneWord(body: string, word: string)
    requires |word| > 0 && ' ' !in word
    ensures Is(Verb(body), word) <==> Begins(body, word)
  {
    WordIs(body, word);
    hide UpTo;
  }

  lemma SpacedWord(body: string, word: string, a: string)
    requires |word| > 0 && ' ' !in word
    ensures Is(Verb(body), word) && Rest(body).Some? <==> WithBlank(body, word)
    ensures Is(Verb(body), word) && Rest(body) == Some(a) <==> WithArgument(body, word, a)
  {
    WordIs(body, word);
    hide UpTo;
    var n := UpTo(body, ' ');
    if n < |body| && body[..n] == word { assert body == word + " " + body[n + 1..]; }
    if body == word + " " + a { assert (word + " " + a)[|word| + 1..] == a && (word + " ") + a == word + " " + a; }
  }

  lemma CommandSays(body: string, c: Command)
    ensures Worded(Verb(body), Rest(body)) == c <==> Says(body, c)
  {
    hide Verb, Rest, Worded, Is, Begins, WithBlank, WithArgument;
    WordedIs(Verb(body), Rest(body));
    AloneWord(body, "quit");
    AloneWord(body, "slots");
    AloneWord(body, "ping");
    var a := match c case Open(x) => x case Transmit(x) => x case Close(x) => x case _ => "";
    SpacedWord(body, "open", a);
    SpacedWord(body, "transmit", a);
    SpacedWord(body, "close", a);
  }

  /** A line means what it says, and nothing else: exactly one command for every text that does
    * not overrun the buffer, whatever line ends it has. */
  lemma LineMeans(text: string, body: string, end: string, c: Command)
    requires CString(text) == body + end && LineEnds(end) && Clean(body) && !Overlong(text)
    ensures Interpret(text) == c <==> Says(body, c)
  {
    InterpretsFirst(text);
    StripEnds(body, end);
    CommandSays(body, c);
    hide CString, Stripped, Verb, Rest, Worded, Interpret, Says;
  }

  /** A line is refused as too long exactly when it fills the buffer without an end. */
  lemma TooLongExact(text: string)
    ensures Interpret(text) == TooLong <==> Overlong(text)
  {
    InterpretsFirst(text);
    var body := Stripped(CString(text));
    WordedIs(Verb(body), Rest(body));
    hide CString, Stripped, Verb, Rest, Worded, Interpret;
  }

  // ---- whole commands ----

  lemma {:induction false} HexCharacters(data: seq<byte>)
    ensures forall i :: 0 <= i < |HexEncode(data)| ==> HexEncode(data)[i] in "0123456789abcdef"
  {
    if |data| > 0 { HexCharacters(data[1..]); }
  }

  /** A line of a word, a blank, an argument and line ends, that the buffer holds. */
  lemma ArgumentLine(word: string, argument: string, end: string)
    requires '\0' !in word && '\0' !in argument && LineEnds(end) && Clean(word + " " + argument)
    requires |word| + 1 + |argument| + |end| < 8191
    ensures var text := word + " " + argument + end; !Overlong(text) && CString(text) == word + " " + argument + end
  {
    NoNul(word + " " + argument + end);
  }

  lemma {:induction false} NoNul(text: string)
    requires '\0' !in text
    ensures CString(text) == text
  {
    if |text| > 0 { NoNul(text[1..]); }
  }

  /** Writing a command and reading the line gives the command back, whatever line ends follow. */
  lemma ReadBack(word: string, argument: string, end: string, c: Command)
    requires '\0' !in word && '\0' !in argument && LineEnds(end) && Clean(word + " " + argument)
    requires |word| + 1 + |argument| + |end| < 8191
    requires (word == "open" && c == Open(argument)) || (word == "transmit" && c == Transmit(argument))
      || (word == "close" && c == Close(argument))
      || (word == "quit" && c == Quit) || (word == "slots" && c == Slots) || (word == "ping" && c == Ping)
    ensures Interpret(word + " " + argument + end) == c
  {
    assert Says(word + " " + argument, c);
    hide Says, Interpret;
    ArgumentLine(word, argument, end);
    LineMeans(word + " " + argument + end, word + " " + argument, end, c);
  }

  /** The three words that need no argument. */
  lemma ReadBackAlone(word: string, end: string, c: Command)
    requires LineEnds(end) && |end| < 1000
    requires (word == "quit" && c == Quit) || (word == "slots" && c == Slots) || (word == "ping" && c == Ping)
    ensures Interpret(word + end) == c
  {
    assert Says(word, c);
    NoNul(word + end);
    hide Says, Interpret;
    LineMeans(word + end, word, end, c);
  }

  lemma HexIsClean(word: string, data: seq<byte>)
    requires |data| > 0
    ensures '\0' !in HexEncode(data) && Clean(word + " " + HexEncode(data)) && |HexEncode(data)| == 2 * |data|
  {
    HexCharacters(data);
    HexRoundTrip(data);
    hide HexEncode;
  }

  lemma ReadOpen(argument: string, end: string)
    requires '\0' !in argument && LineEnds(end) && Clean("open" + " " + argument) && |argument| + |end| < 8100
    ensures Interpret("open" + " " + argument + end) == Open(argument)
  {
    hide Interpret, LineEnds, Clean;
    ReadBack("open", argument, end, Open(argument));
  }

  lemma ReadTransmit(argument: string, end: string)
    requires '\0' !in argument && LineEnds(end) && Clean("transmit" + " " + argument) && |argument| + |end| < 8100
    ensures Interpret("transmit" + " " + argument + end) == Transmit(argument)
  {
    hide Interpret, LineEnds, Clean;
    ReadBack("transmit", argument, end, Transmit(argument));
  }

  lemma ReadClose(argument: string, end: string)
    requires '\0' !in argument && LineEnds(end) && Clean("close" + " " + argument) && |argument| + |end| < 8100
    ensures Interpret("close" + " " + argument + end) == Close(argument)
  {
    hide Interpret, LineEnds, Clean;
    ReadBack("close", argument, end, Close(argument));
  }

  lemma Limits()
    ensures MAX_AID == 64 && MAX_APDU == 2048
  {}

  lemma Obeys(s: Session, text: string, script: Script)
    ensures var c, after := Interpret(text), Obey(s, Input(text, script));
      && (c.Open? ==> after == CommandOpen(s, c.aid, script))
      && (c.Transmit? ==> after == CommandTransmit(s, c.apdu, script))
      && (c.Close? ==> after == CommandClose(s, c.channel, script))
  {
    hide Interpret, CommandOpen, CommandTransmit, CommandClose, CommandSlots;
  }

  lemma OpenSends(s: Session, text: string, aid: seq<byte>, script: Script)
    requires s.channel.None? && HexDecode(text, MAX_AID) == Some(aid)
    ensures CommandOpen(s, text, script).log ==
      s.log + [Asked(Message(UIM, ClientByte(s), s.drawn + 1, 0x42, OpenTlvs(s.slot, aid)), script)]
  {
    hide HexDecode, OpenTlvs, IsAccepted, OutcomeOf, Field;
  }

  lemma CloseSends(s: Session, text: string, script: Script)
    requires s.channel.Some? && s.channel.value <= 19 && LongOf(text) == Some(s.channel.value as int)
    ensures CommandClose(s, text, script).log ==
      s.log + [Asked(Message(UIM, ClientByte(s), s.drawn + 1, 0x3F, CloseTlvs(s.slot, s.channel.value)), script)]
  {
    hide LongOf, CloseTlvs, IsAccepted, OutcomeOf;
  }

  /** Every AID that is written after the word `open` is opened, whatever the line ends are. */
  lemma OpenLine(s: Session, aid: seq<byte>, end: string, script: Script)
    requires s.channel.None? && 0 < |aid| <= 64 && LineEnds(end) && |end| < 1000
    ensures var text := "open" + " " + HexEncode(aid) + end;
      Obey(s, Input(text, script)).log ==
      s.log + [Asked(Message(UIM, ClientByte(s), s.drawn + 1, 0x42, OpenTlvs(s.slot, aid)), script)]
  {
    hide *;
    Limits();
    var a := HexEncode(aid);
    HexIsClean("open", aid);
    HexDecodes(aid, MAX_AID);
    ReadOpen(a, end);
    Obeys(s, "open" + " " + a + end, script);
    OpenSends(s, a, aid, script);
  }

  /** Every APDU that is written after the word `transmit` is sent to the open channel. */
  lemma TransmitLine(s: Session, apdu: seq<byte>, end: string, script: Script)
    requires s.channel.Some? && 0 < |apdu| <= 2048 && LineEnds(end) && |end| < 1000
    ensures var text := "transmit" + " " + HexEncode(apdu) + end;
      Obey(s, Input(text, script)).log == s.log +
        [Asked(Message(UIM, ClientByte(s), s.drawn + 1, 0x3B, TransmitTlvs(s.slot, apdu, s.channel.value)), script)]
  {
    hide *;
    Limits();
    var a := HexEncode(apdu);
    HexIsClean("transmit", apdu);
    HexDecodes(apdu, MAX_APDU);
    ReadTransmit(a, end);
    Obeys(s, "transmit" + " " + a + end, script);
    TransmitSends(s, a, apdu, script);
    assert TransmitMessage(s, apdu) ==
      Message(UIM, ClientByte(s), s.drawn + 1, 0x3B, TransmitTlvs(s.slot, apdu, s.channel.value)) by {
      TransmitIs(s, apdu);
    }
  }

  lemma TransmitIs(s: Session, apdu: seq<byte>)
    requires s.channel.Some?
    ensures TransmitMessage(s, apdu) ==
      Message(UIM, ClientByte(s), s.drawn + 1, 0x3B, TransmitTlvs(s.slot, apdu, s.channel.value))
  {
    hide TransmitTlvs;
  }

  /** The open channel's number after the word `close` asks the modem to close it, up to 19. */
  lemma CloseLine(s: Session, end: string, script: Script)
    requires s.channel.Some? && s.channel.value <= 19 && LineEnds(end) && |end| < 1000
    ensures var text := "close" + " " + DecimalText(s.channel.value) + end;
      Obey(s, Input(text, script)).log ==
      s.log + [Asked(Message(UIM, ClientByte(s), s.drawn + 1, 0x3F, CloseTlvs(s.slot, s.channel.value)), script)]
  {
    hide *;
    var a := DecimalText(s.channel.value);
    ShortNumber(s.channel.value);
    DigitsStay(a);
    DecimalRoundTrip(s.channel.value);
    NumberIsClean("close", a);
    ReadClose(a, end);
    Obeys(s, "close" + " " + a + end, script);
    CloseSends(s, a, script);
  }

  lemma NumberIsClean(word: string, text: string)
    requires |text| > 0 && AllDigits(text)
    ensures '\0' !in text && Clean(word + " " + text)
  {}

  lemma ShortNumber(n: nat)
    requires n < 100
    ensures |DecimalText(n)| <= 2
  {}

  /** A pair of digits, of either case, that writes a byte. */
  predicate WritesByte(high: char, low: char, b: byte) {
    && (high == "0123456789abcdef"[b / 16] || high == "0123456789ABCDEF"[b / 16])
    && (low == "0123456789abcdef"[b % 16] || low == "0123456789ABCDEF"[b % 16])
  }

  predicate WritesBytes(text: string, data: seq<byte>) {
    |text| == 2 * |data| && forall i :: 0 <= i < |data| ==> WritesByte(text[2 * i], text[2 * i + 1], data[i])
  }

  lemma FirstByte(data: seq<byte>, h: nat, l: nat, rest: seq<byte>)
    requires h < 16 && l < 16 && |data| > 0
    ensures data == [h * 16 + l] + rest <==> h == data[0] / 16 && l == data[0] % 16 && rest == data[1..]
  {
    assert data == [data[0]] + data[1..];
    assert ([h * 16 + l] + rest)[1..] == rest;
  }

  lemma HexBytesFirst(text: string, data: seq<byte>)
    requires |text| >= 2 && |data| > 0
    ensures HexBytes(text) == Some(data) <==>
      && HexValue(text[0]) == Some(data[0] / 16) && HexValue(text[1]) == Some(data[0] % 16)
      && HexBytes(text[2..]) == Some(data[1..])
  {
    hide HexValue;
    if HexValue(text[0]).Some? && HexValue(text[1]).Some? && HexBytes(text[2..]).Some? {
      var h, l, rest := HexValue(text[0]).value, HexValue(text[1]).value, HexBytes(text[2..]).value;
      assert HexBytes(text) == Some([h * 16 + l] + rest);
      hide HexBytes;
      FirstByte(data, h, l, rest);
    } else {
      assert HexBytes(text) == None;
    }
  }

  lemma HexBytesShort(text: string, data: seq<byte>)
    requires |text| < 2 || |data| == 0
    ensures HexBytes(text) == Some(data) <==> |text| == 0 && |data| == 0
  {
    hide HexValue;
  }

  lemma {:induction false} HexBytesExact(text: string, data: seq<byte>)
    ensures HexBytes(text) == Some(data) <==> WritesBytes(text, data)
    decreases |text|
  {
    if |text| < 2 || |data| == 0 {
      HexBytesShort(text, data);
    } else {
      hide HexBytes, HexValue, WritesBytes;
      HexBytesFirst(text, data);
      HexDigitsExact(text[0], data[0] / 16);
      HexDigitsExact(text[1], data[0] % 16);
      HexBytesExact(text[2..], data[1..]);
      FirstByteWritten(text, data);
    }
  }

  lemma FirstByteWritten(text: string, data: seq<byte>)
    requires |text| >= 2 && |data| > 0
    ensures WritesBytes(text, data) <==> WritesByte(text[0], text[1], data[0]) && WritesBytes(text[2..], data[1..])
  {
    hide WritesByte;
    if WritesBytes(text[2..], data[1..]) && WritesByte(text[0], text[1], data[0]) {
      forall i | 0 < i < |data| ensures WritesByte(text[2 * i], text[2 * i + 1], data[i]) {
        assert text[2..][2 * (i - 1)] == text[2 * i] && text[2..][2 * (i - 1) + 1] == text[2 * i + 1];
        assert data[1..][i - 1] == data[i];
      }
    }
    if WritesBytes(text, data) {
      forall i | 0 <= i < |data| - 1 ensures WritesByte(text[2..][2 * i], text[2..][2 * i + 1], data[1..][i]) {
        assert text[2..][2 * i] == text[2 * (i + 1)] && text[2..][2 * i + 1] == text[2 * (i + 1) + 1];
        assert data[1..][i] == data[i + 1];
      }
    }
  }

  /** Hexadecimal arguments: exactly the texts that write some bytes, at most so many. */
  lemma HexDecodeExact(text: string, limit: nat, data: seq<byte>)
    ensures HexDecode(text, limit) == Some(data) <==> 0 < |data| <= limit && WritesBytes(text, data)
  {
    HexBytesExact(text, data);
    hide HexBytes, WritesByte;
  }

  // ---- the bytes of the requests ----

  function Low(t: nat): byte { t % 256 }

  function High(t: nat): byte { t / 256 % 256 }

  lemma AreaOf1(a: Tlv)
    ensures EncodeTlvs([a]) == EncodeTlv(a)
  {
    assert [a][1..] == [] && EncodeTlv(a) + [] == EncodeTlv(a);
  }

  lemma AreaOf2(a: Tlv, b: Tlv)
    ensures EncodeTlvs([a, b]) == EncodeTlv(a) + EncodeTlv(b)
  {
    assert [a, b][1..] == [b];
    AreaOf1(b);
  }

  lemma AreaOf3(a: Tlv, b: Tlv, c: Tlv)
    ensures EncodeTlvs([a, b, c]) == EncodeTlv(a) + (EncodeTlv(b) + EncodeTlv(c))
  {
    assert [a, b, c][1..] == [b, c];
    AreaOf2(b, c);
  }

  /** The allocation of a client id, the first request. */
  lemma AllocateBytes(draw: nat)
    requires draw > 0
    ensures Bytes(Message(CTL, 0, draw, ALLOCATE_CID, AllocateTlvs())) ==
      [0x01, 15, 0, 0x00, 0x00, 0x00, 0x00, Low(Transaction(draw)), 0x22, 0x00, 4, 0, 0x01, 1, 0, 0x0B]
  {
    AreaOf1(AllocateTlvs()[0]);
    hide EncodeTlvs;
  }

  /** Its release, the last one. */
  lemma ReleaseBytes(draw: nat, client: byte)
    requires draw > 0
    ensures Bytes(Message(CTL, 0, draw, RELEASE_CID, ReleaseTlvs(client))) ==
      [0x01, 16, 0, 0x00, 0x00, 0x00, 0x00, Low(Transaction(draw)), 0x23, 0x00, 5, 0, 0x01, 2, 0, 0x0B, client]
  {
    AreaOf1(ReleaseTlvs(client)[0]);
    hide EncodeTlvs;
  }

  /** Opening a channel to an AID on a slot. */
  lemma OpenBytes(slot: byte, client: byte, draw: nat, aid: seq<byte>)
    requires 0 < |aid| <= 64 && draw > 0
    ensures var t := Transaction(draw); var n := |aid|;
      Bytes(Message(UIM, client, draw, OPEN_LOGICAL_CHANNEL, OpenTlvs(slot, aid))) ==
      [0x01, 20 + n, 0, 0x00, 0x0B, client, 0x00, Low(t), High(t), 0x42, 0x00, 8 + n, 0,
       0x01, 1, 0, slot, 0x10, n + 1, 0, n] + aid
  {
    var ts := OpenTlvs(slot, aid);
    AreaOf2(ts[0], ts[1]);
    hide EncodeTlvs;
  }

  /** The header of a request of the UIM service before an area of so many bytes. */
  lemma UimHeader(client: byte, draw: nat, code: nat, area: nat)
    requires draw > 0 && code < 256
    ensures var t := Transaction(draw);
      Header(UIM, client, Counter(draw), code, 12 + area, area) ==
      [0x01, Low(12 + area), High(12 + area), 0x00, 0x0B, client, 0x00, Low(t), High(t), code, 0x00,
       Low(area), High(area)]
  {}

  lemma TransmitArea(slot: byte, apdu: seq<byte>, channel: byte)
    ensures var n := |apdu|;
      EncodeTlvs(TransmitTlvs(slot, apdu, channel)) ==
      [0x01, 1, 0, slot, 0x02, Low(n + 2), High(n + 2), Low(n), High(n)] + apdu + [0x10, 1, 0, channel]
  {
    var ts := TransmitTlvs(slot, apdu, channel);
    AreaOf3(ts[0], ts[1], ts[2]);
    hide EncodeTlvs;
  }

  lemma CloseArea(slot: byte, channel: byte)
    ensures EncodeTlvs(CloseTlvs(slot, channel)) == [0x01, 1, 0, slot, 0x11, 1, 0, channel, 0x13, 1, 0, 1]
  {
    var ts := CloseTlvs(slot, channel);
    AreaOf3(ts[0], ts[1], ts[2]);
    hide EncodeTlvs;
  }

  lemma UimBytes(client: byte, draw: nat, code: nat, ts: seq<Tlv>)
    requires draw > 0 && code < 256
    ensures var t := Transaction(draw); var area := EncodeTlvs(ts);
      Bytes(Message(UIM, client, draw, code, ts)) ==
      [0x01, Low(12 + |area|), High(12 + |area|), 0x00, 0x0B, client, 0x00, Low(t), High(t), code, 0x00,
       Low(|area|), High(|area|)] + area
  {
    UimHeader(client, draw, code, |EncodeTlvs(ts)|);
    hide EncodeTlvs, Header;
  }

  /** Sending an APDU to a channel. */
  lemma TransmitBytes(slot: byte, client: byte, draw: nat, apdu: seq<byte>, channel: byte)
    requires 0 < |apdu| <= 2048 && draw > 0
    ensures var t := Transaction(draw); var n := |apdu|;
      Bytes(Message(UIM, client, draw, SEND_APDU, TransmitTlvs(slot, apdu, channel))) ==
      [0x01, Low(25 + n), High(25 + n), 0x00, 0x0B, client, 0x00, Low(t), High(t), 0x3B, 0x00,
       Low(13 + n), High(13 + n)]
      + ([0x01, 1, 0, slot, 0x02, Low(n + 2), High(n + 2), Low(n), High(n)] + apdu + [0x10, 1, 0, channel])
  {
    TransmitArea(slot, apdu, channel);
    UimBytes(client, draw, SEND_APDU, TransmitTlvs(slot, apdu, channel));
    hide EncodeTlvs, TransmitTlvs, Bytes, Low, High;
  }

  /** Closing a channel. */
  lemma CloseBytes(slot: byte, client: byte, draw: nat, channel: byte)
    requires draw > 0
    ensures var t := Transaction(draw);
      Bytes(Message(UIM, client, draw, LOGICAL_CHANNEL, CloseTlvs(slot, channel))) ==
      [0x01, 24, 0, 0x00, 0x0B, client, 0x00, Low(t), High(t), 0x3F, 0x00, 12, 0]
      + [0x01, 1, 0, slot, 0x11, 1, 0, channel, 0x13, 1, 0, 1]
  {
    CloseArea(slot, channel);
    UimBytes(client, draw, LOGICAL_CHANNEL, CloseTlvs(slot, channel));
    hide EncodeTlvs, CloseTlvs, Bytes;
  }

  /** Asking for the slots. */
  lemma SlotsBytes(client: byte, draw: nat)
    requires draw > 0
    ensures var t := Transaction(draw);
      Bytes(Message(UIM, client, draw, GET_SLOT_STATUS, [])) ==
      [0x01, 12, 0, 0x00, 0x0B, client, 0x00, Low(t), High(t), 0x47, 0x00, 0, 0]
  {}
}
