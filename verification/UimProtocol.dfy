/** A session on values: what every command sends and answers, and what every run keeps. */
module UimProtocol {
  import opened Basics
  import opened Options
  import opened Text
  import opened QmiFrames
  import opened QmiExchange
  import SlotReport

  const OPEN_LOGICAL_CHANNEL := 0x0042
  const LOGICAL_CHANNEL := 0x003F
  const SEND_APDU := 0x003B
  const GET_SLOT_STATUS := 0x0047

  const MAX_AID := 64
  const MAX_APDU := 2048
  const LINE_BUFFER := 8192

  // ---- hexadecimal text ----

  function HexBytes(text: string): (r: Option<seq<byte>>)
    ensures r.Some? ==> 2 * |r.value| == |text|
  {
    if |text| == 0 then Some([])
    else if |text| == 1 then None
    else
      var high, low := HexValue(text[0]), HexValue(text[1]);
      if high == None || low == None then None
      else
        match HexBytes(text[2..])
        case None => None
        case Some(rest) => Some([high.value * 16 + low.value] + rest)
  }

  /** The bytes of an even, non-empty run of digits that fits; never a part of them. */
  function HexDecode(text: string, limit: nat): (r: Option<seq<byte>>)
    ensures r.Some? ==> 0 < |r.value| <= limit
  {
    if |text| == 0 || |text| % 2 != 0 || |text| / 2 > limit then None else HexBytes(text)
  }

  function HexDigit(v: nat): char
    requires v < 16
  {
    "0123456789abcdef"[v]
  }

  function HexPair(b: byte): (pair: string)
    ensures |pair| == 2
  {
    [HexDigit(b / 16), HexDigit(b % 16)]
  }

  function HexEncode(data: seq<byte>): string {
    if |data| == 0 then "" else HexPair(data[0]) + HexEncode(data[1..])
  }

  lemma DigitRoundTrip(v: nat)
    requires v < 16
    ensures HexValue(HexDigit(v)) == Some(v)
  {
    assert "0123456789abcdef"[v] in "0123456789abcdef";
  }

  lemma PairRoundTrip(b: byte, rest: string)
    ensures HexBytes(HexPair(b) + rest) == match HexBytes(rest) case None => None case Some(bytes) => Some([b] + bytes)
  {
    DigitRoundTrip(b / 16);
    DigitRoundTrip(b % 16);
    hide HexValue, HexDigit;
    assert (HexPair(b) + rest)[2..] == rest;
  }

  lemma {:induction false} HexRoundTrip(data: seq<byte>)
    ensures |HexEncode(data)| == 2 * |data| && HexBytes(HexEncode(data)) == Some(data)
  {
    if |data| > 0 {
      hide HexPair;
      HexRoundTrip(data[1..]);
      PairRoundTrip(data[0], HexEncode(data[1..]));
      assert [data[0]] + data[1..] == data;
    }
  }

  // ---- a line as a command ----

  datatype Command =
    | Quit | Slots | Ping | Unknown | TooLong
    | Open(aid: string) | Transmit(apdu: string) | Close(channel: string)

  function Stripped(line: string): string {
    if |line| > 0 && (line[|line| - 1] == '\n' || line[|line| - 1] == '\r') then Stripped(line[..|line| - 1]) else line
  }

  function UpTo(line: string, c: char): (n: nat)
    ensures n <= |line| && (n < |line| ==> line[n] == c) && c !in line[..n]
  {
    if |line| == 0 || line[0] == c then 0 else 1 + UpTo(line[1..], c)
  }

  /** The command of a first word and of what follows the blank after it, if there is one. */
  function Worded(verb: string, argument: Option<string>): Command {
    if verb == "quit" then Quit
    else if verb == "slots" then Slots
    else if verb == "ping" then Ping
    else if argument.None? then Unknown
    else if verb == "open" then Open(argument.value)
    else if verb == "transmit" then Transmit(argument.value)
    else if verb == "close" then Close(argument.value)
    else Unknown
  }

  function Interpret(text: string): Command {
    var whole := CString(text);
    if |whole| == LINE_BUFFER - 1 && whole[|whole| - 1] != '\n' then TooLong
    else
      var line := Stripped(whole);
      var n := UpTo(line, ' ');
      Worded(line[..n], if n == |line| then None else Some(line[n + 1..]))
  }

  function SkipSpaces(text: string): string {
    if |text| > 0 && (text[0] == ' ' || 9 <= text[0] as int <= 13) then SkipSpaces(text[1..]) else text
  }

  /** A decimal text with nothing after the number, as `strtol` reads it. */
  function LongOf(text: string): Option<int> { SignedNumber(SkipSpaces(text)) }

  lemma {:induction false} DigitsStay(text: string)
    requires |text| > 0 && AllDigits(text)
    ensures LongOf(text) == Some(DecimalNumber(text))
  {}

  // ---- messages, the log and the session ----

  datatype Message = Message(service: byte, client: byte, draw: nat, code: nat, tlvs: seq<Tlv>)

  /** What the session did to the device: asked something, or closed it. */
  datatype Step = Asked(message: Message, script: Script) | DeviceClosed

  datatype Token = Usage | Device | Timeout | Qmi | Protocol | State

  datatype Answer =
    | Ready
    | Ok
    | Channel(channel: byte, sw1: byte, sw2: byte)
    | Data(hex: string)
    | SlotList(text: string)
    | Err(token: Token)
    | ErrQmi(code: nat)

  datatype Session = Session(slot: byte, device: bool, client: Option<byte>, channel: Option<byte>, drawn: nat,
                             log: seq<Step>, said: seq<Answer>)

  function Id(m: Message): Identity {
    Identity(m.service, m.client, Counter(m.draw), m.code)
  }

  function OutcomeOf(m: Message, script: Script): Outcome { Exchange(Id(m), script) }

  /** The result every answer must carry: accepted, or the error code the modem gave. */
  datatype Result = Accepted | RefusedWith(code: nat) | NoResult

  function ResultOf(tlvs: seq<byte>): Result {
    match Singleton(tlvs, 0x02)
    case None => NoResult
    case Some(v) =>
      if |v| != 4 then NoResult
      else if GetU16(v, 0) == 0 then Accepted
      else RefusedWith(GetU16(v, 2))
  }

  predicate IsAccepted(o: Outcome) { o.Payload? && ResultOf(o.tlvs) == Accepted }

  function Field(o: Outcome, kind: byte): Option<seq<byte>>
    requires o.Payload?
  {
    Singleton(o.tlvs, kind)
  }

  // ---- commands ----

  function Say(s: Session, a: Answer): Session { s.(said := s.said + [a]) }

  function Draw(s: Session): Session { s.(drawn := s.drawn + 1) }

  function ClientByte(s: Session): byte { if s.client.Some? then s.client.value else 255 }

  function Ask(s: Session, m: Message, script: Script): Session { s.(log := s.log + [Asked(m, script)]) }

  function UimMessage(s: Session, code: nat, tlvs: seq<Tlv>): Message {
    Message(UIM, ClientByte(s), s.drawn, code, tlvs)
  }

  function AllocateTlvs(): seq<Tlv> { [Tlv(0x01, [UIM])] }
  function ReleaseTlvs(client: byte): seq<Tlv> { [Tlv(0x01, [UIM, client])] }
  function OpenTlvs(slot: byte, aid: seq<byte>): seq<Tlv>
    requires |aid| < 256
  {
    [Tlv(0x01, [slot]), Tlv(0x10, [|aid|] + aid)]
  }
  function TransmitTlvs(slot: byte, apdu: seq<byte>, channel: byte): seq<Tlv> {
    [Tlv(0x01, [slot]), Tlv(0x02, U16(|apdu|) + apdu), Tlv(0x10, [channel])]
  }
  function CloseTlvs(slot: byte, channel: byte): seq<Tlv> {
    [Tlv(0x01, [slot]), Tlv(0x11, [channel]), Tlv(0x13, [1])]
  }

  /** The bytes of a request. */
  function Bytes(m: Message): seq<byte> { Request(m.service, m.client, Counter(m.draw), m.code, m.tlvs) }

  predicate FitsBuffer(service: byte, tlvs: seq<Tlv>) {
    Sized(tlvs) && HeaderLength(service) + |EncodeTlvs(tlvs)| <= QMI_BUFFER
  }

  lemma Encoded1(a: Tlv)
    ensures |EncodeTlvs([a])| == 3 + |a.value|
  {
    assert EncodeTlvs([a][1..]) == [];
  }

  lemma Encoded2(a: Tlv, b: Tlv)
    ensures |EncodeTlvs([a, b])| == 6 + |a.value| + |b.value|
  {
    assert [a, b][1..] == [b];
    Encoded1(b);
  }

  lemma Encoded3(a: Tlv, b: Tlv, c: Tlv)
    ensures |EncodeTlvs([a, b, c])| == 9 + |a.value| + |b.value| + |c.value|
  {
    assert [a, b, c][1..] == [b, c];
    Encoded2(b, c);
  }

  /** No request this program makes can overflow its buffer. */
  lemma RequestsFit(slot: byte, client: byte, channel: byte, aid: seq<byte>, apdu: seq<byte>)
    requires |aid| <= MAX_AID && |apdu| <= MAX_APDU
    ensures FitsBuffer(CTL, AllocateTlvs()) && FitsBuffer(CTL, ReleaseTlvs(client))
    ensures FitsBuffer(UIM, OpenTlvs(slot, aid)) && FitsBuffer(UIM, TransmitTlvs(slot, apdu, channel))
    ensures FitsBuffer(UIM, CloseTlvs(slot, channel)) && FitsBuffer(UIM, [])
  {
    Encoded1(AllocateTlvs()[0]);
    Encoded1(ReleaseTlvs(client)[0]);
    Encoded2(OpenTlvs(slot, aid)[0], OpenTlvs(slot, aid)[1]);
    var t := TransmitTlvs(slot, apdu, channel);
    Encoded3(t[0], t[1], t[2]);
    var c := CloseTlvs(slot, channel);
    Encoded3(c[0], c[1], c[2]);
    hide EncodeTlvs;
    assert EncodeTlvs([]) == [] by { EncodedNone(); }
  }

  lemma EncodedNone()
    ensures EncodeTlvs([]) == []
  {}

  /** The answer to a failed exchange, or to a payload that refuses the request. */
  function Failure(o: Outcome): Answer
    requires !IsAccepted(o)
  {
    match o
    case TimedOut => Err(Timeout)
    case Interrupted => Err(State)
    case DeviceError => Err(Device)
    case ProtocolError => Err(Device)
    case Payload(p) => ErrQmi(match ResultOf(p) case RefusedWith(code) => code case _ => 0)
  }

  function CommandOpen(before: Session, aidHex: string, script: Script): Session {
    var s := Draw(before);
    if s.channel.Some? then Say(s, Err(State))
    else
      match HexDecode(aidHex, MAX_AID)
      case None => Say(s, Err(Usage))
      case Some(aid) =>
        var m := UimMessage(s, OPEN_LOGICAL_CHANNEL, OpenTlvs(s.slot, aid));
        var o := OutcomeOf(m, script);
        var asked := Ask(s, m, script);
        if !IsAccepted(o) then Say(asked, Failure(o))
        else
          match Field(o, 0x10)
          case None => Say(asked, Err(Protocol))
          case Some(named) =>
            if |named| != 1 then Say(asked, Err(Protocol))
            else
              var card := Field(o, 0x11);
              var known := card.Some? && |card.value| == 2;
              Say(asked.(channel := Some(named[0])),
                  Channel(named[0], if known then card.value[0] else 0x90, if known then card.value[1] else 0x00))
  }

  function CommandTransmit(before: Session, apduHex: string, script: Script): Session {
    var s := Draw(before);
    if s.channel.None? then Say(s, Err(State))
    else
      match HexDecode(apduHex, MAX_APDU)
      case None => Say(s, Err(Usage))
      case Some(apdu) =>
        var m := UimMessage(s, SEND_APDU, TransmitTlvs(s.slot, apdu, s.channel.value));
        var o := OutcomeOf(m, script);
        var asked := Ask(s, m, script);
        if !IsAccepted(o) then Say(asked, Failure(o))
        else
          match Field(o, 0x10)
          case None => Say(asked, Err(Protocol))
          case Some(v) =>
            if |v| < 2 || |v| != GetU16(v, 0) + 2 || GetU16(v, 0) > MAX_APDU then Say(asked, Err(Protocol))
            else Say(asked, Data(HexEncode(v[2..])))
  }

  function CommandSlots(before: Session, script: Script): Session {
    var s := Draw(before);
    var m := UimMessage(s, GET_SLOT_STATUS, []);
    var o := OutcomeOf(m, script);
    var asked := Ask(s, m, script);
    if !IsAccepted(o) then Say(asked, Failure(o))
    else
      match SlotReport.SlotsReply(Field(o, 0x10), Field(o, 0x11))
      case Reported(text) => Say(asked, SlotList(text))
      case Refused(_) => Say(asked, Err(Protocol))
  }

  /** The close message for the open channel; the channel is forgotten by the caller. */
  function CloseChannel(before: Session, channel: byte, script: Script): Session {
    var s := Draw(before);
    Ask(s, UimMessage(s, LOGICAL_CHANNEL, CloseTlvs(s.slot, channel)), script)
  }

  function LastAccepted(s: Session): bool
    requires |s.log| > 0 && s.log[|s.log| - 1].Asked?
  {
    var e := s.log[|s.log| - 1];
    IsAccepted(OutcomeOf(e.message, e.script))
  }

  function CommandClose(s: Session, text: string, script: Script): Session {
    if s.channel.None? then Say(s, Err(State))
    else
      match LongOf(text)
      case None => Say(s, Err(Usage))
      case Some(v) =>
        if v < 0 || v > 19 then Say(s, Err(Usage))
        else if v != s.channel.value then Say(s, Err(State))
        else
          var asked := CloseChannel(s, s.channel.value, script);
          if LastAccepted(asked) then Say(asked.(channel := None), Ok) else Say(asked, Err(Qmi))
  }

  // ---- the life of a session ----

  function Begin(slot: byte): Session { Session(slot, true, None, None, 0, [], []) }

  /** The client id is what the answer names, if it names one for this service. */
  function Allocate(before: Session, script: Script): (Session, bool) {
    var s := Draw(before);
    var m := Message(CTL, 0, s.drawn, ALLOCATE_CID, AllocateTlvs());
    var o := OutcomeOf(m, script);
    var asked := Ask(s, m, script);
    if !IsAccepted(o) then (asked, false)
    else
      match Field(o, 0x01)
      case None => (asked, false)
      case Some(v) =>
        if |v| != 2 || v[0] != UIM then (asked, false) else (asked.(client := Some(v[1])), true)
  }

  function Release(before: Session, script: Script): Session {
    if before.client.None? then before
    else
      var s := Draw(before);
      Ask(s, Message(CTL, 0, s.drawn, RELEASE_CID, ReleaseTlvs(s.client.value)), script).(client := None)
  }

  function GiveBackChannel(s: Session, closing: Script): Session {
    if s.channel.Some? && s.device && s.client.Some?
    then CloseChannel(s, s.channel.value, closing).(channel := None) else s
  }

  function Cleanup(s: Session, closing: Script, releasing: Script): Session {
    var released := Release(GiveBackChannel(s, closing), releasing);
    if released.device then released.(device := false, log := released.log + [DeviceClosed]) else released
  }

  datatype Input = Input(line: string, script: Script)

  predicate Ends(input: Input) { Interpret(input.line) == Quit || Interpret(input.line) == TooLong }

  function Obey(s: Session, input: Input): Session {
    match Interpret(input.line)
    case TooLong => Say(s, Err(Protocol))
    case Quit => s
    case Slots => CommandSlots(s, input.script)
    case Ping => Say(s, Ok)
    case Open(aid) => CommandOpen(s, aid, input.script)
    case Transmit(apdu) => CommandTransmit(s, apdu, input.script)
    case Close(channel) => CommandClose(s, channel, input.script)
    case Unknown => Say(s, Err(Usage))
  }

  function Loop(s: Session, inputs: seq<Input>): Session
    decreases |inputs|
  {
    if |inputs| == 0 then s
    else if Ends(inputs[0]) then Obey(s, inputs[0])
    else Loop(Obey(s, inputs[0]), inputs[1..])
  }

  /** Everything from the opened device to the end of the loop, and to the exit. */
  function Served(slot: byte, allocating: Script, inputs: seq<Input>): Session {
    var (s, ok) := Allocate(Begin(slot), allocating);
    if ok then Loop(Say(s, Ready), inputs) else s
  }

  function Run(slot: byte, allocating: Script, inputs: seq<Input>, closing: Script, releasing: Script): Session {
    Cleanup(Served(slot, allocating, inputs), closing, releasing)
  }

  // ---- what a message asks ----

  /** The one value of a TLV type in a message; the modem's own search finds the same. */
  function Carried(m: Message, kind: byte): Option<seq<byte>> { Only(Matching(m.tlvs, kind)) }

  predicate Opens(m: Message) { m.service == UIM && m.code == OPEN_LOGICAL_CHANNEL }
  predicate Closes(m: Message) { m.service == UIM && m.code == LOGICAL_CHANNEL }
  predicate Releases(m: Message) { m.service == CTL && m.code == RELEASE_CID }

  // ---- what every run keeps ----

  /** The channel that the answers of a log leave open, as the session understands them. */
  function Believed(log: seq<Step>): Option<byte> {
    if |log| == 0 then None
    else
      var channel, last := Believed(log[..|log| - 1]), log[|log| - 1];
      if !last.Asked? || !IsAccepted(OutcomeOf(last.message, last.script)) then channel
      else if Closes(last.message) then None
      else if !Opens(last.message) then channel
      else
        var named := Field(OutcomeOf(last.message, last.script), 0x10);
        if named.Some? && |named.value| == 1 then Some(named.value[0]) else channel
  }

  /** A message that is proper when one channel, or none, is open: it fits the buffer, a channel
    * is opened only when none is, and an APDU or a close goes to the open one. */
  predicate Proper(channel: Option<byte>, m: Message) {
    && FitsBuffer(m.service, m.tlvs) && m.code < 65536
    && (Opens(m) ==> channel.None?)
    && (m.service == UIM && m.code == SEND_APDU ==> channel.Some? && Carried(m, 0x10) == Some([channel.value]))
    && (Closes(m) ==> channel.Some? && Carried(m, 0x11) == Some([channel.value]) && Carried(m, 0x13) == Some([1]))
  }

  predicate Disciplined(log: seq<Step>) {
    |log| > 0 ==>
      var last := log[|log| - 1];
      Disciplined(log[..|log| - 1]) && (last.Asked? ==> Proper(Believed(log[..|log| - 1]), last.message))
  }

  function SentAs(m: Message): Sent { Sent(m.service, m.client, m.draw, m.code) }

  /** The requests of a log, in order. */
  function SentOf(log: seq<Step>): seq<Sent> {
    if |log| == 0 then []
    else
      var last := log[|log| - 1];
      SentOf(log[..|log| - 1]) + (if last.Asked? then [SentAs(last.message)] else [])
  }

  /** The allocation, then requests of the UIM service with one client id. */
  predicate Orderly(sent: seq<Sent>, drawn: nat, client: byte) {
    && |sent| > 0 && SessionOrder(sent)
    && (forall i :: 0 <= i < |sent| ==> sent[i].draw <= drawn)
    && (forall i :: 0 < i < |sent| ==> sent[i].service == UIM && sent[i].client == client)
    && sent[0].service == CTL && sent[0].client == 0 && sent[0].message == ALLOCATE_CID
  }

  /** Before the first command and between any two: the session believes what its answers say,
    * never asked the improper, and its requests are in the order that matching relies on. */
  predicate Settled(s: Session) {
    && s.device && Disciplined(s.log) && Believed(s.log) == s.channel
    && Orderly(SentOf(s.log), s.drawn, ClientByte(s))
  }

  predicate Keeps(s: Session) { Settled(s) && s.client.Some? }

  lemma Appended(log: seq<Step>, e: Step)
    ensures (log + [e])[..|log|] == log
    ensures SentOf(log + [e]) == SentOf(log) + if e.Asked? then [SentAs(e.message)] else []
    ensures Disciplined(log + [e]) <==> Disciplined(log) && (e.Asked? ==> Proper(Believed(log), e.message))
    ensures !e.Asked? || !IsAccepted(OutcomeOf(e.message, e.script)) ==> Believed(log + [e]) == Believed(log)
    ensures e.Asked? && IsAccepted(OutcomeOf(e.message, e.script)) && Closes(e.message) ==> Believed(log + [e]) == None
    ensures e.Asked? && !Closes(e.message) && !Opens(e.message) ==> Believed(log + [e]) == Believed(log)
    ensures e.Asked? && IsAccepted(OutcomeOf(e.message, e.script)) && Opens(e.message) ==>
      Believed(log + [e]) == var named := Field(OutcomeOf(e.message, e.script), 0x10);
        if named.Some? && |named.value| == 1 then Some(named.value[0]) else Believed(log)
  {
    hide IsAccepted, OutcomeOf, Proper, Field;
    assert (log + [e])[..|log|] == log;
  }

  lemma SentInOrder(sent: seq<Sent>, drawn: nat, client: byte, next: Sent)
    requires Orderly(sent, drawn, client) && next.service == UIM && next.client == client && next.draw == drawn + 1
    ensures Orderly(sent + [next], drawn + 1, client)
  {}

  /** One proper question more. */
  lemma AskKeeps(s: Session, m: Message, script: Script, after: Session)
    requires Keeps(s) && Proper(s.channel, m) && m.service == UIM && m.client == ClientByte(s)
    requires m.draw == s.drawn + 1
    requires after.device && after.client == s.client && after.drawn == s.drawn + 1
    requires after.log == s.log + [Asked(m, script)] && after.channel == Believed(after.log)
    ensures Keeps(after)
  {
    hide IsAccepted, OutcomeOf, Proper, Field, Orderly;
    Appended(s.log, Asked(m, script));
    SentInOrder(SentOf(s.log), s.drawn, ClientByte(s), Sent(m.service, m.client, m.draw, m.code));
  }

  /** No question. */
  lemma RestKeeps(s: Session, after: Session)
    requires Keeps(s) && after.device && after.client == s.client && after.channel == s.channel
    requires after.log == s.log && s.drawn <= after.drawn
    ensures Keeps(after)
  {
    hide Disciplined, Believed, SentOf;
  }

  lemma TransmitCarries(slot: byte, apdu: seq<byte>, channel: byte)
    ensures Only(Matching(TransmitTlvs(slot, apdu, channel), 0x10)) == Some([channel])
  {
    var ts := TransmitTlvs(slot, apdu, channel);
    assert ts[1..][1..] == [Tlv(0x10, [channel])];
    assert Matching(ts[1..][1..], 0x10) == [[channel]];
  }

  lemma TransmitCarriesApdu(slot: byte, apdu: seq<byte>, channel: byte)
    ensures Only(Matching(TransmitTlvs(slot, apdu, channel), 0x01)) == Some([slot])
    ensures Only(Matching(TransmitTlvs(slot, apdu, channel), 0x02)) == Some(U16(|apdu|) + apdu)
  {
    var ts := TransmitTlvs(slot, apdu, channel);
    assert ts[1..][1..] == [Tlv(0x10, [channel])];
    assert Matching(ts[1..][1..], 0x01) == [] == Matching(ts[1..][1..], 0x02);
  }

  lemma HexDecodes(data: seq<byte>, limit: nat)
    requires 0 < |data| <= limit
    ensures HexDecode(HexEncode(data), limit) == Some(data)
  {
    hide HexBytes, HexEncode;
    HexRoundTrip(data);
  }

  /** The APDU that a command gives in hexadecimal reaches the open channel byte for byte, and
    * the card's answer comes back the same way. */
  lemma TransmitDelivers(s: Session, apdu: seq<byte>, answer: seq<byte>, script: Script)
    requires s.channel.Some? && 0 < |apdu| <= MAX_APDU && |answer| <= MAX_APDU
    ensures var after := CommandTransmit(s, HexEncode(apdu), script);
      && |after.log| == |s.log| + 1 && after.log[|s.log|].Asked?
      && var m := after.log[|s.log|].message; var o := OutcomeOf(m, script);
         && Carried(m, 0x01) == Some([s.slot]) && Carried(m, 0x02) == Some(U16(|apdu|) + apdu)
         && Carried(m, 0x10) == Some([s.channel.value])
         && (IsAccepted(o) && Field(o, 0x10) == Some(U16(|answer|) + answer) ==>
               after.said == s.said + [Data(HexEncode(answer))])
  {
    var m := TransmitMessage(s, apdu);
    assert IsAccepted(OutcomeOf(m, script)) ==> OutcomeOf(m, script).Payload?;
    hide *;
    HexDecodes(apdu, MAX_APDU);
    TransmitSends(s, HexEncode(apdu), apdu, script);
    CarriedIs(m, s.slot, apdu, s.channel.value);
    if IsAccepted(OutcomeOf(m, script)) && Field(OutcomeOf(m, script), 0x10) == Some(U16(|answer|) + answer) {
      TransmitAnswers(s, HexEncode(apdu), apdu, answer, script);
    }
  }

  function TransmitMessage(s: Session, apdu: seq<byte>): Message
    requires s.channel.Some?
  {
    UimMessage(Draw(s), SEND_APDU, TransmitTlvs(s.slot, apdu, s.channel.value))
  }

  lemma CarriedIs(m: Message, slot: byte, apdu: seq<byte>, channel: byte)
    requires m.tlvs == TransmitTlvs(slot, apdu, channel)
    ensures Carried(m, 0x01) == Some([slot]) && Carried(m, 0x02) == Some(U16(|apdu|) + apdu)
    ensures Carried(m, 0x10) == Some([channel])
  {
    TransmitCarries(slot, apdu, channel);
    TransmitCarriesApdu(slot, apdu, channel);
    hide TransmitTlvs, Matching, U16;
  }

  lemma TransmitSends(s: Session, text: string, apdu: seq<byte>, script: Script)
    requires s.channel.Some? && HexDecode(text, MAX_APDU) == Some(apdu)
    ensures CommandTransmit(s, text, script).log == s.log + [Asked(TransmitMessage(s, apdu), script)]
    ensures TransmitMessage(s, apdu).tlvs == TransmitTlvs(s.slot, apdu, s.channel.value)
  {
    hide HexDecode, HexEncode, TransmitTlvs, IsAccepted, OutcomeOf, Field, GetU16;
  }

  lemma TransmitAnswers(s: Session, text: string, apdu: seq<byte>, answer: seq<byte>, script: Script)
    requires s.channel.Some? && HexDecode(text, MAX_APDU) == Some(apdu) && |answer| <= MAX_APDU
    requires var o := OutcomeOf(TransmitMessage(s, apdu), script);
      IsAccepted(o) && Field(o, 0x10) == Some(U16(|answer|) + answer)
    ensures CommandTransmit(s, text, script).said == s.said + [Data(HexEncode(answer))]
  {
    hide HexDecode, HexEncode, TransmitTlvs, OutcomeOf, Field, U16;
    var v := U16(|answer|) + answer;
    U16RoundTrip(|answer|, [], answer);
    assert [] + U16(|answer|) + answer == v && v[2..] == answer;
    hide GetU16;
  }

  lemma CloseCarries(slot: byte, channel: byte)
    ensures Only(Matching(CloseTlvs(slot, channel), 0x11)) == Some([channel])
    ensures Only(Matching(CloseTlvs(slot, channel), 0x13)) == Some([1])
  {
    var ts := CloseTlvs(slot, channel);
    assert ts[1..][1..] == [Tlv(0x13, [1])];
    assert Matching(ts[1..][1..], 0x13) == [[1]];
    assert Matching(ts[1..][1..], 0x11) == [];
  }

  // ---- every message is proper ----

  lemma ControlIsProper(channel: Option<byte>, client: byte, draw: nat)
    ensures Proper(channel, Message(CTL, 0, draw, ALLOCATE_CID, AllocateTlvs()))
    ensures Proper(channel, Message(CTL, 0, draw, RELEASE_CID, ReleaseTlvs(client)))
  {
    RequestsFit(0, client, 0, [], []);
    hide FitsBuffer;
  }

  lemma OpenIsProper(slot: byte, client: byte, draw: nat, aid: seq<byte>)
    requires |aid| <= MAX_AID
    ensures Proper(None, Message(UIM, client, draw, OPEN_LOGICAL_CHANNEL, OpenTlvs(slot, aid)))
  {
    RequestsFit(slot, client, 0, aid, []);
    hide FitsBuffer;
  }

  lemma TransmitIsProper(slot: byte, client: byte, draw: nat, apdu: seq<byte>, channel: byte)
    requires |apdu| <= MAX_APDU
    ensures Proper(Some(channel), Message(UIM, client, draw, SEND_APDU, TransmitTlvs(slot, apdu, channel)))
  {
    TransmitCarries(slot, apdu, channel);
    RequestsFit(slot, client, channel, [], apdu);
    hide FitsBuffer, TransmitTlvs, Matching;
  }

  lemma SlotsIsProper(channel: Option<byte>, client: byte, draw: nat)
    ensures Proper(channel, Message(UIM, client, draw, GET_SLOT_STATUS, []))
  {
    RequestsFit(0, client, 0, [], []);
    hide FitsBuffer;
  }

  lemma CloseIsProper(slot: byte, client: byte, draw: nat, channel: byte)
    ensures Proper(Some(channel), Message(UIM, client, draw, LOGICAL_CHANNEL, CloseTlvs(slot, channel)))
  {
    CloseCarries(slot, channel);
    RequestsFit(slot, client, channel, [], []);
    hide FitsBuffer, CloseTlvs, Matching;
  }

  // ---- every command keeps the invariant ----

  lemma OpenKeeps(s: Session, aid: string, script: Script)
    requires Keeps(s)
    ensures Keeps(CommandOpen(s, aid, script))
  {
    var a, after := HexDecode(aid, MAX_AID), CommandOpen(s, aid, script);
    assert s.device && Believed(s.log) == s.channel;
    hide Keeps, Failure, Believed, IsAccepted, OutcomeOf, Field, HexDecode, Proper, OpenTlvs;
    if s.channel.None? && a.Some? {
      var m := UimMessage(Draw(s), OPEN_LOGICAL_CHANNEL, OpenTlvs(s.slot, a.value));
      OpenIsProper(s.slot, m.client, m.draw, a.value);
      Appended(s.log, Asked(m, script));
      AskKeeps(s, m, script, after);
    } else {
      RestKeeps(s, after);
    }
  }

  lemma TransmitKeeps(s: Session, apdu: string, script: Script)
    requires Keeps(s)
    ensures Keeps(CommandTransmit(s, apdu, script))
  {
    var a, after := HexDecode(apdu, MAX_APDU), CommandTransmit(s, apdu, script);
    assert s.device && Believed(s.log) == s.channel;
    hide Keeps, Failure, GetU16, Believed, IsAccepted, OutcomeOf, Field, HexDecode, TransmitTlvs, HexEncode, Proper;
    if s.channel.Some? && a.Some? {
      var m := UimMessage(Draw(s), SEND_APDU, TransmitTlvs(s.slot, a.value, s.channel.value));
      TransmitIsProper(s.slot, m.client, m.draw, a.value, s.channel.value);
      Appended(s.log, Asked(m, script));
      AskKeeps(s, m, script, after);
    } else {
      RestKeeps(s, after);
    }
  }

  lemma SlotsKeeps(s: Session, script: Script)
    requires Keeps(s)
    ensures Keeps(CommandSlots(s, script))
  {
    assert s.device && Believed(s.log) == s.channel;
    hide Keeps, Believed, IsAccepted, OutcomeOf, Field, SlotReport.SlotsReply, Proper;
    var m := UimMessage(Draw(s), GET_SLOT_STATUS, []);
    SlotsIsProper(s.channel, m.client, m.draw);
    Appended(s.log, Asked(m, script));
    AskKeeps(s, m, script, CommandSlots(s, script));
  }

  function Closed(s: Session, script: Script): Session
    requires s.channel.Some?
  {
    var asked := CloseChannel(s, s.channel.value, script);
    if LastAccepted(asked) then asked.(channel := None) else asked
  }

  lemma CloseChannelKeeps(s: Session, script: Script)
    requires Keeps(s) && s.channel.Some?
    ensures Keeps(Closed(s, script))
  {
    assert s.device && Believed(s.log) == s.channel;
    hide Keeps, Believed, IsAccepted, OutcomeOf, Field, CloseTlvs, Proper;
    var m := UimMessage(Draw(s), LOGICAL_CHANNEL, CloseTlvs(s.slot, s.channel.value));
    CloseIsProper(s.slot, m.client, m.draw, s.channel.value);
    Appended(s.log, Asked(m, script));
    AskKeeps(s, m, script, Closed(s, script));
  }

  lemma CloseKeeps(s: Session, text: string, script: Script)
    requires Keeps(s)
    ensures Keeps(CommandClose(s, text, script))
  {
    var after := CommandClose(s, text, script);
    hide Keeps, CloseChannel, LongOf, LastAccepted;
    if s.channel.Some? && LongOf(text).Some? && LongOf(text).value == s.channel.value as int && s.channel.value <= 19 {
      CloseChannelKeeps(s, script);
      SaidKeeps(Closed(s, script), after);
    } else {
      SaidKeeps(s, after);
    }
  }

  lemma SaidKeeps(s: Session, after: Session)
    requires Keeps(s) && after.(said := s.said) == s
    ensures Keeps(after)
  {
    RestKeeps(s, after);
  }

  lemma ObeyKeeps(s: Session, input: Input)
    requires Keeps(s)
    ensures Keeps(Obey(s, input))
  {
    hide Keeps, Interpret, CommandOpen, CommandTransmit, CommandSlots, CommandClose;
    match Interpret(input.line)
    case Open(aid) => OpenKeeps(s, aid, input.script);
    case Transmit(apdu) => TransmitKeeps(s, apdu, input.script);
    case Slots => SlotsKeeps(s, input.script);
    case Close(text) => CloseKeeps(s, text, input.script);
    case Quit =>
    case _ => SaidKeeps(s, Obey(s, input));
  }

  /** For every command sequence and whatever the modem answers. */
  lemma {:induction false} LoopKeeps(s: Session, inputs: seq<Input>)
    requires Keeps(s)
    ensures Keeps(Loop(s, inputs))
    decreases |inputs|
  {
    hide Keeps, Obey, Interpret;
    if |inputs| > 0 {
      ObeyKeeps(s, inputs[0]);
      if !Ends(inputs[0]) { LoopKeeps(Obey(s, inputs[0]), inputs[1..]); }
    }
  }

  lemma AllocateKeeps(slot: byte, script: Script)
    ensures var (s, ok) := Allocate(Begin(slot), script);
      Settled(s) && s.channel.None? && (ok <==> s.client.Some?)
  {
    hide IsAccepted, OutcomeOf, Field, AllocateTlvs, Proper;
    var m := Message(CTL, 0, 1, ALLOCATE_CID, AllocateTlvs());
    ControlIsProper(None, 0, 1);
    Appended([], Asked(m, script));
    FirstStep(Asked(m, script));
    hide SentOf, Believed, Disciplined;
  }

  lemma FirstStep(e: Step)
    ensures [] + [e] == [e]
    ensures SentOf([]) == [] && Believed([]) == None && Disciplined([])
  {}

  // ---- the end of a session ----

  /** What giving back does to the log: the channel is closed first if one is open, then the
    * client id is released if there is one, and the device is closed last; nothing is left. */
  lemma CleanupOrder(s: Session, closing: Script, releasing: Script)
    requires s.device && (s.channel.Some? ==> s.client.Some?)
    ensures var end := Cleanup(s, closing, releasing);
      && !end.device && end.client.None? && end.channel.None?
      && var closes := if s.channel.None? then [] else
           var m := Message(UIM, ClientByte(s), s.drawn + 1, LOGICAL_CHANNEL, CloseTlvs(s.slot, s.channel.value));
           [Asked(m, closing)];
         var releases := if s.client.None? then [] else
           [Asked(Message(CTL, 0, s.drawn + |closes| + 1, RELEASE_CID, ReleaseTlvs(s.client.value)), releasing)];
         end.log == s.log + closes + releases + [DeviceClosed]
  {
    hide CloseTlvs, ReleaseTlvs;
    assert s.log + [] == s.log;
  }

  /** Everything a run did, for every command sequence and every answer or silence of the modem. */
  predicate Finished(end: Session, client: byte) {
    && !end.device && end.client.None? && end.channel.None?
    && Disciplined(end.log) && SessionOrder(SentOf(end.log))
    && OneClient(SentOf(end.log), client)
    && |end.log| > 0 && end.log[|end.log| - 1].DeviceClosed?
  }

  lemma CleanupFinishes(s: Session, closing: Script, releasing: Script)
    requires Settled(s) && (s.channel.Some? ==> s.client.Some?)
    ensures Finished(Cleanup(s, closing, releasing), ClientByte(s))
  {
    hide Settled, Disciplined, Believed, SentOf, SessionOrder, Orderly, GiveBackChannel, Release, Proper, IsAccepted,
      OutcomeOf;
    var closed := GiveBackChannel(s, closing);
    GivenBackIsDisciplined(s, closing);
    ReleaseIsDisciplined(closed, releasing, ClientByte(s));
    var log := Release(closed, releasing).log;
    Appended(log, DeviceClosed);
    assert SentOf(log) + [] == SentOf(log);
  }

  lemma GivenBackIsDisciplined(s: Session, closing: Script)
    requires Settled(s) && (s.channel.Some? ==> s.client.Some?)
    ensures var closed := GiveBackChannel(s, closing);
      && Disciplined(closed.log) && Orderly(SentOf(closed.log), closed.drawn, ClientByte(s))
      && closed.device && closed.channel.None?
  {
    hide IsAccepted, OutcomeOf, Field, CloseTlvs, Matching, LastAccepted;
    if s.channel.Some? {
      CloseCarries(s.slot, s.channel.value);
      CloseChannelKeeps(s, closing);
      hide Believed, SentOf, Disciplined;
      assert Closed(s, closing).log == GiveBackChannel(s, closing).log;
    }
  }

  lemma ReleaseIsDisciplined(s: Session, releasing: Script, client: byte)
    requires Disciplined(s.log) && Orderly(SentOf(s.log), s.drawn, client)
    ensures Disciplined(Release(s, releasing).log) && SessionOrder(SentOf(Release(s, releasing).log))
    ensures OneClient(SentOf(Release(s, releasing).log), client)
    ensures Release(s, releasing).device == s.device && Release(s, releasing).channel == s.channel
    ensures Release(s, releasing).client.None?
  {
    if s.client.Some? {
      hide IsAccepted, OutcomeOf, ReleaseTlvs, Believed, Proper;
      var m := Message(CTL, 0, s.drawn + 1, RELEASE_CID, ReleaseTlvs(s.client.value));
      ControlIsProper(Believed(s.log), s.client.value, s.drawn + 1);
      Appended(s.log, Asked(m, releasing));
      hide SentOf, Disciplined, Orderly, OneClient, SessionOrder;
      ReleaseInOrder(SentOf(s.log), s.drawn, client, Sent(CTL, 0, m.draw, RELEASE_CID));
    }
  }

  lemma ReleaseInOrder(sent: seq<Sent>, drawn: nat, client: byte, next: Sent)
    requires Orderly(sent, drawn, client) && next == Sent(CTL, 0, drawn + 1, RELEASE_CID)
    ensures SessionOrder(sent + [next]) && OneClient(sent + [next], client)
  {}

  lemma ServedIsSettled(slot: byte, allocating: Script, inputs: seq<Input>)
    ensures var s := Served(slot, allocating, inputs); Settled(s) && (s.channel.Some? ==> s.client.Some?)
  {
    var (s, ok) := Allocate(Begin(slot), allocating);
    AllocateKeeps(slot, allocating);
    hide Allocate, Disciplined, Believed, Orderly, SentOf;
    if ok {
      SaidKeeps(s, Say(s, Ready));
      LoopKeeps(Say(s, Ready), inputs);
    }
  }

  lemma EveryRun(slot: byte, allocating: Script, inputs: seq<Input>, closing: Script, releasing: Script)
    ensures Finished(Run(slot, allocating, inputs, closing, releasing), ClientByte(Served(slot, allocating, inputs)))
  {
    ServedIsSettled(slot, allocating, inputs);
    hide Served, Cleanup, Finished, Settled;
    CleanupFinishes(Served(slot, allocating, inputs), closing, releasing);
  }

  /** What the answer to the close leaves open: nothing, or the channel that was to be closed. */
  lemma GiveBackBelieves(s: Session, closing: Script)
    requires Settled(s) && (s.channel.Some? ==> s.client.Some?)
    ensures Believed(GiveBackChannel(s, closing).log) ==
      if s.channel.None? || LastAccepted(CloseChannel(s, s.channel.value, closing)) then None else s.channel
  {
    hide Disciplined, SentOf, Orderly, IsAccepted, OutcomeOf, Field, CloseTlvs;
    if s.channel.Some? {
      Appended(s.log, Asked(UimMessage(Draw(s), LOGICAL_CHANNEL, CloseTlvs(s.slot, s.channel.value)), closing));
    }
  }

  /** Every APDU of every run goes to the channel that is open at that moment, and every close
    * names it. */
  lemma {:induction false} EveryMessageIsProper(log: seq<Step>, i: nat)
    requires Disciplined(log) && i < |log| && log[i].Asked?
    ensures Disciplined(log[..i]) && Proper(Believed(log[..i]), log[i].message)
    decreases |log|
  {
    if i < |log| - 1 {
      EveryMessageIsProper(log[..|log| - 1], i);
      assert log[..|log| - 1][..i] == log[..i];
    }
  }

  /** A close command reaches the modem exactly when it names the open channel in decimal and
    * that channel is at most 19; so a channel from 20 on is given back by cleanup only. */
  lemma CloseReachesModem(s: Session, text: string, script: Script)
    ensures CommandClose(s, text, script).log != s.log <==>
      s.channel.Some? && s.channel.value <= 19 && LongOf(text) == Some(s.channel.value as int)
    ensures s.channel.Some? && s.channel.value >= 20 ==> CommandClose(s, text, script).channel == s.channel
  {
    hide LongOf, CloseTlvs, IsAccepted, OutcomeOf;
  }

  lemma {:induction false} SentPrefix(log: seq<Step>, n: nat)
    requires n <= |log|
    ensures SentOf(log[..n]) <= SentOf(log)
    decreases |log|
  {
    if n < |log| {
      SentPrefix(log[..|log| - 1], n);
      assert log[..|log| - 1][..n] == log[..n];
    } else {
      assert log[..n] == log;
    }
  }

  /** What matching needs of the messages that one exchange of a run met. */
  predicate Traced(log: seq<Step>, i: nat, origins: seq<Option<nat>>, client: byte)
    requires i < |log| && log[i].Asked?
  {
    var sent := SentOf(log[..i + 1]);
    |sent| > 0 && Provenance(log[i].script.events, origins, sent, client) && Punctual(origins, sent)
  }

  /** An answer that some exchange of a run accepted was made for the request of that exchange. */
  lemma RunAnswersMatch(log: seq<Step>, i: nat, origins: seq<Option<nat>>, client: byte) returns (turn: nat)
    requires SessionOrder(SentOf(log)) && OneClient(SentOf(log), client) && i < |log| && log[i].Asked?
    requires OutcomeOf(log[i].message, log[i].script).Payload? && Traced(log, i, origins, client)
    ensures turn < |log[i].script.events| && log[i].script.events[turn].Arrived?
    ensures origins[turn] == Some(|SentOf(log[..i])|)
    ensures var frame := log[i].script.events[turn].frame; var h := HeaderLength(log[i].message.service);
      |frame| >= h && OutcomeOf(log[i].message, log[i].script).tlvs == frame[h..]
  {
    hide SentOf, SessionOrder, OneClient, Punctual, Exchange, Provenance;
    var sent := SentOf(log[..i + 1]);
    SentPrefix(log, i + 1);
    FewerInOrder(sent, SentOf(log));
    assert log[..i + 1] == log[..i] + [log[i]];
    Appended(log[..i], log[i]);
    FewerOfOneClient(sent, SentOf(log), client);
    turn := PayloadAnswersCurrentRequest(sent, client, log[i].script, origins);
  }

  lemma FewerInOrder(fewer: seq<Sent>, sent: seq<Sent>)
    requires SessionOrder(sent) && fewer <= sent
    ensures SessionOrder(fewer)
  {
    assert forall i :: 0 <= i < |fewer| ==> fewer[i] == sent[i];
  }

  lemma FewerOfOneClient(fewer: seq<Sent>, sent: seq<Sent>, client: byte)
    requires OneClient(sent, client) && fewer <= sent
    ensures OneClient(fewer, client)
  {
    assert forall i :: 0 <= i < |fewer| ==> fewer[i] == sent[i];
  }
}
