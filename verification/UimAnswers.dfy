/** What a session says to its caller: which token each outcome of an exchange gets, against the
  * list of tokens that the program documents, and how a channel can be opened that no command
  * can close. */
module UimAnswers {
  import opened Basics
  import opened Options
  import opened Text
  import opened QmiFrames
  import opened QmiExchange
  import opened UimProtocol
  import opened UimModem

  function LastSaid(s: Session): Answer
    requires |s.said| > 0
  {
    s.said[|s.said| - 1]
  }

  function OpenMessage(s: Session, aid: seq<byte>): Message
    requires |aid| <= MAX_AID
  {
    UimMessage(Draw(s), OPEN_LOGICAL_CHANNEL, OpenTlvs(s.slot, aid))
  }

  // ---- answers that can be used ----

  predicate NamesChannel(o: Outcome) {
    IsAccepted(o) && Field(o, 0x10).Some? && |Field(o, 0x10).value| == 1
  }

  predicate HoldsData(o: Outcome) {
    && IsAccepted(o) && Field(o, 0x10).Some?
    && var v := Field(o, 0x10).value; |v| >= 2 && |v| == GetU16(v, 0) + 2 && GetU16(v, 0) <= MAX_APDU
  }

  predicate HoldsSlots(o: Outcome) {
    IsAccepted(o) && SlotReport.SlotsReply(Field(o, 0x10), Field(o, 0x11)).Reported?
  }

  /** A response to the request that is no such message even before its own fields are looked
    * at: its lengths disagree, or it has no standard result. */
  predicate NoMessage(o: Outcome) { o.ProtocolError? || (o.Payload? && ResultOf(o.tlvs) == NoResult) }

  /** The answers that the documentation of the tokens gives `protocol` to. */
  predicate Unparseable(o: Outcome, usable: bool) { NoMessage(o) || (IsAccepted(o) && !usable) }

  /** The token for each outcome: the modem's code for a refusal; for an answer that cannot be
    * parsed `device` when its lengths disagree, `qmi` with the code 0 when it has no result, and
    * `protocol` exactly when the request was accepted and the answer lacks its fields. So
    * `protocol` is said as documented if and only if the answer has right lengths and a result. */
  predicate TokenRule(o: Outcome, usable: bool, said: Answer) {
    && (o.TimedOut? ==> said == Err(Timeout)) && (o.Interrupted? ==> said == Err(State))
    && (o.DeviceError? || o.ProtocolError? ==> said == Err(Device))
    && (o.Payload? && ResultOf(o.tlvs).RefusedWith? ==> said == ErrQmi(ResultOf(o.tlvs).code))
    && (o.Payload? && ResultOf(o.tlvs) == NoResult ==> said == ErrQmi(0))
    && (said == Err(Protocol) <==> IsAccepted(o) && !usable)
    && ((said == Err(Protocol) <==> Unparseable(o, usable)) <==> !NoMessage(o))
  }

  lemma FailureTokens(o: Outcome)
    requires !IsAccepted(o)
    ensures TokenRule(o, false, Failure(o))
  {
    hide ResultOf;
  }

  lemma AcceptedTokens(o: Outcome, usable: bool, said: Answer)
    requires IsAccepted(o) && (said == Err(Protocol) <==> !usable)
    ensures TokenRule(o, usable, said)
  {
    hide ResultOf;
  }

  lemma OpenTokens(s: Session, text: string, aid: seq<byte>, script: Script)
    requires s.channel.None? && HexDecode(text, MAX_AID) == Some(aid)
    ensures var o := OutcomeOf(OpenMessage(s, aid), script);
      TokenRule(o, NamesChannel(o), LastSaid(CommandOpen(s, text, script)))
  {
    var o := OutcomeOf(OpenMessage(s, aid), script);
    hide OutcomeOf, OpenTlvs, HexDecode, TokenRule, Singleton, IsAccepted, Failure;
    if IsAccepted(o) {
      AcceptedTokens(o, NamesChannel(o), LastSaid(CommandOpen(s, text, script)));
    } else {
      FailureTokens(o);
    }
  }

  lemma TransmitTokens(s: Session, text: string, apdu: seq<byte>, script: Script)
    requires s.channel.Some? && HexDecode(text, MAX_APDU) == Some(apdu)
    ensures var o := OutcomeOf(TransmitMessage(s, apdu), script);
      TokenRule(o, HoldsData(o), LastSaid(CommandTransmit(s, text, script)))
  {
    var o := OutcomeOf(TransmitMessage(s, apdu), script);
    hide OutcomeOf, TransmitTlvs, HexDecode, HexEncode, TokenRule, Singleton, IsAccepted, Failure, GetU16;
    if IsAccepted(o) {
      AcceptedTokens(o, HoldsData(o), LastSaid(CommandTransmit(s, text, script)));
    } else {
      FailureTokens(o);
    }
  }

  lemma SlotsTokens(s: Session, script: Script)
    ensures var o := OutcomeOf(UimMessage(Draw(s), GET_SLOT_STATUS, []), script);
      TokenRule(o, HoldsSlots(o), LastSaid(CommandSlots(s, script)))
  {
    var o := OutcomeOf(UimMessage(Draw(s), GET_SLOT_STATUS, []), script);
    hide OutcomeOf, TokenRule, Singleton, IsAccepted, Failure, SlotReport.SlotsReply;
    if IsAccepted(o) {
      AcceptedTokens(o, HoldsSlots(o), LastSaid(CommandSlots(s, script)));
    } else {
      FailureTokens(o);
    }
  }

  /** A close that was asked has two answers only: `ok`, or `qmi` for every failure. It says
    * `qmi` as documented, exactly when the modem refused, if and only if an answer with a
    * result arrived. */
  lemma CloseTokens(s: Session, text: string, script: Script)
    requires s.channel.Some? && s.channel.value <= 19 && LongOf(text) == Some(s.channel.value as int)
    ensures var m := UimMessage(Draw(s), LOGICAL_CHANNEL, CloseTlvs(s.slot, s.channel.value));
      var o, said := OutcomeOf(m, script), LastSaid(CommandClose(s, text, script));
      && said == (if IsAccepted(o) then Ok else Err(Qmi))
      && ((said == Err(Qmi) <==> o.Payload? && ResultOf(o.tlvs).RefusedWith?) <==>
          o.Payload? && ResultOf(o.tlvs) != NoResult)
  {
    hide OutcomeOf, CloseTlvs, LongOf, ResultOf;
  }

  /** A response to the second request of client 1, an APDU, without any TLV, whose first length
    * field says 13 where 12 bytes follow the marker. */
  const LONGER: seq<byte> := [0x01, 13, 0, 0x80, 0x0B, 1, 0x02, 2, 0, 0x3B, 0, 0, 0]

  /** It says `device`; with the right length it would say `qmi` with the code 0. Neither is
    * the documented `protocol`. */
  lemma WrongLength(s: Session)
    requires s.channel.Some? && s.client == Some(1) && s.drawn == 1
    ensures LastSaid(CommandTransmit(s, "00", Script(true, [Arrived(LONGER)]))) == Err(Device)
    ensures LastSaid(CommandTransmit(s, "00", Script(true, [Arrived(LONGER[1 := 12])]))) == ErrQmi(0)
  {
    ZeroByte();
    var m := TransmitMessage(s, [0]);
    LongerAnswers(Id(m));
    TransmitTokens(s, "00", [0], Script(true, [Arrived(LONGER)]));
    TransmitTokens(s, "00", [0], Script(true, [Arrived(LONGER[1 := 12])]));
    hide CommandTransmit, HexDecode, Exchange, ResultOf;
  }

  lemma ZeroByte()
    ensures HexDecode("00", MAX_APDU) == Some([0])
  {
    assert "00"[2..] == "";
    assert [0] + [] == [0];
    assert HexBytes("00") == Some([0 * 16 + 0] + []);
  }

  /** The outcome of a response without TLVs, by its first length field. */
  lemma BareResponse(frame: seq<byte>, id: Identity)
    requires id == Identity(UIM, 1, 2, SEND_APDU) && |frame| == 13
    requires frame[0] == 0x01 && frame[2] == 0 && frame[3] == 0x80 && frame[4] == UIM && frame[5] == 1
    requires frame[6] == 0x02 && frame[7] == 2 && frame[8] == 0 && frame[9] == 0x3B && frame[10] == 0
    requires frame[11] == frame[12] == 0
    ensures Exchange(id, Script(true, [Arrived(frame)])) == if frame[1] == 12 then Payload([]) else ProtocolError
  {
    assert frame[7..9] == [frame[7], frame[8]];
    assert frame[13..] == [];
  }

  lemma LongerAnswers(id: Identity)
    requires id == Identity(UIM, 1, 2, SEND_APDU)
    ensures Exchange(id, Script(true, [Arrived(LONGER)])) == ProtocolError
    ensures var o := Exchange(id, Script(true, [Arrived(LONGER[1 := 12])])); o.Payload? && ResultOf(o.tlvs) == NoResult
  {
    hide Exchange;
    BareResponse(LONGER, id);
    BareResponse(LONGER[1 := 12], id);
    assert ParseTlvs([]) == Some([]) && Matching([], 0x02) == [];
  }

  // ---- what an open that was granted says ----

  /** An exchange whose one message names a channel and gives a status of the card. */
  function WithCard(m: Message, channel: byte, card: seq<byte>): Script {
    var area := EncodeTlvs([Tlv(0x02, [0, 0, 0, 0]), Tlv(0x10, [channel]), Tlv(0x11, card)]);
    Script(true, [Arrived(Response(Id(m), HeaderLength(m.service) - 1 + |area|, |area|, area))])
  }

  lemma CardArea(channel: byte, card: seq<byte>)
    requires |card| < 60000
    ensures var ts := [Tlv(0x02, [0, 0, 0, 0]), Tlv(0x10, [channel]), Tlv(0x11, card)];
      && |EncodeTlvs(ts)| == 14 + |card| && Sized(ts)
      && Matching(ts, 0x02) == [[0, 0, 0, 0]] && Matching(ts, 0x10) == [[channel]] && Matching(ts, 0x11) == [card]
  {
    var ts := [Tlv(0x02, [0, 0, 0, 0]), Tlv(0x10, [channel]), Tlv(0x11, card)];
    Encoded3(ts[0], ts[1], ts[2]);
    hide EncodeTlvs;
    assert ts[1..][1..] == [Tlv(0x11, card)];
    assert Matching(ts[1..][1..], 0x11) == [card] && Matching(ts[1..][1..], 0x10) == [] == Matching(ts[1..][1..], 0x02);
  }

  lemma CardAnswers(m: Message, channel: byte, card: seq<byte>)
    requires m.code < 65536 && |card| < 60000
    ensures var o := OutcomeOf(m, WithCard(m, channel, card));
      IsAccepted(o) && Field(o, 0x10) == Some([channel]) && Field(o, 0x11) == Some(card)
  {
    var ts := [Tlv(0x02, [0, 0, 0, 0]), Tlv(0x10, [channel]), Tlv(0x11, card)];
    CardArea(channel, card);
    OneAnswer(Id(m), HeaderLength(m.service) - 1 + |EncodeTlvs(ts)|, |EncodeTlvs(ts)|, EncodeTlvs(ts));
    SingletonOfEncoding(ts, 0x02);
    SingletonOfEncoding(ts, 0x10);
    SingletonOfEncoding(ts, 0x11);
    hide EncodeTlvs, Exchange, Singleton, Matching;
  }

  lemma OpenReports(s: Session, text: string, aid: seq<byte>, script: Script, channel: byte, card: seq<byte>)
    requires s.channel.None? && HexDecode(text, MAX_AID) == Some(aid)
    requires var o := OutcomeOf(OpenMessage(s, aid), script);
      IsAccepted(o) && Field(o, 0x10) == Some([channel]) && Field(o, 0x11) == Some(card)
    ensures LastSaid(CommandOpen(s, text, script)) ==
      if |card| == 2 then Channel(channel, card[0], card[1]) else Channel(channel, 0x90, 0x00)
  {
    hide HexDecode, OutcomeOf, IsAccepted, Field, OpenTlvs;
  }

  /** The channel that the modem named, and the card's two status bytes, or 9000 when it gave
    * other than two. */
  lemma OpenSays(s: Session, aid: seq<byte>, channel: byte, card: seq<byte>)
    requires s.channel.None? && 0 < |aid| <= 64 && |card| < 60000
    ensures LastSaid(CommandOpen(s, HexEncode(aid), WithCard(OpenMessage(s, aid), channel, card))) ==
      if |card| == 2 then Channel(channel, card[0], card[1]) else Channel(channel, 0x90, 0x00)
  {
    OpenCode(s, aid);
    hide CommandOpen, LastSaid, OpenMessage, HexDecode, HexEncode, WithCard, OutcomeOf, IsAccepted, Field;
    HexDecodes(aid, MAX_AID);
    CardAnswers(OpenMessage(s, aid), channel, card);
    OpenReports(s, HexEncode(aid), aid, WithCard(OpenMessage(s, aid), channel, card), channel, card);
  }

  lemma OpenCode(s: Session, aid: seq<byte>)
    requires |aid| <= MAX_AID
    ensures OpenMessage(s, aid).code < 65536
  {
    hide OpenTlvs;
  }

  // ---- channels that no command can close ----

  /** An exchange whose one message grants an open and names this channel. */
  function Granting(m: Message, channel: byte): Script {
    var area := EncodeTlvs([Tlv(0x02, [0, 0, 0, 0]), Tlv(0x10, [channel])]);
    Script(true, [Arrived(Response(Id(m), HeaderLength(m.service) + 10, 11, area))])
  }

  lemma GrantingNames(m: Message, channel: byte)
    requires m.code < 65536
    ensures var o := OutcomeOf(m, Granting(m, channel)); IsAccepted(o) && Field(o, 0x10) == Some([channel])
  {
    var ts := [Tlv(0x02, [0, 0, 0, 0]), Tlv(0x10, [channel])];
    Encoded2(ts[0], ts[1]);
    OneAnswer(Id(m), HeaderLength(m.service) + 10, 11, EncodeTlvs(ts));
    SingletonOfEncoding(ts, 0x02);
    SingletonOfEncoding(ts, 0x10);
    hide EncodeTlvs, Exchange, Singleton;
    assert ts[1..] == [Tlv(0x10, [channel])];
    assert Matching(ts[1..], 0x02) == [] && Matching(ts[1..], 0x10) == [[channel]];
  }

  /** A modem may name any channel for any AID; the command that names the channel back closes
    * it only up to 19. From 20 on it is refused without a question and the channel stays. */
  lemma AnyChannelOpens(s: Session, aid: seq<byte>, channel: byte, closing: Script)
    requires s.channel.None? && 0 < |aid| <= MAX_AID
    ensures var named := CommandOpen(s, HexEncode(aid), Granting(OpenMessage(s, aid), channel));
      var after := CommandClose(named, DecimalText(channel), closing);
      && named.channel == Some(channel)
      && (channel >= 20 ==> after == Say(named, Err(Usage)))
      && (channel < 20 ==> |after.log| == |named.log| + 1)
  {
    HexDecodes(aid, MAX_AID);
    GrantingNames(OpenMessage(s, aid), channel);
    DigitsStay(DecimalText(channel));
    DecimalRoundTrip(channel);
    hide HexDecode, HexEncode, Granting, OutcomeOf, IsAccepted, Field, LongOf, OpenTlvs, CloseTlvs;
  }

  function GrantingAnswer(m: Message, channel: byte): seq<byte> { Granting(m, channel).events[0].frame }

  lemma AnswerGrants(m: Message, channel: byte)
    requires m.service == UIM && m.code < 65536
    ensures var answer := GrantingAnswer(m, channel);
      && Answers(answer, Id(m)) && Grants(answer, UIM) && Singleton(answer[13..], 0x10) == Some([channel])
      && OutcomeOf(m, Granting(m, channel)).Payload?
  {
    var area := EncodeTlvs([Tlv(0x02, [0, 0, 0, 0]), Tlv(0x10, [channel])]);
    GrantingNames(m, channel);
    AnswerAnswers(Id(m), HeaderLength(m.service) + 10, 11, area);
    Encoded2(Tlv(0x02, [0, 0, 0, 0]), Tlv(0x10, [channel]));
    OneAnswer(Id(m), HeaderLength(m.service) + 10, 11, area);
    hide EncodeTlvs, Exchange, Answers, Response, Singleton, ResultOf;
  }

  lemma GrantingSteps(m: Message, client: byte, channel: byte)
    requires Opens(m) && FitsBuffer(m.service, m.tlvs)
    ensures ModemStep({}, client, Bytes(m), GrantingAnswer(m, channel), {channel})
  {
    AskedTheSame(m);
    AnswerGrants(m, channel);
    hide FitsBuffer, Grants, Asks, Singleton, Bytes, GrantingAnswer, Answers, OutcomeOf;
    var after: set<byte> := {} + {channel};
    assert after == {channel};
  }

  lemma OneStepLog(e: Step)
    requires e.Asked? && Proper(None, e.message)
    ensures Disciplined([e]) && SentOf([e]) == [SentAs(e.message)] && [e][..1] == [e] && Number([e], 0) == 0
  {
    Appended([], e);
    FirstStep(e);
    assert [e][..0] == [];
    hide Proper;
  }

  function GrantingTrace(m: Message, channel: byte): Trace {
    Trace([{}, {channel}], [GrantingAnswer(m, channel)], [[Some(0)]])
  }

  lemma GrantingKept(m: Message, channel: byte)
    requires Opens(m) && Proper(None, m) && m.draw > 0
    ensures var log := [Asked(m, Granting(m, channel))]; WellKept(log, m.client) && NothingLost(log)
  {
    AnswerGrants(m, channel);
    OneStepLog(Asked(m, Granting(m, channel)));
    hide Granting, GrantingAnswer, Proper, Answers, Grants, Singleton, OutcomeOf, Disciplined, SentOf;
  }

  lemma GrantingTraced(m: Message, channel: byte)
    requires Opens(m) && Proper(None, m) && m.draw > 0
    ensures var script := Granting(m, channel);
      && Traced([Asked(m, script)], 0, [Some(0)], m.client)
      && Delivered(script.events, [Some(0)], [GrantingAnswer(m, channel)])
  {
    AnswerGrants(m, channel);
    OneStepLog(Asked(m, Granting(m, channel)));
    hide Proper, Answers, Grants, Singleton, OutcomeOf, Disciplined, SentOf;
  }

  /** Such a modem goes through such a log, and then holds the channel that it named. */
  lemma GrantingHappens(m: Message, channel: byte)
    requires Opens(m) && Proper(None, m) && m.draw > 0
    ensures var log, trace := [Asked(m, Granting(m, channel))], GrantingTrace(m, channel);
      && WellKept(log, m.client) && NothingLost(log) && Happened(log, trace, m.client)
      && trace.states[1] == {channel}
  {
    GrantingKept(m, channel);
    GrantingSteps(m, m.client, channel);
    GrantingTraced(m, channel);
    OneStepLog(Asked(m, Granting(m, channel)));
    hide WellKept, NothingLost, Proper, ModemStep, Bytes, Granting, GrantingAnswer, Traced, Delivered, Disciplined,
      SentOf, Number;
  }
}
