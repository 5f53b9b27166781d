/** The UIM transport process: its fields, the bytes it writes, and its commands, each proved
  * to do what the session on values does. */
module UimSession {
  import opened Basics
  import opened Options
  import opened Text
  import opened QmiFrames
  import opened QmiExchange
  import opened UimProtocol

  function Frames(log: seq<Step>): seq<seq<byte>> {
    if |log| == 0 then []
    else
      var last := log[|log| - 1];
      Frames(log[..|log| - 1]) + if last.Asked? then [Bytes(last.message)] else []
  }

  lemma FramesAppended(log: seq<Step>, e: Step)
    ensures Frames(log + [e]) == Frames(log) + if e.Asked? then [Bytes(e.message)] else []
  {
    hide Bytes;
    assert (log + [e])[..|log|] == log;
  }

  // ---- hexadecimal ----

  method DecodeHex(text: string, limit: nat) returns (r: Option<seq<byte>>)
    ensures r == HexDecode(text, limit)
  {
    hide HexValue;
    if |text| == 0 || |text| % 2 != 0 || |text| / 2 > limit { return None; }
    var out: seq<byte> := [];
    var i := 0;
    assert text[0..] == text;
    OnwardFrom([], [], HexBytes(text));
    while i < |text|
      invariant 0 <= i <= |text| && i % 2 == 0
      invariant HexBytes(text) == Onward(out, HexBytes(text[i..]))
    {
      var high, low := HexValue(text[i]), HexValue(text[i + 1]);
      assert text[i..][2..] == text[i + 2..];
      if high == None || low == None { return None; }
      OnwardFrom(out, [high.value * 16 + low.value], HexBytes(text[i + 2..]));
      out := out + [high.value * 16 + low.value];
      i := i + 2;
    }
    assert out + [] == out;
    return Some(out);
  }

  method EncodeHex(data: seq<byte>) returns (out: string)
    ensures out == HexEncode(data)
  {
    out := "";
    assert data[0..] == data;
    for i := 0 to |data|
      invariant HexEncode(data) == out + HexEncode(data[i..])
    {
      assert data[i..][1..] == data[i + 1..];
      out := out + [HexDigit(data[i] / 16), HexDigit(data[i] % 16)];
    }
  }

  /** 0 for success, 1 for a refusal with its code, -1 for no standard result. */
  method QmiResult(tlvs: seq<byte>) returns (status: int, code: nat)
    ensures match ResultOf(tlvs)
      case Accepted => status == 0
      case RefusedWith(c) => status == 1 && code == c
      case NoResult => status == -1 && code == 0
  {
    var value := FindTlv(tlvs, 0x02);
    if value == None || |value.value| != 4 { return -1, 0; }
    code := GetU16(value.value, 2);
    status := if GetU16(value.value, 0) == 0 then 0 else 1;
  }

  class UimClient {
    const slot: byte
    const response: array<byte>
    var deviceFd: int
    var clientId: int
    var openChannel: int
    var counter: nat
    var output: seq<Answer>
    var written: seq<seq<byte>>
    ghost var drawn: nat
    ghost var log: seq<Step>

    ghost predicate Valid()
      reads this
    {
      && response.Length == QMI_BUFFER
      && -1 <= deviceFd && -1 <= clientId < 256 && -1 <= openChannel < 256
      && counter == Counter(drawn)
      && written == Frames(log)
    }

    ghost function Abs(): Session
      requires Valid()
      reads this
    {
      Session(slot, deviceFd >= 0, if clientId < 0 then None else Some(clientId),
              if openChannel < 0 then None else Some(openChannel), drawn, log, output)
    }

    constructor (slot: byte, fd: nat)
      ensures Valid() && Abs() == Begin(slot) && fresh(response)
    {
      this.slot := slot;
      response := new byte[QMI_BUFFER](_ => 0);
      deviceFd, clientId, openChannel := fd, -1, -1;
      counter, output, written, drawn, log := 0, [], [], 0, [];
    }

    method PutLine(a: Answer)
      requires Valid()
      modifies this`output
      ensures Valid() && Abs() == Say(old(Abs()), a)
    {
      output := output + [a];
    }

    method DrawTransaction() returns (transaction: nat)
      requires Valid()
      modifies this`counter, this`drawn
      ensures Valid() && Abs() == Draw(old(Abs())) && transaction == counter && drawn > 0
    {
      counter := NextTransaction(counter, drawn);
      drawn := drawn + 1;
      transaction := counter;
    }

    /** Builds a request, writes it and waits for the answer. */
    method AskModem(service: byte, client: byte, transaction: nat, code: nat, tlvs: seq<Tlv>, script: Script)
      returns (payload: int, ghost m: Message)
      requires Valid() && drawn > 0 && transaction == counter && code < 65536 && Fits(script)
      requires FitsBuffer(service, tlvs)
      modifies this`written, this`log, response
      ensures Valid() && m == Message(service, client, drawn, code, tlvs)
      ensures Abs() == Ask(old(Abs()), m, script)
      ensures payload == Code(OutcomeOf(m, script))
      ensures payload >= 0 ==> HeaderLength(service) + payload <= QMI_BUFFER
      ensures payload >= 0 ==>
        OutcomeOf(m, script) == Payload(response[HeaderLength(service)..HeaderLength(service) + payload])
    {
      hide Request, Carries, Fits, Exchange, EncodeTlvs, Frames, Header, WithLengths;
      var bytes := BuildRequest(service, client, transaction, code, tlvs);
      m := Message(service, client, drawn, code, tlvs);
      RequestIsConsistent(Id(m), tlvs);
      FramesAppended(log, Asked(m, script));
      written := written + [bytes];
      log := log + [Asked(m, script)];
      payload := Exchanged(bytes, service, transaction, response, script, Id(m));
    }

    /** The answer to a failed exchange or a refusal; nothing for an accepted request. */
    method PutFailure(payload: int, ghost o: Outcome) returns (failed: bool)
      requires Valid() && payload == Code(o)
      requires payload >= 0 ==> 13 + payload <= QMI_BUFFER && o == Payload(response[13..13 + payload])
      modifies this`output
      ensures Valid() && (failed <==> !IsAccepted(o))
      ensures Abs() == if failed then Say(old(Abs()), Failure(o)) else old(Abs())
    {
      hide ResultOf;
      failed := true;
      if payload == EXCHANGE_TIMEOUT {
        PutLine(Err(Timeout));
      } else if payload == EXCHANGE_INTERRUPTED {
        PutLine(Err(State));
      } else if payload < 0 {
        PutLine(Err(Device));
      } else {
        var status, code := QmiResult(response[13..13 + payload]);
        if status != 0 {
          PutLine(ErrQmi(code));
        } else {
          failed := false;
        }
      }
    }

    method AllocateClientId(script: Script) returns (ok: bool)
      requires Valid() && Fits(script) && clientId < 0
      modifies this, response
      ensures Valid() && (Abs(), ok) == Allocate(old(Abs()), script)
    {
      hide FitsBuffer, Fits, Frames, IsAccepted, OutcomeOf, Singleton, ResultOf, Counter;
      var transaction := DrawTransaction();
      RequestsFit(slot, 0, 0, [], []);
      hide AllocateTlvs;
      var payload, m := AskModem(CTL, 0, transaction, ALLOCATE_CID, AllocateTlvs(), script);
      ghost var o := OutcomeOf(m, script);
      NegativeIsFailure(o);
      if payload < 0 { return false; }
      var tlvs := response[12..12 + payload];
      var status, _ := QmiResult(tlvs);
      AcceptedMeans(o);
      if status != 0 { return false; }
      var value := FindTlv(tlvs, 0x01);
      if value == None || |value.value| != 2 || value.value[0] != UIM { return false; }
      clientId := value.value[1];
      return true;
    }

    method ReleaseClientId(script: Script)
      requires Valid() && Fits(script)
      modifies this, response
      ensures Valid() && Abs() == Release(old(Abs()), script)
    {
      hide FitsBuffer, Fits, Frames, OutcomeOf, Counter;
      if clientId < 0 { return; }
      var transaction := DrawTransaction();
      RequestsFit(slot, clientId, 0, [], []);
      var _, _ := AskModem(CTL, 0, transaction, RELEASE_CID, ReleaseTlvs(clientId), script);
      clientId := -1;
    }

    /** The low eight bits of the client id. */
    function ClientIdByte(): byte
      requires -1 <= clientId < 256
      reads this
    {
      if clientId < 0 then 255 else clientId
    }

    method OpenCommand(aidHex: string, script: Script)
      requires Valid() && Fits(script)
      modifies this, response
      ensures Valid() && Abs() == CommandOpen(old(Abs()), aidHex, script)
    {
      hide FitsBuffer, Fits, Frames, IsAccepted, OutcomeOf, Singleton, HexDecode, Counter, Failure;
      var transaction := DrawTransaction();
      if openChannel >= 0 {
        PutLine(Err(State));
        return;
      }
      var aid := DecodeHex(aidHex, MAX_AID);
      if aid == None {
        PutLine(Err(Usage));
        return;
      }
      RequestsFit(slot, 0, 0, aid.value, []);
      hide OpenTlvs;
      var tlvs := OpenTlvs(slot, aid.value);
      var payload, m := AskModem(UIM, ClientIdByte(), transaction, OPEN_LOGICAL_CHANNEL, tlvs, script);
      ghost var o := OutcomeOf(m, script);
      var failed := PutFailure(payload, o);
      if failed { return; }
      AcceptedMeans(o);
      var answer := response[13..13 + payload];
      var value := FindTlv(answer, 0x10);
      if value == None || |value.value| != 1 {
        PutLine(Err(Protocol));
        return;
      }
      openChannel := value.value[0];
      var sw1, sw2 := 0x90, 0x00;
      var card := FindTlv(answer, 0x11);
      if card != None && |card.value| == 2 {
        sw1, sw2 := card.value[0], card.value[1];
      }
      PutLine(Channel(openChannel, sw1, sw2));
    }

    method TransmitCommand(apduHex: string, script: Script)
      requires Valid() && Fits(script)
      modifies this, response
      ensures Valid() && Abs() == CommandTransmit(old(Abs()), apduHex, script)
    {
      hide FitsBuffer, Fits, Frames, IsAccepted, OutcomeOf, Singleton, HexDecode, HexEncode, Counter, Failure, GetU16;
      var transaction := DrawTransaction();
      if openChannel < 0 {
        PutLine(Err(State));
        return;
      }
      var apdu := DecodeHex(apduHex, MAX_APDU);
      if apdu == None {
        PutLine(Err(Usage));
        return;
      }
      RequestsFit(slot, 0, openChannel, [], apdu.value);
      hide TransmitTlvs;
      var tlvs := TransmitTlvs(slot, apdu.value, openChannel);
      var payload, m := AskModem(UIM, ClientIdByte(), transaction, SEND_APDU, tlvs, script);
      ghost var o := OutcomeOf(m, script);
      var failed := PutFailure(payload, o);
      if failed { return; }
      AcceptedMeans(o);
      var value := FindTlv(response[13..13 + payload], 0x10);
      if value == None || |value.value| < 2 {
        PutLine(Err(Protocol));
        return;
      }
      var declared := GetU16(value.value, 0);
      if |value.value| != declared + 2 || declared > MAX_APDU {
        PutLine(Err(Protocol));
        return;
      }
      var out := EncodeHex(value.value[2..]);
      PutLine(Data(out));
    }

    method SlotsCommand(script: Script)
      requires Valid() && Fits(script)
      modifies this, response
      ensures Valid() && Abs() == CommandSlots(old(Abs()), script)
    {
      hide FitsBuffer, Fits, Frames, IsAccepted, OutcomeOf, Singleton, SlotReport.SlotsReply, Counter, Failure;
      var transaction := DrawTransaction();
      RequestsFit(slot, 0, 0, [], []);
      var payload, m := AskModem(UIM, ClientIdByte(), transaction, GET_SLOT_STATUS, [], script);
      ghost var o := OutcomeOf(m, script);
      var failed := PutFailure(payload, o);
      if failed { return; }
      AcceptedMeans(o);
      var status := FindTlv(response[13..13 + payload], 0x10);
      var info := FindTlv(response[13..13 + payload], 0x11);
      var reply := SlotReport.ReportSlots(status, info);
      match reply
      case Reported(text) => PutLine(SlotList(text));
      case Refused(_) => PutLine(Err(Protocol));
    }

    /** True when the modem closed the channel. */
    method CloseChannelOnModem(channel: byte, script: Script) returns (closed: bool)
      requires Valid() && Fits(script)
      modifies this, response
      ensures Valid() && openChannel == old(openChannel)
      ensures Abs() == CloseChannel(old(Abs()), channel, script) && (closed <==> LastAccepted(Abs()))
    {
      hide FitsBuffer, Fits, Frames, IsAccepted, OutcomeOf, Singleton, Counter, ResultOf;
      var transaction := DrawTransaction();
      RequestsFit(slot, 0, channel, [], []);
      hide CloseTlvs;
      var payload, m := AskModem(UIM, ClientIdByte(), transaction, LOGICAL_CHANNEL, CloseTlvs(slot, channel), script);
      ghost var o := OutcomeOf(m, script);
      NegativeIsFailure(o);
      if payload < 0 { return false; }
      AcceptedMeans(o);
      var status, _ := QmiResult(response[13..13 + payload]);
      return status == 0;
    }

    method CloseCommand(text: string, script: Script)
      requires Valid() && Fits(script)
      modifies this, response
      ensures Valid() && Abs() == CommandClose(old(Abs()), text, script)
    {
      hide Fits, Frames, IsAccepted, OutcomeOf, Counter, LongOf, CloseChannel;
      if openChannel < 0 {
        PutLine(Err(State));
        return;
      }
      var requested := LongOf(text);
      if requested == None || requested.value < 0 || requested.value > 19 {
        PutLine(Err(Usage));
        return;
      }
      if requested.value != openChannel {
        PutLine(Err(State));
        return;
      }
      var closed := CloseChannelOnModem(openChannel, script);
      if !closed {
        PutLine(Err(Qmi));
        return;
      }
      openChannel := -1;
      PutLine(Ok);
    }

    /** Everything given back, in the reverse of the order it was taken. */
    method GiveBack(closing: Script, releasing: Script)
      requires Valid() && Fits(closing) && Fits(releasing)
      modifies this, response
      ensures Valid() && Abs() == Cleanup(old(Abs()), closing, releasing)
    {
      hide Fits, Frames, IsAccepted, OutcomeOf, Counter, CloseChannel, Release;
      if openChannel >= 0 && deviceFd >= 0 && clientId >= 0 {
        var _ := CloseChannelOnModem(openChannel, closing);
        openChannel := -1;
      }
      ReleaseClientId(releasing);
      if deviceFd >= 0 {
        FramesAppended(log, DeviceClosed);
        deviceFd := -1;
        log := log + [DeviceClosed];
      }
    }

    /** One line; true when it ends the loop. */
    method ObeyLine(input: Input) returns (ends: bool)
      requires Valid() && Fits(input.script)
      modifies this, response
      ensures Valid() && Abs() == Obey(old(Abs()), input) && (ends <==> Ends(input))
    {
      hide Fits, Frames, Counter, Interpret, CommandOpen, CommandTransmit, CommandSlots, CommandClose;
      ends := false;
      match Interpret(input.line)
      case TooLong =>
        PutLine(Err(Protocol));
        ends := true;
      case Quit => ends := true;
      case Slots => SlotsCommand(input.script);
      case Ping => PutLine(Ok);
      case Open(aid) => OpenCommand(aid, input.script);
      case Transmit(apdu) => TransmitCommand(apdu, input.script);
      case Close(channel) => CloseCommand(channel, input.script);
      case Unknown => PutLine(Err(Usage));
    }

    /** From the opened device to the exit; the inputs end with the input or the stop signal. */
    method Serve(allocating: Script, inputs: seq<Input>, closing: Script, releasing: Script) returns (status: int)
      requires Valid() && Abs() == Begin(slot)
      requires Fits(allocating) && Fits(closing) && Fits(releasing)
      requires forall i :: 0 <= i < |inputs| ==> Fits(inputs[i].script)
      modifies this, response
      ensures Valid() && Abs() == Run(slot, allocating, inputs, closing, releasing)
      ensures deviceFd == -1 && clientId == -1 && openChannel == -1
      ensures status == if Allocate(Begin(slot), allocating).1 then 0 else 3
    {
      hide Fits, Frames, Counter, Allocate, Obey, Cleanup, Ends;
      EveryRun(slot, allocating, inputs, closing, releasing);
      var ok := AllocateClientId(allocating);
      if !ok {
        GiveBack(closing, releasing);
        return 3;
      }
      PutLine(Ready);
      ghost var begun := Abs();
      var next := 0;
      assert inputs[0..] == inputs;
      while next < |inputs|
        invariant 0 <= next <= |inputs|
        invariant Valid() && Loop(begun, inputs) == Loop(Abs(), inputs[next..])
      {
        assert inputs[next..][1..] == inputs[next + 1..];
        var ends := ObeyLine(inputs[next]);
        next := next + 1;
        if ends { break; }
      }
      GiveBack(closing, releasing);
      return 0;
    }
  }

  method BuildRequest(service: byte, client: byte, transaction: nat, code: nat, tlvs: seq<Tlv>)
    returns (bytes: seq<byte>)
    requires transaction < 65536 && code < 65536 && FitsBuffer(service, tlvs)
    ensures bytes == Request(service, client, transaction, code, tlvs)
  {
    hide Header, EncodeTlvs, EncodeTlv, WithLengths, Request;
    var request := new QmiRequest(service, client, transaction, code);
    ghost var head := Header(service, client, transaction, code, 0, 0);
    EncodedNone();
    assert head + [] == head;
    assert tlvs[..0] == [];
    for i := 0 to |tlvs|
      invariant request.Valid() && request.tlvStart == HeaderLength(service) && fresh(request) && fresh(request.buffer)
      invariant request.Contents() == head + EncodeTlvs(tlvs[..i])
    {
      AreaGrows(tlvs, i);
      var ok := request.AddTlv(tlvs[i].kind, tlvs[i].value);
      assert ok;
      Concat(head, EncodeTlvs(tlvs[..i]), EncodeTlv(tlvs[i]));
    }
    assert tlvs[..|tlvs|] == tlvs;
    FinishedIsRequest(service, client, transaction, code, tlvs);
    request.Finish(service);
    bytes := request.buffer[..request.length];
  }

  /** The encoded TLVs up to one, and that one, are part of the whole area. */
  lemma {:induction false} AreaGrows(tlvs: seq<Tlv>, i: nat)
    requires i < |tlvs|
    ensures EncodeTlvs(tlvs[..i + 1]) == EncodeTlvs(tlvs[..i]) + EncodeTlv(tlvs[i])
    ensures |EncodeTlvs(tlvs[..i])| + 3 + |tlvs[i].value| <= |EncodeTlvs(tlvs)|
    decreases |tlvs| - i
  {
    hide EncodeTlvs;
    EncodeAppend(tlvs[..i], tlvs[i]);
    assert tlvs[..i + 1] == tlvs[..i] + [tlvs[i]];
    if i + 1 < |tlvs| {
      AreaGrows(tlvs, i + 1);
    } else {
      assert tlvs[..i + 1] == tlvs;
    }
  }

  lemma NegativeIsFailure(o: Outcome)
    ensures Code(o) < 0 ==> !IsAccepted(o)
    ensures Code(o) >= 0 ==> o.Payload?
  {}

  lemma AcceptedMeans(o: Outcome)
    ensures IsAccepted(o) <==> o.Payload? && ResultOf(o.tlvs) == Accepted
  {}
}
