/** A modem with its own open channels, beside the session: it reads the bytes of each request,
  * makes one answer, and its answers may arrive late. What it then holds open is what the
  * session believes. */
module UimModem {
  import opened Basics
  import opened Options
  import opened QmiFrames
  import opened QmiExchange
  import opened UimProtocol

  // ---- one step of the modem ----

  /** A request of this service for this message, as its bytes say. */
  predicate Asks(request: seq<byte>, service: byte, code: nat) {
    var h := HeaderLength(service); |request| >= h && request[4] == service && GetU16(request, h - 4) == code
  }

  /** An answer that grants its request. */
  predicate Grants(answer: seq<byte>, service: byte) {
    var h := HeaderLength(service); |answer| >= h && ResultOf(answer[h..]) == Accepted
  }

  /** What the modem may do on a request to the channels it holds for a client. On one to open a
    * channel that it grants, it opens a channel and names it in its answer; on one to close that
    * it grants, it closes the channel that the request names; when it grants the release of the
    * client id, it forgets all of that client's channels; on any other it changes nothing. */
  ghost predicate ModemStep(before: set<byte>, client: byte, request: seq<byte>, answer: seq<byte>, after: set<byte>) {
    if Asks(request, UIM, OPEN_LOGICAL_CHANNEL) && Grants(answer, UIM) then
      exists c: byte :: Singleton(answer[13..], 0x10) == Some([c]) && after == before + {c}
    else if Asks(request, UIM, LOGICAL_CHANNEL) && Grants(answer, UIM) then
      match Singleton(request[13..], 0x11)
      case None => after == before
      case Some(v) => if |v| == 1 then after == before - {v[0]} else after == before
    else if Asks(request, CTL, RELEASE_CID) && Grants(answer, CTL)
      && Singleton(request[12..], 0x01) == Some([UIM, client]) then after == {}
    else after == before
  }

  // ---- a run of the modem ----

  /** The channels that the modem holds before and after each step of a log, the answer it made
    * to each request, and for each message that arrived the request it was made for. */
  datatype Trace = Trace(states: seq<set<byte>>, made: seq<seq<byte>>, origins: seq<seq<Option<nat>>>)

  /** The number of the request that step i asks. */
  function Number(log: seq<Step>, i: nat): nat
    requires i <= |log|
  {
    |SentOf(log[..i])|
  }

  /** What arrived for a request is the answer that was made to it. */
  predicate Delivered(events: seq<Event>, origins: seq<Option<nat>>, made: seq<seq<byte>>) {
    && |origins| == |events|
    && forall t :: 0 <= t < |events| && events[t].Arrived? && origins[t].Some? ==>
        origins[t].value < |made| && events[t].frame == made[origins[t].value]
  }

  predicate Shaped(log: seq<Step>, trace: Trace) {
    |trace.states| == |log| + 1 && |trace.origins| == |log| && |trace.made| == |SentOf(log)|
  }

  /** Step i, for the modem: it acts on the request if that was written. Its answers reach the
    * session in this exchange or a later one. */
  ghost predicate StepHappened(log: seq<Step>, trace: Trace, client: byte, i: nat)
    requires i < |log| && Shaped(log, trace)
  {
    var before, after := trace.states[i], trace.states[i + 1];
    match log[i]
    case DeviceClosed => after == before
    case Asked(m, script) =>
      && Traced(log, i, trace.origins[i], client) && Delivered(script.events, trace.origins[i], trace.made)
      && Number(log, i) < |trace.made|
      && var answer := trace.made[Number(log, i)];
         if script.written then ModemStep(before, client, Bytes(m), answer, after) else after == before
  }

  /** The modem of this trace has gone through this log, beginning with no channel open. */
  ghost predicate Happened(log: seq<Step>, trace: Trace, client: byte) {
    && Shaped(log, trace) && trace.states[0] == {}
    && forall i :: 0 <= i < |log| ==> StepHappened(log, trace, client, i)
  }

  /** Every question to open or close a channel got an answer in time, whatever it was. */
  predicate NothingLost(log: seq<Step>) {
    forall i :: 0 <= i < |log| && log[i].Asked? && (Opens(log[i].message) || Closes(log[i].message)) ==>
      OutcomeOf(log[i].message, log[i].script).Payload?
  }

  /** A log as every run makes it. */
  predicate WellKept(log: seq<Step>, client: byte) {
    Disciplined(log) && SessionOrder(SentOf(log)) && OneClient(SentOf(log), client)
  }

  function Held(channel: Option<byte>): set<byte> { match channel case None => {} case Some(c) => {c} }

  // ---- what the bytes say ----

  /** What the modem reads out of the bytes is what the message carries. */
  lemma CarriedOnTheWire(m: Message, kind: byte)
    requires FitsBuffer(m.service, m.tlvs) && m.code < 65536
    ensures Singleton(Bytes(m)[HeaderLength(m.service)..], kind) == Carried(m, kind)
  {
    RequestIsConsistent(Id(m), m.tlvs);
    SingletonOfEncoding(m.tlvs, kind);
  }

  lemma AskedOnTheWire(m: Message, service: byte, code: nat)
    requires FitsBuffer(m.service, m.tlvs) && m.code < 65536
    ensures Asks(Bytes(m), service, code) <==> m.service == service && m.code == code
  {
    RequestIsConsistent(Id(m), m.tlvs);
    hide EncodeTlvs, Header, GetU16;
  }

  /** The answer that the session accepted is the one the modem made to this request. */
  lemma AcceptedWasMade(log: seq<Step>, trace: Trace, client: byte, i: nat)
    requires WellKept(log, client) && i < |log| && log[i].Asked? && log[i].message.service == UIM
    requires Shaped(log, trace) && StepHappened(log, trace, client, i)
    requires OutcomeOf(log[i].message, log[i].script).Payload?
    ensures var answer := trace.made[Number(log, i)];
      |answer| >= 13 && OutcomeOf(log[i].message, log[i].script).tlvs == answer[13..]
  {
    hide Disciplined, SentOf, SessionOrder, OneClient, OutcomeOf, Traced, ModemStep;
    var turn := RunAnswersMatch(log, i, trace.origins[i], client);
  }

  // ---- the modem and the session agree ----

  /** What the modem reads a proper message to ask. */
  lemma AskedTheSame(m: Message)
    requires FitsBuffer(m.service, m.tlvs) && m.code < 65536
    ensures Asks(Bytes(m), UIM, OPEN_LOGICAL_CHANNEL) <==> Opens(m)
    ensures Asks(Bytes(m), UIM, LOGICAL_CHANNEL) <==> Closes(m)
    ensures Asks(Bytes(m), CTL, RELEASE_CID) <==> Releases(m)
  {
    AskedOnTheWire(m, UIM, OPEN_LOGICAL_CHANNEL);
    AskedOnTheWire(m, UIM, LOGICAL_CHANNEL);
    AskedOnTheWire(m, CTL, RELEASE_CID);
  }

  lemma OpenStep(m: Message, client: byte, o: Outcome, answer: seq<byte>, after: set<byte>)
    requires Opens(m) && Proper(None, m) && o.Payload?
    requires |answer| >= 13 && o.tlvs == answer[13..] && ModemStep({}, client, Bytes(m), answer, after)
    ensures !IsAccepted(o) ==> after == {}
    ensures IsAccepted(o) ==> exists c: byte :: Field(o, 0x10) == Some([c]) && after == {c}
  {
    AskedTheSame(m);
    hide Asks, ResultOf, Singleton, Bytes, FitsBuffer;
  }

  lemma CloseStep(channel: byte, m: Message, client: byte, o: Outcome, answer: seq<byte>, after: set<byte>)
    requires Closes(m) && Proper(Some(channel), m) && o.Payload?
    requires |answer| >= 13 && o.tlvs == answer[13..] && ModemStep({channel}, client, Bytes(m), answer, after)
    ensures after == if IsAccepted(o) then {} else {channel}
  {
    AskedTheSame(m);
    CarriedOnTheWire(m, 0x11);
    hide Asks, ResultOf, Singleton, Bytes, FitsBuffer, Carried;
  }

  lemma OtherStep(channel: Option<byte>, before: set<byte>, m: Message, client: byte, answer: seq<byte>,
    after: set<byte>)
    requires !Opens(m) && !Closes(m) && !Releases(m) && Proper(channel, m)
    requires ModemStep(before, client, Bytes(m), answer, after)
    ensures after == before
  {
    AskedTheSame(m);
    hide Asks, ResultOf, Singleton, Bytes, FitsBuffer;
  }

  lemma ReleaseCarries(m: Message, client: byte)
    requires m.tlvs == ReleaseTlvs(client)
    ensures Carried(m, 0x01) == Some([UIM, client])
  {
    assert Matching(m.tlvs[1..], 0x01) == [];
  }

  lemma ReleaseStep(before: set<byte>, draw: nat, client: byte, answer: seq<byte>, after: set<byte>)
    requires ModemStep(before, client, Bytes(Message(CTL, 0, draw, RELEASE_CID, ReleaseTlvs(client))), answer, after)
    ensures after == if Grants(answer, CTL) then {} else before
  {
    var m := Message(CTL, 0, draw, RELEASE_CID, ReleaseTlvs(client));
    ControlIsProper(None, client, draw);
    AskedTheSame(m);
    CarriedOnTheWire(m, 0x01);
    ReleaseCarries(m, client);
    hide Asks, ResultOf, Singleton, Bytes, FitsBuffer, Carried, ReleaseTlvs;
  }

  lemma Unwritten(m: Message, script: Script)
    ensures !script.written ==> !OutcomeOf(m, script).Payload?
  {}

  /** No client id has been released in the first n steps. */
  predicate Unreleased(log: seq<Step>, n: nat) {
    forall j :: 0 <= j < n && j < |log| && log[j].Asked? ==> !Releases(log[j].message)
  }

  lemma StepAgrees(log: seq<Step>, trace: Trace, client: byte, i: nat)
    requires WellKept(log, client) && Happened(log, trace, client) && NothingLost(log)
    requires i < |log| && Unreleased(log, i + 1)
    requires trace.states[i] == Held(Believed(log[..i]))
    ensures trace.states[i + 1] == Held(Believed(log[..i] + [log[i]]))
  {
    Appended(log[..i], log[i]);
    hide Disciplined, SentOf, SessionOrder, OneClient, Believed, OutcomeOf, Traced, Bytes, ModemStep, Proper,
      IsAccepted, Field;
    assert StepHappened(log, trace, client, i);
    if log[i].Asked? {
      var m, o, channel := log[i].message, OutcomeOf(log[i].message, log[i].script), Believed(log[..i]);
      var before, answer, after := trace.states[i], trace.made[Number(log, i)], trace.states[i + 1];
      EveryMessageIsProper(log, i);
      Unwritten(m, log[i].script);
      if Opens(m) || Closes(m) {
        AcceptedWasMade(log, trace, client, i);
        WhenProper(channel, m);
        if Opens(m) {
          OpenStep(m, client, o, answer, after);
        } else {
          CloseStep(channel.value, m, client, o, answer, after);
        }
      } else if log[i].script.written {
        OtherStep(channel, before, m, client, answer, after);
      }
    }
  }

  lemma WhenProper(channel: Option<byte>, m: Message)
    requires Proper(channel, m)
    ensures (Opens(m) ==> channel.None?) && (Closes(m) ==> channel.Some?)
  {}

  /** Whatever late answers, strays and refusals there were: if no answer to an open or a close
    * was lost, then until the client id is released the modem holds open exactly the channel
    * that the session believes in. */
  lemma {:induction false} ModemFollows(log: seq<Step>, trace: Trace, client: byte, n: nat)
    requires WellKept(log, client) && Happened(log, trace, client) && NothingLost(log)
    requires n <= |log| && Unreleased(log, n)
    ensures trace.states[n] == Held(Believed(log[..n]))
  {
    hide WellKept, NothingLost, StepHappened;
    if n == 0 {
      assert log[..0] == [];
    } else {
      ModemFollows(log, trace, client, n - 1);
      StepAgrees(log, trace, client, n - 1);
      assert log[..n - 1] + [log[n - 1]] == log[..n];
    }
  }

  // ---- the release is the last request ----

  lemma SentAt(log: seq<Step>, j: nat)
    requires j < |log| && log[j].Asked?
    ensures Number(log, j) < |SentOf(log)| && SentOf(log)[Number(log, j)] == SentAs(log[j].message)
  {
    SentPrefix(log, j + 1);
    assert log[..j + 1] == log[..j] + [log[j]];
    Appended(log[..j], log[j]);
    hide SentOf;
  }

  /** Before a later request nothing was released. */
  lemma NothingReleasedBefore(log: seq<Step>, i: nat)
    requires SessionOrder(SentOf(log)) && i < |log| && log[i].Asked?
    ensures Unreleased(log, i)
  {
    hide SentOf;
    SentAt(log, i);
    forall j | 0 <= j < i && log[j].Asked? ensures !Releases(log[j].message) {
      SentAt(log, j);
      SentAt(log[..i], j);
      assert log[..i][..j] == log[..j];
      assert Number(log, j) < Number(log, i);
    }
  }

  lemma SettledUnreleased(s: Session)
    requires Settled(s)
    ensures Unreleased(s.log, |s.log|) && WellKept(s.log, ClientByte(s))
  {
    hide SentOf, Disciplined, Believed;
    forall j | 0 <= j < |s.log| && s.log[j].Asked? ensures !Releases(s.log[j].message) {
      SentAt(s.log, j);
    }
  }

  /** Every APDU and every close of a run is, as bytes, for the one channel that the modem holds
    * open at that moment. */
  lemma ApdusGoToTheOnlyChannel(log: seq<Step>, trace: Trace, client: byte, i: nat)
    requires WellKept(log, client) && Happened(log, trace, client) && NothingLost(log)
    requires i < |log| && log[i].Asked? && log[i].message.service == UIM
    requires log[i].message.code == SEND_APDU || log[i].message.code == LOGICAL_CHANNEL
    ensures var m := log[i].message;
      exists c: byte :: && trace.states[i] == {c}
                        && Singleton(Bytes(m)[13..], if Closes(m) then 0x11 else 0x10) == Some([c])
  {
    hide StepHappened, NothingLost, Disciplined, SentOf, SessionOrder, OneClient, Believed, Carried, FitsBuffer, Bytes,
      Singleton;
    var m := log[i].message;
    EveryMessageIsProper(log, i);
    NothingReleasedBefore(log, i);
    ModemFollows(log, trace, client, i);
    CarriedOnTheWire(m, if Closes(m) then 0x11 else 0x10);
    var c := Believed(log[..i]).value;
    assert trace.states[i] == {c};
  }

  /** Between any two commands of any run. */
  lemma OnlyTheOpenChannel(slot: byte, allocating: Script, inputs: seq<Input>, trace: Trace)
    requires var s := Served(slot, allocating, inputs);
      Happened(s.log, trace, ClientByte(s)) && NothingLost(s.log)
    ensures var s := Served(slot, allocating, inputs); trace.states[|s.log|] == Held(s.channel)
  {
    ServedIsSettled(slot, allocating, inputs);
    var s := Served(slot, allocating, inputs);
    SettledUnreleased(s);
    hide *;
    ModemFollows(s.log, trace, ClientByte(s), |s.log|);
    BelievedBySettled(s);
  }

  lemma BelievedBySettled(s: Session)
    requires Settled(s)
    ensures Believed(s.log[..|s.log|]) == s.channel
  {
    hide Believed, Disciplined, SentOf, Orderly;
    assert s.log[..|s.log|] == s.log;
  }

  // ---- what a run leaves open ----

  /** The modem received the last request of the run and granted it. */
  predicate LastGranted(trace: Trace, script: Script) {
    script.written && |trace.made| > 0 && Grants(trace.made[|trace.made| - 1], CTL)
  }

  /** No channel was open when the cleanup began, or the modem agreed to close it. */
  predicate ClosedAfter(s: Session, closing: Script) {
    s.channel.None? || LastAccepted(CloseChannel(s, s.channel.value, closing))
  }

  /** From the log before the release: the release, if there is one, and closing the device. */
  lemma ReleaseForgets(before: Session, releasing: Script, log: seq<Step>, trace: Trace, client: byte)
    requires before.client.Some? && before.client.value == client
    requires log == Release(before, releasing).log + [DeviceClosed] && Happened(log, trace, client)
    ensures |before.log| < |log| && |trace.states| == |log| + 1
    ensures trace.states[|log|] == if LastGranted(trace, releasing) then {} else trace.states[|before.log|]
  {
    var m := Message(CTL, 0, before.drawn + 1, RELEASE_CID, ReleaseTlvs(client));
    var i := |before.log|;
    assert log[i] == Asked(m, releasing) && log[i + 1] == DeviceClosed && |log| == i + 2;
    LastNumber(log, i);
    hide SentOf, Number, Grants, Bytes, ModemStep, Traced, Delivered;
    assert StepHappened(log, trace, client, i) && StepHappened(log, trace, client, i + 1);
    if releasing.written {
      ReleaseStep(trace.states[i], m.draw, client, trace.made[Number(log, i)], trace.states[i + 1]);
    }
  }

  lemma LastNumber(log: seq<Step>, i: nat)
    requires |log| == i + 2 && log[i].Asked? && log[i + 1] == DeviceClosed
    ensures Number(log, i) == |SentOf(log)| - 1
  {
    assert log[..i + 1] == log[..i] + [log[i]] && log == log[..i + 1] + [log[i + 1]];
    Appended(log[..i], log[i]);
    Appended(log[..i + 1], log[i + 1]);
    hide SentOf;
  }

  /** How the log of a cleanup continues the log after its close. */
  lemma CleanupLog(s: Session, closing: Script, releasing: Script)
    requires s.device && (s.channel.Some? ==> s.client.Some?)
    ensures var closed, log := GiveBackChannel(s, closing), Cleanup(s, closing, releasing).log;
      && closed.client == s.client && closed.log <= log && log[..|closed.log|] == closed.log
      && log == Release(closed, releasing).log + [DeviceClosed]
      && (s.client.None? ==> closed == s && log == s.log + [DeviceClosed])
      && (s.client.Some? ==> |closed.log| < |log| && log[|closed.log|].Asked?)
  {
    hide CloseTlvs, ReleaseTlvs;
  }

  lemma BeforeRelease(s: Session, closing: Script, releasing: Script)
    requires Settled(s) && (s.channel.Some? ==> s.client.Some?)
    requires SessionOrder(SentOf(Cleanup(s, closing, releasing).log))
    ensures Unreleased(Cleanup(s, closing, releasing).log, |GiveBackChannel(s, closing).log|)
  {
    CleanupLog(s, closing, releasing);
    SettledUnreleased(s);
    hide Cleanup, GiveBackChannel, SentOf, SessionOrder, Releases, Disciplined, Believed, Release;
    var log := Cleanup(s, closing, releasing).log;
    if s.client.Some? { NothingReleasedBefore(log, |GiveBackChannel(s, closing).log|); }
  }

  lemma LeftByRelease(s: Session, closing: Script, releasing: Script, trace: Trace)
    requires Settled(s) && (s.channel.Some? ==> s.client.Some?)
    requires Happened(Cleanup(s, closing, releasing).log, trace, ClientByte(s))
    ensures var log, before := Cleanup(s, closing, releasing).log, |GiveBackChannel(s, closing).log|;
      && before < |log| && |trace.states| == |log| + 1
      && trace.states[|log|] ==
           if s.client.Some? && LastGranted(trace, releasing) then {} else trace.states[before]
  {
    CleanupLog(s, closing, releasing);
    var closed, log := GiveBackChannel(s, closing), Cleanup(s, closing, releasing).log;
    hide Cleanup, GiveBackChannel, Disciplined, Believed, SentOf, Release, LastGranted;
    if s.client.Some? {
      ReleaseForgets(closed, releasing, log, trace, ClientByte(s));
    } else {
      assert StepHappened(log, trace, ClientByte(s), |s.log|);
    }
  }

  lemma LeftByCleanup(s: Session, closing: Script, releasing: Script, trace: Trace)
    requires Settled(s) && (s.channel.Some? ==> s.client.Some?)
    requires var log := Cleanup(s, closing, releasing).log;
      WellKept(log, ClientByte(s)) && Happened(log, trace, ClientByte(s)) && NothingLost(log)
    ensures var log := Cleanup(s, closing, releasing).log;
      && |trace.states| == |log| + 1
      && trace.states[|log|] ==
           if ClosedAfter(s, closing) || LastGranted(trace, releasing) then {} else {s.channel.value}
  {
    var log, before := Cleanup(s, closing, releasing).log, |GiveBackChannel(s, closing).log|;
    CleanupLog(s, closing, releasing);
    BeforeRelease(s, closing, releasing);
    GiveBackBelieves(s, closing);
    LeftByRelease(s, closing, releasing, trace);
    hide Cleanup, GiveBackChannel, WellKept, Happened, NothingLost, Unreleased, Believed, LastAccepted, CloseChannel,
      Settled, LastGranted, Release;
    ModemFollows(log, trace, ClientByte(s), before);
  }

  /** When the process has ended the modem holds no channel open, except the one that was open
    * when the cleanup began, if it refused to close that and did not grant the release either.
    * Channels from 20 on are included. */
  lemma WhatIsLeftOpen(slot: byte, allocating: Script, inputs: seq<Input>, closing: Script, releasing: Script,
    trace: Trace)
    requires var s, end := Served(slot, allocating, inputs), Run(slot, allocating, inputs, closing, releasing);
      Happened(end.log, trace, ClientByte(s)) && NothingLost(end.log)
    ensures var s, end := Served(slot, allocating, inputs), Run(slot, allocating, inputs, closing, releasing);
      && |trace.states| == |end.log| + 1
      && trace.states[|end.log|] ==
           if ClosedAfter(s, closing) || LastGranted(trace, releasing) then {} else {s.channel.value}
  {
    ServedIsSettled(slot, allocating, inputs);
    EveryRun(slot, allocating, inputs, closing, releasing);
    var s, end := Served(slot, allocating, inputs), Run(slot, allocating, inputs, closing, releasing);
    assert end == Cleanup(s, closing, releasing);
    hide Run, Served, Happened, NothingLost, Disciplined, SentOf, SessionOrder, OneClient, Settled, Cleanup,
      LastAccepted, CloseChannel, LastGranted;
    LeftByCleanup(s, closing, releasing, trace);
  }
}
