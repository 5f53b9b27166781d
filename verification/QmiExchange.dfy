/** One request and the wait for its answer, and which answers that wait can accept. */
module QmiExchange {
  import opened Basics
  import opened Options
  import opened QmiFrames

  // ---- transaction numbers ----

  /** The n-th transaction number drawn: 1, 2, ..., 65535, 1, 2, ... */
  function Transaction(n: nat): (t: nat)
    requires n > 0
    ensures 0 < t < 65536
  {
    (n - 1) % 65535 + 1
  }

  /** The counter after n draws. */
  function Counter(n: nat): nat { if n == 0 then 0 else Transaction(n) }

  /** Steps a counter of 16 bits, leaving out zero. */
  method NextTransaction(counter: nat, ghost drawn: nat) returns (next: nat)
    requires counter == Counter(drawn)
    ensures next == Transaction(drawn + 1) == Counter(drawn + 1)
  {
    next := (counter + 1) % 65536;
    if next == 0 {
      next := 1;
    }
    CounterStep(drawn);
  }

  lemma CounterStep(n: nat)
    ensures Transaction(n + 1) == if Counter(n) == 65535 then 1 else Counter(n) + 1
  {
    if n > 0 {
      assert n == 65535 * ((n - 1) / 65535) + Transaction(n);
      if Transaction(n) == 65535 {
        assert n % 65535 == 0;
      }
    }
  }

  lemma Multiple(c: nat, k: int, t: int)
    requires c == 65535 * k + t && -65535 < t < 65535
    ensures c % 65535 == 0 <==> t == 0
  {
    if t >= 0 {
      assert c % 65535 == t;
    } else {
      assert c == 65535 * (k - 1) + (65535 + t);
      assert c % 65535 == 65535 + t;
    }
  }

  /** Two draws share a number exactly when they are a multiple of 65535 apart. */
  lemma TransactionRepeats(m: nat, n: nat)
    requires 0 < m <= n
    ensures Transaction(m) == Transaction(n) <==> (n - m) % 65535 == 0
  {
    var q, r := (m - 1) / 65535, (n - 1) / 65535;
    assert m - 1 == 65535 * q + (m - 1) % 65535;
    assert n - 1 == 65535 * r + (n - 1) % 65535;
    Multiple(n - m, r - q, (n - 1) % 65535 - (m - 1) % 65535);
  }

  lemma TransactionsDistinct(m: nat, n: nat)
    requires 0 < m < n < m + 65535
    ensures Transaction(m) != Transaction(n)
  {
    TransactionRepeats(m, n);
  }

  /** Zero is kept out of the 16-bit numbers, but the control service carries the low byte
    * only: there the number is zero exactly when it is a multiple of 256. */
  lemma ControlTransactionZero(n: nat)
    requires n > 0
    ensures U16(Transaction(n)) != [0, 0]
    ensures TransactionField(CTL, Transaction(n)) == [0] <==> Transaction(n) % 256 == 0
    ensures TransactionField(CTL, Transaction(256)) == [0]
  {
    var t := Transaction(n);
    assert t == 256 * (t / 256) + t % 256;
    assert U16(t)[0] == t % 256 && U16(t)[1] == t / 256 % 256;
  }

  // ---- the wait ----

  /** What one turn of the waiting loop meets. */
  datatype Event =
    | StopRequested
    | DeadlinePassed
    | PollInterrupted
    | PollFailed
    | HungUp
    | NothingToRead
    | ReadAgain
    | ReadFailed
    | EndOfFile
    | Arrived(frame: seq<byte>)

  /** What one exchange meets: whether the whole request was written, and the turns of the
    * loop. Turns that run out end in the deadline. */
  datatype Script = Script(written: bool, events: seq<Event>)

  datatype Outcome = Payload(tlvs: seq<byte>) | DeviceError | TimedOut | ProtocolError | Interrupted

  const EXCHANGE_DEVICE := -1
  const EXCHANGE_TIMEOUT := -2
  const EXCHANGE_PROTOCOL := -3
  const EXCHANGE_INTERRUPTED := -4

  /** The integer an outcome is reported as. */
  function Code(o: Outcome): int {
    match o
    case Payload(tlvs) => |tlvs|
    case DeviceError => EXCHANGE_DEVICE
    case TimedOut => EXCHANGE_TIMEOUT
    case ProtocolError => EXCHANGE_PROTOCOL
    case Interrupted => EXCHANGE_INTERRUPTED
  }

  /** Who asked what: the fields by which a request and its answer know each other. */
  datatype Identity = Identity(service: byte, client: byte, transaction: nat, message: nat)

  /** The response flag of the service layer. */
  function ResponseFlag(service: byte): byte { if service == CTL then 0x01 else 0x02 }

  /** A response to a request with this identity, as its bytes say. */
  predicate Answers(frame: seq<byte>, id: Identity) {
    var h := HeaderLength(id.service);
    && |frame| >= h
    && frame[0] == 0x01 && frame[3] == 0x80
    && frame[4] == id.service && frame[5] == id.client
    && frame[6] == ResponseFlag(id.service)
    && frame[7..h - 4] == TransactionField(id.service, id.transaction)
    && GetU16(frame, h - 4) == id.message
  }

  /** Both length fields agree with what arrived. */
  predicate LengthsAgree(frame: seq<byte>, service: byte)
    requires |frame| >= HeaderLength(service)
  {
    var h := HeaderLength(service);
    GetU16(frame, 1) + 1 == |frame| && h + GetU16(frame, h - 2) == |frame|
  }

  /** The outcome of the wait, turn by turn. */
  function Await(events: seq<Event>, id: Identity): Outcome {
    if |events| == 0 then TimedOut
    else
      match events[0]
      case StopRequested => Interrupted
      case DeadlinePassed => TimedOut
      case PollFailed => DeviceError
      case HungUp => DeviceError
      case ReadFailed => DeviceError
      case EndOfFile => DeviceError
      case Arrived(frame) =>
        if |frame| == 0 then DeviceError
        else if !Answers(frame, id) then Await(events[1..], id)
        else if LengthsAgree(frame, id.service) then Payload(frame[HeaderLength(id.service)..])
        else ProtocolError
      case _ => Await(events[1..], id)
  }

  function Exchange(id: Identity, script: Script): Outcome {
    if script.written then Await(script.events, id) else DeviceError
  }

  predicate Fits(script: Script) {
    forall i :: 0 <= i < |script.events| && script.events[i].Arrived? ==> |script.events[i].frame| <= QMI_BUFFER
  }

  /** The request carries the identity the answer is compared with. */
  predicate Carries(request: seq<byte>, id: Identity) {
    var h := HeaderLength(id.service);
    |request| >= h && request[5] == id.client && GetU16(request, h - 4) == id.message
  }

  method Exchanged(request: seq<byte>, service: byte, transaction: nat, response: array<byte>, script: Script,
    ghost id: Identity)
    returns (payload: int)
    requires Carries(request, id) && id.service == service && id.transaction == transaction < 65536
    requires response.Length == QMI_BUFFER && Fits(script)
    modifies response
    ensures var o := Exchange(id, script); payload == Code(o)
    ensures payload >= 0 ==> HeaderLength(service) + payload <= QMI_BUFFER
    ensures payload >= 0 ==>
      Exchange(id, script) == Payload(response[HeaderLength(service)..HeaderLength(service) + payload])
  {
    if !script.written { return EXCHANGE_DEVICE; }
    var turn := 0;
    assert script.events[0..] == script.events;
    while turn < |script.events|
      invariant 0 <= turn <= |script.events|
      invariant Await(script.events, id) == Await(script.events[turn..], id)
    {
      var event := script.events[turn];
      assert script.events[turn..][1..] == script.events[turn + 1..];
      turn := turn + 1;
      match event
      case StopRequested => return EXCHANGE_INTERRUPTED;
      case DeadlinePassed => return EXCHANGE_TIMEOUT;
      case PollFailed => return EXCHANGE_DEVICE;
      case HungUp => return EXCHANGE_DEVICE;
      case ReadFailed => return EXCHANGE_DEVICE;
      case EndOfFile => return EXCHANGE_DEVICE;
      case PollInterrupted =>
      case NothingToRead =>
      case ReadAgain =>
      case Arrived(frame) =>
        var got := |frame|;
        if got == 0 { return EXCHANGE_DEVICE; }
        forall i | 0 <= i < got { response[i] := frame[i]; }
        assert response[..got] == frame;
        var verdict := Judge(request, service, transaction, response, got, id);
        if verdict != -5 {
          return verdict;
        }
    }
    return EXCHANGE_TIMEOUT;
  }

  /** The checks on one message: -5 to go on waiting, else what the exchange returns. */
  method Judge(request: seq<byte>, service: byte, transaction: nat, response: array<byte>, got: nat, ghost id: Identity)
    returns (verdict: int)
    requires Carries(request, id) && id.service == service && id.transaction == transaction < 65536
    requires got <= response.Length
    ensures var frame := response[..got];
      verdict == if !Answers(frame, id) then -5
                 else if LengthsAgree(frame, service) then got - HeaderLength(service)
                 else EXCHANGE_PROTOCOL
  {
    ghost var frame := response[..got];
    var header := if service == CTL then 12 else 13;
    if got < header || response[0] != 0x01 { return -5; }
    if response[4] != service || response[5] != request[5] || response[3] != 0x80
      || response[6] != (if service == CTL then 0x01 else 0x02)
      || GetU16(response[..got], header - 4) != GetU16(request, header - 4) {
      return -5;
    }
    var answered := if service == CTL then response[7] as int else GetU16(response[..got], 7);
    SameTransaction(frame, service, transaction);
    if answered != (if service == CTL then transaction % 256 else transaction) { return -5; }
    if GetU16(response[..got], 1) + 1 != got { return EXCHANGE_PROTOCOL; }
    var tlvLength := GetU16(response[..got], header - 2);
    if got != header + tlvLength { return EXCHANGE_PROTOCOL; }
    return tlvLength;
  }

  lemma SameTransaction(frame: seq<byte>, service: byte, transaction: nat)
    requires |frame| >= HeaderLength(service) && transaction < 65536
    ensures frame[7..HeaderLength(service) - 4] == TransactionField(service, transaction) <==>
      (if service == CTL then frame[7] as int == transaction % 256 else GetU16(frame, 7) == transaction)
  {
    if service == CTL {
      assert frame[7..8] == [frame[7]];
    } else {
      assert frame[7..9] == [frame[7], frame[8]];
      assert transaction == 256 * (transaction / 256) + transaction % 256;
    }
  }

  // ---- which request an accepted answer belongs to ----

  /** A payload is the body of a message that arrived and answers the identity. */
  lemma {:induction false} PayloadArrived(events: seq<Event>, id: Identity) returns (turn: nat)
    requires Await(events, id).Payload?
    ensures turn < |events| && events[turn].Arrived? && Answers(events[turn].frame, id)
    ensures var frame := events[turn].frame;
      LengthsAgree(frame, id.service) && Await(events, id).tlvs == frame[HeaderLength(id.service)..]
    ensures forall j :: 0 <= j < turn && events[j].Arrived? ==> !Answers(events[j].frame, id)
  {
    if events[0].Arrived? && Answers(events[0].frame, id) {
      turn := 0;
    } else {
      var later := PayloadArrived(events[1..], id);
      turn := later + 1;
      assert events[turn] == events[1..][later];
      forall j | 0 <= j < turn && events[j].Arrived? ensures !Answers(events[j].frame, id) {
        if j > 0 { assert events[j] == events[1..][j - 1]; }
      }
    }
  }

  /** A request as it was sent: the number of its draw stands for the transaction. */
  datatype Sent = Sent(service: byte, client: byte, draw: nat, message: nat)

  function IdentityOf(s: Sent): Identity { Identity(s.service, s.client, Counter(s.draw), s.message) }

  const ALLOCATE_CID := 0x0022
  const RELEASE_CID := 0x0023

  /** What a session sends: later requests are later draws, and of the control service one
    * allocation, first, and one release, last. */
  predicate SessionOrder(sent: seq<Sent>) {
    && (forall i :: 0 <= i < |sent| ==> sent[i].draw > 0)
    && (forall i, j :: 0 <= i < j < |sent| ==> sent[i].draw < sent[j].draw)
    && (forall i :: 0 <= i < |sent| && sent[i].service == CTL ==>
          (i == 0 && sent[i].message == ALLOCATE_CID) || (i == |sent| - 1 && sent[i].message == RELEASE_CID))
  }

  /** The requests of one session: of the control service, which has the client number 0, and
    * of the UIM service with the session's client id. */
  predicate OneClient(sent: seq<Sent>, client: byte) {
    forall i :: 0 <= i < |sent| ==>
      (sent[i].service == CTL && sent[i].client == 0) || (sent[i].service == UIM && sent[i].client == client)
  }

  /** Bytes that answer no such request, whatever its transaction and message: too short, no
    * service's message, another service's, another client's, or not a response (an indication,
    * for example). */
  predicate Foreign(frame: seq<byte>, client: byte) {
    || |frame| < 12 || frame[0] != 0x01 || frame[3] != 0x80
    || (frame[4] != CTL && frame[4] != UIM)
    || (frame[4] == UIM && (|frame| < 13 || frame[5] != client || frame[6] != ResponseFlag(UIM)))
    || (frame[4] == CTL && (frame[5] != 0 || frame[6] != ResponseFlag(CTL)))
  }

  lemma ForeignAnswersNothing(frame: seq<byte>, sent: seq<Sent>, client: byte, k: nat)
    requires OneClient(sent, client) && Foreign(frame, client) && k < |sent|
    ensures !Answers(frame, IdentityOf(sent[k]))
  {
    hide TransactionField, GetU16, Counter;
  }

  /** A response of the control service to another process, which has the same client number:
    * nothing but its transaction and its message keep it apart, and here they do. */
  predicate SharedControl(frame: seq<byte>, sent: seq<Sent>) {
    && |frame| >= 12 && frame[4] == CTL && frame[5] == 0
    && forall k :: 0 <= k < |sent| && sent[k].service == CTL ==> !Answers(frame, IdentityOf(sent[k]))
  }

  /** Where the messages of a run come from: origins[i] names the request that the message of
    * turn i was made to answer, however late. A message of no request is foreign by its bytes,
    * or a control response to another process. */
  predicate Provenance(events: seq<Event>, origins: seq<Option<nat>>, sent: seq<Sent>, client: byte) {
    && |origins| == |events|
    && forall i :: 0 <= i < |events| && events[i].Arrived? ==>
        match origins[i]
        case Some(k) => k < |sent| && Answers(events[i].frame, IdentityOf(sent[k]))
        case None => Foreign(events[i].frame, client) || SharedControl(events[i].frame, sent)
  }

  /** No answer comes 65535 or more draws after its request. */
  predicate Punctual(origins: seq<Option<nat>>, sent: seq<Sent>)
    requires |sent| > 0
  {
    forall i :: 0 <= i < |origins| && origins[i].Some? && origins[i].value < |sent| ==>
      sent[|sent| - 1].draw - sent[origins[i].value].draw < 65535
  }

  /** Matching by draw: if no answer is 65535 or more draws late, the answer that an exchange
    * accepts is the answer to the request of that exchange and to no other. */
  lemma AcceptedIsCurrent(sent: seq<Sent>, frame: seq<byte>, k: nat)
    requires |sent| > 0 && SessionOrder(sent) && k < |sent|
    requires sent[|sent| - 1].draw - sent[k].draw < 65535
    requires Answers(frame, IdentityOf(sent[|sent| - 1])) && Answers(frame, IdentityOf(sent[k]))
    ensures k == |sent| - 1
  {
    var now := sent[|sent| - 1];
    if k < |sent| - 1 {
      assert sent[k].draw < now.draw;
      assert now.service == frame[4] == sent[k].service;
      if now.service != CTL {
        SameTransaction(frame, now.service, Transaction(now.draw));
        SameTransaction(frame, now.service, Transaction(sent[k].draw));
        TransactionsDistinct(sent[k].draw, now.draw);
      }
    }
  }

  lemma StrayAnswersNothing(frame: seq<byte>, sent: seq<Sent>, client: byte, k: nat)
    requires OneClient(sent, client) && k < |sent|
    requires Foreign(frame, client) || SharedControl(frame, sent)
    ensures !Answers(frame, IdentityOf(sent[k]))
  {
    if Foreign(frame, client) {
      ForeignAnswersNothing(frame, sent, client, k);
    } else {
      hide TransactionField, GetU16, Counter;
    }
  }

  /** For every run with late, stray and unsolicited messages: a payload is the body of a
    * message that was made to answer the current request. */
  lemma PayloadAnswersCurrentRequest(sent: seq<Sent>, client: byte, script: Script, origins: seq<Option<nat>>)
    returns (turn: nat)
    requires |sent| > 0 && SessionOrder(sent) && OneClient(sent, client)
    requires Provenance(script.events, origins, sent, client) && Punctual(origins, sent)
    requires Exchange(IdentityOf(sent[|sent| - 1]), script).Payload?
    ensures turn < |script.events| && script.events[turn].Arrived?
    ensures origins[turn] == Some(|sent| - 1)
    ensures var frame := script.events[turn].frame; var h := HeaderLength(sent[|sent| - 1].service);
      |frame| >= h && Exchange(IdentityOf(sent[|sent| - 1]), script).tlvs == frame[h..]
  {
    hide SessionOrder, OneClient, Foreign, SharedControl, TransactionField, GetU16;
    var now := |sent| - 1;
    turn := PayloadArrived(script.events, IdentityOf(sent[now]));
    var frame := script.events[turn].frame;
    match origins[turn]
    case Some(k) => AcceptedIsCurrent(sent, frame, k);
    case None => StrayAnswersNothing(frame, sent, client, now);
  }

  /** The bound is tight: an answer exactly 65535 draws late is taken for the current one. */
  lemma LateByAWholeTurn(client: byte, draw: nat, message: nat, tlvs: seq<byte>)
    requires draw > 0
    ensures IdentityOf(Sent(UIM, client, draw, message)) == IdentityOf(Sent(UIM, client, draw + 65535, message))
  {
    TransactionRepeats(draw, draw + 65535);
  }

  // ---- requests pass the checks that answers must pass ----

  /** A request that fits the buffer carries its identity, and its length fields are the ones
    * the exchange would accept. */
  lemma RequestIsConsistent(id: Identity, ts: seq<Tlv>)
    requires id.transaction < 65536 && id.message < 65536
    requires HeaderLength(id.service) + |EncodeTlvs(ts)| <= QMI_BUFFER
    ensures var r := Request(id.service, id.client, id.transaction, id.message, ts);
      && Carries(r, id) && LengthsAgree(r, id.service) && r[4] == id.service
      && r[HeaderLength(id.service)..] == EncodeTlvs(ts)
  {
    hide EncodeTlvs;
    var h := HeaderLength(id.service);
    var area := EncodeTlvs(ts);
    var r := Request(id.service, id.client, id.transaction, id.message, ts);
    var head := Header(id.service, id.client, id.transaction, id.message, h - 1 + |area|, |area|);
    HeaderFields(id.service, id.client, id.transaction, id.message, h - 1 + |area|, |area|);
    assert r[..h] == head;
    assert GetU16(r, 1) == GetU16(head, 1);
    assert GetU16(r, h - 2) == GetU16(head, h - 2);
    assert GetU16(r, h - 4) == GetU16(head, h - 4);
  }

  lemma HeaderFields(service: byte, client: byte, transaction: nat, message: nat, total: nat, tlvLength: nat)
    requires message < 65536 && total < 65536 && tlvLength < 65536
    ensures var b := Header(service, client, transaction, message, total, tlvLength); var h := HeaderLength(service);
      && b[4] == service && b[5] == client && GetU16(b, 1) == total
      && GetU16(b, h - 4) == message && GetU16(b, h - 2) == tlvLength
  {
    var b := Header(service, client, transaction, message, total, tlvLength);
    var h := HeaderLength(service);
    var middle: seq<byte> := [0x00, service, client, 0x00] + TransactionField(service, transaction);
    assert b == [0x01] + U16(total) + (middle + U16(message) + U16(tlvLength));
    U16RoundTrip(total, [0x01], middle + U16(message) + U16(tlvLength));
    assert b == ([0x01] + U16(total) + middle) + U16(message) + U16(tlvLength);
    U16RoundTrip(message, [0x01] + U16(total) + middle, U16(tlvLength));
    assert b == ([0x01] + U16(total) + middle + U16(message)) + U16(tlvLength) + [];
    U16RoundTrip(tlvLength, [0x01] + U16(total) + middle + U16(message), []);
  }

  // ---- answers ----

  /** A response with this identity, whatever its two length fields say. */
  function Response(id: Identity, total: nat, tlvLength: nat, area: seq<byte>): seq<byte> {
    var head := Header(id.service, id.client, id.transaction, id.message, total, tlvLength);
    head[3 := 0x80][6 := ResponseFlag(id.service)] + area
  }

  lemma AnswerAnswers(id: Identity, total: nat, tlvLength: nat, area: seq<byte>)
    requires id.transaction < 65536 && id.message < 65536 && total < 65536 && tlvLength < 65536
    ensures var frame := Response(id, total, tlvLength, area); var h := HeaderLength(id.service);
      && |frame| == h + |area| && Answers(frame, id) && frame[h..] == area
      && GetU16(frame, 1) == total && GetU16(frame, h - 2) == tlvLength
  {
    var h := HeaderLength(id.service);
    var head := Header(id.service, id.client, id.transaction, id.message, total, tlvLength);
    HeaderFields(id.service, id.client, id.transaction, id.message, total, tlvLength);
    HeaderTransaction(id.service, id.client, id.transaction, id.message, total, tlvLength);
    hide Header, TransactionField;
    var frame := Response(id, total, tlvLength, area);
    assert frame[7..h - 4] == head[7..h - 4];
  }

  lemma HeaderTransaction(service: byte, client: byte, transaction: nat, message: nat, total: nat, tlvLength: nat)
    ensures var b := Header(service, client, transaction, message, total, tlvLength);
      b[0] == 0x01 && b[7..HeaderLength(service) - 4] == TransactionField(service, transaction)
  {
    hide U16;
  }

  /** The only message that arrives is an answer: accepted when its lengths are right, and a
    * protocol error when one of them is not. */
  lemma OneAnswer(id: Identity, total: nat, tlvLength: nat, area: seq<byte>)
    requires id.transaction < 65536 && id.message < 65536 && total < 65536 && tlvLength < 65536
    ensures var h := HeaderLength(id.service);
      Exchange(id, Script(true, [Arrived(Response(id, total, tlvLength, area))])) ==
      if total + 1 == h + |area| && tlvLength == |area| then Payload(area) else ProtocolError
  {
    AnswerAnswers(id, total, tlvLength, area);
    hide Response, Answers;
  }
}
