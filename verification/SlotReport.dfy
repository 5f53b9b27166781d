/** The physical-slot report: two parallel arrays of entries of varying length, read with one
  * cursor each. */
module SlotReport {
  import opened Basics
  import opened Options
  import opened Text

  /** Card state, slot state, logical slot and card number, as they stand in the status array. */
  datatype Status = Status(card: seq<byte>, state: seq<byte>, logical: byte, iccid: seq<byte>)

  /** Protocol, application count, answer to reset and eUICC flag, as in the information array. */
  datatype Information = Information(protocol: seq<byte>, applications: byte, atr: seq<byte>, euicc: byte)

  datatype Slot = Slot(status: Status, information: Information)

  datatype SlotError = NoArrays | ArraysDisagree | ShortStatus | ShortIccid | ShortInformation | ShortAtr | DidNotFit
  datatype Reply = Reported(text: string) | Refused(error: SlotError)

  const OUT_SIZE := 512
  const MAX_SLOTS := 8

  predicate WellFormed(s: Slot) {
    && |s.status.card| == 4 && |s.status.state| == 4 && |s.status.iccid| < 256
    && |s.information.protocol| == 4 && |s.information.atr| < 256
  }

  predicate AllWellFormed(slots: seq<Slot>) { forall i :: 0 <= i < |slots| ==> WellFormed(slots[i]) }

  // ---- the text of a slot ----

  function U32(b: seq<byte>): nat
    requires |b| == 4
  {
    (b[0] as int) + 0x100 * (b[1] as int) + 0x1_0000 * (b[2] as int) + 0x100_0000 * (b[3] as int)
  }

  function CardText(card: nat): string {
    if card == 0 then "absent" else if card == 1 then "present" else "error"
  }

  function KindText(card: nat, euicc: nat): string {
    if card != 1 then "unknown" else if euicc != 0 then "euicc" else "uicc"
  }

  function Piece(index: nat, card: nat, state: nat, euicc: nat): (piece: string)
    requires index < 9
    ensures |piece| <= 31
  {
    " slot " + [Digit(index + 1)] + " " + CardText(card) + " " + (if state == 1 then "active" else "inactive")
    + " " + KindText(card, euicc)
  }

  function SlotText(index: nat, s: Slot): string
    requires index < 9 && WellFormed(s)
  {
    Piece(index, U32(s.status.card), U32(s.status.state), s.information.euicc)
  }

  lemma StateIs(b: seq<byte>)
    requires |b| == 4
    ensures U32(b) == 0 <==> b == [0, 0, 0, 0]
    ensures U32(b) == 1 <==> b == [1, 0, 0, 0]
  {}

  /** The words of a slot, from its bytes: the card is there when its four bytes are 1, 0, 0, 0 and
    * absent when they are all zero; the kind is known of a card that is there only. */
  lemma SlotWords(index: nat, s: Slot)
    requires index < 8 && WellFormed(s)
    ensures var there := s.status.card == [1, 0, 0, 0];
      SlotText(index, s) ==
        " slot " + ["12345678"[index]] + " "
        + (if there then "present" else if s.status.card == [0, 0, 0, 0] then "absent" else "error")
        + " " + (if s.status.state == [1, 0, 0, 0] then "active" else "inactive")
        + " " + (if there && s.information.euicc == 0 then "uicc" else if there then "euicc" else "unknown")
  {
    StateIs(s.status.card);
    StateIs(s.status.state);
    assert Digit(index + 1) == "12345678"[index];
    hide U32;
  }

  /** The texts of the slots from one index on. */
  function SlotTexts(index: nat, slots: seq<Slot>): string
    requires index + |slots| <= MAX_SLOTS && AllWellFormed(slots)
    decreases |slots|
  {
    if |slots| == 0 then "" else SlotText(index, slots[0]) + SlotTexts(index + 1, slots[1..])
  }

  function Opening(count: nat): string
    requires count < 10
  {
    "ok slots " + [Digit(count)]
  }

  lemma {:induction false} TextIsShort(index: nat, slots: seq<Slot>)
    requires index + |slots| <= MAX_SLOTS && AllWellFormed(slots)
    ensures |SlotTexts(index, slots)| <= 31 * |slots|
    decreases |slots|
  {
    if |slots| > 0 {
      TextIsShort(index + 1, slots[1..]);
    }
  }

  // ---- one entry ----

  datatype Read<T> = Entry(entry: T, rest: seq<byte>) | Short(error: SlotError)

  function ReadStatus(b: seq<byte>): (r: Read<Status>)
    ensures r.Short? ==> r.error != DidNotFit
    ensures r.Entry? ==> |r.entry.card| == 4 && |r.entry.state| == 4 && |r.entry.iccid| < 256
  {
    if |b| < 10 then Short(ShortStatus)
    else
      var n := b[9] as int;
      if |b| < 10 + n then Short(ShortIccid)
      else Entry(Status(b[..4], b[4..8], b[8], b[10..10 + n]), b[10 + n..])
  }

  function ReadInformation(b: seq<byte>): (r: Read<Information>)
    ensures r.Short? ==> r.error != DidNotFit
    ensures r.Entry? ==> |r.entry.protocol| == 4 && |r.entry.atr| < 256
  {
    if |b| < 6 then Short(ShortInformation)
    else
      var n := b[5] as int;
      if |b| < 6 + n + 1 then Short(ShortAtr)
      else Entry(Information(b[..4], b[4], b[6..6 + n], b[6 + n]), b[7 + n..])
  }

  function EncodeStatus(s: Status): seq<byte>
    requires |s.iccid| < 256
  {
    s.card + s.state + [s.logical, |s.iccid|] + s.iccid
  }

  function EncodeInformation(s: Information): seq<byte>
    requires |s.atr| < 256
  {
    s.protocol + [s.applications, |s.atr|] + s.atr + [s.euicc]
  }

  lemma StatusRoundTrip(s: Status, rest: seq<byte>)
    requires |s.card| == 4 && |s.state| == 4 && |s.iccid| < 256
    ensures ReadStatus(EncodeStatus(s) + rest) == Entry(s, rest)
  {
    var b := EncodeStatus(s) + rest;
    assert b == s.card + (s.state + ([s.logical, |s.iccid|] + (s.iccid + rest)));
    assert b[10..] == s.iccid + rest;
    assert b[4..8] == s.state;
    assert b[..4] == s.card;
    assert b[10..10 + |s.iccid|] == s.iccid;
    assert b[10 + |s.iccid|..] == rest;
  }

  lemma InformationRoundTrip(s: Information, rest: seq<byte>)
    requires |s.protocol| == 4 && |s.atr| < 256
    ensures ReadInformation(EncodeInformation(s) + rest) == Entry(s, rest)
  {
    var b := EncodeInformation(s) + rest;
    assert b[4] == s.applications && b[5] == |s.atr| && b[6 + |s.atr|] == s.euicc;
    assert b[..4] == s.protocol;
    assert b[6..6 + |s.atr|] == s.atr;
    assert b[7 + |s.atr|..] == rest;
  }

  lemma ReadStatusEncodes(b: seq<byte>)
    requires ReadStatus(b).Entry?
    ensures var r := ReadStatus(b);
      b == EncodeStatus(r.entry) + r.rest
  {
    var n := b[9] as int;
    assert b == b[..4] + b[4..8] + [b[8], b[9]] + b[10..10 + n] + b[10 + n..];
  }

  lemma ReadInformationEncodes(b: seq<byte>)
    requires ReadInformation(b).Entry?
    ensures var r := ReadInformation(b);
      b == EncodeInformation(r.entry) + r.rest
  {
    var n := b[5] as int;
    assert b == b[..4] + [b[4], b[5]] + b[6..6 + n] + [b[6 + n]] + b[7 + n..];
  }

  // ---- the two arrays together ----

  /** The report of the remaining slots, entry i of one array with entry i of the other. */
  function Report(index: nat, count: nat, status: seq<byte>, info: seq<byte>, text: string): Reply
    requires index <= count <= MAX_SLOTS
    decreases count - index
  {
    if index == count then Reported(text)
    else
      match ReadStatus(status)
      case Short(e) => Refused(e)
      case Entry(s, statusRest) =>
        match ReadInformation(info)
        case Short(e) => Refused(e)
        case Entry(i, infoRest) =>
          var piece := Piece(index, U32(s.card), U32(s.state), i.euicc);
          if |text| + |piece| >= OUT_SIZE then Refused(DidNotFit)
          else Report(index + 1, count, statusRest, infoRest, text + piece)
  }

  function SlotsReply(status: Option<seq<byte>>, info: Option<seq<byte>>): Reply {
    if status == None || info == None || |status.value| < 1 || |info.value| < 1 then Refused(NoArrays)
    else
      var count := status.value[0];
      if count == 0 || count != info.value[0] || count > MAX_SLOTS then Refused(ArraysDisagree)
      else Report(0, count, status.value[1..], info.value[1..], Opening(count))
  }

  /** The array of the status entries, after its count. */
  function StatusArray(slots: seq<Slot>): seq<byte>
    requires AllWellFormed(slots)
  {
    if |slots| == 0 then [] else EncodeStatus(slots[0].status) + StatusArray(slots[1..])
  }

  function InformationArray(slots: seq<Slot>): seq<byte>
    requires AllWellFormed(slots)
  {
    if |slots| == 0 then [] else EncodeInformation(slots[0].information) + InformationArray(slots[1..])
  }

  /** Arrays that describe some slots are reported as exactly those slots, in their order. */
  lemma {:induction false} ReportOfSlots(index: nat, slots: seq<Slot>, statusTail: seq<byte>, infoTail: seq<byte>,
    text: string)
    requires index + |slots| <= MAX_SLOTS && AllWellFormed(slots)
    requires |text| <= 10 + 31 * index
    ensures Report(index, index + |slots|, StatusArray(slots) + statusTail, InformationArray(slots) + infoTail, text)
         == Reported(text + SlotTexts(index, slots))
    decreases |slots|
  {
    hide ReadStatus, ReadInformation, EncodeStatus, EncodeInformation, U32, Piece;
    if |slots| == 0 {
      assert text + "" == text;
    } else {
      var s, rest := slots[0], slots[1..];
      Concat(EncodeStatus(s.status), StatusArray(rest), statusTail);
      Concat(EncodeInformation(s.information), InformationArray(rest), infoTail);
      StatusRoundTrip(s.status, StatusArray(rest) + statusTail);
      InformationRoundTrip(s.information, InformationArray(rest) + infoTail);
      var piece := SlotText(index, s);
      ReportOfSlots(index + 1, rest, statusTail, infoTail, text + piece);
      Concat(text, piece, SlotTexts(index + 1, rest));
    }
  }

  /** Whatever the arrays hold: either the answer names exactly `count` slots, which the arrays
    * describe entry by entry, or it is one error; and it always fits. */
  lemma {:induction false} ReportIsSlots(index: nat, count: nat, status: seq<byte>, info: seq<byte>, text: string)
    returns (slots: seq<Slot>, statusTail: seq<byte>, infoTail: seq<byte>)
    requires index <= count <= MAX_SLOTS && |text| <= 10 + 31 * index
    ensures Report(index, count, status, info, text) != Refused(DidNotFit)
    ensures Report(index, count, status, info, text).Reported? ==>
      && |slots| == count - index && AllWellFormed(slots)
      && status == StatusArray(slots) + statusTail && info == InformationArray(slots) + infoTail
      && Report(index, count, status, info, text).text == text + SlotTexts(index, slots)
    decreases count - index
  {
    hide EncodeStatus, EncodeInformation, U32, Piece, ReadStatus, ReadInformation;
    slots, statusTail, infoTail := [], status, info;
    if index == count {
      assert text + "" == text;
    } else if ReadStatus(status).Entry? && ReadInformation(info).Entry? {
      var s, i := ReadStatus(status), ReadInformation(info);
      ReadStatusEncodes(status);
      ReadInformationEncodes(info);
      var slot := Slot(s.entry, i.entry);
      var piece := SlotText(index, slot);
      var later;
      later, statusTail, infoTail := ReportIsSlots(index + 1, count, s.rest, i.rest, text + piece);
      slots := [slot] + later;
      assert slots[1..] == later;
      if Report(index, count, status, info, text).Reported? {
        Concat(EncodeStatus(s.entry), StatusArray(later), statusTail);
        Concat(EncodeInformation(i.entry), InformationArray(later), infoTail);
        Concat(text, piece, SlotTexts(index + 1, later));
      }
    }
  }

  /** An array as it arrives: the count, the entries, and whatever follows them. */
  function Counted(count: byte, entries: seq<byte>, tail: seq<byte>): (b: seq<byte>)
    ensures |b| > 0 && b[0] == count && b[1..] == entries + tail
  {
    Concat([count], entries, tail);
    [count] + entries + tail
  }

  /** Slots are reported exactly when both arrays hold the same count, from 1 to 8, and that
    * many whole entries; the report then names those slots in order, in at most 258 characters. */
  lemma SlotsExact(status: seq<byte>, info: seq<byte>)
    returns (slots: seq<Slot>, statusTail: seq<byte>, infoTail: seq<byte>)
    ensures SlotsReply(Some(status), Some(info)) != Refused(DidNotFit)
    ensures SlotsReply(Some(status), Some(info)).Reported? ==>
      && 1 <= |slots| <= MAX_SLOTS && AllWellFormed(slots)
      && status == Counted(|slots|, StatusArray(slots), statusTail)
      && info == Counted(|slots|, InformationArray(slots), infoTail)
      && SlotsReply(Some(status), Some(info)).text == Opening(|slots|) + SlotTexts(0, slots)
      && |SlotsReply(Some(status), Some(info)).text| <= 258
  {
    hide StatusArray, InformationArray, Report, SlotTexts, AllWellFormed;
    slots, statusTail, infoTail := [], [], [];
    if 1 <= |status| && 1 <= |info| && 0 < status[0] <= MAX_SLOTS && status[0] == info[0] {
      slots, statusTail, infoTail := ReportIsSlots(0, status[0], status[1..], info[1..], Opening(status[0]));
      if SlotsReply(Some(status), Some(info)).Reported? {
        TextIsShort(0, slots);
        CountedFrom(status, StatusArray(slots), statusTail);
        CountedFrom(info, InformationArray(slots), infoTail);
      }
    }
  }

  lemma CountedFrom(b: seq<byte>, entries: seq<byte>, tail: seq<byte>)
    requires |b| > 0 && b[1..] == entries + tail
    ensures b == Counted(b[0], entries, tail)
  {
    assert b == [b[0]] + b[1..];
    Concat([b[0]], entries, tail);
  }

  lemma SlotsRoundTrip(slots: seq<Slot>, statusTail: seq<byte>, infoTail: seq<byte>)
    requires 1 <= |slots| <= MAX_SLOTS && AllWellFormed(slots)
    ensures var status := Counted(|slots|, StatusArray(slots), statusTail);
      var info := Counted(|slots|, InformationArray(slots), infoTail);
      SlotsReply(Some(status), Some(info)) == Reported(Opening(|slots|) + SlotTexts(0, slots))
  {
    hide StatusArray, InformationArray, Report, SlotTexts, AllWellFormed, Counted;
    ReportOfSlots(0, slots, statusTail, infoTail, Opening(|slots|));
  }

  lemma EntryBytes(s: Slot)
    requires WellFormed(s) && |s.status.iccid| == 2 && |s.information.atr| == 1
    ensures var c, t := s.status.card, s.status.state;
      EncodeStatus(s.status) == [c[0], c[1], c[2], c[3], t[0], t[1], t[2], t[3], s.status.logical, 2,
                                 s.status.iccid[0], s.status.iccid[1]]
    ensures var p := s.information.protocol;
      EncodeInformation(s.information) == [p[0], p[1], p[2], p[3], s.information.applications, 1,
                                           s.information.atr[0], s.information.euicc]
  {}

  lemma OneSlotArrays(s: Slot)
    requires AllWellFormed([s]) && WellFormed(s)
    ensures StatusArray([s]) == EncodeStatus(s.status) && InformationArray([s]) == EncodeInformation(s.information)
    ensures SlotTexts(0, [s]) == SlotText(0, s)
  {
    assert [s][1..] == [];
    assert EncodeStatus(s.status) + [] == EncodeStatus(s.status);
    assert EncodeInformation(s.information) + [] == EncodeInformation(s.information);
    assert SlotText(0, s) + "" == SlotText(0, s);
  }

  /** One slot byte by byte: a eUICC in use, with a card number of two bytes and an answer to reset
    * of one. */
  lemma OneSlot(s: Slot)
    requires s == Slot(Status([1, 0, 0, 0], [1, 0, 0, 0], 1, [0x98, 0x10]), Information([9, 9, 9, 9], 1, [0x3B], 1))
    ensures SlotsReply(Some([1, 1, 0, 0, 0, 1, 0, 0, 0, 1, 2, 0x98, 0x10]), Some([1, 9, 9, 9, 9, 1, 1, 0x3B, 1])) ==
      Reported("ok slots " + "1" + (" slot " + "1" + " " + "present" + " " + "active" + " " + "euicc"))
  {
    EntryBytes(s);
    SlotWords(0, s);
    OneSlotArrays(s);
    OpeningOne();
    var status, info := [1] + StatusArray([s]) + [], [1] + InformationArray([s]) + [];
    assert status == [1, 1, 0, 0, 0, 1, 0, 0, 0, 1, 2, 0x98, 0x10];
    assert info == [1, 9, 9, 9, 9, 1, 1, 0x3B, 1];
    SlotsRoundTrip([s], [], []);
    hide SlotText, StatusArray, InformationArray, SlotsReply, SlotTexts, EncodeStatus, EncodeInformation, Opening;
  }

  lemma OpeningOne()
    ensures Opening(1) == "ok slots " + "1" && ["12345678"[0]] == "1"
  {}

  // ---- the cursor loop ----

  /** The two-cursor loop on the two values, if they were found. */
  method ReportSlots(status: Option<seq<byte>>, info: Option<seq<byte>>) returns (reply: Reply)
    ensures reply == SlotsReply(status, info)
  {
    hide Report, Piece, U32;
    if status == None || info == None { return Refused(NoArrays); }
    var s, i := status.value, info.value;
    if |s| < 1 || |i| < 1 { return Refused(NoArrays); }
    var count: nat := s[0];
    if count == 0 || count != i[0] || count > MAX_SLOTS { return Refused(ArraysDisagree); }
    var text := Opening(count);
    var statusAt, infoAt, index := 1, 1, 0;
    while index < count
      invariant index <= count && 1 <= statusAt <= |s| && 1 <= infoAt <= |i|
      invariant SlotsReply(status, info) == Report(index, count, s[statusAt..], i[infoAt..], text)
    {
      ghost var statusRest, infoRest := s[statusAt..], i[infoAt..];
      ReportStep(index, count, statusRest, infoRest, text);
      if statusAt + 10 > |s| { return Refused(ShortStatus); }
      var card := U32(s[statusAt..statusAt + 4]);
      var state := U32(s[statusAt + 4..statusAt + 8]);
      var iccidLength := s[statusAt + 9] as int;
      assert statusRest[9] == s[statusAt + 9];
      assert statusRest[..4] == s[statusAt..statusAt + 4] && statusRest[4..8] == s[statusAt + 4..statusAt + 8];
      statusAt := statusAt + 10;
      if statusAt + iccidLength > |s| { return Refused(ShortIccid); }
      statusAt := statusAt + iccidLength;
      assert statusRest[10 + iccidLength..] == s[statusAt..];
      if infoAt + 6 > |i| { return Refused(ShortInformation); }
      var atrLength := i[infoAt + 5] as int;
      assert infoRest[5] == i[infoAt + 5];
      infoAt := infoAt + 6;
      if infoAt + atrLength + 1 > |i| { return Refused(ShortAtr); }
      infoAt := infoAt + atrLength;
      var euicc := i[infoAt];
      infoAt := infoAt + 1;
      assert infoRest[6 + atrLength] == euicc;
      assert infoRest[7 + atrLength..] == i[infoAt..];
      var piece := Piece(index, card, state, euicc);
      if |text| + |piece| >= OUT_SIZE { return Refused(DidNotFit); }
      text := text + piece;
      index := index + 1;
    }
    ReportStep(index, count, s[statusAt..], i[infoAt..], text);
    return Reported(text);
  }

  lemma ReportStep(index: nat, count: nat, status: seq<byte>, info: seq<byte>, text: string)
    requires index <= count <= MAX_SLOTS
    ensures Report(index, count, status, info, text) ==
      if index == count then Reported(text)
      else if |status| < 10 then Refused(ShortStatus)
      else if |status| < 10 + (status[9] as int) then Refused(ShortIccid)
      else if |info| < 6 then Refused(ShortInformation)
      else if |info| < 7 + (info[5] as int) then Refused(ShortAtr)
      else
        var piece := Piece(index, U32(status[..4]), U32(status[4..8]), info[6 + (info[5] as int)]);
        if |text| + |piece| >= OUT_SIZE then Refused(DidNotFit)
        else Report(index + 1, count, status[10 + (status[9] as int)..], info[7 + (info[5] as int)..], text + piece)
  {
    hide Piece, U32;
  }
}
