/** The response headers: the status line and the fields that frame the body. */
module HttpHeaders {
  import opened Options
  import opened Text
  import opened HttpBody

  const CRLF := "\r\n"

  datatype Framing = Framing(status: nat, chunked: bool, length: Option<nat>)

  /** The code of a status line of HTTP/1.0 or HTTP/1.1. */
  function StatusCode(text: string): Option<nat> {
    if |text| < 13 || text[..7] != "HTTP/1." || (text[7] != '0' && text[7] != '1') || text[8] != ' '
      || !('1' <= text[9] <= '5') || !IsDigit(text[10]) || !IsDigit(text[11]) || (text[12] != ' ' && text[12] != '\r')
    then None
    else Some(100 * DigitValue(text[9]) + 10 * DigitValue(text[10]) + DigitValue(text[11]))
  }

  // ---- one field ----

  datatype Field = Field(name: string, value: string)

  /** The name up to the colon and the value after it, without the blanks before the value. */
  function FieldOf(line: string): Option<Field> {
    match Find(line, ":", 0)
    case None => None
    case Some(c) => Some(Field(line[..c], SkipBlanks(line[c + 1..])))
  }

  function DigitRun(text: string): (n: nat)
    ensures n <= |text| && forall i :: 0 <= i < n ==> IsDigit(text[i])
  {
    if |text| == 0 || !IsDigit(text[0]) then 0 else 1 + DigitRun(text[1..])
  }

  /** The length a Content-Length value gives. */
  function LengthOf(value: string): Option<nat> {
    var n := DigitRun(value);
    if n == 0 || SkipBlanks(value[n..]) != "" || DecimalNumber(value[..n]) > MAX_RESPONSE_BODY then None
    else Some(DecimalNumber(value[..n]))
  }

  predicate IsCoding(line: string) {
    FieldOf(line).Some? && SameIgnoringCase(FieldOf(line).value.name, "Transfer-Encoding")
  }

  predicate IsLength(line: string) {
    FieldOf(line).Some? && SameIgnoringCase(FieldOf(line).value.name, "Content-Length")
  }

  predicate SaysChunked(line: string)
    requires IsCoding(line)
  {
    SameIgnoringCase(TrimBlanks(FieldOf(line).value.value), "chunked")
  }

  function SaidLength(line: string): Option<nat>
    requires IsLength(line)
  {
    LengthOf(FieldOf(line).value.value)
  }

  function Step(f: Framing, line: string): Option<Framing> {
    if FieldOf(line).None? then None
    else if IsCoding(line) then
      if f.chunked || !SaysChunked(line) then None else Some(f.(chunked := true))
    else if IsLength(line) then
      match SaidLength(line)
      case None => None
      case Some(n) => if f.length.Some? && f.length.value != n then None else Some(f.(length := Some(n)))
    else Some(f)
  }

  // ---- all fields ----

  /** The lines up to the empty line. */
  function FieldLines(text: string): Option<seq<string>> {
    if text == "" then Some([])
    else
      match Find(text, CRLF, 0)
      case None => None
      case Some(k) =>
        if k == 0 then Some([])
        else
          match FieldLines(text[k + 2..])
          case None => None
          case Some(more) => Some([text[..k]] + more)
  }

  function Frame(status: nat, lines: seq<string>): Option<Framing> {
    if |lines| == 0 then Some(Framing(status, false, None))
    else
      match Frame(status, lines[..|lines| - 1])
      case None => None
      case Some(f) => Step(f, lines[|lines| - 1])
  }

  /** Never both codings. */
  function OneCoding(f: Option<Framing>): Option<Framing> {
    if f.Some? && f.value.chunked && f.value.length.Some? then None else f
  }

  function FrameAll(status: nat, lines: Option<seq<string>>): Option<Framing> {
    match lines case None => None case Some(lines) => OneCoding(Frame(status, lines))
  }

  function ParseHead(text: string): Option<Framing> {
    if StatusCode(text).None? || Find(text, CRLF, 0).None? then None
    else FrameAll(StatusCode(text).value, FieldLines(text[Find(text, CRLF, 0).value + 2..]))
  }

  /** Fields that agree: each has a colon, at most one transfer coding and that one chunked,
    * and one length however often it is given. */
  predicate Agree(lines: seq<string>) {
    && (forall i :: 0 <= i < |lines| ==> FieldOf(lines[i]).Some?)
    && (forall i :: 0 <= i < |lines| && IsCoding(lines[i]) ==> SaysChunked(lines[i]))
    && (forall i, j :: 0 <= i < j < |lines| && IsCoding(lines[i]) ==> !IsCoding(lines[j]))
    && (forall i :: 0 <= i < |lines| && IsLength(lines[i]) ==> SaidLength(lines[i]).Some?)
    && (forall i, j :: 0 <= i < j < |lines| && IsLength(lines[i]) && IsLength(lines[j]) ==>
          SameLength(lines[i], lines[j]))
  }

  predicate SameLength(a: string, b: string)
    requires IsLength(a) && IsLength(b)
  {
    SaidLength(a) == SaidLength(b)
  }

  predicate HasCoding(lines: seq<string>) { exists i :: 0 <= i < |lines| && IsCoding(lines[i]) }
  predicate HasLength(lines: seq<string>) { exists i :: 0 <= i < |lines| && IsLength(lines[i]) }

  /** Every Content-Length among the lines gives this length. */
  predicate AllSay(lines: seq<string>, length: Option<nat>) {
    forall i :: 0 <= i < |lines| && IsLength(lines[i]) ==> SaidLength(lines[i]) == length
  }

  lemma AllSayMore(init: seq<string>, last: string, length: Option<nat>)
    ensures AllSay(init + [last], length) <==> AllSay(init, length) && (IsLength(last) ==> SaidLength(last) == length)
    ensures !HasLength(init) ==> AllSay(init, length)
  {
    hide IsLength, SaidLength;
    assert forall i :: 0 <= i < |init| ==> (init + [last])[i] == init[i];
    assert (init + [last])[|init|] == last;
  }

  lemma NotBoth(line: string)
    ensures !(IsCoding(line) && IsLength(line))
  {}

  /** A framing that is what all the fields say. */
  predicate Says(f: Framing, status: nat, lines: seq<string>) {
    && f.status == status && (f.chunked <==> HasCoding(lines)) && (f.length.Some? <==> HasLength(lines))
    && AllSay(lines, f.length)
  }

  /** One more field is accepted exactly when it agrees with those before it. */
  lemma StepAgrees(f: Framing, status: nat, init: seq<string>, last: string)
    requires Agree(init) && Says(f, status, init)
    ensures Step(f, last).Some? <==> Agree(init + [last])
  {
    NotBoth(last);
    hide FieldOf, IsCoding, IsLength, SaysChunked, SaidLength, Agree, HasCoding, HasLength, AllSay;
    AgreeMore(init, last);
    AllSayMore(init, last, if IsLength(last) then SaidLength(last) else None);
    if HasLength(init) { AllSayOne(init, f.length, if IsLength(last) then SaidLength(last) else None); }
  }

  /** Fields that give one length all give it. */
  lemma AllSayOne(lines: seq<string>, a: Option<nat>, b: Option<nat>)
    requires AllSay(lines, a) && HasLength(lines)
    ensures AllSay(lines, b) <==> a == b
  {
    hide IsLength, SaidLength;
  }

  lemma StepSays(f: Framing, status: nat, init: seq<string>, last: string)
    requires Says(f, status, init) && Step(f, last).Some?
    ensures Says(Step(f, last).value, status, init + [last])
  {
    NotBoth(last);
    hide FieldOf, IsCoding, IsLength, SaysChunked, SaidLength, HasCoding, HasLength, AllSay;
    HasMore(init, last);
    AllSayMore(init, last, f.length);
    AllSayMore(init, last, if IsLength(last) then SaidLength(last) else None);
  }

  /** A list of fields is framed exactly when its fields agree, and the framing is then what
    * they all say. */
  lemma {:induction false} FrameExact(status: nat, lines: seq<string>)
    ensures Frame(status, lines).Some? <==> Agree(lines)
    ensures Frame(status, lines).Some? ==> Says(Frame(status, lines).value, status, lines)
    decreases |lines|
  {
    if |lines| > 0 {
      var n := |lines| - 1;
      var init, last := lines[..n], lines[n];
      hide Step, Agree, Says;
      FrameExact(status, init);
      assert lines == init + [last];
      AgreeBefore(init, last);
      if Frame(status, init).Some? {
        StepAgrees(Frame(status, init).value, status, init, last);
        if Frame(status, lines).Some? { StepSays(Frame(status, init).value, status, init, last); }
      }
    }
  }

  lemma AgreeBefore(init: seq<string>, last: string)
    ensures Agree(init + [last]) ==> Agree(init)
  {
    hide Agree, AllSay, HasCoding;
    AgreeMore(init, last);
  }

  lemma HasMore(init: seq<string>, last: string)
    ensures HasCoding(init + [last]) <==> HasCoding(init) || IsCoding(last)
    ensures HasLength(init + [last]) <==> HasLength(init) || IsLength(last)
  {
    hide IsCoding, IsLength;
    var lines := init + [last];
    assert forall i :: 0 <= i < |init| ==> lines[i] == init[i];
    assert lines[|init|] == last;
  }

  lemma AgreeMore(init: seq<string>, last: string)
    ensures Agree(init + [last]) <==>
      && Agree(init) && FieldOf(last).Some?
      && (IsCoding(last) ==> SaysChunked(last) && !HasCoding(init))
      && (IsLength(last) ==> SaidLength(last).Some?)
      && (IsLength(last) ==> AllSay(init, SaidLength(last)))
  {
    hide FieldOf, IsCoding, IsLength, SaysChunked, SaidLength;
    var lines := init + [last];
    assert forall i :: 0 <= i < |init| ==> lines[i] == init[i];
    assert lines[|init|] == last;
  }

  /** An accepted length is within the limit. */
  lemma {:induction false} LengthIsBounded(status: nat, lines: seq<string>)
    requires Frame(status, lines).Some? && Frame(status, lines).value.length.Some?
    ensures Frame(status, lines).value.length.value <= MAX_RESPONSE_BODY
    decreases |lines|
  {
    hide FieldOf, IsCoding, IsLength, SaysChunked;
    if |lines| > 0 {
      var before := Frame(status, lines[..|lines| - 1]).value;
      if before.length.Some? { LengthIsBounded(status, lines[..|lines| - 1]); }
    }
  }

  /** Accepted headers are never both chunked and of a given length, and never of two lengths. */
  lemma HeadExact(text: string)
    requires StatusCode(text).Some? && Find(text, CRLF, 0).Some?
    requires FieldLines(text[Find(text, CRLF, 0).value + 2..]).Some?
    ensures var lines := FieldLines(text[Find(text, CRLF, 0).value + 2..]).value;
      && (ParseHead(text).Some? <==> Agree(lines) && !(HasCoding(lines) && HasLength(lines)))
      && (ParseHead(text).Some? ==>
            var f := ParseHead(text).value;
            && f.status == StatusCode(text).value && 100 <= f.status <= 599
            && (f.chunked <==> HasCoding(lines)) && (f.length.Some? <==> HasLength(lines))
            && AllSay(lines, f.length))
  {
    var lines := FieldLines(text[Find(text, CRLF, 0).value + 2..]).value;
    FrameExact(StatusCode(text).value, lines);
    assert 100 <= StatusCode(text).value <= 599;
    hide Frame, FieldLines, StatusCode, Agree, HasCoding, HasLength, IsLength, SaidLength;
  }

  /** The loop over the lines. */
  method ParseResponseHeaders(headers: string) returns (r: Option<Framing>)
    ensures r == ParseHead(headers)
  {
    hide StatusCode, FieldLines, Step, Frame, FrameAll, Onward, Find;
    var status := StatusCode(headers);
    if status == None { return None; }
    var first := Find(headers, CRLF, 0);
    if first == None { return None; }
    var line := first.value + 2;
    var f := Framing(status.value, false, None);
    ghost var seen: seq<string> := [];
    FrameStart(status.value);
    OnwardFrom([], [], FieldLines(headers[line..]));
    while line < |headers|
      invariant line <= |headers|
      invariant ParseHead(headers) == FrameAll(status.value, Onward(seen, FieldLines(headers[line..])))
      invariant Frame(status.value, seen) == Some(f)
    {
      var next := Find(headers, CRLF, line);
      FindShift(headers, CRLF, line);
      LineStep(status.value, seen, f, headers[line..]);
      if next == None { return None; }
      if next.value == line { return OneCoding(Some(f)); }
      var text := headers[line..next.value];
      assert headers[line..][..next.value - line] == text;
      assert headers[line..][next.value - line + 2..] == headers[next.value + 2..];
      var stepped := Step(f, text);
      if stepped == None { return None; }
      f := stepped.value;
      seen := seen + [text];
      line := next.value + 2;
    }
    LineStep(status.value, seen, f, headers[line..]);
    return OneCoding(Some(f));
  }

  /** What the next line does to the framing of the whole. */
  lemma LineStep(status: nat, seen: seq<string>, f: Framing, rest: string)
    requires Frame(status, seen) == Some(f)
    ensures var all := FrameAll(status, Onward(seen, FieldLines(rest)));
      if rest == "" then all == OneCoding(Some(f))
      else
        match Find(rest, CRLF, 0)
        case None => all == None
        case Some(k) =>
          if k == 0 then all == OneCoding(Some(f))
          else
            match Step(f, rest[..k])
            case None => all == None
            case Some(g) =>
              var more := seen + [rest[..k]];
              Frame(status, more) == Some(g) && all == FrameAll(status, Onward(more, FieldLines(rest[k + 2..])))
  {
    hide Step, Frame, Find;
    assert seen + [] == seen;
    if rest != "" && Find(rest, CRLF, 0).Some? && Find(rest, CRLF, 0).value > 0 {
      var k := Find(rest, CRLF, 0).value;
      var more := FieldLines(rest[k + 2..]);
      FrameMore(status, seen, rest[..k]);
      OnwardFrom(seen, [rest[..k]], more);
      FrameStops(status, seen + [rest[..k]], more);
    }
  }

  lemma FrameStart(status: nat)
    ensures Frame(status, []) == Some(Framing(status, false, None))
  {}

  lemma FrameMore(status: nat, seen: seq<string>, line: string)
    ensures Frame(status, seen + [line]) == match Frame(status, seen) case None => None case Some(f) => Step(f, line)
  {
    assert (seen + [line])[..|seen|] == seen;
  }

  /** A line that is refused refuses the whole. */
  lemma {:induction false} FrameStops(status: nat, seen: seq<string>, more: Option<seq<string>>)
    ensures Frame(status, seen).None? && more.Some? ==> Frame(status, seen + more.value).None?
    decreases if more.Some? then |more.value| else 0
  {
    if more.Some? && |more.value| > 0 {
      var n := |more.value| - 1;
      FrameStops(status, seen, Some(more.value[..n]));
      assert seen + more.value == (seen + more.value[..n]) + [more.value[n]];
      FrameMore(status, seen + more.value[..n], more.value[n]);
    } else if more.Some? {
      assert seen + more.value == seen;
    }
  }

  lemma OccursShift(text: string, pattern: string, from: nat, i: nat)
    requires from <= |text|
    ensures OccursAt(text[from..], pattern, i) <==> OccursAt(text, pattern, from + i)
  {
    if from + i + |pattern| <= |text| {
      assert text[from..][i..i + |pattern|] == text[from + i..from + i + |pattern|];
    }
  }

  lemma FindShift(text: string, pattern: string, from: nat)
    requires from <= |text|
    ensures Find(text, pattern, from) ==
      match Find(text[from..], pattern, 0) case None => None case Some(i) => Some(from + i)
  {
    hide OccursAt;
    forall i: nat ensures OccursAt(text[from..], pattern, i) <==> OccursAt(text, pattern, from + i) {
      OccursShift(text, pattern, from, i);
    }
    match Find(text[from..], pattern, 0)
    case Some(i) =>
      forall j | from <= j < from + i ensures !OccursAt(text, pattern, j) {
        assert !OccursAt(text[from..], pattern, j - from);
      }
      FindFirst(text, pattern, from, from + i);
    case None =>
      forall j | from <= j ensures !OccursAt(text, pattern, j) { assert !OccursAt(text[from..], pattern, j - from); }
  }
}
