/** One row of the provider database: its key, its validation, and its line of text. */
module ProviderRows {
  import opened Options
  import opened Text

  datatype Row = Row(mccmnc: string, imsiPattern: string, iccidPattern: string, gid1: string, spn: string,
                     provider: string, apn: string, priority: int, username: string, password: string,
                     auth: string, ipType: string)

  datatype Key = Key(mccmnc: string, imsiPattern: string, iccidPattern: string, gid1: string, spn: string,
                     apn: string, username: string, password: string, auth: string, ipType: string)

  /** What identifies a profile: everything but the provider's name and the priority. `lower` is
    * the lower-casing of text. */
  function ProfileKey(r: Row, lower: string -> string): Key {
    Key(r.mccmnc, r.imsiPattern, r.iccidPattern, lower(r.gid1), lower(r.spn), lower(r.apn),
        r.username, r.password, r.auth, r.ipType)
  }

  /** Two rows compete: these seven fields agree as they are written, and these three but for case. */
  predicate SameProfile(a: Row, b: Row, lower: string -> string) {
    && a.mccmnc == b.mccmnc && a.imsiPattern == b.imsiPattern && a.iccidPattern == b.iccidPattern
    && a.username == b.username && a.password == b.password && a.auth == b.auth && a.ipType == b.ipType
    && lower(a.gid1) == lower(b.gid1) && lower(a.spn) == lower(b.spn) && lower(a.apn) == lower(b.apn)
  }

  lemma KeyExact(a: Row, b: Row, lower: string -> string)
    ensures ProfileKey(a, lower) == ProfileKey(b, lower) <==> SameProfile(a, b, lower)
  {}

  // ---- validation ----

  predicate IsPattern(text: string) {
    |text| > 0 && forall i :: 0 <= i < |text| ==> IsDigit(text[i]) || text[i] == 'x' || text[i] == 'X'
  }

  predicate IsApn(text: string) {
    |text| > 0 && forall i :: 0 <= i < |text| ==>
      IsDigit(text[i]) || 'a' <= text[i] <= 'z' || 'A' <= text[i] <= 'Z' || text[i] in "._-"
  }

  predicate OneLine(text: string) { '\t' !in text && '\r' !in text && '\n' !in text }

  predicate IsAuth(text: string) {
    text == "-" || text == "none" || text == "pap" || text == "chap" || text == "pap-or-chap"
  }

  predicate IsIpType(text: string) { text == "-" || text == "ipv4" || text == "ipv6" || text == "ipv4v6" }

  predicate Valid(r: Row) {
    && 5 <= |r.mccmnc| <= 6 && AllDigits(r.mccmnc)
    && (r.imsiPattern == "-" || IsPattern(r.imsiPattern))
    && (r.iccidPattern == "-" || IsPattern(r.iccidPattern))
    && IsApn(r.apn)
    && 0 <= r.priority <= 999999
    && IsAuth(r.auth) && IsIpType(r.ipType)
    && OneLine(r.gid1) && OneLine(r.spn) && OneLine(r.provider) && OneLine(r.username) && OneLine(r.password)
  }

  // ---- the line of a row ----

  function IntText(n: int): string { if n < 0 then "-" + DecimalText(-n) else DecimalText(n) }

  function FieldsOf(r: Row): seq<string> {
    [r.mccmnc, r.imsiPattern, r.iccidPattern, r.gid1, r.spn, r.provider, r.apn, IntText(r.priority),
     r.username, r.password, r.auth, r.ipType]
  }

  function Join(fields: seq<string>): string {
    if |fields| == 0 then ""
    else if |fields| == 1 then fields[0]
    else fields[0] + "\t" + Join(fields[1..])
  }

  function AsTsv(r: Row): string { Join(FieldsOf(r)) }

  /** The fields between the tabs; a line without tabs is one field. */
  function Split(line: string): (fields: seq<string>)
    ensures |fields| > 0
    decreases |line|
  {
    match Find(line, "\t", 0)
    case None => [line]
    case Some(i) => [line[..i]] + Split(line[i + 1..])
  }

  function StripNewlines(line: string): string {
    if |line| > 0 && line[|line| - 1] == '\n' then StripNewlines(line[..|line| - 1]) else line
  }

  predicate IsSpace(c: char) {
    || 9 <= c as int <= 13 || 0x1c <= c as int <= 0x20 || 0x2000 <= c as int <= 0x200a
    || c as int in {0x85, 0xa0, 0x1680, 0x2028, 0x2029, 0x202f, 0x205f, 0x3000}
  }

  function SkipSpace(text: string): string {
    if |text| > 0 && IsSpace(text[0]) then SkipSpace(text[1..]) else text
  }

  function TrimSpace(text: string): string {
    if |text| > 0 && IsSpace(text[|text| - 1]) then TrimSpace(text[..|text| - 1]) else text
  }

  /** A decimal number with spaces around it and a sign before it. */
  function IntOf(text: string): Option<int> { SignedNumber(TrimSpace(SkipSpace(text))) }

  datatype Line = Skipped | Malformed | Holds(row: Row)

  /** A line of a database or override file: blank, comment, twelve fields, or an error. */
  function ParseLine(raw: string): Line {
    var line := StripNewlines(raw);
    if line == "" || (SkipSpace(line) != "" && SkipSpace(line)[0] == '#') then Skipped
    else
      var f := Split(line);
      if |f| != 12 || IntOf(f[7]) == None then Malformed
      else Holds(Row(f[0], f[1], f[2], f[3], f[4], f[5], f[6], IntOf(f[7]).value, f[8], f[9], f[10], f[11]))
  }

  // ---- the round trip ----

  predicate NoTabs(fields: seq<string>) { forall i :: 0 <= i < |fields| ==> '\t' !in fields[i] }

  lemma {:induction false} SplitJoin(fields: seq<string>)
    requires |fields| > 0 && NoTabs(fields)
    ensures Split(Join(fields)) == fields
  {
    var line := Join(fields);
    if |fields| == 1 {
      forall j | 0 <= j < |line| ensures !OccursAt(line, "\t", j) { NotThere(line, "\t", j); }
    } else {
      var n := |fields[0]|;
      assert line == fields[0] + ("\t" + Join(fields[1..]));
      assert line[n..n + 1] == "\t" && line[n + 1..] == Join(fields[1..]) && line[..n] == fields[0];
      forall j | 0 <= j < n ensures !OccursAt(line, "\t", j) {
        assert line[j] == fields[0][j];
        NotThere(line, "\t", j);
      }
      FindFirst(line, "\t", 0, n);
      SplitJoin(fields[1..]);
      assert [fields[0]] + fields[1..] == fields;
    }
  }

  lemma {:induction false} DigitsHaveNoSpace(text: string)
    requires AllDigits(text)
    ensures SkipSpace(text) == text && TrimSpace(text) == text
  {}

  lemma IntRoundTrip(n: nat)
    ensures IntOf(IntText(n)) == Some(n) && '\t' !in IntText(n)
  {
    DecimalRoundTrip(n);
    DigitsHaveNoSpace(DecimalText(n));
    assert forall i :: 0 <= i < |DecimalText(n)| ==> IsDigit(DecimalText(n)[i]);
  }

  lemma {:induction false} JoinKeepsOut(fields: seq<string>, c: char)
    requires c != '\t' && forall i :: 0 <= i < |fields| ==> c !in fields[i]
    ensures c !in Join(fields)
  {
    if |fields| > 1 { JoinKeepsOut(fields[1..], c); }
  }

  lemma FieldsPlain(r: Row)
    requires Valid(r)
    ensures forall i :: 0 <= i < 12 ==> OneLine(FieldsOf(r)[i])
  {
    PlainText(r);
    hide IsPattern, IsApn, AllDigits, IntText, OneLine, IsAuth, IsIpType;
  }

  /** The fields of a valid row, as text that a line can hold. */
  lemma FieldsFit(r: Row)
    requires Valid(r)
    ensures NoTabs(FieldsOf(r)) && IntOf(IntText(r.priority)) == Some(r.priority)
    ensures forall i :: 0 <= i < 12 ==> '\n' !in FieldsOf(r)[i]
  {
    FieldsPlain(r);
    IntRoundTrip(r.priority);
    hide FieldsOf, Valid, IntText, IntOf;
  }

  lemma DigitsPlain(text: string)
    requires AllDigits(text)
    ensures OneLine(text)
  {
    assert forall i :: 0 <= i < |text| ==> IsDigit(text[i]);
  }

  lemma PatternPlain(text: string)
    requires text == "-" || IsPattern(text)
    ensures OneLine(text)
  {}

  lemma ApnPlain(text: string)
    requires IsApn(text)
    ensures OneLine(text)
  {}

  lemma WordsPlain(text: string)
    requires IsAuth(text) || IsIpType(text)
    ensures OneLine(text)
  {}

  lemma IntPlain(n: nat)
    ensures OneLine(IntText(n))
  {
    DigitsPlain(DecimalText(n));
  }

  lemma PlainText(r: Row)
    requires Valid(r)
    ensures OneLine(r.mccmnc) && OneLine(r.imsiPattern) && OneLine(r.iccidPattern) && OneLine(r.apn)
    ensures OneLine(r.auth) && OneLine(r.ipType) && OneLine(IntText(r.priority))
  {
    hide IsPattern, IsApn, AllDigits, IntText, IsAuth, IsIpType, OneLine;
    WordsPlain(r.auth);
    WordsPlain(r.ipType);
    DigitsPlain(r.mccmnc);
    PatternPlain(r.imsiPattern);
    PatternPlain(r.iccidPattern);
    ApnPlain(r.apn);
    IntPlain(r.priority);
  }

  lemma StripsOne(line: string)
    requires '\n' !in line
    ensures StripNewlines(line + "\n") == line
  {
    assert (line + "\n")[..|line|] == line;
  }

  lemma NoComment(line: string)
    requires |line| > 0 && IsDigit(line[0])
    ensures SkipSpace(line) == line && line[0] != '#'
  {}

  lemma StartsWithDigit(r: Row)
    requires Valid(r)
    ensures |AsTsv(r)| > 0 && IsDigit(AsTsv(r)[0])
  {
    hide IsPattern, IsApn, IntText;
    var rest := Join(FieldsOf(r)[1..]);
    hide Join;
    assert AsTsv(r) == r.mccmnc + ("\t" + rest) by { JoinTwo(FieldsOf(r)); }
    assert IsDigit(r.mccmnc[0]);
  }

  lemma JoinTwo(fields: seq<string>)
    requires |fields| >= 2
    ensures Join(fields) == fields[0] + ("\t" + Join(fields[1..]))
  {}

  /** Printing a valid row and parsing the line gives the row back. */
  lemma RowRoundTrip(r: Row)
    requires Valid(r)
    ensures ParseLine(AsTsv(r) + "\n") == Holds(r)
  {
    hide Valid, Join, Split, IntText, IntOf, OneLine, StripNewlines, SkipSpace;
    FieldsFit(r);
    JoinKeepsOut(FieldsOf(r), '\n');
    SplitJoin(FieldsOf(r));
    StripsOne(AsTsv(r));
    StartsWithDigit(r);
    NoComment(AsTsv(r));
  }

  /** The order of the fields in a line. */
  lemma LineOrder(r: Row)
    ensures AsTsv(r) == r.mccmnc + ("\t" + (r.imsiPattern + ("\t" + (r.iccidPattern + ("\t" + (r.gid1 + ("\t"
      + (r.spn + ("\t" + (r.provider + ("\t" + LastSix(r))))))))))))
    ensures LastSix(r) == r.apn + ("\t" + (IntText(r.priority) + ("\t" + (r.username + ("\t"
      + (r.password + ("\t" + (r.auth + ("\t" + r.ipType)))))))))
  {
    var f := FieldsOf(r);
    FieldsAre(r);
    hide FieldsOf, LastSix, IntText, Join, AsTsv;
    FirstHalf(f);
    SecondHalf(f);
  }

  lemma FieldsAre(r: Row)
    ensures LastSix(r) == Join(FieldsOf(r)[6..]) && AsTsv(r) == Join(FieldsOf(r)[0..])
    ensures var f := FieldsOf(r);
      && |f| == 12 && f[0] == r.mccmnc && f[1] == r.imsiPattern && f[2] == r.iccidPattern && f[3] == r.gid1
      && f[4] == r.spn && f[5] == r.provider && f[6] == r.apn && f[7] == IntText(r.priority) && f[8] == r.username
      && f[9] == r.password && f[10] == r.auth && f[11] == r.ipType
  {
    assert FieldsOf(r)[0..] == FieldsOf(r);
    hide Join, IntText;
  }

  function LastSix(r: Row): string { Join(FieldsOf(r)[6..]) }

  lemma FirstHalf(f: seq<string>)
    requires |f| == 12
    ensures Join(f[0..]) == f[0] + ("\t" + (f[1] + ("\t" + (f[2] + ("\t" + (f[3] + ("\t"
      + (f[4] + ("\t" + (f[5] + ("\t" + Join(f[6..]))))))))))))
  {
    hide Join;
    JoinedFrom(f, 0);
    JoinedFrom(f, 1);
    JoinedFrom(f, 2);
    JoinedFrom(f, 3);
    JoinedFrom(f, 4);
    JoinedFrom(f, 5);
  }

  lemma SecondHalf(f: seq<string>)
    requires |f| == 12
    ensures Join(f[6..]) == f[6] + ("\t" + (f[7] + ("\t" + (f[8] + ("\t"
      + (f[9] + ("\t" + (f[10] + ("\t" + f[11])))))))))
  {
    LastJoined(f);
    hide Join;
    JoinedFrom(f, 6);
    JoinedFrom(f, 7);
    JoinedFrom(f, 8);
    JoinedFrom(f, 9);
    JoinedFrom(f, 10);
  }

  lemma LastJoined(f: seq<string>)
    requires |f| == 12
    ensures Join(f[11..]) == f[11]
  {
    assert f[11..] == [f[11]];
  }

  lemma JoinedFrom(f: seq<string>, k: nat)
    requires k + 1 < |f|
    ensures Join(f[k..]) == f[k] + ("\t" + Join(f[k + 1..]))
  {
    assert f[k..][0] == f[k] && f[k..][1..] == f[k + 1..];
  }

  // ---- what is valid, at the edges ----

  /** A row that is valid, to vary. */
  function PlainRow(): Row {
    Row("20416", "-", "-", "-", "-", "Provider", "internet", 574, "-", "-", "none", "ipv4")
  }

  lemma PlainRowValid()
    ensures Valid(PlainRow())
  {}

  lemma NumbersValid(n: int)
    ensures Valid(PlainRow().(priority := n)) <==> 0 <= n <= 999999
  {
    PlainRowValid();
    hide IsPattern, IsApn, IsAuth, IsIpType, OneLine;
  }

  lemma NetworkValid(text: string)
    ensures Valid(PlainRow().(mccmnc := text)) <==>
      (|text| == 5 || |text| == 6) && forall i :: 0 <= i < |text| ==> text[i] in "0123456789"
  {
    PlainRowValid();
    forall c: char ensures IsDigit(c) <==> c in "0123456789" { DigitCharacters(c); }
    hide IsPattern, IsApn, IsAuth, IsIpType, OneLine;
  }

  lemma DigitCharacters(c: char)
    ensures IsDigit(c) <==> c in "0123456789"
  {}

  lemma WordsValid(text: string)
    ensures Valid(PlainRow().(auth := text)) <==> text in ["-", "none", "pap", "chap", "pap-or-chap"]
    ensures Valid(PlainRow().(ipType := text)) <==> text in ["-", "ipv4", "ipv6", "ipv4v6"]
  {
    PlainRowValid();
    hide IsPattern, IsApn, OneLine;
  }

  lemma PatternsValid(text: string)
    ensures Valid(PlainRow().(imsiPattern := text)) <==>
      text == "-" || (text != "" && forall i :: 0 <= i < |text| ==> text[i] in "0123456789xX")
    ensures Valid(PlainRow().(iccidPattern := text)) <==> Valid(PlainRow().(imsiPattern := text))
  {
    PlainRowValid();
    forall c: char ensures IsDigit(c) || c == 'x' || c == 'X' <==> c in "0123456789xX" {
      DigitCharacters(c);
      assert "0123456789xX" == "0123456789" + "xX";
    }
    hide IsApn, IsAuth, IsIpType, OneLine;
  }

  predicate ApnCharacter(c: char) {
    || c in "0123456789" || c in "abcdefghijklmnopqrstuvwxyz" || c in "ABCDEFGHIJKLMNOPQRSTUVWXYZ"
    || c == '.' || c == '_' || c == '-'
  }

  lemma ApnsValid(text: string)
    ensures Valid(PlainRow().(apn := text)) <==> text != "" && forall i :: 0 <= i < |text| ==> ApnCharacter(text[i])
  {
    PlainRowValid();
    forall c: char
      ensures ApnCharacter(c) <==>
        IsDigit(c) || 'a' <= c <= 'z' || 'A' <= c <= 'Z' || c in "._-"
    {
      DigitCharacters(c);
      LowerLetters(c);
      UpperLetters(c);
    }
    hide ApnCharacter, IsPattern, IsAuth, IsIpType, OneLine, IsDigit;
  }
}
