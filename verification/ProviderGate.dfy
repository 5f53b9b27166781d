/** The release gate on a regenerated provider database: which of its counts can fall. */
module ProviderGate {
  import opened Basics
  import opened Options
  import opened ProviderRows
  import opened ProviderMerge

  datatype Report = Report(profiles: nat, mccmnc: nat, uniqueApns: nat)

  function MccMncs(rows: Table): set<string> { set key | key in rows :: rows[key].mccmnc }
  function Apns(rows: Table): set<string> { set key | key in rows :: rows[key].apn }

  function ReportOf(rows: Table): Report { Report(|rows|, |MccMncs(rows)|, |Apns(rows)|) }

  /** Every row stands under its own key and is valid, as `add` and retention leave it. */
  predicate Keyed(rows: Table, lower: string -> string) {
    forall key :: key in rows ==> ProfileKey(rows[key], lower) == key && Valid(rows[key])
  }

  predicate AllValid(adds: seq<Row>) { forall i :: 0 <= i < |adds| ==> Valid(adds[i]) }

  lemma {:induction false} MergedKeyed(adds: seq<Row>, lower: string -> string)
    requires AllValid(adds)
    ensures Keyed(Merged(adds, lower), lower)
  {
    hide ProfileKey, Valid;
    if |adds| > 0 { MergedKeyed(adds[..|adds| - 1], lower); }
  }

  lemma {:induction false} RetentionKeyed(rows: Table, lines: seq<string>, lower: string -> string)
    requires Keyed(rows, lower) && RetainAll(rows, lines, lower).Some?
    ensures Keyed(RetainAll(rows, lines, lower).value, lower)
    decreases |lines|
  {
    hide ProfileKey, Valid, ParseLine, Demoted;
    if |lines| > 0 {
      if ParseLine(lines[0]).Holds? {
        var r := ParseLine(lines[0]).row;
        DemotedKey(r, lower);
        RetentionKeyed(Retained(rows, r, lower), lines[1..], lower);
      } else {
        RetentionKeyed(rows, lines[1..], lower);
      }
    }
  }

  // ---- a written database ----

  predicate RowOrNone(line: string, rows: Table) {
    ParseLine(line).Skipped? || (ParseLine(line).Holds? && ParseLine(line).row in rows.Values)
  }

  /** Lines that hold exactly the rows of a table, among lines that hold none. */
  predicate IsDatabase(lines: seq<string>, rows: Table) {
    && (forall i :: 0 <= i < |lines| ==> RowOrNone(lines[i], rows))
    && (forall key :: key in rows ==> Listed(lines, rows[key]))
  }

  function RowLines(rows: seq<Row>): (lines: seq<string>)
    ensures |lines| == |rows| && forall i :: 0 <= i < |rows| ==> lines[i] == AsTsv(rows[i]) + "\n"
  {
    if |rows| == 0 then [] else [AsTsv(rows[0]) + "\n"] + RowLines(rows[1..])
  }

  /** What `write_database` writes, in whatever order, is such a database. */
  lemma WrittenIsDatabase(comments: seq<string>, listing: seq<Row>, rows: Table, lower: string -> string)
    requires Keyed(rows, lower) && (set r | r in listing) == rows.Values
    requires forall i :: 0 <= i < |comments| ==> |comments[i]| > 1 && comments[i][0] == '#' && comments[i][1] != '\n'
    ensures IsDatabase(comments + RowLines(listing), rows)
  {
    hide ParseLine, AsTsv, Valid, ProfileKey;
    var lines := comments + RowLines(listing);
    forall i | 0 <= i < |lines| ensures RowOrNone(lines[i], rows) {
      if i < |comments| {
        CommentSkipped(comments[i]);
      } else {
        ListingRow(listing, i - |comments|, rows);
        RowRoundTrip(listing[i - |comments|]);
      }
    }
    forall key | key in rows ensures Listed(lines, rows[key]) {
      var i := ListingPlace(listing, rows, key);
      RowRoundTrip(rows[key]);
      assert lines[|comments| + i] == RowLines(listing)[i];
    }
  }

  lemma ListingRow(listing: seq<Row>, i: nat, rows: Table)
    requires (set r | r in listing) == rows.Values && i < |listing|
    ensures listing[i] in rows.Values && exists key :: key in rows && rows[key] == listing[i]
  {
    assert listing[i] in (set r | r in listing);
  }

  lemma ListingPlace(listing: seq<Row>, rows: Table, key: Key) returns (i: nat)
    requires (set r | r in listing) == rows.Values && key in rows
    ensures i < |listing| && listing[i] == rows[key]
  {
    assert rows[key] in rows.Values;
    assert rows[key] in (set r | r in listing);
    i :| 0 <= i < |listing| && listing[i] == rows[key];
  }

  lemma CommentSkipped(line: string)
    requires |line| > 1 && line[0] == '#' && line[1] != '\n'
    ensures ParseLine(line).Skipped?
  {
    StripKeepsFirst(line);
  }

  lemma {:induction false} StripKeepsFirst(line: string)
    requires |line| > 0 && line[0] != '\n'
    ensures |StripNewlines(line)| > 0 && StripNewlines(line)[0] == line[0]
  {
    if line[|line| - 1] == '\n' { StripKeepsFirst(line[..|line| - 1]); }
  }

  /** Importing a written database never fails. */
  lemma {:induction false} DatabaseImports(rows: Table, lines: seq<string>, prior: Table, lower: string -> string)
    requires Keyed(prior, lower)
    requires forall i :: 0 <= i < |lines| ==> RowOrNone(lines[i], prior)
    ensures RetainAll(rows, lines, lower).Some?
    decreases |lines|
  {
    hide ProfileKey, Valid, ParseLine, Demoted;
    if |lines| > 0 {
      assert forall i :: 0 <= i < |lines[1..]| ==> lines[1..][i] == lines[i + 1];
      if ParseLine(lines[0]).Holds? {
        var r := ParseLine(lines[0]).row;
        var key :| key in prior && prior[key] == r;
        DemotionRanks(r);
        DatabaseImports(Retained(rows, r, lower), lines[1..], prior, lower);
      } else {
        DatabaseImports(rows, lines[1..], prior, lower);
      }
    }
  }

  // ---- sizes ----

  function Image(f: string -> string, s: set<string>): set<string> { set x | x in s :: f(x) }

  lemma {:induction false} ImageSize(f: string -> string, s: set<string>)
    ensures |Image(f, s)| <= |s|
    decreases |s|
  {
    if s == {} {
      assert Image(f, s) == {};
    } else {
      var x :| x in s;
      ImageSize(f, s - {x});
      assert Image(f, s) == Image(f, s - {x}) + {f(x)};
    }
  }

  /** The profile and network counts never fall: that part of the gate cannot fire. */
  lemma CountsNeverFall(prior: Table, lines: seq<string>, rows: Table, lower: string -> string)
    requires Keyed(prior, lower) && Keyed(rows, lower) && IsDatabase(lines, prior)
    ensures RetainAll(rows, lines, lower).Some?
    ensures var after := RetainAll(rows, lines, lower).value;
      && prior.Keys <= after.Keys && rows.Keys <= after.Keys
      && ReportOf(prior).profiles <= ReportOf(after).profiles
      && MccMncs(prior) <= MccMncs(after) && ReportOf(prior).mccmnc <= ReportOf(after).mccmnc
  {
    DatabaseImports(rows, lines, prior, lower);
    var after := RetainAll(rows, lines, lower).value;
    RetentionKeeps(rows, lines, lower);
    RetentionKeyed(rows, lines, lower);
    hide RetainAll, Listed, ParseLine, Valid;
    forall key | key in prior ensures key in after && after[key].mccmnc == prior[key].mccmnc {
      assert Listed(lines, prior[key]) && ProfileKey(prior[key], lower) == key;
    }
    KeysSize(prior);
    KeysSize(after);
    SubsetSize(prior.Keys, after.Keys);
    assert forall m :: m in MccMncs(prior) ==> m in MccMncs(after);
    SubsetSize(MccMncs(prior), MccMncs(after));
  }

  lemma KeysSize(rows: Table)
    ensures |rows| == |rows.Keys|
  {}

  // ---- the count of APNs ----

  /** Lower-casing keeps an APN an APN, and twice is once. */
  ghost predicate LowersApns(lower: string -> string) {
    forall apn: string :: IsApn(apn) ==> IsApn(lower(apn)) && lower(lower(apn)) == lower(apn)
  }

  lemma LoweredApns(rows: Table, after: Table, lower: string -> string)
    requires Keyed(rows, lower) && Keyed(after, lower) && rows.Keys <= after.Keys
    ensures Image(lower, Apns(rows)) <= Image(lower, Apns(after))
  {
    hide Valid;
    forall apn | apn in Apns(rows) ensures lower(apn) in Image(lower, Apns(after)) {
      var key :| key in rows && rows[key].apn == apn;
      assert key in after && lower(after[key].apn) == lower(apn);
      assert after[key].apn in Apns(after);
    }
  }

  /** The APNs of the prior database differ in more than case: then their count never falls. */
  lemma ApnsDoNotFall(prior: Table, lines: seq<string>, rows: Table, lower: string -> string)
    requires Keyed(prior, lower) && Keyed(rows, lower) && IsDatabase(lines, prior)
    requires |Image(lower, Apns(prior))| == |Apns(prior)|
    ensures RetainAll(rows, lines, lower).Some? && |Apns(prior)| <= |Apns(RetainAll(rows, lines, lower).value)|
  {
    CountsNeverFall(prior, lines, rows, lower);
    var after := RetainAll(rows, lines, lower).value;
    RetentionKeyed(rows, lines, lower);
    hide Keyed, RetainAll, IsDatabase, Apns;
    LoweredApns(prior, after, lower);
    SubsetSize(Image(lower, Apns(prior)), Image(lower, Apns(after)));
    ImageSize(lower, Apns(after));
  }

  ghost predicate ApnsNeverFall(prior: Table, lines: seq<string>, lower: string -> string) {
    forall adds: seq<Row> :: AllValid(adds) ==> ApnsKept(prior, RetainAll(Merged(adds, lower), lines, lower))
  }

  predicate ApnsKept(prior: Table, after: Option<Table>) {
    after.Some? && |Apns(prior)| <= |Apns(after.value)|
  }

  /** The same rows with their APNs in lower case. */
  function Lowered(r: Row, lower: string -> string): Row { r.(apn := lower(r.apn)) }

  function LoweredAll(rows: seq<Row>, lower: string -> string): (r: seq<Row>)
    ensures |r| == |rows| && forall i :: 0 <= i < |rows| ==> r[i] == Lowered(rows[i], lower)
  {
    if |rows| == 0 then [] else [Lowered(rows[0], lower)] + LoweredAll(rows[1..], lower)
  }

  lemma LoweredKey(r: Row, lower: string -> string)
    requires LowersApns(lower) && Valid(r)
    ensures Valid(Lowered(r, lower)) && ProfileKey(Lowered(r, lower), lower) == ProfileKey(r, lower)
  {
    hide IsPattern, IsApn, IsAuth, IsIpType, OneLine;
  }

  /** Offering the prior rows with lower-case APNs leaves exactly those APNs. */
  lemma LoweredRun(prior: Table, lines: seq<string>, listing: seq<Row>, lower: string -> string)
    requires Keyed(prior, lower) && IsDatabase(lines, prior) && LowersApns(lower)
    requires (set r | r in listing) == prior.Values
    ensures AllValid(LoweredAll(listing, lower))
    ensures var after := RetainAll(Merged(LoweredAll(listing, lower), lower), lines, lower);
      after.Some? && Apns(after.value) <= Image(lower, Apns(prior))
  {
    var adds := LoweredAll(listing, lower);
    forall i | 0 <= i < |adds|
      ensures Valid(adds[i]) && adds[i].apn in Image(lower, Apns(prior))
      ensures ProfileKey(adds[i], lower) == ProfileKey(listing[i], lower)
    {
      ListingRow(listing, i, prior);
      LoweredKey(listing[i], lower);
    }
    hide Valid, ProfileKey, RowOrNone;
    var rows := Merged(adds, lower);
    MergedKeyed(adds, lower);
    forall key | key in prior ensures key in rows {
      var i := ListingPlace(listing, prior, key);
      var _ := MergedIsBest(adds, lower, key);
      assert ProfileKey(adds[i], lower) == key;
    }
    NothingRetained(rows, lines, prior, lower);
    forall apn | apn in Apns(rows) ensures apn in Image(lower, Apns(prior)) {
      var key :| key in rows && rows[key].apn == apn;
      var i := MergedIsBest(adds, lower, key);
    }
  }

  lemma {:induction false} NothingRetained(rows: Table, lines: seq<string>, prior: Table, lower: string -> string)
    requires Keyed(prior, lower) && prior.Keys <= rows.Keys
    requires forall i :: 0 <= i < |lines| ==> RowOrNone(lines[i], prior)
    ensures RetainAll(rows, lines, lower) == Some(rows)
    decreases |lines|
  {
    hide ProfileKey, Valid, ParseLine, Demoted;
    if |lines| > 0 {
      assert forall i :: 0 <= i < |lines[1..]| ==> lines[1..][i] == lines[i + 1];
      if ParseLine(lines[0]).Holds? {
        var key :| key in prior && prior[key] == ParseLine(lines[0]).row;
      }
      NothingRetained(rows, lines[1..], prior, lower);
    }
  }

  lemma {:induction false} Listing(values: set<Row>) returns (listing: seq<Row>)
    ensures (set r | r in listing) == values
    decreases |values|
  {
    if values == {} {
      listing := [];
    } else {
      var r :| r in values;
      var rest := Listing(values - {r});
      listing := [r] + rest;
      var others := set q | q in rest;
      assert others == values - {r};
      forall x ensures x in listing <==> x in values {
        assert x in rest <==> x in others;
        assert x in listing <==> x == r || x in rest;
      }
    }
  }

  /** The count of unique APNs can never fall, whatever the sources offer, if and only if no two
    * APNs of the prior database differ only in case. */
  lemma ApnGateExact(prior: Table, lines: seq<string>, lower: string -> string)
    requires Keyed(prior, lower) && IsDatabase(lines, prior) && LowersApns(lower)
    ensures ApnsNeverFall(prior, lines, lower) <==> |Image(lower, Apns(prior))| == |Apns(prior)|
  {
    hide Keyed, IsDatabase, LowersApns, Apns, RetainAll, Merged, AllValid;
    if |Image(lower, Apns(prior))| == |Apns(prior)| {
      forall adds: seq<Row> | AllValid(adds) ensures ApnsKept(prior, RetainAll(Merged(adds, lower), lines, lower)) {
        MergedKeyed(adds, lower);
        ApnsDoNotFall(prior, lines, Merged(adds, lower), lower);
      }
    } else {
      var listing := Listing(prior.Values);
      LoweredRun(prior, lines, listing, lower);
      var adds := LoweredAll(listing, lower);
      var after := RetainAll(Merged(adds, lower), lines, lower);
      SubsetSize(Apns(after.value), Image(lower, Apns(prior)));
      ImageSize(lower, Apns(prior));
      assert !ApnsKept(prior, after);
    }
  }

  // ---- the whole generation ----

  /** Overrides are rows added after all others. */
  lemma {:induction false} OverridesAreAdds(adds: seq<Row>, lines: seq<string>, lower: string -> string)
    returns (extra: seq<Row>)
    requires OverrideAll(Merged(adds, lower), lines, lower).Some?
    ensures AllValid(extra) && OverrideAll(Merged(adds, lower), lines, lower).value == Merged(adds + extra, lower)
    decreases |lines|
  {
    hide Valid, ParseLine, Added;
    if |lines| == 0 {
      extra := [];
      assert adds + [] == adds;
    } else if ParseLine(lines[0]).Holds? {
      var r := ParseLine(lines[0]).row;
      assert (adds + [r])[..|adds|] == adds;
      var more := OverridesAreAdds(adds + [r], lines[1..], lower);
      extra := [r] + more;
      assert adds + [r] + more == adds + extra;
    } else {
      extra := OverridesAreAdds(adds, lines[1..], lower);
    }
  }

  /** From any source rows, any overrides and a database written before: no profile is lost, and
    * neither the profile count nor the network count falls. */
  lemma GenerationNeverShrinks(adds: seq<Row>, overrides: seq<string>, prior: Table, lines: seq<string>,
    lower: string -> string)
    requires AllValid(adds) && OverrideAll(Merged(adds, lower), overrides, lower).Some?
    requires Keyed(prior, lower) && IsDatabase(lines, prior)
    ensures var after := RetainAll(OverrideAll(Merged(adds, lower), overrides, lower).value, lines, lower);
      && after.Some? && Keyed(after.value, lower) && prior.Keys <= after.value.Keys
      && ReportOf(prior).profiles <= ReportOf(after.value).profiles
      && ReportOf(prior).mccmnc <= ReportOf(after.value).mccmnc
  {
    hide Valid, Keyed, IsDatabase, OverrideAll, RetainAll, ReportOf, Merged;
    var extra := OverridesAreAdds(adds, overrides, lower);
    MergedKeyed(adds + extra, lower);
    var rows := Merged(adds + extra, lower);
    CountsNeverFall(prior, lines, rows, lower);
    RetentionKeyed(rows, lines, lower);
  }
}
