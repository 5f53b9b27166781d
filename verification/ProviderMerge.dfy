/** The merge of rows from several sources under one key, and the retention of previous rows. */
module ProviderMerge {
  import opened Options
  import opened ProviderRows

  type Table = map<Key, Row>

  const DEMOTION := 50000
  const LOWEST := 900000

  // ---- adding ----

  /** A row takes its key's place when it is the first or of strictly smaller priority. */
  function Added(rows: Table, r: Row, lower: string -> string): Table {
    var key := ProfileKey(r, lower);
    if key !in rows || r.priority < rows[key].priority then rows[key := r] else rows
  }

  function Merged(adds: seq<Row>, lower: string -> string): Table {
    if |adds| == 0 then map[] else Added(Merged(adds[..|adds| - 1], lower), adds[|adds| - 1], lower)
  }

  /** Row i is the best of its key: no other row of the key has a smaller priority, and no
    * earlier one the same. */
  predicate Best(adds: seq<Row>, i: nat, lower: string -> string)
    requires i < |adds|
  {
    forall j :: 0 <= j < |adds| && ProfileKey(adds[j], lower) == ProfileKey(adds[i], lower) ==>
      adds[i].priority < adds[j].priority || (adds[i].priority == adds[j].priority && i <= j)
  }

  /** After any rows in any order, each key that was offered holds its best row, and no other
    * key is there. */
  lemma {:induction false} MergedIsBest(adds: seq<Row>, lower: string -> string, key: Key) returns (i: nat)
    ensures key in Merged(adds, lower) <==> Offered(adds, lower, key)
    ensures key in Merged(adds, lower) ==>
      i < |adds| && ProfileKey(adds[i], lower) == key && Best(adds, i, lower) && Merged(adds, lower)[key] == adds[i]
    decreases |adds|
  {
    i := 0;
    if |adds| > 0 {
      var n := |adds| - 1;
      hide ProfileKey, Best, Offered;
      i := MergedIsBest(adds[..n], lower, key);
      OfferedMore(adds, lower, key);
      var before := Merged(adds[..n], lower);
      if ProfileKey(adds[n], lower) == key && (key !in before || adds[n].priority < before[key].priority) {
        BestLast(adds, i, lower, key);
        i := n;
      } else if key in before {
        BestMore(adds, i, lower);
      }
    }
  }

  /** No row that competes with row i is better, nor as good and earlier. */
  predicate Stays(adds: seq<Row>, i: nat, lower: string -> string)
    requires i < |adds|
  {
    forall j :: 0 <= j < |adds| && SameProfile(adds[j], adds[i], lower) ==>
      adds[i].priority < adds[j].priority || (adds[i].priority == adds[j].priority && i <= j)
  }

  lemma StaysIsBest(adds: seq<Row>, i: nat, lower: string -> string)
    requires i < |adds|
    ensures Stays(adds, i, lower) <==> Best(adds, i, lower)
  {
    forall j | 0 <= j < |adds|
      ensures SameProfile(adds[j], adds[i], lower) <==> ProfileKey(adds[j], lower) == ProfileKey(adds[i], lower)
    {
      KeyExact(adds[j], adds[i], lower);
    }
    hide SameProfile, ProfileKey;
  }

  /** After any rows in any order exactly the rows that stay are there: of rows that compete the
    * best one, and every row that competes with no other. */
  lemma MergedRows(adds: seq<Row>, lower: string -> string, r: Row)
    ensures r in Merged(adds, lower).Values <==> exists i :: 0 <= i < |adds| && adds[i] == r && Stays(adds, i, lower)
  {
    hide Merged, SameProfile, ProfileKey, Best, Stays, Offered;
    if r in Merged(adds, lower).Values {
      var key :| key in Merged(adds, lower) && Merged(adds, lower)[key] == r;
      var i := MergedIsBest(adds, lower, key);
      StaysIsBest(adds, i, lower);
    }
    forall i: nat | i < |adds| && Stays(adds, i, lower) ensures adds[i] in Merged(adds, lower).Values {
      StayingRow(adds, lower, i);
    }
  }

  lemma StayingRow(adds: seq<Row>, lower: string -> string, i: nat)
    requires i < |adds| && Stays(adds, i, lower)
    ensures ProfileKey(adds[i], lower) in Merged(adds, lower)
    ensures Merged(adds, lower)[ProfileKey(adds[i], lower)] == adds[i]
  {
    var key := ProfileKey(adds[i], lower);
    StaysIsBest(adds, i, lower);
    hide Merged, ProfileKey, Stays;
    var k := MergedIsBest(adds, lower, key);
    assert Offered(adds, lower, key);
  }

  /** Two rows take one place or two. */
  lemma TwoRows(a: Row, b: Row, lower: string -> string)
    ensures |Merged([a, b], lower)| == if SameProfile(a, b, lower) then 1 else 2
  {
    KeyExact(a, b, lower);
    hide ProfileKey, SameProfile;
    assert [a, b][..1] == [a] && [a][..0] == [];
    assert Merged([], lower) == map[];
    assert Merged([a], lower) == map[ProfileKey(a, lower) := a];
  }

  predicate Offered(adds: seq<Row>, lower: string -> string, key: Key) {
    exists j :: 0 <= j < |adds| && ProfileKey(adds[j], lower) == key
  }

  lemma OfferedMore(adds: seq<Row>, lower: string -> string, key: Key)
    requires |adds| > 0
    ensures var n := |adds| - 1;
      Offered(adds, lower, key) <==> Offered(adds[..n], lower, key) || ProfileKey(adds[n], lower) == key
  {
    hide ProfileKey;
    assert forall j :: 0 <= j < |adds| - 1 ==> adds[..|adds| - 1][j] == adds[j];
  }

  /** The best so far stays the best when the last row is of another key or no better. */
  lemma BestMore(adds: seq<Row>, i: nat, lower: string -> string)
    requires i < |adds| - 1 && Best(adds[..|adds| - 1], i, lower)
    requires var last := adds[|adds| - 1];
      ProfileKey(last, lower) != ProfileKey(adds[i], lower) || adds[i].priority <= last.priority
    ensures Best(adds, i, lower)
  {
    hide ProfileKey;
    assert forall j :: 0 <= j < |adds| - 1 ==> adds[..|adds| - 1][j] == adds[j];
  }

  /** The last row is the best when it is the first of its key or better than the best so far. */
  lemma BestLast(adds: seq<Row>, i: nat, lower: string -> string, key: Key)
    requires |adds| > 0 && ProfileKey(adds[|adds| - 1], lower) == key
    requires var n := |adds| - 1;
      Offered(adds[..n], lower, key) ==>
        i < n && ProfileKey(adds[i], lower) == key && Best(adds[..n], i, lower) && adds[n].priority < adds[i].priority
    ensures Best(adds, |adds| - 1, lower)
  {
    hide ProfileKey;
    assert forall j :: 0 <= j < |adds| - 1 ==> adds[..|adds| - 1][j] == adds[j];
  }

  /** Rows that differ in priority may be offered in any order. */
  lemma OrderDoesNotMatter(a: seq<Row>, b: seq<Row>, lower: string -> string)
    requires multiset(a) == multiset(b)
    requires forall i, j :: 0 <= i < j < |a| ==> !SameProfile(a[i], a[j], lower) || a[i].priority != a[j].priority
    ensures Merged(a, lower) == Merged(b, lower)
  {
    forall i, j | 0 <= i < j < |a|
      ensures ProfileKey(a[i], lower) != ProfileKey(a[j], lower) || a[i].priority != a[j].priority
    {
      KeyExact(a[i], a[j], lower);
    }
    hide ProfileKey, Merged, SameProfile;
    forall key: Key ensures key in Merged(a, lower) <==> key in Merged(b, lower) {
      SameKeys(a, b, lower, key);
    }
    forall key | key in Merged(a, lower) ensures Merged(a, lower)[key] == Merged(b, lower)[key] {
      var i := MergedIsBest(a, lower, key);
      var j := MergedIsBest(b, lower, key);
      assert a[i] in multiset(b) && b[j] in multiset(a);
      var i' :| 0 <= i' < |b| && b[i'] == a[i];
      var j' :| 0 <= j' < |a| && a[j'] == b[j];
    }
  }

  lemma SameKeys(a: seq<Row>, b: seq<Row>, lower: string -> string, key: Key)
    requires multiset(a) == multiset(b)
    ensures key in Merged(a, lower) <==> key in Merged(b, lower)
  {
    hide ProfileKey, Merged;
    var _ := MergedIsBest(a, lower, key);
    var _ := MergedIsBest(b, lower, key);
    if i :| 0 <= i < |a| && ProfileKey(a[i], lower) == key {
      assert a[i] in multiset(b);
      var j :| 0 <= j < |b| && b[j] == a[i];
    }
    if i :| 0 <= i < |b| && ProfileKey(b[i], lower) == key {
      assert b[i] in multiset(a);
      var j :| 0 <= j < |a| && a[j] == b[i];
    }
  }

  // ---- retaining ----

  function Demoted(r: Row): Row {
    r.(priority := if r.priority + DEMOTION < LOWEST then r.priority + DEMOTION else LOWEST)
  }

  /** A row that no source offered any more stays, with a larger priority. */
  function Retained(rows: Table, r: Row, lower: string -> string): Table {
    if ProfileKey(r, lower) in rows then rows else rows[ProfileKey(r, lower) := Demoted(r)]
  }

  /** The table after some lines of the previous database; None when one of them is an error. */
  function RetainAll(rows: Table, lines: seq<string>, lower: string -> string): Option<Table>
    decreases |lines|
  {
    if |lines| == 0 then Some(rows)
    else
      match ParseLine(lines[0])
      case Skipped => RetainAll(rows, lines[1..], lower)
      case Malformed => None
      case Holds(r) =>
        if ProfileKey(r, lower) !in rows && !Valid(Demoted(r)) then None
        else RetainAll(Retained(rows, r, lower), lines[1..], lower)
  }

  lemma DemotedKey(r: Row, lower: string -> string)
    ensures ProfileKey(Demoted(r), lower) == ProfileKey(r, lower) && Demoted(r).apn == r.apn
  {}

  /** Demotion adds 50000 up to the lowest rank of 900000, so it lowers a row's rank exactly when its
    * priority is below that. */
  lemma DemotionRanks(r: Row)
    requires Valid(r)
    ensures Valid(Demoted(r)) && Demoted(r).priority <= 900000
    ensures r.priority <= 850000 ==> Demoted(r) == r.(priority := r.priority + 50000)
    ensures r.priority > 850000 ==> Demoted(r) == r.(priority := 900000)
    ensures Demoted(r).priority > r.priority <==> r.priority < 900000
    ensures Demoted(r).priority < r.priority <==> r.priority > 900000
  {
    hide IsPattern, IsApn, IsAuth, IsIpType, OneLine;
  }

  predicate Listed(lines: seq<string>, r: Row) {
    exists i :: 0 <= i < |lines| && ParseLine(lines[i]) == Holds(r)
  }

  /** What was there stays as it was; every previous key is there; and what is new is a listed
    * row, demoted. */
  lemma {:induction false} RetentionKeeps(rows: Table, lines: seq<string>, lower: string -> string)
    requires RetainAll(rows, lines, lower).Some?
    ensures var after := RetainAll(rows, lines, lower).value;
      && (forall key :: key in rows ==> key in after && after[key] == rows[key])
      && (forall r :: Listed(lines, r) ==> ProfileKey(r, lower) in after)
      && (forall key :: key in after && key !in rows ==>
            exists r :: Listed(lines, r) && ProfileKey(r, lower) == key && after[key] == Demoted(r))
    decreases |lines|
  {
    hide ParseLine, Valid, ProfileKey, Demoted;
    if |lines| > 0 {
      var next := if ParseLine(lines[0]).Holds? then Retained(rows, ParseLine(lines[0]).row, lower) else rows;
      RetentionKeeps(next, lines[1..], lower);
      forall r ensures Listed(lines, r) <==> ParseLine(lines[0]) == Holds(r) || Listed(lines[1..], r) {
        ListedFirst(lines, r);
      }
      hide Listed, RetainAll;
    }
  }

  lemma ListedFirst(lines: seq<string>, r: Row)
    requires |lines| > 0
    ensures Listed(lines, r) <==> ParseLine(lines[0]) == Holds(r) || Listed(lines[1..], r)
  {
    hide ParseLine;
    if Listed(lines[1..], r) {
      var i :| 0 <= i < |lines[1..]| && ParseLine(lines[1..][i]) == Holds(r);
      assert lines[i + 1] == lines[1..][i];
    }
    if i :| 0 <= i < |lines| && ParseLine(lines[i]) == Holds(r) {
      if i > 0 { assert lines[i] == lines[1..][i - 1]; }
    }
  }

  // ---- the generator ----

  /** Every row of the override file is added; None when a line or a row is an error. */
  function OverrideAll(rows: Table, lines: seq<string>, lower: string -> string): Option<Table>
    decreases |lines|
  {
    if |lines| == 0 then Some(rows)
    else
      match ParseLine(lines[0])
      case Skipped => OverrideAll(rows, lines[1..], lower)
      case Malformed => None
      case Holds(r) => if !Valid(r) then None else OverrideAll(Added(rows, r, lower), lines[1..], lower)
  }

  function Tally(stats: map<string, nat>, key: string): nat { if key in stats then stats[key] else 0 }

  class Generator {
    const lower: string -> string
    var rows: Table
    var stats: map<string, nat>

    constructor (lower: string -> string)
      ensures rows == map[] && stats == map[] && this.lower == lower
    {
      this.lower := lower;
      rows := map[];
      stats := map[];
    }

    method Count(key: string)
      modifies this`stats
      ensures stats == old(stats)[key := Tally(old(stats), key) + 1]
    {
      stats := stats[key := (if key in stats then stats[key] else 0) + 1];
    }

    /** False for an invalid row, which ends the program. */
    method Add(row: Row, source: string) returns (ok: bool)
      modifies this
      ensures ok <==> Valid(row)
      ensures rows == if ok then Added(old(rows), row, lower) else old(rows)
      ensures ok ==>
        var key := ProfileKey(row, lower);
        var accepted := key !in old(rows) || row.priority < old(rows)[key].priority;
        var counted := source + (if accepted then "_accepted" else "_duplicates");
        stats == old(stats)[counted := Tally(old(stats), counted) + 1]
      ensures !ok ==> stats == old(stats)
    {
      if !Valid(row) { return false; }
      hide Valid, ProfileKey;
      var key := ProfileKey(row, lower);
      if key !in rows || row.priority < rows[key].priority {
        rows := rows[key := row];
        Count(source + "_accepted");
      } else {
        Count(source + "_duplicates");
      }
      return true;
    }

    method ImportOverrides(lines: seq<string>) returns (ok: bool)
      modifies this
      ensures ok <==> OverrideAll(old(rows), lines, lower).Some?
      ensures ok ==> Some(rows) == OverrideAll(old(rows), lines, lower)
    {
      hide ParseLine, Valid, ProfileKey;
      assert lines[0..] == lines;
      for i := 0 to |lines|
        invariant OverrideAll(old(rows), lines, lower) == OverrideAll(rows, lines[i..], lower)
      {
        assert lines[i..][0] == lines[i] && lines[i..][1..] == lines[i + 1..];
        match ParseLine(lines[i])
        case Skipped =>
        case Malformed => return false;
        case Holds(row) =>
          var added := Add(row, "overrides");
          if !added { return false; }
      }
      return true;
    }

    /** Counts what it retains. */
    method ImportPrevious(lines: seq<string>) returns (ok: bool)
      modifies this
      ensures ok <==> RetainAll(old(rows), lines, lower).Some?
      ensures ok ==> Some(rows) == RetainAll(old(rows), lines, lower)
      ensures |rows| - |old(rows)| == Tally(stats, "previous_retained") - Tally(old(stats), "previous_retained")
    {
      hide ParseLine, Valid, ProfileKey, Demoted;
      assert lines[0..] == lines;
      for i := 0 to |lines|
        invariant RetainAll(old(rows), lines, lower) == RetainAll(rows, lines[i..], lower)
        invariant |rows| - |old(rows)| == Tally(stats, "previous_retained") - Tally(old(stats), "previous_retained")
      {
        assert lines[i..][0] == lines[i] && lines[i..][1..] == lines[i + 1..];
        match ParseLine(lines[i])
        case Skipped =>
        case Malformed => return false;
        case Holds(oldRow) =>
          var key := ProfileKey(oldRow, lower);
          if key !in rows {
            var demoted := Demoted(oldRow);
            if !Valid(demoted) { return false; }
            DemotedKey(oldRow, lower);
            rows := rows[ProfileKey(demoted, lower) := demoted];
            Count("previous_retained");
          }
      }
      return true;
    }
  }
}
