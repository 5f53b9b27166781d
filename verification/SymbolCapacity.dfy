/** How many data modules a symbol has, and where its alignment patterns leave none, for every
  * version whose alignment centres have the shape of the standard's table. */
module SymbolCapacity {
  import opened RowMajor
  import opened Matrices
  import opened CodewordReader

  /** The number of alignment centres on each side (ISO/IEC 18004:2015, annex E). */
  function CentreCount(version: nat): nat { if version == 1 then 0 else version / 7 + 2 }

  /** The shape of the table: the first centre is 6, the last is 7 modules from the edge, and
    * they keep at least 12 apart. */
  predicate TableShape(v: Version) {
    var c := v.alignmentPatternCenters;
    && v.versionNumber >= 1 && |c| == CentreCount(v.versionNumber)
    && (v.versionNumber > 1 ==> c[0] == 6 && c[|c| - 1] == v.Dimension() - 7)
    && forall i, j :: 0 <= i < j < |c| ==> c[i] + 12 <= c[j]
  }

  // ---- rectangles ----

  function Rect(left: int, top: int, width: nat, height: nat): set<Cell> {
    set x, y | left <= x < left + width && top <= y < top + height :: Cell(x, y)
  }

  lemma {:induction false} OneRow(left: int, y: int, width: nat)
    ensures |Rect(left, y, width, 1)| == width
  {
    if width > 0 {
      OneRow(left, y, width - 1);
      assert Rect(left, y, width, 1) == Rect(left, y, width - 1, 1) + {Cell(left + width - 1, y)};
    } else {
      assert Rect(left, y, 0, 1) == {};
    }
  }

  lemma Disjoint<T>(a: set<T>, b: set<T>)
    requires a !! b
    ensures |a + b| == |a| + |b|
  {}

  lemma {:induction false} RectSize(left: int, top: int, width: nat, height: nat)
    ensures |Rect(left, top, width, height)| == Rows(height, width)
  {
    if height > 0 {
      RectSize(left, top, width, height - 1);
      OneRow(left, top + height - 1, width);
      RowsStep(height - 1, width);
      hide Rows;
      Disjoint(Rect(left, top, width, height - 1), Rect(left, top + height - 1, width, 1));
      assert Rect(left, top, width, height) ==
        Rect(left, top, width, height - 1) + Rect(left, top + height - 1, width, 1);
    } else {
      assert Rect(left, top, width, 0) == {};
    }
  }

  // ---- the data modules as a set ----

  function Square(d: nat): set<Cell> { Rect(0, 0, d, d) }

  function FunctionModules(v: Version): set<Cell> {
    set x, y | 0 <= x < v.Dimension() && 0 <= y < v.Dimension() && v.IsFunction(x, y) :: Cell(x, y)
  }

  lemma {:induction false} DifferentSize<T>(s: seq<T>)
    requires forall i, j :: 0 <= i < j < |s| ==> s[i] != s[j]
    ensures |set c | c in s| == |s|
  {
    if |s| > 0 {
      var init := s[..|s| - 1];
      DifferentSize(init);
      assert s == init + [s[|s| - 1]];
      assert (set c | c in s) == (set c | c in init) + {s[|s| - 1]};
    }
  }

  lemma DataCellsSet(v: Version)
    requires v.versionNumber >= 1
    ensures (set c | c in DataCells(v, Path(v.Dimension()))) == Square(v.Dimension()) - FunctionModules(v)
  {
    hide Path, DataCells, Version.IsFunction;
    var cells := DataCells(v, Path(v.Dimension()));
    forall c: Cell ensures c in cells <==> c in Square(v.Dimension()) - FunctionModules(v) {
      DataModulesReadOnce(v, c);
      assert c in cells <==> multiset(cells)[c] > 0;
    }
  }

  lemma DataCellsSize(v: Version)
    requires v.versionNumber >= 1
    ensures |DataCells(v, Path(v.Dimension()))| == Rows(v.Dimension(), v.Dimension()) - |FunctionModules(v)|
  {
    hide Path, DataCells, Version.IsFunction, Rows;
    var cells := DataCells(v, Path(v.Dimension()));
    DataCellsDifferent(v);
    DifferentSize(cells);
    DataCellsSet(v);
    RectSize(0, 0, v.Dimension(), v.Dimension());
    var square, marked := Square(v.Dimension()), FunctionModules(v);
    Disjoint(square - marked, marked);
    assert square - marked + marked == square;
  }

  // ---- the modules of each pattern ----

  function Corners(d: nat): set<Cell> { Rect(0, 0, 9, 9) + Rect(d - 8, 0, 8, 9) + Rect(0, d - 8, 9, 8) }

  function Timings(d: nat): set<Cell>
    requires d >= 21
  {
    Rect(6, 9, 1, d - 17) + Rect(9, 6, d - 17, 1)
  }

  function VersionModules(v: Version): set<Cell> {
    if v.versionNumber > 6 then Rect(v.Dimension() - 11, 0, 3, 6) + Rect(0, v.Dimension() - 11, 6, 3) else {}
  }

  /** The modules of the alignment patterns before number (i, j), without the timing lines. */
  function AlignmentModules(v: Version, i: nat, j: nat): set<Cell> {
    set x, y | 0 <= x < v.Dimension() && 0 <= y < v.Dimension() && v.AlignedUpTo(i, j, x, y) && !v.Timing(x, y) ::
      Cell(x, y)
  }

  lemma CornersSize(d: nat)
    requires d >= 21
    ensures |Corners(d)| == 225
  {
    RectSize(0, 0, 9, 9);
    RectSize(d - 8, 0, 8, 9);
    RectSize(0, d - 8, 9, 8);
    Disjoint(Rect(0, 0, 9, 9), Rect(d - 8, 0, 8, 9));
    Disjoint(Rect(0, 0, 9, 9) + Rect(d - 8, 0, 8, 9), Rect(0, d - 8, 9, 8));
  }

  lemma TimingsSize(d: nat)
    requires d >= 21
    ensures |Timings(d)| == 2 * (d - 17)
  {
    RectSize(6, 9, 1, d - 17);
    RectSize(9, 6, d - 17, 1);
    Disjoint(Rect(6, 9, 1, d - 17), Rect(9, 6, d - 17, 1));
  }

  lemma VersionSize(v: Version)
    ensures |VersionModules(v)| == if v.versionNumber > 6 then 36 else 0
  {
    hide Rect;
    if v.versionNumber > 6 { VersionRects(v.Dimension()); }
  }

  lemma VersionRects(d: nat)
    requires d >= 45
    ensures |Rect(d - 11, 0, 3, 6) + Rect(0, d - 11, 6, 3)| == 36
  {
    assert Rect(d - 11, 0, 3, 6) !! Rect(0, d - 11, 6, 3);
    hide Rect;
    RectSize(d - 11, 0, 3, 6);
    RectSize(0, d - 11, 6, 3);
    Disjoint(Rect(d - 11, 0, 3, 6), Rect(0, d - 11, 6, 3));
  }

  // ---- the alignment patterns ----

  /** The alignment pattern of a pair of centres, where there is one, without the timing lines. */
  function Fresh(v: Version, i: nat, j: nat): set<Cell>
    requires i < |v.alignmentPatternCenters| && j < |v.alignmentPatternCenters|
  {
    var n := |v.alignmentPatternCenters|;
    var left, top := v.alignmentPatternCenters[i] as int - 2, v.alignmentPatternCenters[j] as int - 2;
    if (i == 0 && (j == 0 || j == n - 1)) || (i == n - 1 && j == 0) then {}
    else if i == 0 then Rect(left, top, 2, 5) + Rect(left + 3, top, 2, 5)
    else if j == 0 then Rect(left, top, 5, 2) + Rect(left, top + 3, 5, 2)
    else Rect(left, top, 5, 5)
  }

  function FreshCount(n: nat, i: nat, j: nat): nat {
    if (i == 0 && (j == 0 || j == n - 1)) || (i == n - 1 && j == 0) then 0 else if i == 0 || j == 0 then 20 else 25
  }

  lemma Apart(left: int, top: int)
    ensures Rect(left, top, 2, 5) !! Rect(left + 3, top, 2, 5)
    ensures Rect(left, top, 5, 2) !! Rect(left, top + 3, 5, 2)
  {}

  lemma StripsSize(left: int, top: int)
    ensures |Rect(left, top, 2, 5) + Rect(left + 3, top, 2, 5)| == 20
    ensures |Rect(left, top, 5, 2) + Rect(left, top + 3, 5, 2)| == 20
  {
    Apart(left, top);
    hide Rect;
    RectSize(left, top, 2, 5);
    RectSize(left + 3, top, 2, 5);
    RectSize(left, top, 5, 2);
    RectSize(left, top + 3, 5, 2);
    Disjoint(Rect(left, top, 2, 5), Rect(left + 3, top, 2, 5));
    Disjoint(Rect(left, top, 5, 2), Rect(left, top + 3, 5, 2));
  }

  lemma PatternSize(left: int, top: int)
    ensures |Rect(left, top, 5, 5)| == 25
  {
    RectSize(left, top, 5, 5);
  }

  lemma FreshSize(v: Version, i: nat, j: nat)
    requires i < |v.alignmentPatternCenters| && j < |v.alignmentPatternCenters|
    ensures |Fresh(v, i, j)| == FreshCount(|v.alignmentPatternCenters|, i, j)
  {
    var left, top := v.alignmentPatternCenters[i] as int - 2, v.alignmentPatternCenters[j] as int - 2;
    hide Rect;
    StripsSize(left, top);
    PatternSize(left, top);
  }

  /** Where the centres of a table entry are. */
  lemma Centres(v: Version, i: nat)
    requires TableShape(v) && i < |v.alignmentPatternCenters|
    ensures var c, d, n := v.alignmentPatternCenters[i], v.Dimension(), |v.alignmentPatternCenters|;
      && v.versionNumber >= 2 && n >= 2
      && (i == 0 ==> c == 6) && (i == n - 1 ==> c == d - 7) && (0 < i ==> c >= 18) && (i < n - 1 ==> c <= d - 19)
  {}

  lemma TableIsValid(v: Version)
    requires TableShape(v)
    ensures v.Valid()
  {
    forall i | 0 <= i < |v.alignmentPatternCenters|
      ensures 6 <= v.alignmentPatternCenters[i] <= v.Dimension() - 7
    {
      Centres(v, i);
    }
  }

  lemma FreshIs(v: Version, i: nat, j: nat, x: int, y: int)
    requires TableShape(v) && i < |v.alignmentPatternCenters| && j < |v.alignmentPatternCenters|
    ensures Cell(x, y) in Fresh(v, i, j) <==> v.Aligned(i, j, x, y) && !v.Timing(x, y)
    ensures Cell(x, y) in Fresh(v, i, j) ==> 0 <= x < v.Dimension() && 0 <= y < v.Dimension()
  {
    Centres(v, i);
    Centres(v, j);
  }

  lemma FreshApart(v: Version, i: nat, j: nat, k: nat, l: nat, x: int, y: int)
    requires TableShape(v) && i < |v.alignmentPatternCenters| && j < |v.alignmentPatternCenters|
    requires k < |v.alignmentPatternCenters| && l < |v.alignmentPatternCenters| && (i != k || j != l)
    ensures !(v.Aligned(i, j, x, y) && v.Aligned(k, l, x, y))
  {}

  lemma AlignmentGrows(v: Version, i: nat, j: nat)
    requires TableShape(v) && i < |v.alignmentPatternCenters| && j < |v.alignmentPatternCenters|
    ensures AlignmentModules(v, i, j + 1) == AlignmentModules(v, i, j) + Fresh(v, i, j)
    ensures AlignmentModules(v, i, j) !! Fresh(v, i, j)
  {
    AlignedNext(v, i, j);
    forall x, y ensures Cell(x, y) in Fresh(v, i, j) ==> !v.AlignedUpTo(i, j, x, y) {
      FreshIs(v, i, j, x, y);
      forall k: nat, l: nat | k < |v.alignmentPatternCenters| && l < |v.alignmentPatternCenters|
        && (k < i || (k == i && l < j)) && v.Aligned(i, j, x, y)
        ensures !v.Aligned(k, l, x, y)
      {
        FreshApart(v, i, j, k, l, x, y);
      }
    }
    forall c: Cell ensures c in AlignmentModules(v, i, j + 1) <==>
        c in AlignmentModules(v, i, j) || c in Fresh(v, i, j) {
      FreshIs(v, i, j, c.x, c.y);
      hide Fresh, Version.Aligned, Version.AlignedUpTo, Version.Timing, TableShape;
    }
    hide *;
  }

  /** The sum of the sizes, and in closed form. */
  function RowCount(n: nat, i: nat, j: nat): nat {
    if j == 0 then 0 else RowCount(n, i, j - 1) + FreshCount(n, i, j - 1)
  }

  function RowsCount(n: nat, i: nat): nat { if i == 0 then 0 else RowsCount(n, i - 1) + RowCount(n, i - 1, n) }

  lemma {:induction false} AlignmentSize(v: Version, i: nat, j: nat)
    requires TableShape(v) && i <= |v.alignmentPatternCenters| && j <= |v.alignmentPatternCenters|
    requires i == |v.alignmentPatternCenters| ==> j == 0
    ensures |AlignmentModules(v, i, j)| ==
      RowsCount(|v.alignmentPatternCenters|, i) + RowCount(|v.alignmentPatternCenters|, i, j)
    decreases i, j
  {
    var n := |v.alignmentPatternCenters|;
    hide TableShape, FreshCount, Fresh, Version.AlignedUpTo;
    if j > 0 {
      AlignmentSize(v, i, j - 1);
      AlignmentGrows(v, i, j - 1);
      FreshSize(v, i, j - 1);
      hide AlignmentModules;
      Disjoint(AlignmentModules(v, i, j - 1), Fresh(v, i, j - 1));
    } else if i > 0 {
      AlignmentSize(v, i - 1, n);
      AlignedRow(v, i - 1);
      assert AlignmentModules(v, i, 0) == AlignmentModules(v, i - 1, n);
    } else {
      AlignedNone(v);
      assert AlignmentModules(v, 0, 0) == {};
    }
  }

  lemma {:induction false} RowCountIs(n: nat, i: nat, j: nat)
    requires n >= 2 && i < n && j <= n
    ensures RowCount(n, i, j) ==
      if j == 0 then 0
      else if i == 0 then (if j == n then 20 * (n - 2) else 20 * (j - 1))
      else if i == n - 1 then 25 * (j - 1)
      else 20 + 25 * (j - 1)
  {
    if j > 0 { RowCountIs(n, i, j - 1); }
  }

  lemma {:induction false} RowsCountIs(n: nat, i: nat)
    requires n >= 2 && 1 <= i < n
    ensures RowsCount(n, i) == 20 * (n - 2) + Rows(i - 1, 25 * n - 5)
  {
    hide Rows;
    RowCountIs(n, i - 1, n);
    assert RowsCount(n, i) == RowsCount(n, i - 1) + RowCount(n, i - 1, n);
    if i > 1 {
      RowsCountIs(n, i - 1);
      RowsStep(i - 2, 25 * n - 5);
    } else {
      RowsStep(0, 25 * n - 5);
    }
  }

  lemma AllRows(n: nat)
    requires n >= 2
    ensures RowsCount(n, n) == (25 * n - 10) * n - 55
  {
    RowsCountIs(n, n - 1);
    RowCountIs(n, n - 1, n);
    assert RowsCount(n, n) == RowsCount(n, n - 1) + RowCount(n, n - 1, n);
    assert Rows(n - 2, 25 * n - 5) == (n - 2) * (25 * n - 5);
  }

  // ---- all function modules ----

  lemma AlignedClear(v: Version, i: nat, j: nat, x: int, y: int)
    requires TableShape(v) && i < |v.alignmentPatternCenters| && j < |v.alignmentPatternCenters|
    requires v.Aligned(i, j, x, y)
    ensures 0 <= x < v.Dimension() && 0 <= y < v.Dimension() && !v.Corner(x, y) && !v.VersionInfo(x, y)
  {
    Centres(v, i);
    Centres(v, j);
  }

  lemma AlignmentClear(v: Version, x: int, y: int)
    requires TableShape(v) && v.AlignedUpTo(|v.alignmentPatternCenters|, 0, x, y)
    ensures 0 <= x < v.Dimension() && 0 <= y < v.Dimension() && !v.Corner(x, y) && !v.VersionInfo(x, y)
  {
    hide Version.Aligned, Version.Corner, Version.VersionInfo, TableShape;
    var i, j :| 0 <= i < |v.alignmentPatternCenters| && 0 <= j < |v.alignmentPatternCenters| && v.Aligned(i, j, x, y);
    AlignedClear(v, i, j, x, y);
  }

  lemma PatternMembers(v: Version, x: int, y: int)
    requires v.versionNumber >= 1
    ensures var d := v.Dimension();
      && (Cell(x, y) in Corners(d) <==> v.Corner(x, y)) && (Cell(x, y) in Timings(d) <==> v.Timing(x, y))
      && (Cell(x, y) in VersionModules(v) <==> v.VersionInfo(x, y))
      && (v.Corner(x, y) || v.Timing(x, y) || v.VersionInfo(x, y) ==> 0 <= x < d && 0 <= y < d)
      && !(v.Corner(x, y) && v.Timing(x, y)) && !(v.Corner(x, y) && v.VersionInfo(x, y))
      && !(v.Timing(x, y) && v.VersionInfo(x, y))
  {}

  lemma FunctionParts(v: Version)
    requires TableShape(v)
    ensures var d := v.Dimension(); var aligned := AlignmentModules(v, |v.alignmentPatternCenters|, 0);
      && FunctionModules(v) == Corners(d) + Timings(d) + VersionModules(v) + aligned
      && Corners(d) !! Timings(d) !! VersionModules(v) !! aligned
  {
    var d, n := v.Dimension(), |v.alignmentPatternCenters|;
    forall x, y
      ensures var c := Cell(x, y);
        && (c in Corners(d) <==> v.Corner(x, y)) && (c in Timings(d) <==> v.Timing(x, y))
        && (c in VersionModules(v) <==> v.VersionInfo(x, y))
        && (c in AlignmentModules(v, n, 0) <==> v.AlignedUpTo(n, 0, x, y) && !v.Timing(x, y))
    {
      PatternMembers(v, x, y);
      hide Version.Corner, Version.VersionInfo, Version.Timing, Version.AlignedUpTo, Corners, Timings, VersionModules;
      if v.AlignedUpTo(n, 0, x, y) { AlignmentClear(v, x, y); }
    }
    hide Corners, Timings, VersionModules, AlignmentModules, Version.AlignedUpTo, TableShape, FunctionModules;
    forall c: Cell ensures c in FunctionModules(v) <==>
        c in Corners(d) || c in Timings(d) || c in VersionModules(v) || c in AlignmentModules(v, n, 0) {
      FunctionMember(v, c.x, c.y);
    }
    forall c: Cell
      ensures !(c in Corners(d) && c in Timings(d)) && !(c in Corners(d) && c in VersionModules(v))
      ensures !(c in Timings(d) && c in VersionModules(v))
      ensures c in AlignmentModules(v, n, 0) ==> c !in Corners(d) && c !in Timings(d) && c !in VersionModules(v)
    {
      assert c == Cell(c.x, c.y);
      PatternMembers(v, c.x, c.y);
      if v.AlignedUpTo(n, 0, c.x, c.y) { AlignmentClear(v, c.x, c.y); }
    }
  }

  lemma FunctionMember(v: Version, x: int, y: int)
    requires TableShape(v)
    ensures Cell(x, y) in FunctionModules(v) <==>
      v.Corner(x, y) || v.Timing(x, y) || v.VersionInfo(x, y) || v.AlignedUpTo(|v.alignmentPatternCenters|, 0, x, y)
  {
    PatternMembers(v, x, y);
    hide Version.Corner, Version.VersionInfo, Version.Timing, Version.AlignedUpTo, Corners, Timings, VersionModules;
    if v.AlignedUpTo(|v.alignmentPatternCenters|, 0, x, y) { AlignmentClear(v, x, y); }
  }

  lemma FunctionSize(v: Version)
    requires TableShape(v)
    ensures |FunctionModules(v)| == 191 + 2 * v.Dimension() + (if v.versionNumber > 6 then 36 else 0)
      + RowsCount(|v.alignmentPatternCenters|, |v.alignmentPatternCenters|)
  {
    var d, n := v.Dimension(), |v.alignmentPatternCenters|;
    FunctionParts(v);
    CornersSize(d);
    TimingsSize(d);
    VersionSize(v);
    AlignmentSize(v, n, 0);
    hide Corners, Timings, VersionModules, AlignmentModules, FunctionModules, TableShape;
    var a, b, c, e := Corners(d), Timings(d), VersionModules(v), AlignmentModules(v, n, 0);
    Disjoint(a, b);
    Disjoint(a + b, c);
    Disjoint(a + b + c, e);
  }

  lemma SquareOf(v: nat)
    ensures Rows(17 + 4 * v, 17 + 4 * v) == (16 * v + 128) * v + 64 + 225 + 8 * v
  {
    assert (17 + 4 * v) * (17 + 4 * v) == (16 * v + 136) * v + 289;
    assert (16 * v + 136) * v == (16 * v + 128) * v + 8 * v;
  }

  /** The number of data modules of a version with n alignment centres on a side. */
  lemma DataModules(v: Version)
    requires TableShape(v)
    ensures var number := v.versionNumber; var n := CentreCount(number);
      |DataCells(v, Path(v.Dimension()))| ==
        (16 * number + 128) * number + 64
        - (if number >= 2 then (25 * n - 10) * n - 55 else 0) - (if number >= 7 then 36 else 0)
  {
    var number, n := v.versionNumber, |v.alignmentPatternCenters|;
    DataCellsSize(v);
    FunctionSize(v);
    SquareOf(number);
    NoRows();
    if number >= 2 {
      Centres(v, 0);
      AllRows(n);
    }
    hide Rows, DataCells, Path, FunctionModules, RowsCount;
  }

  lemma NoRows()
    ensures RowsCount(0, 0) == 0
  {}

  // ---- which modules ----

  /** The three pairs of centres that lie in finder patterns. */
  predicate CornerPair(v: Version, i: nat, j: nat) {
    var n := |v.alignmentPatternCenters|; (i == 0 && j == 0) || (i == 0 && j == n - 1) || (i == n - 1 && j == 0)
  }

  lemma CarriesData(v: Version, x: int, y: int)
    requires v.versionNumber >= 1
    ensures Cell(x, y) in DataCells(v, Path(v.Dimension())) <==>
      0 <= x < v.Dimension() && 0 <= y < v.Dimension() && !v.IsFunction(x, y)
  {
    hide DataCells, Path, Version.IsFunction;
    var cells := DataCells(v, Path(v.Dimension()));
    DataModulesReadOnce(v, Cell(x, y));
    assert Cell(x, y) in cells <==> multiset(cells)[Cell(x, y)] > 0;
  }

  /** A module within two of an alignment centre in both directions carries no data, except at
    * the three pairs in the corners. */
  lemma NoDataAtCentre(v: Version, i: nat, j: nat, x: int, y: int)
    requires TableShape(v) && i < |v.alignmentPatternCenters| && j < |v.alignmentPatternCenters|
    requires !CornerPair(v, i, j)
    requires -2 <= x - v.alignmentPatternCenters[i] <= 2 && -2 <= y - v.alignmentPatternCenters[j] <= 2
    ensures Cell(x, y) !in DataCells(v, Path(v.Dimension()))
  {
    Centres(v, i);
    Centres(v, j);
    CarriesData(v, x, y);
    hide DataCells, Path;
    assert v.Aligned(i, j, x, y);
    assert v.AlignedUpTo(|v.alignmentPatternCenters|, 0, x, y);
  }

  /** The modules around an alignment pattern carry data, except on the timing lines. */
  lemma DataAroundCentre(v: Version, i: nat, j: nat, x: int, y: int)
    requires TableShape(v) && i < |v.alignmentPatternCenters| && j < |v.alignmentPatternCenters|
    requires !CornerPair(v, i, j) && x != 6 && y != 6
    requires var p, q := x - v.alignmentPatternCenters[i], y - v.alignmentPatternCenters[j];
      -3 <= p <= 3 && -3 <= q <= 3 && (p == 3 || p == -3 || q == 3 || q == -3)
    ensures Cell(x, y) in DataCells(v, Path(v.Dimension()))
  {
    AroundIsClear(v, i, j, x, y);
    CarriesData(v, x, y);
    hide DataCells, Path, TableShape, Version.Corner, Version.VersionInfo, Version.Timing, Version.Aligned;
  }

  lemma AroundIsClear(v: Version, i: nat, j: nat, x: int, y: int)
    requires TableShape(v) && i < |v.alignmentPatternCenters| && j < |v.alignmentPatternCenters|
    requires !CornerPair(v, i, j) && x != 6 && y != 6
    requires var p, q := x - v.alignmentPatternCenters[i], y - v.alignmentPatternCenters[j];
      -3 <= p <= 3 && -3 <= q <= 3 && (p == 3 || p == -3 || q == 3 || q == -3)
    ensures 0 <= x < v.Dimension() && 0 <= y < v.Dimension()
    ensures !v.Corner(x, y) && !v.VersionInfo(x, y) && !v.Timing(x, y)
    ensures forall k: nat, l: nat | k < |v.alignmentPatternCenters| && l < |v.alignmentPatternCenters| ::
      !v.Aligned(k, l, x, y)
  {
    Centres(v, i);
    Centres(v, j);
  }

  /** A module belongs to no alignment pattern. */
  predicate OffCentres(v: Version, x: int, y: int) {
    var c := v.alignmentPatternCenters;
    forall i, j :: 0 <= i < |c| && 0 <= j < |c| && !CornerPair(v, i, j) ==>
      !(c[i] - 2 <= x <= c[i] + 2 && c[j] - 2 <= y <= c[j] + 2)
  }

  lemma NearCentre(v: Version, i: nat, j: nat, x: int, y: int)
    requires TableShape(v) && i < |v.alignmentPatternCenters| && j < |v.alignmentPatternCenters|
    ensures var c := v.alignmentPatternCenters;
      v.Aligned(i, j, x, y) <==>
        !CornerPair(v, i, j) && c[i] - 2 <= x <= c[i] + 2 && c[j] - 2 <= y <= c[j] + 2
  {
    Centres(v, i);
    Centres(v, j);
  }

  lemma OffMeans(v: Version, x: int, y: int)
    requires TableShape(v)
    ensures v.AlignedUpTo(|v.alignmentPatternCenters|, 0, x, y) <==> !OffCentres(v, x, y)
  {
    hide TableShape, CornerPair, Version.Aligned;
    var c := v.alignmentPatternCenters;
    if i, j :| 0 <= i < |c| && 0 <= j < |c| && v.Aligned(i, j, x, y) { NearCentre(v, i, j, x, y); }
    forall i: nat, j: nat | i < |c| && j < |c|
      && !CornerPair(v, i, j) && c[i] - 2 <= x <= c[i] + 2 && c[j] - 2 <= y <= c[j] + 2
      ensures v.Aligned(i, j, x, y)
    {
      NearCentre(v, i, j, x, y);
    }
  }

  /** Every module, by its place: it carries data unless it lies on column or row 6, in one of the
    * three corners, in the version information or at an alignment centre. */
  lemma DataExactly(v: Version, x: int, y: int)
    requires TableShape(v)
    ensures var d := v.Dimension();
      Cell(x, y) in DataCells(v, Path(d)) <==>
        && 0 <= x < d && 0 <= y < d && x != 6 && y != 6
        && !(x <= 8 && y <= 8) && !(x >= d - 8 && y <= 8) && !(x <= 8 && y >= d - 8)
        && (v.versionNumber >= 7 ==> !(d - 11 <= x <= d - 9 && y <= 5) && !(x <= 5 && d - 11 <= y <= d - 9))
        && OffCentres(v, x, y)
  {
    CarriesData(v, x, y);
    OffMeans(v, x, y);
    hide DataCells, Path, TableShape, OffCentres, Version.AlignedUpTo;
  }
}
