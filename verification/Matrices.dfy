/** Modules of a QR symbol: the bit matrix, the function pattern mask and the zig-zag order
  * in which codewords are read (ISO/IEC 18004:2015, sections 7.7 and 7.8). */
module Matrices {
  import opened RowMajor

  class BitMatrix {
    const width: nat
    const height: nat
    const data: array<bool>

    ghost predicate Valid()
      reads this
    {
      data.Length == Rows(height, width)
    }

    predicate Inside(x: int, y: int) { 0 <= x < width && 0 <= y < height }

    /** Modules outside the matrix read as false. */
    function Get(x: int, y: int): bool
      requires Valid()
      reads this, data
    {
      if Inside(x, y) then
        RowsBelow(y, height, width);
        data[Rows(y, width) + x]
      else false
    }

    /** `createEmpty` */
    constructor (width: nat, height: nat)
      ensures Valid() && this.width == width && this.height == height && fresh(data)
      ensures forall x, y :: !Get(x, y)
    {
      hide Rows;
      this.width, this.height := width, height;
      data := new bool[Rows(height, width)](_ => false);
      new;
      forall x, y | Inside(x, y) ensures !Get(x, y) { RowsBelow(y, height, width); }
    }

    method Set(x: int, y: int, v: bool)
      requires Valid() && Inside(x, y)
      modifies data
      ensures forall i, j :: Get(i, j) == if i == x && j == y then v else old(Get(i, j))
    {
      hide Rows;
      RowsBelow(y, height, width);
      data[Rows(y, width) + x] := v;
      forall i, j | Inside(i, j) ensures Get(i, j) == if i == x && j == y then v else old(Get(i, j)) {
        RowsBelow(j, height, width);
        if Rows(j, width) + i == Rows(y, width) + x { RowUnique(j, i, y, x, width); }
      }
    }

    method SetRegion(left: int, top: int, w: nat, h: nat, v: bool)
      requires Valid() && 0 <= left && left + w <= width && 0 <= top && top + h <= height
      modifies data
      ensures forall i, j :: Get(i, j) == if left <= i < left + w && top <= j < top + h then v else old(Get(i, j))
    {
      hide Get, Rows;
      for y := top to top + h
        invariant forall i, j :: Get(i, j) == if left <= i < left + w && top <= j < y then v else old(Get(i, j))
      {
        for x := left to left + w
          invariant forall i, j :: Get(i, j) ==
                      if (left <= i < left + w && top <= j < y) || (left <= i < x && j == y) then v else old(Get(i, j))
        {
          Set(x, y, v);
        }
      }
    }
  }

  // ---- function patterns ----

  datatype Version = Version(versionNumber: nat, alignmentPatternCenters: seq<nat>) {
    function Dimension(): nat { 17 + 4 * versionNumber }

    /** The shape of every table entry: alignment pattern centres keep clear of the border. */
    predicate Valid() {
      versionNumber >= 1
      && forall i :: 0 <= i < |alignmentPatternCenters| ==> 6 <= alignmentPatternCenters[i] <= Dimension() - 7
    }

    /** The three corners that finder patterns occupy have no alignment pattern. */
    predicate Excluded(cx: nat, cy: nat) {
      (cx == 6 && cy == 6) || (cx == 6 && cy == Dimension() - 7) || (cx == Dimension() - 7 && cy == 6)
    }

    /** Module (x, y) belongs to the alignment pattern number (i, j). */
    predicate Aligned(i: nat, j: nat, x: int, y: int)
      requires i < |alignmentPatternCenters| && j < |alignmentPatternCenters|
    {
      var cx, cy := alignmentPatternCenters[i], alignmentPatternCenters[j];
      !Excluded(cx, cy) && cx - 2 <= x <= cx + 2 && cy - 2 <= y <= cy + 2
    }

    predicate Corner(x: int, y: int) {
      (0 <= x < 9 && 0 <= y < 9)
      || (Dimension() - 8 <= x < Dimension() && 0 <= y < 9)
      || (0 <= x < 9 && Dimension() - 8 <= y < Dimension())
    }

    predicate Timing(x: int, y: int) {
      (x == 6 && 9 <= y < Dimension() - 8) || (y == 6 && 9 <= x < Dimension() - 8)
    }

    predicate VersionInfo(x: int, y: int) {
      versionNumber > 6
      && ((Dimension() - 11 <= x < Dimension() - 8 && 0 <= y < 6)
          || (0 <= x < 6 && Dimension() - 11 <= y < Dimension() - 8))
    }

    /** Modules that carry no data. */
    predicate IsFunction(x: int, y: int) {
      Corner(x, y) || Timing(x, y) || VersionInfo(x, y)
      || AlignedUpTo(|alignmentPatternCenters|, 0, x, y)
    }

    /** Module (x, y) belongs to an alignment pattern before number (i, j) in row order. */
    predicate AlignedUpTo(i: nat, j: nat, x: int, y: int) {
      exists k, l :: 0 <= k < |alignmentPatternCenters| && 0 <= l < |alignmentPatternCenters|
        && (k < i || (k == i && l < j)) && Aligned(k, l, x, y)
    }
  }

  /** The loop over pairs of alignment pattern centres. */
  method SetAlignmentPatterns(matrix: BitMatrix, v: Version)
    requires v.Valid() && matrix.Valid() && matrix.width == matrix.height == v.Dimension()
    modifies matrix.data
    ensures forall x, y :: matrix.Get(x, y) <==>
      old(matrix.Get(x, y)) || v.AlignedUpTo(|v.alignmentPatternCenters|, 0, x, y)
  {
    hide BitMatrix.Get, Rows, Version.AlignedUpTo;
    var dimension, centers := v.Dimension(), v.alignmentPatternCenters;
    AlignedNone(v);
    for i := 0 to |centers|
      invariant forall x, y :: matrix.Get(x, y) <==> old(matrix.Get(x, y)) || v.AlignedUpTo(i, 0, x, y)
    {
      for j := 0 to |centers|
        invariant forall x, y :: matrix.Get(x, y) <==> old(matrix.Get(x, y)) || v.AlignedUpTo(i, j, x, y)
      {
        AlignedNext(v, i, j);
        var x, y := centers[i], centers[j];
        if !((x == 6 && y == 6) || (x == 6 && y == dimension - 7) || (x == dimension - 7 && y == 6)) {
          matrix.SetRegion(x - 2, y - 2, 5, 5, true);
        }
      }
      AlignedRow(v, i);
    }
  }

  lemma AlignedNone(v: Version)
    ensures forall x, y :: !v.AlignedUpTo(0, 0, x, y)
  {}

  lemma AlignedNext(v: Version, i: nat, j: nat)
    requires i < |v.alignmentPatternCenters| && j < |v.alignmentPatternCenters|
    ensures forall x, y :: v.AlignedUpTo(i, j + 1, x, y) <==> v.AlignedUpTo(i, j, x, y) || v.Aligned(i, j, x, y)
  {
    hide Version.Aligned;
  }

  lemma AlignedRow(v: Version, i: nat)
    ensures forall x, y :: v.AlignedUpTo(i + 1, 0, x, y) <==> v.AlignedUpTo(i, |v.alignmentPatternCenters|, x, y)
  {
    hide Version.Aligned;
  }

  method BuildFunctionPatternMask(v: Version) returns (matrix: BitMatrix)
    requires v.Valid()
    ensures fresh(matrix) && fresh(matrix.data) && matrix.Valid()
    ensures matrix.width == matrix.height == v.Dimension()
    ensures forall x, y :: matrix.Get(x, y) <==> v.IsFunction(x, y)
  {
    hide BitMatrix.Get, Rows, Version.AlignedUpTo;
    var dimension := v.Dimension();
    matrix := new BitMatrix(dimension, dimension);
    matrix.SetRegion(0, 0, 9, 9, true);
    matrix.SetRegion(dimension - 8, 0, 8, 9, true);
    matrix.SetRegion(0, dimension - 8, 9, 8, true);
    assert forall x, y :: matrix.Get(x, y) <==> v.Corner(x, y);
    SetAlignmentPatterns(matrix, v);
    matrix.SetRegion(6, 9, 1, dimension - 17, true);
    matrix.SetRegion(9, 6, dimension - 17, 1, true);
    if v.versionNumber > 6 {
      matrix.SetRegion(dimension - 11, 0, 3, 6, true);
      matrix.SetRegion(0, dimension - 11, 6, 3, true);
    }
  }

  // ---- data masks ----

  /** Entry `mask` of DATA_MASKS. */
  predicate Masked(mask: nat, x: int, y: int)
    requires mask < 8
  {
    match mask
    case 0 => (y + x) % 2 == 0
    case 1 => y % 2 == 0
    case 2 => x % 3 == 0
    case 3 => (y + x) % 3 == 0
    case 4 => (y / 2 + x / 3) % 2 == 0
    case 5 => x * y % 2 + x * y % 3 == 0
    case 6 => (y * x % 2 + y * x % 3) % 2 == 0
    case _ => ((y + x) % 2 + y * x % 3) % 2 == 0
  }

  /** A data mask as the reader applies it. */
  type DataMask = (int, int) -> bool

  function MaskOf(mask: nat): DataMask
    requires mask < 8
  {
    (x, y) => Masked(mask, x, y)
  }

  // ---- the zig-zag path ----

  datatype Cell = Cell(x: int, y: int)

  /** Rows i, i + 1, ... of the column pair with right column c. */
  function ColumnPair(c: int, up: bool, d: nat, i: nat): seq<Cell>
    decreases d - i
  {
    if i >= d then []
    else
      var y := if up then d - 1 - i else i;
      [Cell(c, y), Cell(c - 1, y)] + ColumnPair(c, up, d, i + 1)
  }

  /** All column pairs from right column c leftwards; column 6 is stepped over. */
  function Columns(c: int, up: bool, d: nat): seq<Cell>
    decreases c
  {
    if c <= 0 then []
    else
      var k := if c == 6 then 5 else c;
      ColumnPair(k, up, d, 0) + Columns(k - 2, !up, d)
  }

  function Path(d: nat): seq<Cell> { Columns(d - 1, true, d) }

  /** The row that a pair reads at turn i. */
  function RowAt(up: bool, d: nat, i: nat): int { if up then d - 1 - i else i }

  lemma {:induction false} ColumnPairAt(c: int, up: bool, d: nat, first: nat, i: nat, offset: nat)
    requires first <= i < d && offset < 2
    ensures |ColumnPair(c, up, d, first)| == 2 * (d - first)
    ensures ColumnPair(c, up, d, first)[2 * (i - first) + offset] == Cell(c - offset, RowAt(up, d, i))
    decreases d - first
  {
    if first < i {
      ColumnPairAt(c, up, d, first + 1, i, offset);
    } else if i + 1 < d {
      ColumnPairAt(c, up, d, first + 1, i + 1, offset);
    }
  }

  /** The right column of pair number q from right column c on. */
  function PairRight(c: int, q: nat): int {
    if c < 6 || c - 2 * q > 6 then c - 2 * q else c - 2 * q - 1
  }

  lemma ColumnsSplit(c: int, up: bool, d: nat)
    requires c > 0
    ensures var k := if c == 6 then 5 else c;
      && Columns(c, up, d) == ColumnPair(k, up, d, 0) + Columns(k - 2, !up, d)
      && |ColumnPair(k, up, d, 0)| == 2 * d
  {
    if d > 0 { ColumnPairAt(if c == 6 then 5 else c, up, d, 0, 0, 0); }
    hide ColumnPair;
  }

  lemma NextRight(c: int, q: nat)
    requires RightColumn(c) && PairRight(c, q) > 0
    ensures var k := if c == 6 then 5 else c;
      c > 0 && RightColumn(k - 2) && (q > 0 ==> PairRight(k - 2, q - 1) == PairRight(c, q)) && PairRight(c, 0) == k
  {}

  lemma InSecond<T>(a: seq<T>, b: seq<T>, i: nat)
    requires i < |b|
    ensures (a + b)[|a| + i] == b[i]
  {}

  /** The direction of pair number q when the first one goes up or down. */
  predicate Upwards(up: bool, q: nat) { up == (q % 2 == 0) }

  lemma Alternates(up: bool, q: nat)
    ensures Upwards(up, 0) == up && Upwards(!up, q) == Upwards(up, q + 1)
  {}

  lemma {:induction false} ColumnsAt(c: int, up: bool, d: nat, q: nat, i: nat, offset: nat)
    requires RightColumn(c) && PairRight(c, q) > 0 && i < d && offset < 2
    ensures Rows(q, 2 * d) + 2 * i + offset < |Columns(c, up, d)|
    ensures Columns(c, up, d)[Rows(q, 2 * d) + 2 * i + offset] ==
      Cell(PairRight(c, q) - offset, RowAt(Upwards(up, q), d, i))
    decreases q
  {
    var k := if c == 6 then 5 else c;
    NextRight(c, q);
    ColumnsSplit(c, up, d);
    hide ColumnPair, Columns, RightColumn, PairRight, Rows, Upwards, RowAt;
    if q == 0 {
      RowsStep(0, 2 * d);
      Alternates(up, 0);
      ColumnPairAt(k, up, d, 0, i, offset);
    } else {
      RowsStep(q - 1, 2 * d);
      Alternates(up, q - 1);
      ColumnsAt(k - 2, !up, d, q - 1, i, offset);
      InSecond(ColumnPair(k, up, d, 0), Columns(k - 2, !up, d), Rows(q - 1, 2 * d) + 2 * i + offset);
    }
  }

  /** Where the traversal is at each moment: pair q of columns from the right, without column 6,
    * upwards first and then down and up in turn, the right module of a row before the left. */
  lemma PathAt(v: nat, q: nat, i: nat, offset: nat)
    requires v >= 1 && q < 8 + 2 * v && i < 17 + 4 * v && offset < 2
    ensures var d := 17 + 4 * v; var right := if q < 5 + 2 * v then d - 1 - 2 * q else d - 2 - 2 * q;
      && Rows(q, 2 * d) + 2 * i + offset < |Path(d)|
      && Path(d)[Rows(q, 2 * d) + 2 * i + offset] == Cell(right - offset, if q % 2 == 0 then d - 1 - i else i)
  {
    Rightmost(v);
    hide Rows, Columns, RightColumn;
    ColumnsAt(16 + 4 * v, true, 17 + 4 * v, q, i, offset);
  }

  /** The cell lies in the pair, in row number i or later. */
  predicate Ahead(c: int, up: bool, d: nat, i: nat, cell: Cell) {
    (cell.x == c || cell.x == c - 1) && i <= (if up then d - 1 - cell.y else cell.y) < d
  }

  lemma TwoMore(a: Cell, b: Cell, rest: seq<Cell>, cell: Cell)
    requires a != b
    ensures multiset([a, b] + rest)[cell] == (if cell == a || cell == b then 1 else 0) + multiset(rest)[cell]
  {
    assert multiset([a, b] + rest) == multiset{a, b} + multiset(rest);
  }

  lemma {:induction false} ColumnPairVisits(c: int, up: bool, d: nat, i: nat, cell: Cell)
    ensures multiset(ColumnPair(c, up, d, i))[cell] == if Ahead(c, up, d, i, cell) then 1 else 0
    decreases d - i
  {
    if i < d {
      ColumnPairVisits(c, up, d, i + 1, cell);
      var y := if up then d - 1 - i else i;
      TwoMore(Cell(c, y), Cell(c - 1, y), ColumnPair(c, up, d, i + 1), cell);
    }
  }

  /** The right columns that the loop meets: even ones down to 6, then odd ones. */
  predicate RightColumn(c: int) { c >= -1 && if c <= 6 then c == 6 || c % 2 == 1 else c % 2 == 0 }

  predicate Covered(c: int, d: nat, cell: Cell) {
    0 <= cell.x <= c && (c >= 6 ==> cell.x != 6) && 0 <= cell.y < d
  }

  lemma CoveredStep(c: int, up: bool, d: nat, cell: Cell)
    requires RightColumn(c) && c > 0
    ensures var k := if c == 6 then 5 else c;
      && RightColumn(k - 2)
      && (Covered(c, d, cell) <==> Ahead(k, up, d, 0, cell) || Covered(k - 2, d, cell))
      && !(Ahead(k, up, d, 0, cell) && Covered(k - 2, d, cell))
  {}

  lemma CountConcat(a: seq<Cell>, b: seq<Cell>, cell: Cell)
    ensures multiset(a + b)[cell] == multiset(a)[cell] + multiset(b)[cell]
  {}

  lemma ColumnsCount(c: int, k: int, up: bool, d: nat, cell: Cell)
    requires RightColumn(c) && c > 0 && k == if c == 6 then 5 else c
    ensures multiset(Columns(c, up, d))[cell] ==
      multiset(ColumnPair(k, up, d, 0))[cell] + multiset(Columns(k - 2, !up, d))[cell]
  {
    hide ColumnPair;
    assert Columns(c, up, d) == ColumnPair(k, up, d, 0) + Columns(k - 2, !up, d);
    hide Columns;
    CountConcat(ColumnPair(k, up, d, 0), Columns(k - 2, !up, d), cell);
  }

  lemma NoColumns(c: int, up: bool, d: nat, cell: Cell)
    requires RightColumn(c) && c <= 0
    ensures multiset(Columns(c, up, d))[cell] == 0 && !Covered(c, d, cell)
  {}

  lemma {:induction false} ColumnsVisit(c: int, up: bool, d: nat, cell: Cell)
    requires RightColumn(c)
    ensures multiset(Columns(c, up, d))[cell] == if Covered(c, d, cell) then 1 else 0
    decreases c
  {
    hide *;
    if c <= 0 {
      NoColumns(c, up, d, cell);
    } else {
      var k := if c == 6 then 5 else c;
      CoveredStep(c, up, d, cell);
      ColumnPairVisits(k, up, d, 0, cell);
      ColumnsVisit(k - 2, !up, d, cell);
      ColumnsCount(c, k, up, d, cell);
    }
  }

  lemma Rightmost(v: nat)
    requires v >= 1
    ensures RightColumn(16 + 4 * v)
  {
    Even(8 + 2 * v);
  }

  lemma Even(w: nat)
    ensures 2 * w % 2 == 0
  {}

  /** All columns but the sixth are covered from the right edge. */
  lemma CoveredFromRight(v: nat, cell: Cell)
    requires v >= 1
    ensures Covered(16 + 4 * v, 17 + 4 * v, cell) <==>
      0 <= cell.x < 17 + 4 * v && cell.x != 6 && 0 <= cell.y < 17 + 4 * v
  {}

  /** The traversal visits every module off column 6 exactly once, and nothing else. */
  lemma PathVisitsOnce(v: nat, cell: Cell)
    requires v >= 1
    ensures var d := 17 + 4 * v;
      multiset(Path(d))[cell] == if 0 <= cell.x < d && cell.x != 6 && 0 <= cell.y < d then 1 else 0
  {
    var d: nat := 17 + 4 * v;
    assert Path(d) == Columns(16 + 4 * v, true, d);
    hide *;
    Rightmost(v);
    CoveredFromRight(v, cell);
    ColumnsVisit(16 + 4 * v, true, 17 + 4 * v, cell);
  }

  /** Column 6 carries no data, so stepping over it loses nothing. */
  lemma ColumnSixIsFunction(v: Version, y: int)
    requires 0 <= y < v.Dimension()
    ensures v.IsFunction(6, y)
  {}

  /** The path without function modules. */
  function DataCells(v: Version, path: seq<Cell>): seq<Cell> {
    if |path| == 0 then []
    else (if v.IsFunction(path[0].x, path[0].y) then [] else [path[0]]) + DataCells(v, path[1..])
  }

  lemma {:induction false} DataCellsCount(v: Version, path: seq<Cell>, cell: Cell)
    ensures multiset(DataCells(v, path))[cell] == if v.IsFunction(cell.x, cell.y) then 0 else multiset(path)[cell]
  {
    if |path| > 0 {
      DataCellsCount(v, path[1..], cell);
      assert path == [path[0]] + path[1..];
      var kept := if v.IsFunction(path[0].x, path[0].y) then [] else [path[0]];
      assert multiset(DataCells(v, path)) == multiset(kept) + multiset(DataCells(v, path[1..]));
    }
  }

  /** Every data module of the symbol is read exactly once, and no other module is. */
  lemma DataModulesReadOnce(v: Version, cell: Cell)
    requires v.versionNumber >= 1
    ensures multiset(DataCells(v, Path(v.Dimension())))[cell] ==
      if 0 <= cell.x < v.Dimension() && 0 <= cell.y < v.Dimension() && !v.IsFunction(cell.x, cell.y) then 1 else 0
  {
    hide Version.AlignedUpTo, Version.VersionInfo;
    PathVisitsOnce(v.versionNumber, cell);
    DataCellsCount(v, Path(v.Dimension()), cell);
    if 0 <= cell.y < v.Dimension() { ColumnSixIsFunction(v, cell.y); }
  }
}
