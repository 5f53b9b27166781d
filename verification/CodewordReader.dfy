/** Reading the codewords out of a symbol, and their placement. */
module CodewordReader {
  import opened Basics
  import opened FieldAddition
  import opened BitStreams
  import opened Matrices

  /** The data bits under the mask, in reading order, of a symbol given by its dark modules. */
  function BitsRead(dark: set<Cell>, cells: seq<Cell>, mask: DataMask): (bits: seq<bool>)
    ensures |bits| == |cells|
    ensures forall k :: 0 <= k < |cells| ==> bits[k] == ((cells[k] in dark) != mask(cells[k].x, cells[k].y))
  {
    seq(|cells|, k requires 0 <= k < |cells| => (cells[k] in dark) != mask(cells[k].x, cells[k].y))
  }

  /** Whole bytes of a bit sequence; a shorter rest is dropped. */
  function Pack(bits: seq<bool>): seq<byte> {
    if |bits| < 8 then []
    else
      ByteFits(bits[..8]);
      [Value(bits[..8])] + Pack(bits[8..])
  }

  lemma ByteFits(bits: seq<bool>)
    requires |bits| <= 8
    ensures Value(bits) < 256
  {
    ToBitsValue(bits);
    Pow2Grows(|bits|, 8);
    Powers();
  }

  /** The codewords of a symbol of height d, read with the function patterns of a version. */
  function Codewords(dark: set<Cell>, d: nat, v: Version, mask: DataMask): seq<byte>
  {
    Pack(BitsRead(dark, DataCells(v, Path(d)), mask))
  }

  // ---- placement ----

  /** Paints the bits on the first cells, under the mask (sections 7.7 and 7.8). */
  function Place(dark: set<Cell>, cells: seq<Cell>, bits: seq<bool>, mask: DataMask): set<Cell>
    requires |bits| <= |cells|
  {
    if |bits| == 0 then dark
    else
      var n := |bits| - 1;
      var before := Place(dark, cells, bits[..n], mask);
      if bits[n] != mask(cells[n].x, cells[n].y) then before + {cells[n]} else before - {cells[n]}
  }

  predicate Different(cells: seq<Cell>) { forall i, j :: 0 <= i < j < |cells| ==> cells[i] != cells[j] }

  lemma {:induction false} PlacedAt(dark: set<Cell>, cells: seq<Cell>, bits: seq<bool>, mask: DataMask, k: nat)
    requires |bits| <= |cells| && Different(cells) && k < |bits|
    ensures cells[k] in Place(dark, cells, bits, mask) <==> (bits[k] != mask(cells[k].x, cells[k].y))
  {
    if k < |bits| - 1 { PlacedAt(dark, cells, bits[..|bits| - 1], mask, k); }
  }

  lemma ValueOfByte(b: byte)
    ensures Value(Bits([b])) == b
  {
    ByteSlice([b], 0, 0, 8);
    WholeByte(b, 0);
    assert Bits([b])[0..8] == Bits([b]);
  }

  lemma PackFirst(b: byte, rest: seq<bool>)
    ensures Pack(Bits([b]) + rest) == [b] + Pack(rest)
  {
    ValueOfByte(b);
    hide Bits, Value;
    var all := Bits([b]) + rest;
    assert all[..8] == Bits([b]) && all[8..] == rest;
  }

  lemma {:induction false} PackBits(codewords: seq<byte>, rest: seq<bool>)
    ensures Pack(Bits(codewords) + rest) == codewords + Pack(rest)
  {
    if |codewords| == 0 {
      assert Bits(codewords) + rest == rest;
    } else {
      hide Pack, Bits;
      PackBits(codewords[1..], rest);
      BitsSplit(codewords);
      Concat(Bits([codewords[0]]), Bits(codewords[1..]), rest);
      PackFirst(codewords[0], Bits(codewords[1..]) + rest);
      assert [codewords[0]] + codewords[1..] == codewords;
      Concat([codewords[0]], codewords[1..], Pack(rest));
    }
  }

  lemma {:induction false} PackAt(bits: seq<bool>, k: nat)
    requires 8 * k + 8 <= |bits|
    ensures |Pack(bits)| == |bits| / 8 && Pack(bits)[k] == Value(bits[8 * k..8 * k + 8])
  {
    PackLength(bits);
    if k > 0 {
      PackAt(bits[8..], k - 1);
      assert bits[8..][8 * (k - 1)..8 * (k - 1) + 8] == bits[8 * k..8 * k + 8];
    }
  }

  lemma {:induction false} PackLength(bits: seq<bool>)
    ensures |Pack(bits)| == |bits| / 8
  {
    if |bits| >= 8 { PackLength(bits[8..]); }
  }

  lemma BitsSplit(codewords: seq<byte>)
    requires |codewords| > 0
    ensures Bits(codewords) == Bits([codewords[0]]) + Bits(codewords[1..])
  {
    forall k | 8 <= k < 8 * |codewords| ensures BitAt(codewords, k) == BitAt(codewords[1..], k - 8) {
      assert k / 8 == (k - 8) / 8 + 1 && k % 8 == (k - 8) % 8;
    }
  }

  lemma DataCellsDifferent(v: Version)
    requires v.versionNumber >= 1
    ensures Different(DataCells(v, Path(v.Dimension())))
  {
    hide *;
    var cells := DataCells(v, Path(v.Dimension()));
    forall i, j | 0 <= i < j < |cells| ensures cells[i] != cells[j] {
      DataModulesReadOnce(v, cells[i]);
      TwoOccurrences(cells, i, j);
    }
    DifferentMeans(cells);
  }

  lemma DifferentMeans(cells: seq<Cell>)
    requires forall i, j :: 0 <= i < j < |cells| ==> cells[i] != cells[j]
    ensures Different(cells)
  {}

  lemma TwoOccurrences(cells: seq<Cell>, i: nat, j: nat)
    requires i < j < |cells|
    ensures cells[i] == cells[j] ==> multiset(cells)[cells[i]] >= 2
  {
    assert cells == cells[..i] + [cells[i]] + cells[i + 1..j] + [cells[j]] + cells[j + 1..];
  }

  /** Reading undoes placement and masking: the codewords come back first, whatever the
    * remainder modules hold. */
  lemma ReadPlaced(base: set<Cell>, v: Version, mask: DataMask, codewords: seq<byte>)
    requires v.versionNumber >= 1
    requires 8 * |codewords| <= |DataCells(v, Path(v.Dimension()))|
    ensures var cells := DataCells(v, Path(v.Dimension()));
      codewords <= Codewords(Place(base, cells, Bits(codewords), mask), v.Dimension(), v, mask)
  {
    var cells := DataCells(v, Path(v.Dimension()));
    DataCellsDifferent(v);
    hide DataCells, Path, Bits, Place, Pack;
    var bits := Bits(codewords);
    var got := BitsRead(Place(base, cells, bits, mask), cells, mask);
    forall k | 0 <= k < |bits| ensures got[k] == bits[k] {
      PlacedAt(base, cells, bits, mask, k);
    }
    assert got == bits + got[|bits|..];
    PackBits(codewords, got[|bits|..]);
  }

  // ---- readCodewords ----

  /** The dark modules of a matrix. */
  ghost function Dark(matrix: BitMatrix): (dark: set<Cell>)
    requires matrix.Valid()
    reads matrix, matrix.data
  {
    set x, y | 0 <= x < matrix.width && 0 <= y < matrix.height && matrix.Get(x, y) :: Cell(x, y)
  }

  /** `pushBit` */
  function PushBit(bit: bool, b: nat): nat { 2 * b + (if bit then 1 else 0) }

  lemma {:induction false} PackAppend(done: seq<bool>, eight: seq<bool>)
    requires |done| % 8 == 0 && |eight| == 8
    ensures Value(eight) < 256 && Pack(done + eight) == Pack(done) + [Value(eight)]
  {
    ByteFits(eight);
    if |done| == 0 {
      assert done + eight == eight && eight[..8] == eight;
    } else {
      assert (done + eight)[..8] == done[..8] && (done + eight)[8..] == done[8..] + eight;
      PackAppend(done[8..], eight);
    }
  }

  lemma {:induction false} PackPartial(done: seq<bool>, partial: seq<bool>)
    requires |done| % 8 == 0 && |partial| < 8
    ensures Pack(done + partial) == Pack(done)
  {
    if |done| > 0 {
      assert (done + partial)[..8] == done[..8] && (done + partial)[8..] == done[8..] + partial;
      PackPartial(done[8..], partial);
    }
  }

  /** The bits read so far are the codewords pushed and the bits of the current byte. */
  ghost predicate Accumulated(bits: seq<bool>, codewords: seq<byte>, currentByte: nat, bitsRead: nat) {
    && bitsRead < 8 && bitsRead <= |bits| && (|bits| - bitsRead) % 8 == 0
    && codewords == Pack(bits[..|bits| - bitsRead])
    && currentByte == Value(bits[|bits| - bitsRead..])
  }

  lemma AccumulateBit(bits: seq<bool>, codewords: seq<byte>, currentByte: nat, bitsRead: nat, bit: bool)
    requires Accumulated(bits, codewords, currentByte, bitsRead)
    ensures bitsRead < 8
    ensures bitsRead < 7 ==> Accumulated(bits + [bit], codewords, PushBit(bit, currentByte), bitsRead + 1)
    ensures bitsRead == 7 ==>
      PushBit(bit, currentByte) < 256 && Accumulated(bits + [bit], codewords + [PushBit(bit, currentByte)], 0, 0)
  {
    var n := |bits| - bitsRead;
    var partial := bits[n..] + [bit];
    assert partial[..|partial| - 1] == bits[n..];
    assert (bits + [bit])[..n] == bits[..n];
    assert (bits + [bit])[n..] == partial;
    if bitsRead == 7 {
      PackAppend(bits[..n], partial);
      assert (bits + [bit])[..|bits| + 1] == bits[..n] + partial;
    }
  }

  /** The data bits of the rest of the path. */
  function BitsOf(dark: set<Cell>, v: Version, path: seq<Cell>, mask: DataMask): seq<bool> {
    BitsRead(dark, DataCells(v, path), mask)
  }

  lemma {:induction false} DataCellsConcat(v: Version, a: seq<Cell>, b: seq<Cell>)
    ensures DataCells(v, a + b) == DataCells(v, a) + DataCells(v, b)
  {
    if |a| == 0 {
      assert a + b == b;
    } else {
      hide Version.IsFunction;
      DataCellsConcat(v, a[1..], b);
      assert (a + b)[1..] == a[1..] + b && (a + b)[0] == a[0];
      Concat(if v.IsFunction(a[0].x, a[0].y) then [] else [a[0]], DataCells(v, a[1..]), DataCells(v, b));
    }
  }

  lemma BitsOfNext(dark: set<Cell>, v: Version, cell: Cell, rest: seq<Cell>, mask: DataMask)
    ensures BitsOf(dark, v, [cell] + rest, mask) ==
      (if v.IsFunction(cell.x, cell.y) then [] else [(cell in dark) != mask(cell.x, cell.y)])
      + BitsOf(dark, v, rest, mask)
  {
    hide Version.IsFunction;
    assert forall k :: 0 <= k < |rest| ==> rest[k] == ([cell] + rest)[k + 1];
    assert ([cell] + rest)[1..] == rest;
  }

  /** The modules left in a row of a column pair. */
  function RowFrom(c: int, y: int, offset: nat): seq<Cell> {
    if offset == 0 then [Cell(c, y), Cell(c - 1, y)] else if offset == 1 then [Cell(c - 1, y)] else []
  }

  lemma RowFromNext(c: int, y: int, offset: nat, rest: seq<Cell>)
    requires offset < 2
    ensures RowFrom(c, y, offset) + rest == [Cell(c - offset, y)] + (RowFrom(c, y, offset + 1) + rest)
  {}

  lemma ColumnPairNext(c: int, up: bool, d: nat, i: nat, rest: seq<Cell>)
    ensures i < d ==>
      var y, after := if up then d - 1 - i else i, ColumnPair(c, up, d, i + 1) + rest;
      ColumnPair(c, up, d, i) + rest == RowFrom(c, y, 0) + after
    ensures i >= d ==> ColumnPair(c, up, d, i) + rest == rest
  {}

  lemma RowEnd(c: int, y: int, rest: seq<Cell>)
    ensures RowFrom(c, y, 2) + rest == rest
  {}

  /** What is read so far, and what the rest of the path will add, make up the goal. */
  ghost predicate OnCourse(dark: set<Cell>, v: Version, mask: DataMask, goal: seq<bool>, bits: seq<bool>,
    path: seq<Cell>)
  {
    goal == bits + BitsOf(dark, v, path, mask)
  }

  /** The loop state: what is read, the rest of the path, and the accumulated output. */
  ghost predicate Reading(dark: set<Cell>, v: Version, mask: DataMask, goal: seq<bool>, path: seq<Cell>,
    bits: seq<bool>, codewords: seq<byte>, currentByte: nat, bitsRead: nat)
  {
    OnCourse(dark, v, mask, goal, bits, path) && Accumulated(bits, codewords, currentByte, bitsRead)
  }

  lemma OneModule(dark: set<Cell>, v: Version, mask: DataMask, goal: seq<bool>, cell: Cell, rest: seq<Cell>,
    bits: seq<bool>, codewords: seq<byte>, currentByte: nat, bitsRead: nat)
    requires Reading(dark, v, mask, goal, [cell] + rest, bits, codewords, currentByte, bitsRead)
    ensures bitsRead < 8
    ensures v.IsFunction(cell.x, cell.y) ==>
              Reading(dark, v, mask, goal, rest, bits, codewords, currentByte, bitsRead)
    ensures !v.IsFunction(cell.x, cell.y) && bitsRead < 7 ==>
              var bit := (cell in dark) != mask(cell.x, cell.y);
              Reading(dark, v, mask, goal, rest, bits + [bit], codewords, PushBit(bit, currentByte), bitsRead + 1)
    ensures !v.IsFunction(cell.x, cell.y) && bitsRead == 7 ==>
              var bit := (cell in dark) != mask(cell.x, cell.y);
              var whole := PushBit(bit, currentByte);
              whole < 256 && Reading(dark, v, mask, goal, rest, bits + [bit], codewords + [whole], 0, 0)
  {
    assert ([cell] + rest)[0] == cell;
    hide Version.IsFunction, BitsOf, Accumulated, PushBit;
    var bit := (cell in dark) != mask(cell.x, cell.y);
    BitsOfNext(dark, v, cell, rest, mask);
    AccumulateBit(bits, codewords, currentByte, bitsRead, bit);
    Concat(bits, [bit], BitsOf(dark, v, rest, mask));
    assert [] + BitsOf(dark, v, rest, mask) == BitsOf(dark, v, rest, mask);
  }

  lemma Finish(dark: set<Cell>, d: nat, v: Version, mask: DataMask, goal: seq<bool>, c: int, up: bool, bits: seq<bool>,
    codewords: seq<byte>, currentByte: nat, bitsRead: nat)
    requires c <= 0 && Reading(dark, v, mask, goal, Columns(c, up, d), bits, codewords, currentByte, bitsRead)
    ensures codewords == Pack(goal)
  {
    assert BitsOf(dark, v, [], mask) == [];
    assert bits + [] == bits;
    var n := |bits| - bitsRead;
    assert bits == bits[..n] + bits[n..];
    PackPartial(bits[..n], bits[n..]);
  }

  lemma StartOfPath(dark: set<Cell>, d: nat, v: Version, mask: DataMask, goal: seq<bool>)
    requires goal == BitsOf(dark, v, Path(d), mask)
    ensures Reading(dark, v, mask, goal, Columns(d - 1, true, d), [], [], 0, 0)
    ensures Codewords(dark, d, v, mask) == Pack(goal)
  {
    assert [] + goal == goal;
  }

  lemma NextColumns(c: int, up: bool, d: nat)
    requires c > 0
    ensures var k := if c == 6 then 5 else c;
      Columns(c, up, d) == ColumnPair(k, up, d, 0) + Columns(k - 2, !up, d)
  {}

  /** The matrix marks exactly the function modules of the version. */
  ghost predicate IsMaskFor(matrix: BitMatrix, v: Version)
    reads matrix, matrix.data
  {
    matrix.Valid() && forall x, y :: matrix.Get(x, y) <==> v.IsFunction(x, y)
  }

  lemma MaskBuilt(matrix: BitMatrix, v: Version)
    requires matrix.Valid() && forall x, y :: matrix.Get(x, y) <==> v.IsFunction(x, y)
    ensures IsMaskFor(matrix, v)
  {}

  lemma MaskAt(matrix: BitMatrix, v: Version, x: int, y: int)
    requires IsMaskFor(matrix, v)
    ensures matrix.Valid() && (matrix.Get(x, y) <==> v.IsFunction(x, y))
  {}

  lemma DarkAt(matrix: BitMatrix, x: int, y: int)
    requires matrix.Valid()
    ensures matrix.Get(x, y) <==> Cell(x, y) in Dark(matrix)
  {}

  /** The body of the innermost loop: one module of the path, given its two bits. */
  method ReadModule(isFunction: bool, black: bool, mask: DataMask, x: int, y: int,
    codewordsIn: seq<byte>, currentByteIn: nat, bitsReadIn: nat,
    ghost dark: set<Cell>, ghost v: Version, ghost goal: seq<bool>, ghost rest: seq<Cell>, ghost bitsIn: seq<bool>)
    returns (codewords: seq<byte>, currentByte: nat, bitsRead: nat, ghost bits: seq<bool>)
    requires isFunction == v.IsFunction(x, y) && black == (Cell(x, y) in dark)
    requires Reading(dark, v, mask, goal, [Cell(x, y)] + rest, bitsIn, codewordsIn, currentByteIn, bitsReadIn)
    ensures Reading(dark, v, mask, goal, rest, bits, codewords, currentByte, bitsRead)
  {
    hide *;
    codewords, currentByte, bitsRead, bits := codewordsIn, currentByteIn, bitsReadIn, bitsIn;
    OneModule(dark, v, mask, goal, Cell(x, y), rest, bits, codewords, currentByte, bitsRead);
    if !isFunction {
      bitsRead := bitsRead + 1;
      var bit := black;
      if mask(x, y) {
        bit := !bit;
      }
      bits := bits + [bit];
      currentByte := PushBit(bit, currentByte);
      if bitsRead == 8 {
        codewords := codewords + [currentByte];
        bitsRead := 0;
        currentByte := 0;
      }
    }
  }

  /** The innermost loop: the two modules of one row of a column pair. */
  method ReadRow(matrix: BitMatrix, functionPatternMask: BitMatrix, ghost v: Version, mask: DataMask, columnIndex: int,
    y: int,
    codewordsIn: seq<byte>, currentByteIn: nat, bitsReadIn: nat,
    ghost goal: seq<bool>, ghost below: seq<Cell>, ghost bitsIn: seq<bool>)
    returns (codewords: seq<byte>, currentByte: nat, bitsRead: nat, ghost bits: seq<bool>)
    requires matrix.Valid() && IsMaskFor(functionPatternMask, v)
    requires Reading(Dark(matrix), v, mask, goal, RowFrom(columnIndex, y, 0) + below,
                     bitsIn, codewordsIn, currentByteIn, bitsReadIn)
    ensures Reading(Dark(matrix), v, mask, goal, below, bits, codewords, currentByte, bitsRead)
  {
    hide *;
    codewords, currentByte, bitsRead, bits := codewordsIn, currentByteIn, bitsReadIn, bitsIn;
    for columnOffset := 0 to 2
      invariant IsMaskFor(functionPatternMask, v)
      invariant Reading(Dark(matrix), v, mask, goal, RowFrom(columnIndex, y, columnOffset) + below,
                        bits, codewords, currentByte, bitsRead)
    {
      var x := columnIndex - columnOffset;
      RowFromNext(columnIndex, y, columnOffset, below);
      MaskAt(functionPatternMask, v, x, y);
      DarkAt(matrix, x, y);
      codewords, currentByte, bitsRead, bits := ReadModule(functionPatternMask.Get(x, y), matrix.Get(x, y), mask, x, y,
        codewords, currentByte, bitsRead, Dark(matrix), v, goal, RowFrom(columnIndex, y, columnOffset + 1) + below,
        bits);
    }
    RowEnd(columnIndex, y, below);
  }

  /** The middle loop: the rows of one column pair, from the bottom or from the top. */
  method ReadColumnPair(matrix: BitMatrix, functionPatternMask: BitMatrix, ghost v: Version, mask: DataMask,
    columnIndex: int, readingUp: bool, codewordsIn: seq<byte>, currentByteIn: nat, bitsReadIn: nat,
    ghost goal: seq<bool>, ghost later: seq<Cell>, ghost bitsIn: seq<bool>)
    returns (codewords: seq<byte>, currentByte: nat, bitsRead: nat, ghost bits: seq<bool>)
    requires matrix.Valid() && IsMaskFor(functionPatternMask, v)
    requires Reading(Dark(matrix), v, mask, goal, ColumnPair(columnIndex, readingUp, matrix.height, 0) + later,
                     bitsIn, codewordsIn, currentByteIn, bitsReadIn)
    ensures Reading(Dark(matrix), v, mask, goal, later, bits, codewords, currentByte, bitsRead)
  {
    hide *;
    var dimension := matrix.height;
    codewords, currentByte, bitsRead, bits := codewordsIn, currentByteIn, bitsReadIn, bitsIn;
    for i := 0 to dimension
      invariant IsMaskFor(functionPatternMask, v)
      invariant Reading(Dark(matrix), v, mask, goal, ColumnPair(columnIndex, readingUp, dimension, i) + later,
                        bits, codewords, currentByte, bitsRead)
    {
      var y := if readingUp then dimension - 1 - i else i;
      ColumnPairNext(columnIndex, readingUp, dimension, i, later);
      codewords, currentByte, bitsRead, bits := ReadRow(matrix, functionPatternMask, v, mask, columnIndex, y, codewords,
        currentByte, bitsRead, goal, ColumnPair(columnIndex, readingUp, dimension, i + 1) + later, bits);
    }
    ColumnPairNext(columnIndex, readingUp, dimension, dimension, later);
  }

  method ReadCodewords(matrix: BitMatrix, v: Version, dataMask: nat) returns (codewords: seq<byte>)
    requires matrix.Valid() && v.Valid() && dataMask < 8
    ensures codewords == Codewords(Dark(matrix), matrix.height, v, MaskOf(dataMask))
  {
    hide *;
    var mask := MaskOf(dataMask);
    var dimension: int := matrix.height;
    var functionPatternMask := BuildFunctionPatternMask(v);
    MaskBuilt(functionPatternMask, v);
    ghost var goal := BitsOf(Dark(matrix), v, Path(dimension), mask);
    codewords := [];
    var currentByte: nat, bitsRead: nat := 0, 0;
    ghost var bits: seq<bool> := [];
    StartOfPath(Dark(matrix), dimension, v, mask, goal);
    var readingUp := true;
    var columnIndex: int := dimension - 1;
    while columnIndex > 0
      invariant IsMaskFor(functionPatternMask, v)
      invariant Codewords(Dark(matrix), dimension, v, mask) == Pack(goal)
      invariant Reading(Dark(matrix), v, mask, goal, Columns(columnIndex, readingUp, dimension),
                        bits, codewords, currentByte, bitsRead)
      decreases columnIndex
    {
      NextColumns(columnIndex, readingUp, dimension);
      if columnIndex == 6 {
        columnIndex := columnIndex - 1;
      }
      codewords, currentByte, bitsRead, bits := ReadColumnPair(matrix, functionPatternMask, v, mask, columnIndex,
        readingUp, codewords, currentByte, bitsRead, goal, Columns(columnIndex - 2, !readingUp, dimension), bits);
      readingUp := !readingUp;
      columnIndex := columnIndex - 2;
    }
    Finish(Dark(matrix), dimension, v, mask, goal, columnIndex, readingUp, bits, codewords, currentByte, bitsRead);
  }
}
