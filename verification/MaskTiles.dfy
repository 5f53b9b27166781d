/** The eight data masks apart from their formulas: the tile of modules that each repeats
  * (ISO/IEC 18004:2015, section 7.8.2), and what an empty symbol reads as under them. */
module MaskTiles {
  import opened Basics
  import opened BitStreams
  import opened Matrices
  import opened CodewordReader

  /** The rows of a tile; '#' where the mask changes the module. */
  function Tile(mask: nat): (rows: seq<string>)
    requires mask < 8
    ensures |rows| > 0 && |rows[0]| > 0 && forall y :: 0 <= y < |rows| ==> |rows[y]| == |rows[0]|
  {
    match mask
    case 0 => ["#.", ".#"]
    case 1 => ["#", "."]
    case 2 => ["#.."]
    case 3 => ["#..", "..#", ".#."]
    case 4 => ["###...", "###...", "...###", "...###"]
    case 5 => ["######", "#.....", "#..#..", "#.#.#.", "#..#..", "#....."]
    case 6 => ["######", "###...", "##.##.", "#.#.#.", "#.##.#", "#...##"]
    case _ => ["#.#.#.", "...###", "#...##", ".#.#.#", "###...", ".###.."]
  }

  /** The tile repeated over all modules. */
  predicate InTile(mask: nat, x: nat, y: nat)
    requires mask < 8
  {
    var rows := Tile(mask); rows[y % |rows|][x % |rows[0]|] == '#'
  }

  // ---- each mask is its tile ----

  /** The remainders of a product of x and y by 2 and by 3, from those of x and y. */
  function Twos(x: nat, y: nat): nat { if x % 2 == 1 && y % 2 == 1 then 1 else 0 }

  function Threes(x: nat, y: nat): nat {
    if x % 3 == 0 || y % 3 == 0 then 0 else if x % 3 == y % 3 then 1 else 2
  }

  lemma Product(x: nat, y: nat, m: nat, a: nat, b: nat, r: nat, s: nat)
    requires x == m * a + r && y == m * b + s
    ensures x * y == m * (m * (a * b) + a * s + b * r) + r * s
  {
    assert m * a * (m * b) == m * (m * (a * b));
    assert m * a * s == m * (a * s) && m * b * r == m * (b * r);
  }

  lemma Remainders(k: nat, t: nat)
    ensures (2 * k + t) % 2 == t % 2 && (3 * k + t) % 3 == t % 3
  {}

  lemma SmallProducts(r: nat, s: nat)
    requires r < 3 && s < 3
    ensures r < 2 && s < 2 ==> r * s % 2 == if r == 1 && s == 1 then 1 else 0
    ensures r * s % 3 == if r == 0 || s == 0 then 0 else if r == s then 1 else 2
  {
    if r == 0 {} else if r == 1 {} else if s == 0 {} else if s == 1 {}
  }

  lemma ModTwo(x: nat, y: nat)
    ensures x * y % 2 == Twos(x, y)
  {
    var k := 2 * ((x / 2) * (y / 2)) + (x / 2) * (y % 2) + (y / 2) * (x % 2);
    Product(x, y, 2, x / 2, y / 2, x % 2, y % 2);
    SmallProducts(x % 2, y % 2);
    Remainders(k, (x % 2) * (y % 2));
  }

  lemma ModThree(x: nat, y: nat)
    ensures x * y % 3 == Threes(x, y)
  {
    var k := 3 * ((x / 3) * (y / 3)) + (x / 3) * (y % 3) + (y / 3) * (x % 3);
    Product(x, y, 3, x / 3, y / 3, x % 3, y % 3);
    SmallProducts(x % 3, y % 3);
    Remainders(k, (x % 3) * (y % 3));
  }

  lemma LastMasks(x: nat, y: nat)
    ensures Masked(5, x, y) <==> Twos(x, y) + Threes(x, y) == 0
    ensures Masked(6, x, y) <==> (Twos(x, y) + Threes(x, y)) % 2 == 0
    ensures Masked(7, x, y) <==> ((y + x) % 2 + Threes(x, y)) % 2 == 0
  {
    ModTwo(x, y);
    ModThree(x, y);
    var p := x * y;
    assert y * x == p;
    hide Twos, Threes;
  }

  /** A row of six, where the columns that it marks are those of a condition. */
  lemma SixColumns(row: string, r: nat)
    requires |row| == 6 && r < 6
    ensures row[r] == if r == 0 then row[0] else if r == 1 then row[1] else if r == 2 then row[2]
      else if r == 3 then row[3] else if r == 4 then row[4] else row[5]
  {}

  lemma Rows5()
    ensures |Tile(5)| == 6 && Tile(5)[0] == "######" && Tile(5)[1] == "#....."
    ensures Tile(5)[2] == "#..#.." && Tile(5)[3] == "#.#.#."
    ensures Tile(5)[4] == "#..#.." && Tile(5)[5] == "#....."
  {}

  lemma Tile5(r: nat, s: nat)
    requires r < 6 && s < 6
    ensures InTile(5, r, s) <==> Twos(r, s) + Threes(r, s) == 0
  {
    Rows5();
    SixColumns(Tile(5)[s], r);
    hide Tile;
    if s == 0 {} else if s == 1 {} else if s == 2 {} else if s == 3 {} else if s == 4 {}
  }

  lemma Rows6()
    ensures |Tile(6)| == 6 && Tile(6)[0] == "######" && Tile(6)[1] == "###..."
    ensures Tile(6)[2] == "##.##." && Tile(6)[3] == "#.#.#."
    ensures Tile(6)[4] == "#.##.#" && Tile(6)[5] == "#...##"
  {}

  lemma Tile6(r: nat, s: nat)
    requires r < 6 && s < 6
    ensures InTile(6, r, s) <==> (Twos(r, s) + Threes(r, s)) % 2 == 0
  {
    Rows6();
    SixColumns(Tile(6)[s], r);
    hide Tile;
    if s == 0 {} else if s == 1 {} else if s == 2 {} else if s == 3 {} else if s == 4 {}
  }

  lemma Rows7()
    ensures |Tile(7)| == 6 && Tile(7)[0] == "#.#.#." && Tile(7)[1] == "...###"
    ensures Tile(7)[2] == "#...##" && Tile(7)[3] == ".#.#.#"
    ensures Tile(7)[4] == "###..." && Tile(7)[5] == ".###.."
  {}

  lemma Tile7(r: nat, s: nat)
    requires r < 6 && s < 6
    ensures InTile(7, r, s) <==> ((s + r) % 2 + Threes(r, s)) % 2 == 0
  {
    Rows7();
    SixColumns(Tile(7)[s], r);
    hide Tile;
    if s == 0 {} else if s == 1 {} else if s == 2 {} else if s == 3 {} else if s == 4 {}
  }

  /** The last three tiles, and what their formulas see, repeat after six modules. */
  lemma SixByTwo(x: nat, y: nat)
    ensures Twos(x, y) == Twos(x % 6, y % 6)
  {
    Remainders(3 * (x / 6), x % 6);
    Remainders(3 * (y / 6), y % 6);
    assert x == 2 * (3 * (x / 6)) + x % 6 && y == 2 * (3 * (y / 6)) + y % 6;
  }

  lemma SixByParity(x: nat, y: nat)
    ensures (y + x) % 2 == (y % 6 + x % 6) % 2
  {
    assert y + x == 2 * (3 * (y / 6) + 3 * (x / 6)) + (y % 6 + x % 6);
    Remainders(3 * (y / 6) + 3 * (x / 6), y % 6 + x % 6);
  }

  lemma SixByThree(x: nat, y: nat)
    ensures Threes(x, y) == Threes(x % 6, y % 6)
  {
    Remainders(2 * (x / 6), x % 6);
    Remainders(2 * (y / 6), y % 6);
    assert x == 3 * (2 * (x / 6)) + x % 6 && y == 3 * (2 * (y / 6)) + y % 6;
  }

  lemma TileRepeats(mask: nat, x: nat, y: nat)
    requires 5 <= mask < 8
    ensures InTile(mask, x, y) <==> InTile(mask, x % 6, y % 6)
  {
    Rows5();
    Rows6();
    Rows7();
    hide Tile;
    assert x % 6 % 6 == x % 6 && y % 6 % 6 == y % 6;
  }

  lemma Tile0(x: nat, y: nat)
    ensures Masked(0, x, y) <==> InTile(0, x, y)
  {
    assert (y + x) % 2 == 0 <==> y % 2 == x % 2;
    hide Masked;
  }

  lemma Tile1(x: nat, y: nat)
    ensures Masked(1, x, y) <==> InTile(1, x, y)
  {}

  lemma Tile2(x: nat, y: nat)
    ensures Masked(2, x, y) <==> InTile(2, x, y)
  {}

  lemma Tile3(x: nat, y: nat)
    ensures Masked(3, x, y) <==> InTile(3, x, y)
  {
    assert (y + x) % 3 == 0 <==> (y % 3 + x % 3) % 3 == 0;
  }

  /** Mask 4 changes the blocks of three by two whose numbers have an even sum. */
  lemma Mask4(x: nat, y: nat)
    ensures Masked(4, x, y) <==> (x % 6 < 3 <==> y % 4 < 2)
  {
    var a, b := x / 3, y / 2;
    Remainders(a / 2 + b / 2, a % 2 + b % 2);
    assert b + a == 2 * (a / 2 + b / 2) + (a % 2 + b % 2);
    ThirdsOf(x);
    HalvesOf(y);
  }

  lemma HalvesOf(y: nat)
    ensures y / 2 % 2 == 0 <==> y % 4 < 2
  {
    var q, s := y / 4, y % 4;
    assert y / 2 == 2 * q + s / 2;
    Remainders(q, s / 2);
  }

  lemma ThirdsOf(x: nat)
    ensures x / 3 % 2 == 0 <==> x % 6 < 3
  {
    var q, r := x / 6, x % 6;
    assert x / 3 == 2 * q + r / 3;
    Remainders(q, r / 3);
  }

  lemma Rows4()
    ensures |Tile(4)| == 4 && Tile(4)[0] == "###..." && Tile(4)[1] == "###..."
    ensures Tile(4)[2] == "...###" && Tile(4)[3] == "...###"
  {}

  lemma InTile4(r: nat, s: nat)
    requires r < 6 && s < 4
    ensures Tile(4)[s][r] == '#' <==> (r < 3 <==> s < 2)
  {
    Rows4();
    SixColumns(Tile(4)[s], r);
    hide Tile;
    if s == 0 {} else if s == 1 {} else if s == 2 {}
  }

  lemma Tile4(x: nat, y: nat)
    ensures Masked(4, x, y) <==> InTile(4, x, y)
  {
    Mask4(x, y);
    InTile4(x % 6, y % 4);
    Rows4();
    hide Tile, Masked;
  }

  /** Every mask is its tile, at every module. */
  lemma MaskIsTile(mask: nat, x: nat, y: nat)
    requires mask < 8
    ensures Masked(mask, x, y) <==> InTile(mask, x, y)
  {
    hide *;
    if mask < 4 {
      if mask == 0 { Tile0(x, y); } else if mask == 1 { Tile1(x, y); } else if mask == 2 { Tile2(x, y); }
      else { Tile3(x, y); }
    } else if mask == 4 {
      Tile4(x, y);
    } else {
      LastMasks(x, y);
      SixByTwo(x, y);
      SixByParity(x, y);
      SixByThree(x, y);
      TileRepeats(mask, x, y);
      if mask == 5 { Tile5(x % 6, y % 6); } else if mask == 6 { Tile6(x % 6, y % 6); } else { Tile7(x % 6, y % 6); }
    }
  }

  /** Mask 0 changes at every step and begins with a change. */
  lemma MaskZero(x: nat, y: nat)
    ensures Masked(0, 0, 0) && Masked(0, x + 1, y) != Masked(0, x, y) && Masked(0, x, y + 1) != Masked(0, x, y)
  {}

  /** Mask 1 is of whole rows, every other one from the first. */
  lemma MaskOne(x: nat, y: nat)
    ensures Masked(1, x, 0) && Masked(1, x + 1, y) == Masked(1, x, y) && Masked(1, x, y + 1) != Masked(1, x, y)
  {}

  /** Mask 2 is of whole columns, every third one from the first. */
  lemma MaskTwo(x: nat, y: nat)
    ensures Masked(2, 0, y) && !Masked(2, 1, y) && !Masked(2, 2, y)
    ensures Masked(2, x + 3, y) == Masked(2, x, y) && Masked(2, x, y + 1) == Masked(2, x, y)
  {}

  /** Mask 3 is of whole diagonals, every third one from the first. */
  lemma MaskThree(x: nat, y: nat)
    ensures Masked(3, 0, 0) && !Masked(3, 1, 0) && !Masked(3, 2, 0)
    ensures Masked(3, x + 3, y) == Masked(3, x, y) && Masked(3, x + 1, y) == Masked(3, x, y + 1)
  {
    assert x + 3 + y == (x + y) + 3;
  }

  // ---- reading a symbol without dark modules ----

  /** What the tile says of one module, and of some modules one after the other. */
  predicate OnTile(mask: nat, c: Cell)
    requires mask < 8
  {
    c.x >= 0 && c.y >= 0 && InTile(mask, c.x, c.y)
  }

  function TileBits(mask: nat, cells: seq<Cell>): (bits: seq<bool>)
    requires mask < 8
    ensures |bits| == |cells| && forall j :: 0 <= j < |cells| ==> bits[j] == OnTile(mask, cells[j])
  {
    seq(|cells|, j requires 0 <= j < |cells| => OnTile(mask, cells[j]))
  }

  /** Each codeword of such a symbol spells what the mask's tile says of its eight modules. */
  lemma LightSymbol(v: Version, mask: nat, k: nat)
    requires v.versionNumber >= 1 && mask < 8
    requires 8 * k + 8 <= |DataCells(v, Path(v.Dimension()))|
    ensures var cells, read := DataCells(v, Path(v.Dimension())), Codewords({}, v.Dimension(), v, MaskOf(mask));
      k < |read| && read[k] == Value(TileBits(mask, cells[8 * k..8 * k + 8]))
  {
    hide DataCells, Path, Value, Masked, InTile, Pack, Version.IsFunction;
    var cells := DataCells(v, Path(v.Dimension()));
    var bits := BitsRead({}, cells, MaskOf(mask));
    PackAt(bits, k);
    forall i | 0 <= i < |cells| ensures bits[i] == OnTile(mask, cells[i]) {
      var c := cells[i];
      DataModulesReadOnce(v, c);
      assert multiset(cells)[c] > 0;
      MaskIsTile(mask, c.x, c.y);
    }
    assert bits[8 * k..8 * k + 8] == TileBits(mask, cells[8 * k..8 * k + 8]);
  }

  // ---- the first codeword ----

  /** The first eight modules: four rows of the last column pair, from the bottom. */
  function FirstModules(d: int): seq<Cell> {
    [Cell(d - 1, d - 1), Cell(d - 2, d - 1), Cell(d - 1, d - 2), Cell(d - 2, d - 2),
     Cell(d - 1, d - 3), Cell(d - 2, d - 3), Cell(d - 1, d - 4), Cell(d - 2, d - 4)]
  }

  lemma EightFirst(d: int)
    ensures |FirstModules(d)| == 8
  {}

  lemma PathStarts(v: nat)
    requires v >= 1
    ensures var d := 17 + 4 * v; 8 <= |Path(d)| && Path(d)[..8] == FirstModules(d)
  {
    hide Path, RowMajor.Rows;
    RowMajor.RowsStep(0, 2 * (17 + 4 * v));
    PathAt(v, 0, 0, 0);
    PathAt(v, 0, 0, 1);
    PathAt(v, 0, 1, 0);
    PathAt(v, 0, 1, 1);
    PathAt(v, 0, 2, 0);
    PathAt(v, 0, 2, 1);
    PathAt(v, 0, 3, 0);
    PathAt(v, 0, 3, 1);
  }

  lemma {:induction false} AllData(v: Version, cells: seq<Cell>)
    requires forall k :: 0 <= k < |cells| ==> !v.IsFunction(cells[k].x, cells[k].y)
    ensures DataCells(v, cells) == cells
  {
    hide Version.IsFunction;
    if |cells| > 0 {
      AllData(v, cells[1..]);
      assert cells == [cells[0]] + cells[1..];
    }
  }

  lemma FirstAreData(v: Version)
    requires v.Valid()
    ensures var d := v.Dimension(); var cells := DataCells(v, Path(d));
      8 <= |cells| && forall j :: 0 <= j < 8 ==> cells[j] == FirstModules(d)[j]
  {
    var d := v.Dimension();
    PathStarts(v.versionNumber);
    var first, rest := Path(d)[..8], Path(d)[8..];
    assert forall k :: 0 <= k < 8 ==> !v.IsFunction(first[k].x, first[k].y);
    hide Path, Version.IsFunction;
    assert Path(d) == first + rest;
    DataCellsConcat(v, first, rest);
    AllData(v, first);
  }

  function Bit(b: bool): nat { if b then 1 else 0 }

  lemma OneBitMore(bits: seq<bool>, n: nat)
    requires n < |bits|
    ensures Value(bits[..n + 1]) == 2 * Value(bits[..n]) + Bit(bits[n])
  {
    assert bits[..n + 1][..n] == bits[..n];
  }

  lemma FourBits(bits: seq<bool>, n: nat, m: nat)
    requires n + 4 == m <= |bits|
    ensures Value(bits[..m]) ==
      16 * Value(bits[..n]) + 8 * Bit(bits[n]) + 4 * Bit(bits[n + 1]) + 2 * Bit(bits[n + 2]) + Bit(bits[n + 3])
  {
    OneBitMore(bits, n);
    OneBitMore(bits, n + 1);
    OneBitMore(bits, n + 2);
    OneBitMore(bits, n + 3);
    hide Value, Bit;
  }

  lemma EightBits(bits: seq<bool>)
    requires |bits| == 8
    ensures Value(bits) == 128 * Bit(bits[0]) + 64 * Bit(bits[1]) + 32 * Bit(bits[2]) + 16 * Bit(bits[3])
      + 8 * Bit(bits[4]) + 4 * Bit(bits[5]) + 2 * Bit(bits[6]) + Bit(bits[7])
  {
    hide *;
    NoneAndAll(bits);
    FourBits(bits, 0, 4);
    FourBits(bits, 4, 8);
  }

  lemma NoneAndAll(bits: seq<bool>)
    ensures Value(bits[..0]) == 0 && Value(bits[..|bits|]) == Value(bits)
  {
    assert bits[..|bits|] == bits;
  }

  /** What the tile says of the first eight modules of version 1. */
  predicate FirstOnTile(mask: nat, bits: seq<bool>)
    requires mask < 8
  {
    && |bits| == 8
    && OnTile(mask, Cell(20, 20)) == bits[0] && OnTile(mask, Cell(19, 20)) == bits[1]
    && OnTile(mask, Cell(20, 19)) == bits[2] && OnTile(mask, Cell(19, 19)) == bits[3]
    && OnTile(mask, Cell(20, 18)) == bits[4] && OnTile(mask, Cell(19, 18)) == bits[5]
    && OnTile(mask, Cell(20, 17)) == bits[6] && OnTile(mask, Cell(19, 17)) == bits[7]
  }

  lemma FirstBits(mask: nat, bits: seq<bool>)
    requires mask < 8 && FirstOnTile(mask, bits)
    ensures TileBits(mask, FirstModules(21)) == bits
  {
    hide OnTile;
  }

  lemma First0()
    ensures Value(TileBits(0, FirstModules(21))) == 0x99
  {
    var bits := [true, false, false, true, true, false, false, true];
    assert FirstOnTile(0, bits) by { Rows0(); hide Tile; }
    hide FirstOnTile, TileBits, FirstModules;
    FirstBits(0, bits);
    EightBits(bits);
    hide Value;
  }

  lemma First1()
    ensures Value(TileBits(1, FirstModules(21))) == 0xCC
  {
    var bits := [true, true, false, false, true, true, false, false];
    assert FirstOnTile(1, bits) by { Rows0(); hide Tile; }
    hide FirstOnTile, TileBits, FirstModules;
    FirstBits(1, bits);
    EightBits(bits);
    hide Value;
  }

  lemma First2()
    ensures Value(TileBits(2, FirstModules(21))) == 0x00
  {
    var bits := [false, false, false, false, false, false, false, false];
    assert FirstOnTile(2, bits) by { Rows0(); hide Tile; }
    hide FirstOnTile, TileBits, FirstModules;
    FirstBits(2, bits);
    EightBits(bits);
    hide Value;
  }

  lemma First3()
    ensures Value(TileBits(3, FirstModules(21))) == 0x61
  {
    var bits := [false, true, true, false, false, false, false, true];
    assert FirstOnTile(3, bits) by { Rows0(); hide Tile; }
    hide FirstOnTile, TileBits, FirstModules;
    FirstBits(3, bits);
    EightBits(bits);
    hide Value;
  }

  lemma First4()
    ensures Value(TileBits(4, FirstModules(21))) == 0xC3
  {
    var bits := [true, true, false, false, false, false, true, true];
    assert FirstOnTile(4, bits) by { Rows0(); hide Tile; }
    hide FirstOnTile, TileBits, FirstModules;
    FirstBits(4, bits);
    EightBits(bits);
    hide Value;
  }

  lemma First5()
    ensures Value(TileBits(5, FirstModules(21))) == 0x0C
  {
    var bits := [false, false, false, false, true, true, false, false];
    assert FirstOnTile(5, bits) by { Rows5(); hide Tile; }
    hide FirstOnTile, TileBits, FirstModules;
    FirstBits(5, bits);
    EightBits(bits);
    hide Value;
  }

  lemma First6()
    ensures Value(TileBits(6, FirstModules(21))) == 0x7C
  {
    var bits := [false, true, true, true, true, true, false, false];
    assert FirstOnTile(6, bits) by { Rows6(); hide Tile; }
    hide FirstOnTile, TileBits, FirstModules;
    FirstBits(6, bits);
    EightBits(bits);
    hide Value;
  }

  lemma First7()
    ensures Value(TileBits(7, FirstModules(21))) == 0x0B
  {
    var bits := [false, false, false, false, true, false, true, true];
    assert FirstOnTile(7, bits) by { Rows7(); hide Tile; }
    hide FirstOnTile, TileBits, FirstModules;
    FirstBits(7, bits);
    EightBits(bits);
    hide Value;
  }

  lemma Rows0()
    ensures Tile(0) == ["#.", ".#"] && Tile(1) == ["#", "."] && Tile(2) == ["#.."]
    ensures Tile(3) == ["#..", "..#", ".#."] && Tile(4) == ["###...", "###...", "...###", "...###"]
  {}

  /** In any version: what the tile says of the bottom right modules. */
  lemma FirstCodeword(v: Version, mask: nat)
    requires v.Valid() && mask < 8
    ensures var read := Codewords({}, v.Dimension(), v, MaskOf(mask));
      |read| > 0 && read[0] == Value(TileBits(mask, FirstModules(v.Dimension())))
  {
    FirstAreData(v);
    EightFirst(v.Dimension());
    hide Codewords, DataCells, Path, TileBits, Value, FirstModules;
    LightSymbol(v, mask, 0);
    assert DataCells(v, Path(v.Dimension()))[0..8] == FirstModules(v.Dimension());
  }

  /** The first codeword of an empty symbol of version 1. */
  function FirstByte(mask: nat): byte
    requires mask < 8
  {
    match mask
    case 0 => 0x99
    case 1 => 0xCC
    case 2 => 0x00
    case 3 => 0x61
    case 4 => 0xC3
    case 5 => 0x0C
    case 6 => 0x7C
    case _ => 0x0B
  }

  lemma FirstBytes(mask: nat)
    requires mask < 8
    ensures Value(TileBits(mask, FirstModules(21))) == FirstByte(mask)
  {
    hide TileBits, Value, FirstModules;
    if mask == 0 { First0(); } else if mask == 1 { First1(); } else if mask == 2 { First2(); }
    else if mask == 3 { First3(); } else if mask == 4 { First4(); } else if mask == 5 { First5(); }
    else if mask == 6 { First6(); } else { First7(); }
  }

  lemma FirstCodewords(v: Version, mask: nat)
    requires v == Version(1, []) && mask < 8
    ensures var read := Codewords({}, 21, v, MaskOf(mask)); |read| > 0 && read[0] == FirstByte(mask)
  {
    FirstBytes(mask);
    hide FirstByte, Codewords, TileBits, Value, FirstModules, Version.IsFunction;
    assert v.Dimension() == 21;
    FirstCodeword(v, mask);
  }
}
