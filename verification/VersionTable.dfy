/** The version table: alignment centres and block layouts of all forty versions, as the
  * program holds it, and that every entry fits its symbol (ISO/IEC 18004:2015, table 9). */
module VersionTable {
  import opened Basics
  import opened Blocks
  import opened Matrices
  import opened CodewordReader
  import opened SymbolCapacity

  /** One version: its alignment centres and its layout for each error correction level. */
  datatype Entry = Entry(centres: seq<nat>, layouts: seq<Layout>)

  function Entries1(version: nat): Entry
    requires 1 <= version <= 4
  {
    match version
    case 1 => Entry([], [
      Layout(7, [Group(1, 19)]),
      Layout(10, [Group(1, 16)]),
      Layout(13, [Group(1, 13)]),
      Layout(17, [Group(1, 9)])])
    case 2 => Entry([6, 18], [
      Layout(10, [Group(1, 34)]),
      Layout(16, [Group(1, 28)]),
      Layout(22, [Group(1, 22)]),
      Layout(28, [Group(1, 16)])])
    case 3 => Entry([6, 22], [
      Layout(15, [Group(1, 55)]),
      Layout(26, [Group(1, 44)]),
      Layout(18, [Group(2, 17)]),
      Layout(22, [Group(2, 13)])])
    case _ => Entry([6, 26], [
      Layout(20, [Group(1, 80)]),
      Layout(18, [Group(2, 32)]),
      Layout(26, [Group(2, 24)]),
      Layout(16, [Group(4, 9)])])
  }

  function Entries5(version: nat): Entry
    requires 5 <= version <= 8
  {
    match version
    case 5 => Entry([6, 30], [
      Layout(26, [Group(1, 108)]),
      Layout(24, [Group(2, 43)]),
      Layout(18, [Group(2, 15), Group(2, 16)]),
      Layout(22, [Group(2, 11), Group(2, 12)])])
    case 6 => Entry([6, 34], [
      Layout(18, [Group(2, 68)]),
      Layout(16, [Group(4, 27)]),
      Layout(24, [Group(4, 19)]),
      Layout(28, [Group(4, 15)])])
    case 7 => Entry([6, 22, 38], [
      Layout(20, [Group(2, 78)]),
      Layout(18, [Group(4, 31)]),
      Layout(18, [Group(2, 14), Group(4, 15)]),
      Layout(26, [Group(4, 13), Group(1, 14)])])
    case _ => Entry([6, 24, 42], [
      Layout(24, [Group(2, 97)]),
      Layout(22, [Group(2, 38), Group(2, 39)]),
      Layout(22, [Group(4, 18), Group(2, 19)]),
      Layout(26, [Group(4, 14), Group(2, 15)])])
  }

  function Entries9(version: nat): Entry
    requires 9 <= version <= 12
  {
    match version
    case 9 => Entry([6, 26, 46], [
      Layout(30, [Group(2, 116)]),
      Layout(22, [Group(3, 36), Group(2, 37)]),
      Layout(20, [Group(4, 16), Group(4, 17)]),
      Layout(24, [Group(4, 12), Group(4, 13)])])
    case 10 => Entry([6, 28, 50], [
      Layout(18, [Group(2, 68), Group(2, 69)]),
      Layout(26, [Group(4, 43), Group(1, 44)]),
      Layout(24, [Group(6, 19), Group(2, 20)]),
      Layout(28, [Group(6, 15), Group(2, 16)])])
    case 11 => Entry([6, 30, 54], [
      Layout(20, [Group(4, 81)]),
      Layout(30, [Group(1, 50), Group(4, 51)]),
      Layout(28, [Group(4, 22), Group(4, 23)]),
      Layout(24, [Group(3, 12), Group(8, 13)])])
    case _ => Entry([6, 32, 58], [
      Layout(24, [Group(2, 92), Group(2, 93)]),
      Layout(22, [Group(6, 36), Group(2, 37)]),
      Layout(26, [Group(4, 20), Group(6, 21)]),
      Layout(28, [Group(7, 14), Group(4, 15)])])
  }

  function Entries13(version: nat): Entry
    requires 13 <= version <= 16
  {
    match version
    case 13 => Entry([6, 34, 62], [
      Layout(26, [Group(4, 107)]),
      Layout(22, [Group(8, 37), Group(1, 38)]),
      Layout(24, [Group(8, 20), Group(4, 21)]),
      Layout(22, [Group(12, 11), Group(4, 12)])])
    case 14 => Entry([6, 26, 46, 66], [
      Layout(30, [Group(3, 115), Group(1, 116)]),
      Layout(24, [Group(4, 40), Group(5, 41)]),
      Layout(20, [Group(11, 16), Group(5, 17)]),
      Layout(24, [Group(11, 12), Group(5, 13)])])
    case 15 => Entry([6, 26, 48, 70], [
      Layout(22, [Group(5, 87), Group(1, 88)]),
      Layout(24, [Group(5, 41), Group(5, 42)]),
      Layout(30, [Group(5, 24), Group(7, 25)]),
      Layout(24, [Group(11, 12), Group(7, 13)])])
    case _ => Entry([6, 26, 50, 74], [
      Layout(24, [Group(5, 98), Group(1, 99)]),
      Layout(28, [Group(7, 45), Group(3, 46)]),
      Layout(24, [Group(15, 19), Group(2, 20)]),
      Layout(30, [Group(3, 15), Group(13, 16)])])
  }

  function Entries17(version: nat): Entry
    requires 17 <= version <= 20
  {
    match version
    case 17 => Entry([6, 30, 54, 78], [
      Layout(28, [Group(1, 107), Group(5, 108)]),
      Layout(28, [Group(10, 46), Group(1, 47)]),
      Layout(28, [Group(1, 22), Group(15, 23)]),
      Layout(28, [Group(2, 14), Group(17, 15)])])
    case 18 => Entry([6, 30, 56, 82], [
      Layout(30, [Group(5, 120), Group(1, 121)]),
      Layout(26, [Group(9, 43), Group(4, 44)]),
      Layout(28, [Group(17, 22), Group(1, 23)]),
      Layout(28, [Group(2, 14), Group(19, 15)])])
    case 19 => Entry([6, 30, 58, 86], [
      Layout(28, [Group(3, 113), Group(4, 114)]),
      Layout(26, [Group(3, 44), Group(11, 45)]),
      Layout(26, [Group(17, 21), Group(4, 22)]),
      Layout(26, [Group(9, 13), Group(16, 14)])])
    case _ => Entry([6, 34, 62, 90], [
      Layout(28, [Group(3, 107), Group(5, 108)]),
      Layout(26, [Group(3, 41), Group(13, 42)]),
      Layout(30, [Group(15, 24), Group(5, 25)]),
      Layout(28, [Group(15, 15), Group(10, 16)])])
  }

  function Entries21(version: nat): Entry
    requires 21 <= version <= 24
  {
    match version
    case 21 => Entry([6, 28, 50, 72, 94], [
      Layout(28, [Group(4, 116), Group(4, 117)]),
      Layout(26, [Group(17, 42)]),
      Layout(28, [Group(17, 22), Group(6, 23)]),
      Layout(30, [Group(19, 16), Group(6, 17)])])
    case 22 => Entry([6, 26, 50, 74, 98], [
      Layout(28, [Group(2, 111), Group(7, 112)]),
      Layout(28, [Group(17, 46)]),
      Layout(30, [Group(7, 24), Group(16, 25)]),
      Layout(24, [Group(34, 13)])])
    case 23 => Entry([6, 30, 54, 74, 102], [
      Layout(30, [Group(4, 121), Group(5, 122)]),
      Layout(28, [Group(4, 47), Group(14, 48)]),
      Layout(30, [Group(11, 24), Group(14, 25)]),
      Layout(30, [Group(16, 15), Group(14, 16)])])
    case _ => Entry([6, 28, 54, 80, 106], [
      Layout(30, [Group(6, 117), Group(4, 118)]),
      Layout(28, [Group(6, 45), Group(14, 46)]),
      Layout(30, [Group(11, 24), Group(16, 25)]),
      Layout(30, [Group(30, 16), Group(2, 17)])])
  }

  function Entries25(version: nat): Entry
    requires 25 <= version <= 28
  {
    match version
    case 25 => Entry([6, 32, 58, 84, 110], [
      Layout(26, [Group(8, 106), Group(4, 107)]),
      Layout(28, [Group(8, 47), Group(13, 48)]),
      Layout(30, [Group(7, 24), Group(22, 25)]),
      Layout(30, [Group(22, 15), Group(13, 16)])])
    case 26 => Entry([6, 30, 58, 86, 114], [
      Layout(28, [Group(10, 114), Group(2, 115)]),
      Layout(28, [Group(19, 46), Group(4, 47)]),
      Layout(28, [Group(28, 22), Group(6, 23)]),
      Layout(30, [Group(33, 16), Group(4, 17)])])
    case 27 => Entry([6, 34, 62, 90, 118], [
      Layout(30, [Group(8, 122), Group(4, 123)]),
      Layout(28, [Group(22, 45), Group(3, 46)]),
      Layout(30, [Group(8, 23), Group(26, 24)]),
      Layout(30, [Group(12, 15), Group(28, 16)])])
    case _ => Entry([6, 26, 50, 74, 98, 122], [
      Layout(30, [Group(3, 117), Group(10, 118)]),
      Layout(28, [Group(3, 45), Group(23, 46)]),
      Layout(30, [Group(4, 24), Group(31, 25)]),
      Layout(30, [Group(11, 15), Group(31, 16)])])
  }

  function Entries29(version: nat): Entry
    requires 29 <= version <= 32
  {
    match version
    case 29 => Entry([6, 30, 54, 78, 102, 126], [
      Layout(30, [Group(7, 116), Group(7, 117)]),
      Layout(28, [Group(21, 45), Group(7, 46)]),
      Layout(30, [Group(1, 23), Group(37, 24)]),
      Layout(30, [Group(19, 15), Group(26, 16)])])
    case 30 => Entry([6, 26, 52, 78, 104, 130], [
      Layout(30, [Group(5, 115), Group(10, 116)]),
      Layout(28, [Group(19, 47), Group(10, 48)]),
      Layout(30, [Group(15, 24), Group(25, 25)]),
      Layout(30, [Group(23, 15), Group(25, 16)])])
    case 31 => Entry([6, 30, 56, 82, 108, 134], [
      Layout(30, [Group(13, 115), Group(3, 116)]),
      Layout(28, [Group(2, 46), Group(29, 47)]),
      Layout(30, [Group(42, 24), Group(1, 25)]),
      Layout(30, [Group(23, 15), Group(28, 16)])])
    case _ => Entry([6, 34, 60, 86, 112, 138], [
      Layout(30, [Group(17, 115)]),
      Layout(28, [Group(10, 46), Group(23, 47)]),
      Layout(30, [Group(10, 24), Group(35, 25)]),
      Layout(30, [Group(19, 15), Group(35, 16)])])
  }

  function Entries33(version: nat): Entry
    requires 33 <= version <= 36
  {
    match version
    case 33 => Entry([6, 30, 58, 86, 114, 142], [
      Layout(30, [Group(17, 115), Group(1, 116)]),
      Layout(28, [Group(14, 46), Group(21, 47)]),
      Layout(30, [Group(29, 24), Group(19, 25)]),
      Layout(30, [Group(11, 15), Group(46, 16)])])
    case 34 => Entry([6, 34, 62, 90, 118, 146], [
      Layout(30, [Group(13, 115), Group(6, 116)]),
      Layout(28, [Group(14, 46), Group(23, 47)]),
      Layout(30, [Group(44, 24), Group(7, 25)]),
      Layout(30, [Group(59, 16), Group(1, 17)])])
    case 35 => Entry([6, 30, 54, 78, 102, 126, 150], [
      Layout(30, [Group(12, 121), Group(7, 122)]),
      Layout(28, [Group(12, 47), Group(26, 48)]),
      Layout(30, [Group(39, 24), Group(14, 25)]),
      Layout(30, [Group(22, 15), Group(41, 16)])])
    case _ => Entry([6, 24, 50, 76, 102, 128, 154], [
      Layout(30, [Group(6, 121), Group(14, 122)]),
      Layout(28, [Group(6, 47), Group(34, 48)]),
      Layout(30, [Group(46, 24), Group(10, 25)]),
      Layout(30, [Group(2, 15), Group(64, 16)])])
  }

  function Entries37(version: nat): Entry
    requires 37 <= version <= 40
  {
    match version
    case 37 => Entry([6, 28, 54, 80, 106, 132, 158], [
      Layout(30, [Group(17, 122), Group(4, 123)]),
      Layout(28, [Group(29, 46), Group(14, 47)]),
      Layout(30, [Group(49, 24), Group(10, 25)]),
      Layout(30, [Group(24, 15), Group(46, 16)])])
    case 38 => Entry([6, 32, 58, 84, 110, 136, 162], [
      Layout(30, [Group(4, 122), Group(18, 123)]),
      Layout(28, [Group(13, 46), Group(32, 47)]),
      Layout(30, [Group(48, 24), Group(14, 25)]),
      Layout(30, [Group(42, 15), Group(32, 16)])])
    case 39 => Entry([6, 26, 54, 82, 110, 138, 166], [
      Layout(30, [Group(20, 117), Group(4, 118)]),
      Layout(28, [Group(40, 47), Group(7, 48)]),
      Layout(30, [Group(43, 24), Group(22, 25)]),
      Layout(30, [Group(10, 15), Group(67, 16)])])
    case _ => Entry([6, 30, 58, 86, 114, 142, 170], [
      Layout(30, [Group(19, 118), Group(6, 119)]),
      Layout(28, [Group(18, 47), Group(31, 48)]),
      Layout(30, [Group(34, 24), Group(34, 25)]),
      Layout(30, [Group(20, 15), Group(61, 16)])])
  }

  function Table(version: nat): Entry
    requires 1 <= version <= 40
  {
    if version <= 4 then Entries1(version)
    else if version <= 8 then Entries5(version)
    else if version <= 12 then Entries9(version)
    else if version <= 16 then Entries13(version)
    else if version <= 20 then Entries17(version)
    else if version <= 24 then Entries21(version)
    else if version <= 28 then Entries25(version)
    else if version <= 32 then Entries29(version)
    else if version <= 36 then Entries33(version)
    else Entries37(version)
  }

  function DataModuleCount(version: nat): int {
    var n := CentreCount(version);
    (16 * version + 128) * version + 64
    - (if version >= 2 then (25 * n - 10) * n - 55 else 0) - (if version >= 7 then 36 else 0)
  }

  /** A layout fills the data modules, with fewer than eight over. */
  predicate Fills(l: Layout, version: nat) {
    l.Valid() && 8 * l.Total() <= DataModuleCount(version) < 8 * l.Total() + 8
  }

  /** The same, read off the numbers of the entry. */
  predicate Counted(l: Layout, modules: int) {
    var ec, g := l.ecCodewordsPerBlock, l.ecBlocks;
    && 1 <= |g| <= 2 && 1 <= g[0].numBlocks && 1 <= g[0].dataCodewordsPerBlock
    && g[0].dataCodewordsPerBlock + 1 + ec <= 255
    && (|g| == 2 ==> 1 <= g[1].numBlocks && g[1].dataCodewordsPerBlock == g[0].dataCodewordsPerBlock + 1)
    && var total := g[0].numBlocks * (g[0].dataCodewordsPerBlock + ec)
         + (if |g| == 2 then g[1].numBlocks * (g[1].dataCodewordsPerBlock + ec) else 0);
       8 * total <= modules < 8 * total + 8
  }

  lemma CountedFills(l: Layout, version: nat)
    requires Counted(l, DataModuleCount(version))
    ensures Fills(l, version)
  {
    hide DataModuleCount;
    var n0, d, ec := l.SmallCount(), l.Short(), l.ecCodewordsPerBlock;
    var n1 := l.LargeCount();
    Distribute(n0, n1, d);
    Distribute(n0, n1, ec);
    Distribute(d, ec, n0);
    Distribute(d + 1, ec, n1);
    Distribute(d, 1, n1);
  }

  predicate AllCounted(version: nat, e: Entry) { CountedAll(e.layouts, DataModuleCount(version)) }

  predicate CountedAll(l: seq<Layout>, modules: int) {
    |l| == 4 && Counted(l[0], modules) && Counted(l[1], modules) && Counted(l[2], modules) && Counted(l[3], modules)
  }

  predicate Shaped(version: nat, e: Entry) { TableShape(Version(version, e.centres)) }

  lemma Counted1()
    ensures AllCounted(1, Entries1(1)) && AllCounted(2, Entries1(2))
  {}

  lemma Counted3()
    ensures AllCounted(3, Entries1(3)) && AllCounted(4, Entries1(4))
  {}

  lemma Counted5()
    ensures AllCounted(5, Entries5(5)) && AllCounted(6, Entries5(6))
  {}

  lemma Counted7()
    ensures AllCounted(7, Entries5(7)) && AllCounted(8, Entries5(8))
  {}

  lemma Counted9()
    ensures AllCounted(9, Entries9(9)) && AllCounted(10, Entries9(10))
  {}

  lemma Counted11()
    ensures AllCounted(11, Entries9(11)) && AllCounted(12, Entries9(12))
  {}

  lemma Counted13()
    ensures AllCounted(13, Entries13(13)) && AllCounted(14, Entries13(14))
  {}

  lemma Counted15()
    ensures AllCounted(15, Entries13(15)) && AllCounted(16, Entries13(16))
  {}

  lemma Counted17()
    ensures AllCounted(17, Entries17(17)) && AllCounted(18, Entries17(18))
  {}

  lemma Counted19()
    ensures AllCounted(19, Entries17(19)) && AllCounted(20, Entries17(20))
  {}

  lemma Counted21()
    ensures AllCounted(21, Entries21(21)) && AllCounted(22, Entries21(22))
  {}

  lemma Counted23()
    ensures AllCounted(23, Entries21(23)) && AllCounted(24, Entries21(24))
  {}

  lemma Counted25()
    ensures AllCounted(25, Entries25(25)) && AllCounted(26, Entries25(26))
  {}

  lemma Counted27()
    ensures AllCounted(27, Entries25(27)) && AllCounted(28, Entries25(28))
  {}

  lemma Counted29()
    ensures AllCounted(29, Entries29(29)) && AllCounted(30, Entries29(30))
  {}

  lemma Counted31()
    ensures AllCounted(31, Entries29(31)) && AllCounted(32, Entries29(32))
  {}

  lemma Counted33()
    ensures AllCounted(33, Entries33(33)) && AllCounted(34, Entries33(34))
  {}

  lemma Counted35()
    ensures AllCounted(35, Entries33(35)) && AllCounted(36, Entries33(36))
  {}

  lemma Counted37()
    ensures AllCounted(37, Entries37(37)) && AllCounted(38, Entries37(38))
  {}

  lemma Counted39()
    ensures AllCounted(39, Entries37(39)) && AllCounted(40, Entries37(40))
  {}

  lemma Shaped1()
    ensures Shaped(1, Entries1(1)) && Shaped(2, Entries1(2))
    ensures Shaped(3, Entries1(3)) && Shaped(4, Entries1(4))
  {}

  lemma Shaped5()
    ensures Shaped(5, Entries5(5)) && Shaped(6, Entries5(6))
    ensures Shaped(7, Entries5(7)) && Shaped(8, Entries5(8))
  {}

  lemma Shaped9()
    ensures Shaped(9, Entries9(9)) && Shaped(10, Entries9(10))
    ensures Shaped(11, Entries9(11)) && Shaped(12, Entries9(12))
  {}

  lemma Shaped13()
    ensures Shaped(13, Entries13(13)) && Shaped(14, Entries13(14))
    ensures Shaped(15, Entries13(15)) && Shaped(16, Entries13(16))
  {}

  lemma Shaped17()
    ensures Shaped(17, Entries17(17)) && Shaped(18, Entries17(18))
    ensures Shaped(19, Entries17(19)) && Shaped(20, Entries17(20))
  {}

  lemma Shaped21()
    ensures Shaped(21, Entries21(21)) && Shaped(22, Entries21(22))
    ensures Shaped(23, Entries21(23)) && Shaped(24, Entries21(24))
  {}

  lemma Shaped25()
    ensures Shaped(25, Entries25(25)) && Shaped(26, Entries25(26))
    ensures Shaped(27, Entries25(27)) && Shaped(28, Entries25(28))
  {}

  lemma Shaped29()
    ensures Shaped(29, Entries29(29)) && Shaped(30, Entries29(30))
    ensures Shaped(31, Entries29(31)) && Shaped(32, Entries29(32))
  {}

  lemma Shaped33()
    ensures Shaped(33, Entries33(33)) && Shaped(34, Entries33(34))
    ensures Shaped(35, Entries33(35)) && Shaped(36, Entries33(36))
  {}

  lemma Shaped37()
    ensures Shaped(37, Entries37(37)) && Shaped(38, Entries37(38))
    ensures Shaped(39, Entries37(39)) && Shaped(40, Entries37(40))
  {}

  lemma EntryCounted(version: nat)
    requires 1 <= version <= 40
    ensures AllCounted(version, Table(version))
  {
    hide AllCounted, Entries1, Entries5, Entries9, Entries13, Entries17, Entries21, Entries25, Entries29,
      Entries33, Entries37;
    if version <= 4 { Counted1(); Counted3(); }
    else if version <= 8 { Counted5(); Counted7(); }
    else if version <= 12 { Counted9(); Counted11(); }
    else if version <= 16 { Counted13(); Counted15(); }
    else if version <= 20 { Counted17(); Counted19(); }
    else if version <= 24 { Counted21(); Counted23(); }
    else if version <= 28 { Counted25(); Counted27(); }
    else if version <= 32 { Counted29(); Counted31(); }
    else if version <= 36 { Counted33(); Counted35(); }
    else { Counted37(); Counted39(); }
  }

  lemma EntryShaped(version: nat)
    requires 1 <= version <= 40
    ensures Shaped(version, Table(version))
  {
    hide Shaped, Entries1, Entries5, Entries9, Entries13, Entries17, Entries21, Entries25, Entries29,
      Entries33, Entries37;
    if version <= 4 { Shaped1(); }
    else if version <= 8 { Shaped5(); }
    else if version <= 12 { Shaped9(); }
    else if version <= 16 { Shaped13(); }
    else if version <= 20 { Shaped17(); }
    else if version <= 24 { Shaped21(); }
    else if version <= 28 { Shaped25(); }
    else if version <= 32 { Shaped29(); }
    else if version <= 36 { Shaped33(); }
    else { Shaped37(); }
  }

  function VersionOf(version: nat): Version
    requires 1 <= version <= 40
  {
    Version(version, Table(version).centres)
  }

  lemma EntryFills(version: nat, level: nat)
    requires 1 <= version <= 40 && level < 4
    ensures |Table(version).layouts| == 4 && Fills(Table(version).layouts[level], version)
  {
    EntryCounted(version);
    hide Table, Counted, DataModuleCount, Fills;
    CountedFills(Table(version).layouts[level], version);
  }

  lemma SameCount(v: Version)
    requires TableShape(v)
    ensures |DataCells(v, Path(v.Dimension()))| == DataModuleCount(v.versionNumber)
  {
    DataModules(v);
    hide DataCells, Path, TableShape;
  }

  /** Every entry of the table has the shape that its symbol needs, and its blocks fill the data
    * modules with fewer than eight over. */
  lemma EveryEntryFits(version: nat, level: nat)
    requires 1 <= version <= 40 && level < 4
    ensures var v := VersionOf(version); var l := Table(version).layouts;
      && TableShape(v) && v.Valid() && |l| == 4 && l[level].Valid()
      && 8 * l[level].Total() <= |DataCells(v, Path(v.Dimension()))| < 8 * l[level].Total() + 8
  {
    hide Layout.Total, Layout.Valid, Table, TableShape, DataModuleCount, DataCells, Path;
    EntryFills(version, level);
    EntryShaped(version);
    TableIsValid(VersionOf(version));
    SameCount(VersionOf(version));
  }

  function LayoutOf(version: nat, level: nat): (l: Layout)
    requires 1 <= version <= 40 && level < 4
    ensures l.Valid()
    ensures var v := VersionOf(version); v.Valid() && 8 * l.Total() <= |DataCells(v, Path(v.Dimension()))|
  {
    hide *;
    EveryEntryFits(version, level);
    Table(version).layouts[level]
  }
}
