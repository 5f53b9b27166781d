/** Block layout of a QR code: interleaving (ISO/IEC 18004:2015, section 7.6) and
  * `getDataBlocks`, its inverse. */
module Blocks {
  import opened Basics
  import opened Options
  import opened RowMajor

  datatype Group = Group(numBlocks: nat, dataCodewordsPerBlock: nat)

  /** One entry of the version table for one error correction level. */
  datatype Layout = Layout(ecCodewordsPerBlock: nat, ecBlocks: seq<Group>) {
    /** The shape of every table entry: one group of blocks, or two where the second has one
      * more data codeword, and blocks within the length of the code. */
    predicate Valid() {
      && 1 <= |ecBlocks| <= 2
      && 1 <= ecBlocks[0].dataCodewordsPerBlock
      && ecBlocks[0].dataCodewordsPerBlock + 1 + ecCodewordsPerBlock <= 255
      && (forall i :: 0 <= i < |ecBlocks| ==> ecBlocks[i].numBlocks > 0)
      && (|ecBlocks| == 2 ==> ecBlocks[1].dataCodewordsPerBlock == ecBlocks[0].dataCodewordsPerBlock + 1)
    }

    /** Data codewords in a block of the first group. */
    function Short(): nat
      requires Valid()
    {
      ecBlocks[0].dataCodewordsPerBlock
    }

    function SmallCount(): (n: nat)
      requires Valid()
      ensures n > 0
    {
      ecBlocks[0].numBlocks
    }

    function LargeCount(): nat
      requires Valid()
    {
      if |ecBlocks| == 2 then ecBlocks[1].numBlocks else 0
    }

    function Count(): (n: nat)
      requires Valid()
      ensures n > 0
    {
      SmallCount() + LargeCount()
    }

    function DataSize(b: nat): nat
      requires Valid() && b < Count()
    {
      if b < SmallCount() then Short() else Short() + 1
    }

    function BlockSize(b: nat): nat
      requires Valid() && b < Count()
    {
      DataSize(b) + ecCodewordsPerBlock
    }

    /** All codewords of the symbol. */
    function Total(): nat
      requires Valid()
    {
      Rows(Short(), Count()) + LargeCount() + Rows(ecCodewordsPerBlock, Count())
    }

    /** Where codeword i of block b stands in the message sequence. */
    function Index(b: nat, i: nat): nat
      requires Valid() && b < Count() && i < BlockSize(b)
    {
      if i < Short() then Rows(i, Count()) + b
      else if i < DataSize(b) then Rows(Short(), Count()) + (b - SmallCount())
      else Rows(Short(), Count()) + LargeCount() + Rows(i - DataSize(b), Count()) + b
    }
  }

  // ---- interleaving ----

  predicate Fits(blocks: seq<seq<byte>>, L: Layout)
    requires L.Valid()
  {
    |blocks| == L.Count() && forall b :: 0 <= b < |blocks| ==> |blocks[b]| == L.BlockSize(b)
  }

  /** Codeword i of every block. */
  function DataRow(blocks: seq<seq<byte>>, i: nat): seq<byte>
    requires forall b :: 0 <= b < |blocks| ==> i < |blocks[b]|
  {
    seq(|blocks|, b requires 0 <= b < |blocks| => blocks[b][i])
  }

  /** The first `rows` codewords of every block, one row after the other. */
  function DataRows(blocks: seq<seq<byte>>, rows: nat): seq<byte>
    requires forall b :: 0 <= b < |blocks| ==> rows <= |blocks[b]|
  {
    if rows == 0 then [] else DataRows(blocks, rows - 1) + DataRow(blocks, rows - 1)
  }

  /** Check codewords only. */
  function CheckPart(blocks: seq<seq<byte>>, L: Layout): (checks: seq<seq<byte>>)
    requires L.Valid() && Fits(blocks, L)
    ensures |checks| == |blocks|
    ensures forall b :: 0 <= b < |blocks| ==> checks[b] == blocks[b][L.DataSize(b)..]
  {
    seq(|blocks|, b requires 0 <= b < |blocks| => blocks[b][L.DataSize(b)..])
  }

  /** The extra data codeword of the larger blocks. */
  function ExtraRow(blocks: seq<seq<byte>>, L: Layout): (row: seq<byte>)
    requires L.Valid() && Fits(blocks, L)
    ensures |row| == L.LargeCount()
  {
    seq(L.LargeCount(), k requires 0 <= k < L.LargeCount() => blocks[L.SmallCount() + k][L.Short()])
  }

  function Interleave(blocks: seq<seq<byte>>, L: Layout): seq<byte>
    requires L.Valid() && Fits(blocks, L)
  {
    DataRows(blocks, L.Short()) + ExtraRow(blocks, L) + DataRows(CheckPart(blocks, L), L.ecCodewordsPerBlock)
  }

  lemma {:induction false} DataRowsAt(blocks: seq<seq<byte>>, rows: nat, b: nat, i: nat)
    requires forall c :: 0 <= c < |blocks| ==> rows <= |blocks[c]|
    ensures |DataRows(blocks, rows)| == Rows(rows, |blocks|)
    ensures b < |blocks| && i < rows ==>
      Rows(i, |blocks|) + b < Rows(rows, |blocks|) && DataRows(blocks, rows)[Rows(i, |blocks|) + b] == blocks[b][i]
  {
    hide Rows;
    RowsStep(0, |blocks|);
    if rows > 0 {
      DataRowsAt(blocks, rows - 1, b, i);
      RowsStep(rows - 1, |blocks|);
      if i < rows - 1 { RowsBelow(i, rows - 1, |blocks|); }
    }
  }

  lemma InterleaveLength(blocks: seq<seq<byte>>, L: Layout)
    requires L.Valid() && Fits(blocks, L)
    ensures |Interleave(blocks, L)| == L.Total()
    ensures |DataRows(blocks, L.Short())| == Rows(L.Short(), L.Count())
  {
    hide Rows;
    DataRowsAt(blocks, L.Short(), 0, 0);
    DataRowsAt(CheckPart(blocks, L), L.ecCodewordsPerBlock, 0, 0);
  }

  /** Codeword i of block b stands at its index in the interleaved sequence. */
  lemma InterleaveAt(blocks: seq<seq<byte>>, L: Layout, b: nat, i: nat)
    requires L.Valid() && Fits(blocks, L) && b < L.Count() && i < L.BlockSize(b)
    ensures L.Index(b, i) < L.Total() == |Interleave(blocks, L)|
    ensures Interleave(blocks, L)[L.Index(b, i)] == blocks[b][i]
  {
    hide Rows, DataRows;
    InterleaveLength(blocks, L);
    if i < L.Short() {
      DataRowsAt(blocks, L.Short(), b, i);
    } else if i >= L.DataSize(b) {
      DataRowsAt(CheckPart(blocks, L), L.ecCodewordsPerBlock, b, i - L.DataSize(b));
    }
  }

  /** Different codewords stand at different indices, so each is used once. */
  lemma IndexInjective(L: Layout, b: nat, i: nat, c: nat, j: nat)
    requires L.Valid() && b < L.Count() && i < L.BlockSize(b) && c < L.Count() && j < L.BlockSize(c)
    requires L.Index(b, i) == L.Index(c, j)
    ensures b == c && i == j
  {
    hide Rows;
    var n, s := L.Count(), L.Short();
    if i < s { RowsBelow(i, s, n); }
    if j < s { RowsBelow(j, s, n); }
    if i < s && j < s {
      RowUnique(i, b, j, c, n);
    } else if i >= L.DataSize(b) && j >= L.DataSize(c) {
      RowUnique(i - L.DataSize(b), b, j - L.DataSize(c), c, n);
    }
  }

  /** Every index of the message sequence belongs to some codeword of some block. */
  lemma IndexSurjective(L: Layout, k: nat) returns (b: nat, i: nat)
    requires L.Valid() && k < L.Total()
    ensures b < L.Count() && i < L.BlockSize(b) && L.Index(b, i) == k
  {
    hide Rows;
    var n, s := L.Count(), L.Short();
    if k < Rows(s, n) {
      i, b := RowOf(k, s, n);
    } else if k < Rows(s, n) + L.LargeCount() {
      b, i := L.SmallCount() + (k - Rows(s, n)), s;
    } else {
      var r: nat;
      r, b := RowOf(k - Rows(s, n) - L.LargeCount(), L.ecCodewordsPerBlock, n);
      i := L.DataSize(b) + r;
    }
  }

  // ---- getDataBlocks ----

  /** The blocks that the index map prescribes. */
  function Deinterleave(codewords: seq<byte>, L: Layout): (blocks: seq<seq<byte>>)
    requires L.Valid() && L.Total() <= |codewords|
    ensures Fits(blocks, L)
    ensures forall b, i :: 0 <= b < L.Count() && 0 <= i < L.BlockSize(b) ==>
      L.Index(b, i) < L.Total() && blocks[b][i] == codewords[L.Index(b, i)]
  {
    IndexBound(L);
    seq(L.Count(), b requires 0 <= b < L.Count() =>
      seq(L.BlockSize(b), i requires 0 <= i < L.BlockSize(b) => codewords[L.Index(b, i)]))
  }

  lemma IndexBound(L: Layout)
    requires L.Valid()
    ensures forall b, i :: 0 <= b < L.Count() && 0 <= i < L.BlockSize(b) ==> L.Index(b, i) < L.Total()
  {
    hide Rows;
    forall b, i | 0 <= b < L.Count() && 0 <= i < L.BlockSize(b) ensures L.Index(b, i) < L.Total() {
      if i < L.Short() {
        RowsBelow(i, L.Short(), L.Count());
      } else if i >= L.DataSize(b) {
        RowsBelow(i - L.DataSize(b), L.ecCodewordsPerBlock, L.Count());
      }
    }
  }

  /** Two blocks of two data codewords and one of three, with one check codeword each: first codewords
    * of all blocks, then second ones, the third of the long block, then the check codewords. */
  lemma InterleaveExample(a: seq<byte>, b: seq<byte>, c: seq<byte>)
    requires |a| == 3 && |b| == 3 && |c| == 4
    ensures var L := Layout(1, [Group(2, 2), Group(1, 3)]);
      && L.Valid() && Fits([a, b, c], L)
      && Interleave([a, b, c], L) == [a[0], b[0], c[0], a[1], b[1], c[1], c[2], a[2], b[2], c[3]]
  {
    var L, blocks := Layout(1, [Group(2, 2), Group(1, 3)]), [a, b, c];
    ExampleIndex(L);
    InterleaveLength(blocks, L);
    hide Layout.Index, Interleave;
    InterleaveAt(blocks, L, 0, 0);
    InterleaveAt(blocks, L, 1, 0);
    InterleaveAt(blocks, L, 2, 0);
    InterleaveAt(blocks, L, 0, 1);
    InterleaveAt(blocks, L, 1, 1);
    InterleaveAt(blocks, L, 2, 1);
    InterleaveAt(blocks, L, 2, 2);
    InterleaveAt(blocks, L, 0, 2);
    InterleaveAt(blocks, L, 1, 2);
    InterleaveAt(blocks, L, 2, 3);
  }

  lemma ExampleIndex(L: Layout)
    requires L == Layout(1, [Group(2, 2), Group(1, 3)])
    ensures L.Valid() && L.Count() == 3 && L.Total() == 10
    ensures L.BlockSize(0) == 3 && L.BlockSize(1) == 3 && L.BlockSize(2) == 4
    ensures L.Index(0, 0) == 0 && L.Index(1, 0) == 1 && L.Index(2, 0) == 2
    ensures L.Index(0, 1) == 3 && L.Index(1, 1) == 4 && L.Index(2, 1) == 5 && L.Index(2, 2) == 6
    ensures L.Index(0, 2) == 7 && L.Index(1, 2) == 8 && L.Index(2, 3) == 9
  {}

  /** De-interleaving undoes interleaving, whatever follows the sequence. */
  lemma DeinterleaveInterleave(blocks: seq<seq<byte>>, L: Layout, tail: seq<byte>)
    requires L.Valid() && Fits(blocks, L)
    ensures L.Total() <= |Interleave(blocks, L) + tail|
    ensures Deinterleave(Interleave(blocks, L) + tail, L) == blocks
  {
    hide Rows, DataRows, Interleave;
    InterleaveLength(blocks, L);
    var again := Deinterleave(Interleave(blocks, L) + tail, L);
    forall b | 0 <= b < L.Count() ensures again[b] == blocks[b] {
      forall i | 0 <= i < L.BlockSize(b) ensures again[b][i] == blocks[b][i] {
        InterleaveAt(blocks, L, b, i);
      }
    }
  }

  /** Interleaving undoes de-interleaving. */
  lemma InterleaveDeinterleave(codewords: seq<byte>, L: Layout)
    requires L.Valid() && L.Total() <= |codewords|
    ensures Interleave(Deinterleave(codewords, L), L) == codewords[..L.Total()]
  {
    hide Rows, DataRows, Interleave;
    var blocks := Deinterleave(codewords, L);
    InterleaveLength(blocks, L);
    forall k | 0 <= k < L.Total() ensures Interleave(blocks, L)[k] == codewords[k] {
      var b, i := IndexSurjective(L, k);
      InterleaveAt(blocks, L, b, i);
    }
  }

  datatype DataBlock = DataBlock(numDataCodewords: nat, codewords: seq<byte>)

  /** Shifts one codeword off the queue for every block from number `from` on. */
  method PushRow(blocks: seq<seq<byte>>, from: nat, queue: seq<byte>) returns (pushed: seq<seq<byte>>, rest: seq<byte>)
    requires from <= |blocks| && |blocks| - from <= |queue|
    ensures RowPushed(blocks, pushed, from, queue) && rest == queue[|blocks| - from..]
  {
    pushed, rest := blocks, queue;
    for b := from to |blocks|
      invariant |pushed| == |blocks| && rest == queue[b - from..]
      invariant forall c :: 0 <= c < |blocks| ==>
        pushed[c] == if from <= c < b then blocks[c] + [queue[c - from]] else blocks[c]
    {
      pushed := pushed[b := pushed[b] + [rest[0]]];
      rest := rest[1..];
    }
  }

  /** How many codewords block b holds after `rows` rows of data, the extra row if `extra`,
    * and `checks` rows of check codewords. */
  function Filled(L: Layout, b: nat, rows: nat, extra: bool, checks: nat): nat
    requires L.Valid() && b < L.Count()
  {
    rows + (if extra && b >= L.SmallCount() then 1 else 0) + checks
  }

  /** The blocks hold prefixes of the goal blocks, of these lengths. */
  ghost predicate Reached(blocks: seq<seq<byte>>, L: Layout, codewords: seq<byte>, rows: nat, extra: bool, checks: nat)
    requires L.Valid() && L.Total() <= |codewords|
  {
    && |blocks| == L.Count()
    && forall b :: 0 <= b < L.Count() ==> BlockReached(blocks[b], b, L, codewords, rows, extra, checks)
  }

  ghost predicate BlockReached(block: seq<byte>, b: nat, L: Layout, codewords: seq<byte>, rows: nat, extra: bool,
    checks: nat)
    requires L.Valid() && L.Total() <= |codewords| && b < L.Count()
  {
    && Filled(L, b, rows, extra, checks) <= L.BlockSize(b)
    && block == Deinterleave(codewords, L)[b][..Filled(L, b, rows, extra, checks)]
  }

  /** `after` is `before` with one more codeword from the queue in every block from `from` on. */
  ghost predicate RowPushed(before: seq<seq<byte>>, after: seq<seq<byte>>, from: nat, queue: seq<byte>) {
    && from <= |before| == |after| && |before| - from <= |queue|
    && forall b :: 0 <= b < |before| ==>
         after[b] == if b < from then before[b] else before[b] + [queue[b - from]]
  }

  lemma Pushed(before: seq<byte>, goal: seq<byte>, k: nat, after: seq<byte>)
    requires k < |goal| && before == goal[..k] && after == before + [goal[k]]
    ensures after == goal[..k + 1]
  {}

  /** The three places of `Index`: a data row, the extra row, a check row. */
  lemma IndexIs(L: Layout, b: nat, i: nat)
    requires L.Valid() && b < L.Count()
    ensures i < L.Short() ==> L.Index(b, i) == Rows(i, L.Count()) + b
    ensures b >= L.SmallCount() ==> L.Index(b, L.Short()) == Rows(L.Short(), L.Count()) + (b - L.SmallCount())
    ensures i < L.ecCodewordsPerBlock ==>
      L.Index(b, L.DataSize(b) + i) == Rows(L.Short(), L.Count()) + L.LargeCount() + Rows(i, L.Count()) + b
  {
    hide Rows;
  }

  lemma BlockGrows(block: seq<byte>, b: nat, L: Layout, codewords: seq<byte>, i: nat)
    requires L.Valid() && L.Total() <= |codewords| && b < L.Count() && i < L.BlockSize(b)
    requires block == Deinterleave(codewords, L)[b][..i]
    ensures L.Index(b, i) < L.Total() && block + [codewords[L.Index(b, i)]] == Deinterleave(codewords, L)[b][..i + 1]
  {
    hide Rows, Deinterleave, Layout.Index, Layout.Total;
    assert L.Index(b, i) < L.Total() && Deinterleave(codewords, L)[b][i] == codewords[L.Index(b, i)];
    Pushed(block, Deinterleave(codewords, L)[b], i, block + [codewords[L.Index(b, i)]]);
  }

  lemma QueueAt(codewords: seq<byte>, from: nat, to: nat, b: nat)
    requires from + b < to <= |codewords|
    ensures codewords[from..to][b] == codewords[from + b]
  {}

  /** One block in a row of data. */
  lemma DataBlockReached(block: seq<byte>, b: nat, L: Layout, codewords: seq<byte>, i: nat)
    requires L.Valid() && L.Total() <= |codewords| && b < L.Count() && i < L.Short()
    requires BlockReached(block, b, L, codewords, i, false, 0)
    ensures Rows(i, L.Count()) + b < L.Total()
    ensures BlockReached(block + [codewords[Rows(i, L.Count()) + b]], b, L, codewords, i + 1, false, 0)
  {
    hide Rows, Deinterleave, Layout.Index, Layout.Total;
    IndexIs(L, b, i);
    BlockGrows(block, b, L, codewords, i);
  }

  lemma DataRowReached(before: seq<seq<byte>>, after: seq<seq<byte>>, L: Layout, codewords: seq<byte>, i: nat)
    requires L.Valid() && L.Total() <= |codewords| && i < L.Short()
    requires Reached(before, L, codewords, i, false, 0)
    requires Rows(i, L.Count()) <= L.Total() && RowPushed(before, after, 0, codewords[Rows(i, L.Count())..L.Total()])
    ensures Reached(after, L, codewords, i + 1, false, 0)
  {
    hide Rows, BlockReached, Layout.Valid, Layout.Total, Layout.Count, Layout.Short;
    forall b | 0 <= b < L.Count() ensures BlockReached(after[b], b, L, codewords, i + 1, false, 0) {
      DataBlockReached(before[b], b, L, codewords, i);
      QueueAt(codewords, Rows(i, L.Count()), L.Total(), b);
    }
  }

  /** A large block in the extra row, and a small one that the row leaves out. */
  lemma ExtraBlockReached(block: seq<byte>, b: nat, L: Layout, codewords: seq<byte>)
    requires L.Valid() && L.Total() <= |codewords| && b < L.Count()
    requires BlockReached(block, b, L, codewords, L.Short(), false, 0)
    ensures b < L.SmallCount() ==> BlockReached(block, b, L, codewords, L.Short(), true, 0)
    ensures b >= L.SmallCount() ==>
      var at := Rows(L.Short(), L.Count()) + (b - L.SmallCount());
      at < L.Total() && BlockReached(block + [codewords[at]], b, L, codewords, L.Short(), true, 0)
  {
    hide Rows, Deinterleave, Layout.Index, Layout.Total;
    if b >= L.SmallCount() {
      IndexIs(L, b, 0);
      BlockGrows(block, b, L, codewords, L.Short());
    }
  }

  lemma ExtraRowReached(before: seq<seq<byte>>, after: seq<seq<byte>>, L: Layout, codewords: seq<byte>)
    requires L.Valid() && L.Total() <= |codewords|
    requires Reached(before, L, codewords, L.Short(), false, 0)
    requires RowPushed(before, after, L.SmallCount(), codewords[Rows(L.Short(), L.Count())..L.Total()])
    ensures Reached(after, L, codewords, L.Short(), true, 0)
  {
    hide Rows, BlockReached, Layout.Valid, Layout.Total, Layout.Count, Layout.Short, Layout.SmallCount;
    forall b | 0 <= b < L.Count() ensures BlockReached(after[b], b, L, codewords, L.Short(), true, 0) {
      ExtraBlockReached(before[b], b, L, codewords);
      if b >= L.SmallCount() { QueueAt(codewords, Rows(L.Short(), L.Count()), L.Total(), b - L.SmallCount()); }
    }
  }

  /** One block in a row of check codewords. */
  lemma CheckBlockReached(block: seq<byte>, b: nat, L: Layout, codewords: seq<byte>, j: nat, start: nat)
    requires L.Valid() && L.Total() <= |codewords| && b < L.Count() && j < L.ecCodewordsPerBlock
    requires start == Rows(L.Short(), L.Count()) + L.LargeCount() + Rows(j, L.Count())
    requires BlockReached(block, b, L, codewords, L.Short(), true, j)
    ensures start + b < L.Total()
    ensures BlockReached(block + [codewords[start + b]], b, L, codewords, L.Short(), true, j + 1)
  {
    hide Rows, Deinterleave, Layout.Index, Layout.Total;
    IndexIs(L, b, j);
    BlockGrows(block, b, L, codewords, L.DataSize(b) + j);
  }

  lemma CheckRowReached(before: seq<seq<byte>>, after: seq<seq<byte>>, L: Layout, codewords: seq<byte>, j: nat)
    requires L.Valid() && L.Total() <= |codewords| && j < L.ecCodewordsPerBlock
    requires Reached(before, L, codewords, L.Short(), true, j)
    requires var start := Rows(L.Short(), L.Count()) + L.LargeCount() + Rows(j, L.Count());
      start <= L.Total() && RowPushed(before, after, 0, codewords[start..L.Total()])
    ensures Reached(after, L, codewords, L.Short(), true, j + 1)
  {
    hide Rows, BlockReached, Layout.Valid, Layout.Total, Layout.Count, Layout.Short, Layout.LargeCount;
    var start := Rows(L.Short(), L.Count()) + L.LargeCount() + Rows(j, L.Count());
    forall b | 0 <= b < L.Count() ensures BlockReached(after[b], b, L, codewords, L.Short(), true, j + 1) {
      CheckBlockReached(before[b], b, L, codewords, j, start);
      QueueAt(codewords, start, L.Total(), b);
    }
  }

  /** The three filling loops of `getDataBlocks`. */
  method FillBlocks(first: seq<byte>, L: Layout, empty: seq<seq<byte>>, ghost received: seq<byte>)
    returns (blocks: seq<seq<byte>>)
    requires L.Valid() && L.Total() <= |received| && first == received[..L.Total()]
    requires |empty| == L.Count() && forall b :: 0 <= b < |empty| ==> empty[b] == []
    ensures blocks == Deinterleave(received, L)
  {
    hide Rows, Deinterleave;
    blocks := empty;
    var codewords := first;
    var shortBlockSize := L.ecBlocks[0].dataCodewordsPerBlock;
    RowsStep(0, L.Count());
    for i := 0 to shortBlockSize
      invariant Rows(i, L.Count()) <= Rows(L.Short(), L.Count()) && codewords == received[Rows(i, L.Count())..L.Total()]
      invariant Reached(blocks, L, received, i, false, 0)
    {
      RowsBelow(i, shortBlockSize, L.Count());
      RowsStep(i, L.Count());
      ghost var before := blocks;
      blocks, codewords := PushRow(blocks, 0, codewords);
      DataRowReached(before, blocks, L, received, i);
    }
    if |L.ecBlocks| > 1 {
      ghost var before := blocks;
      blocks, codewords := PushRow(blocks, L.ecBlocks[0].numBlocks, codewords);
      ExtraRowReached(before, blocks, L, received);
    }
    ghost var j := 0;
    while |codewords| > 0
      invariant j <= L.ecCodewordsPerBlock && Rows(j, L.Count()) <= Rows(L.ecCodewordsPerBlock, L.Count())
      invariant codewords == received[Rows(L.Short(), L.Count()) + L.LargeCount() + Rows(j, L.Count())..L.Total()]
      invariant Reached(blocks, L, received, L.Short(), true, j)
      decreases L.ecCodewordsPerBlock - j
    {
      RowsBelow(j, L.ecCodewordsPerBlock, L.Count());
      RowsStep(j, L.Count());
      ghost var before := blocks;
      blocks, codewords := PushRow(blocks, 0, codewords);
      CheckRowReached(before, blocks, L, received, j);
      j := j + 1;
    }
    if j < L.ecCodewordsPerBlock { RowsBelow(j, L.ecCodewordsPerBlock, L.Count()); }
    AllReached(blocks, L, received);
  }

  lemma AllReached(blocks: seq<seq<byte>>, L: Layout, codewords: seq<byte>)
    requires L.Valid() && L.Total() <= |codewords|
    requires Reached(blocks, L, codewords, L.Short(), true, L.ecCodewordsPerBlock)
    ensures blocks == Deinterleave(codewords, L)
  {
    hide Deinterleave, Rows;
    forall b | 0 <= b < L.Count() ensures blocks[b] == Deinterleave(codewords, L)[b] {
      assert BlockReached(blocks[b], b, L, codewords, L.Short(), true, L.ecCodewordsPerBlock);
      assert Filled(L, b, L.Short(), true, L.ecCodewordsPerBlock) == |Deinterleave(codewords, L)[b]|;
    }
  }

  lemma CountTotal(L: Layout)
    requires L.Valid()
    ensures L.Total() == Rows(L.SmallCount(), L.Short() + L.ecCodewordsPerBlock)
                       + Rows(L.LargeCount(), L.Short() + 1 + L.ecCodewordsPerBlock)
  {
    var n0, n1, d, ec := L.SmallCount(), L.LargeCount(), L.Short(), L.ecCodewordsPerBlock;
    Distribute(n0, n1, d);
    Distribute(n0, n1, ec);
    Distribute(d, ec, n0);
    Distribute(d + 1, ec, n1);
    Distribute(d, 1, n1);
  }

  /** `getDataBlocks`: None (null) when there are too few codewords; a surplus is cut off. */
  method GetDataBlocks(received: seq<byte>, L: Layout) returns (r: Option<seq<DataBlock>>)
    requires L.Valid()
    ensures r == None <==> |received| < L.Total()
    ensures r.Some? ==>
      && |r.value| == L.Count()
      && forall b :: 0 <= b < L.Count() ==> r.value[b] == DataBlock(L.DataSize(b), Deinterleave(received, L)[b])
  {
    hide Rows, Deinterleave;
    var sizes: seq<nat>, blocks: seq<seq<byte>>, totalCodewords := [], [], 0;
    CountTotal(L);
    for g := 0 to |L.ecBlocks|
      invariant |sizes| == |blocks| == if g == 0 then 0 else if g == 1 then L.SmallCount() else L.Count()
      invariant forall b :: 0 <= b < |blocks| ==> blocks[b] == [] && sizes[b] == L.DataSize(b)
      invariant totalCodewords == if g == 0 then 0
        else if g == 1 then Rows(L.SmallCount(), L.Short() + L.ecCodewordsPerBlock) else L.Total()
    {
      var block := L.ecBlocks[g];
      ghost var before, start := totalCodewords, |blocks|;
      RowsStep(0, block.dataCodewordsPerBlock + L.ecCodewordsPerBlock);
      for i := 0 to block.numBlocks
        invariant |sizes| == |blocks| == start + i
        invariant forall b :: 0 <= b < |blocks| ==> blocks[b] == [] && sizes[b] == L.DataSize(b)
        invariant totalCodewords == before + Rows(i, block.dataCodewordsPerBlock + L.ecCodewordsPerBlock)
      {
        RowsStep(i, block.dataCodewordsPerBlock + L.ecCodewordsPerBlock);
        assert start + i < L.Count();
        sizes, blocks := sizes + [block.dataCodewordsPerBlock], blocks + [[]];
        totalCodewords := totalCodewords + block.dataCodewordsPerBlock + L.ecCodewordsPerBlock;
      }
    }
    RowsStep(0, L.Short() + 1 + L.ecCodewordsPerBlock);
    if |received| < totalCodewords { return None; }
    blocks := FillBlocks(received[..totalCodewords], L, blocks, received);
    r := Some(seq(|blocks|, b requires 0 <= b < |blocks| => DataBlock(sizes[b], blocks[b])));
  }
}
