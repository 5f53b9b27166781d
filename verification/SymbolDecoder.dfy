/** The decoding pipeline of one QR symbol, from modules to segments, and its end-to-end
  * guarantee. */
module SymbolDecoder {
  import opened Basics
  import opened Options
  import opened BitStreams
  import opened Segments
  import opened DataDecoder
  import opened Blocks
  import opened Matrices
  import opened CodewordReader
  import opened VersionTable
  import RS = ReedSolomon
  import DecoderTheorems
  import ReedSolomonDecoder
  import Encoder = ReedSolomonEncoder

  // ---- the reference pipeline ----

  /** The data codewords of the corrected blocks from number b on; None when a block cannot be
    * corrected. */
  ghost function CorrectBlocks(blocks: seq<seq<byte>>, L: Layout, b: nat): Option<seq<byte>>
    requires L.Valid() && Blocks.Fits(blocks, L) && b <= L.Count()
    decreases L.Count() - b
  {
    if b == L.Count() then Some([])
    else
      match DecoderTheorems.Decode(blocks[b], L.ecCodewordsPerBlock)
      case None => None
      case Some(corrected) =>
        match CorrectBlocks(blocks, L, b + 1)
        case None => None
        case Some(rest) => Some(corrected[..L.DataSize(b)] + rest)
  }

  /** `decodeMatrix` for a given version and format: the chunks, or None for null. */
  ghost function DecodeSymbol(dark: set<Cell>, d: nat, v: Version, L: Layout, mask: DataMask): Option<seq<Chunk>>
    requires L.Valid()
  {
    var codewords := Codewords(dark, d, v, mask);
    if |codewords| < L.Total() then None
    else
      match CorrectBlocks(Deinterleave(codewords, L), L, 0)
      case None => None
      case Some(data) =>
        match Parse(Bits(data), SizeOf(v.versionNumber), [])
        case Complete(chunks) => Some(chunks)
        case Incomplete => None
        case Malformed => None
  }

  // ---- encoding a symbol ----

  /** Data codewords in the blocks from number b on. */
  function DataFrom(L: Layout, b: nat): nat
    requires L.Valid() && b <= L.Count()
    decreases L.Count() - b
  {
    if b == L.Count() then 0 else L.DataSize(b) + DataFrom(L, b + 1)
  }

  /** The data cut into blocks, each followed by its check codewords. */
  ghost function EncodeBlocks(data: seq<byte>, L: Layout, b: nat): (blocks: seq<seq<byte>>)
    requires L.Valid() && b <= L.Count() && |data| == DataFrom(L, b)
    ensures |blocks| == L.Count() - b
    ensures forall k :: 0 <= k < |blocks| ==> |blocks[k]| == L.BlockSize(b + k)
    decreases L.Count() - b
  {
    if b == L.Count() then []
    else
      var n := L.DataSize(b);
      [Encoder.Encode(data[..n], L.ecCodewordsPerBlock)] + EncodeBlocks(data[n..], L, b + 1)
  }

  /** The modules of a symbol that carries the data. */
  ghost function EncodeSymbol(base: set<Cell>, data: seq<byte>, v: Version, L: Layout, mask: DataMask): set<Cell>
    requires L.Valid() && |data| == DataFrom(L, 0)
    requires 8 * L.Total() <= |DataCells(v, Path(v.Dimension()))|
  {
    var cells := DataCells(v, Path(v.Dimension()));
    var blocks := EncodeBlocks(data, L, 0);
    InterleaveLength(blocks, L);
    Place(base, cells, Bits(Interleave(blocks, L)), mask)
  }

  // ---- encoding the data (ISO/IEC 18004:2015, sections 7.4.9 and 7.4.10) ----

  function Zeros(n: nat): seq<bool> { seq(n, i => false) }

  /** Pad codewords, alternating between two values. */
  function PadCodewords(n: nat): seq<byte> { seq(n, i => if i % 2 == 0 then 0xEC else 0x11) }

  /** How many zero bits end the message: four where they fit, then up to a whole codeword. */
  function EndZeros(used: nat, capacity: nat): (n: nat)
    requires used <= 8 * capacity
    ensures used + n <= 8 * capacity && (used + n) % 8 == 0 && (n >= 4 || used + n == 8 * capacity)
  {
    var terminator: nat := if 8 * capacity - used < 4 then 8 * capacity - used else 4;
    terminator + (8 - (used + terminator) % 8) % 8
  }

  /** What follows the messages in a symbol of that many data codewords. */
  function Tail(used: nat, capacity: nat): seq<bool>
    requires used <= 8 * capacity
  {
    var zeros := EndZeros(used, capacity);
    Zeros(zeros) + Bits(PadCodewords(capacity - (used + zeros) / 8))
  }

  /** The data codewords that carry the messages. */
  function EncodeData(ms: seq<Message>, size: nat, capacity: nat): (data: seq<byte>)
    requires size < 3 && AllFit(ms, size) && |EncodeAll(ms, size)| <= 8 * capacity
    ensures |data| == capacity
  {
    var bits := EncodeAll(ms, size) + Tail(|EncodeAll(ms, size)|, capacity);
    PackLength(bits);
    Pack(bits)
  }

  lemma ByteOfBits(eight: seq<bool>)
    requires |eight| == 8
    ensures Value(eight) < 256 && Bits([Value(eight)]) == eight
  {
    ByteFits(eight);
    ValueOfByte(Value(eight));
    ToBitsValue(eight);
    ToBitsValue(Bits([Value(eight)]));
  }

  /** Unpacking whole codewords gives back their bits. */
  lemma {:induction false} BitsOfPack(bits: seq<bool>)
    requires |bits| % 8 == 0
    ensures Bits(Pack(bits)) == bits
  {
    PackLength(bits);
    if |bits| >= 8 {
      hide Bits;
      ByteOfBits(bits[..8]);
      BitsOfPack(bits[8..]);
      BitsSplit(Pack(bits));
      assert bits == bits[..8] + bits[8..];
    }
  }

  lemma {:induction false} NoValue(n: nat)
    ensures Value(Zeros(n)) == 0
  {
    if n > 0 {
      NoValue(n - 1);
      assert Zeros(n)[..n - 1] == Zeros(n - 1);
    }
  }

  lemma TailTerminates(used: nat, capacity: nat)
    requires used <= 8 * capacity
    ensures Terminated(Tail(used, capacity))
  {
    hide Value, Bits, EndZeros;
    var zeros := EndZeros(used, capacity);
    NoValue(4);
    NoValue(zeros);
    if zeros >= 4 {
      assert Tail(used, capacity)[..4] == Zeros(4);
    } else {
      assert Tail(used, capacity) == Zeros(zeros);
    }
  }

  /** The data codewords spell the messages. */
  lemma EncodeDataSpells(ms: seq<Message>, size: nat, capacity: nat)
    requires size < 3 && AllFit(ms, size) && |EncodeAll(ms, size)| <= 8 * capacity
    ensures Spells(EncodeData(ms, size, capacity), ms, Tail(|EncodeAll(ms, size)|, capacity), size)
  {
    hide EncodeAll, AllFit, Bits, Pack, Terminated;
    var used := |EncodeAll(ms, size)|;
    TailTerminates(used, capacity);
    BitsOfPack(EncodeAll(ms, size) + Tail(used, capacity));
  }

  // ---- damage ----

  /** Some module of codeword number k has the wrong colour. */
  predicate Touched(sent: set<Cell>, received: set<Cell>, cells: seq<Cell>, k: nat)
    requires 8 * k + 8 <= |cells|
  {
    exists m :: 8 * k <= m < 8 * k + 8 && (cells[m] in sent) != (cells[m] in received)
  }

  /** The codewords of block b that are touched. */
  function Damaged(sent: set<Cell>, received: set<Cell>, cells: seq<Cell>, L: Layout, b: nat): set<int>
    requires L.Valid() && b < L.Count() && 8 * L.Total() <= |cells|
  {
    IndexBound(L);
    set i | 0 <= i < L.BlockSize(b) && Touched(sent, received, cells, L.Index(b, i))
  }

  /** Untouched codewords are read as they were sent. */
  lemma UntouchedSame(sent: set<Cell>, received: set<Cell>, v: Version, mask: DataMask, k: nat)
    requires v.versionNumber >= 1
    requires 8 * k + 8 <= |DataCells(v, Path(v.Dimension()))|
    requires !Touched(sent, received, DataCells(v, Path(v.Dimension())), k)
    ensures k < |Codewords(sent, v.Dimension(), v, mask)| && k < |Codewords(received, v.Dimension(), v, mask)|
    ensures Codewords(sent, v.Dimension(), v, mask)[k] == Codewords(received, v.Dimension(), v, mask)[k]
  {
    var cells := DataCells(v, Path(v.Dimension()));
    var a, b := BitsRead(sent, cells, mask), BitsRead(received, cells, mask);
    PackAt(a, k);
    PackAt(b, k);
    assert a[8 * k..8 * k + 8] == b[8 * k..8 * k + 8];
  }

  // ---- end to end ----

  /** Each received block from number b on is within half the check codewords of the sent one. */
  ghost predicate Near(received: seq<seq<byte>>, sent: seq<seq<byte>>, L: Layout, b: nat)
    requires L.Valid() && Blocks.Fits(received, L) && b <= L.Count() && |sent| == L.Count() - b
    requires forall k :: 0 <= k < |sent| ==> |sent[k]| == L.BlockSize(b + k)
  {
    forall k :: 0 <= k < |sent| ==> 2 * RS.Distance(sent[k], received[b + k]) <= L.ecCodewordsPerBlock
  }

  /** Correcting such blocks gives back the data. */
  lemma {:induction false} CorrectReceived(received: seq<seq<byte>>, data: seq<byte>, L: Layout, b: nat)
    requires L.Valid() && Blocks.Fits(received, L) && b <= L.Count() && |data| == DataFrom(L, b)
    requires Near(received, EncodeBlocks(data, L, b), L, b)
    ensures CorrectBlocks(received, L, b) == Some(data)
    decreases L.Count() - b
  {
    hide RS.IsCodeword, Encoder.Encode, RS.Distance, DecoderTheorems.Decode;
    if b < L.Count() {
      var n := L.DataSize(b);
      var block, others := Encoder.Encode(data[..n], L.ecCodewordsPerBlock), EncodeBlocks(data[n..], L, b + 1);
      assert EncodeBlocks(data, L, b) == [block] + others;
      NearSplit(received, block, others, L, b);
      Encoder.EncodeIsCodeword(data[..n], L.ecCodewordsPerBlock);
      DecoderTheorems.BoundedDistance(block, received[b], L.ecCodewordsPerBlock);
      CorrectReceived(received, data[n..], L, b + 1);
      assert data == data[..n] + data[n..];
    }
  }

  lemma NearSplit(received: seq<seq<byte>>, block: seq<byte>, others: seq<seq<byte>>, L: Layout, b: nat)
    requires L.Valid() && Blocks.Fits(received, L) && b < L.Count() && |others| == L.Count() - b - 1
    requires |block| == L.BlockSize(b) && forall k :: 0 <= k < |others| ==> |others[k]| == L.BlockSize(b + 1 + k)
    requires forall k :: 0 <= k < |others| + 1 ==> |([block] + others)[k]| == L.BlockSize(b + k)
    requires Near(received, [block] + others, L, b)
    ensures 2 * RS.Distance(block, received[b]) <= L.ecCodewordsPerBlock
    ensures Near(received, others, L, b + 1)
  {
    hide RS.Distance;
    var all := [block] + others;
    assert all[0] == block;
    assert forall k :: 0 <= k < |others| ==> all[k + 1] == others[k];
  }

  /** The received block differs from the sent one only in touched codewords. */
  lemma BlockDistance(sent: set<Cell>, received: set<Cell>, blocks: seq<seq<byte>>, v: Version, L: Layout,
    mask: DataMask, b: nat)
    requires L.Valid() && v.versionNumber >= 1 && Blocks.Fits(blocks, L) && b < L.Count()
    requires 8 * L.Total() <= |DataCells(v, Path(v.Dimension()))|
    requires L.Total() <= |Codewords(received, v.Dimension(), v, mask)|
    requires Interleave(blocks, L) <= Codewords(sent, v.Dimension(), v, mask)
    ensures RS.Distance(blocks[b], Deinterleave(Codewords(received, v.Dimension(), v, mask), L)[b])
         <= |Damaged(sent, received, DataCells(v, Path(v.Dimension())), L, b)|
  {
    hide Codewords, Interleave, Deinterleave, DataCells, Path, Layout.Total, Layout.Index, Touched;
    var cells := DataCells(v, Path(v.Dimension()));
    var got := Codewords(received, v.Dimension(), v, mask);
    var back := Deinterleave(got, L)[b];
    var damaged := Damaged(sent, received, cells, L, b);
    forall i | i in RS.Differences(blocks[b], back, |back|) ensures i in damaged {
      InterleaveAt(blocks, L, b, i);
      if !Touched(sent, received, cells, L.Index(b, i)) {
        UntouchedSame(sent, received, v, mask, L.Index(b, i));
      }
    }
    SubsetSize(RS.Differences(blocks[b], back, |back|), damaged);
  }

  /** Each block has at most half as many touched codewords as check codewords. */
  ghost predicate Repairable(sent: set<Cell>, received: set<Cell>, v: Version, L: Layout)
    requires L.Valid() && 8 * L.Total() <= |DataCells(v, Path(v.Dimension()))|
  {
    forall b :: 0 <= b < L.Count() ==>
      2 * |Damaged(sent, received, DataCells(v, Path(v.Dimension())), L, b)| <= L.ecCodewordsPerBlock
  }

  /** The received modules come from a symbol that carries the data, with repairable damage. */
  ghost predicate ComesFrom(received: set<Cell>, base: set<Cell>, data: seq<byte>, v: Version, L: Layout,
    mask: DataMask)
  {
    && v.Valid() && L.Valid() && |data| == DataFrom(L, 0)
    && 8 * L.Total() <= |DataCells(v, Path(v.Dimension()))|
    && Repairable(EncodeSymbol(base, data, v, L, mask), received, v, L)
  }

  /** The data codewords are these segments, a terminator and padding. */
  predicate Spells(data: seq<byte>, ms: seq<Message>, tail: seq<bool>, size: nat) {
    size < 3 && AllFit(ms, size) && Terminated(tail) && Bits(data) == EncodeAll(ms, size) + tail
  }

  /** The data codewords survive repairable damage. */
  lemma DataRecovered(base: set<Cell>, received: set<Cell>, data: seq<byte>, v: Version, L: Layout, mask: DataMask)
    requires ComesFrom(received, base, data, v, L, mask)
    ensures var got := Codewords(received, v.Dimension(), v, mask);
      L.Total() <= |got| && CorrectBlocks(Deinterleave(got, L), L, 0) == Some(data)
  {
    hide EncodeBlocks, Codewords, Interleave, Deinterleave, DataCells, Path, Layout.Total, RS.Distance, Damaged, Bits,
      CorrectBlocks, DataFrom, Place;
    var blocks := EncodeBlocks(data, L, 0);
    var sent, got := EncodeSymbol(base, data, v, L, mask), Codewords(received, v.Dimension(), v, mask);
    InterleaveLength(blocks, L);
    ReadPlaced(base, v, mask, Interleave(blocks, L));
    EnoughCodewords(received, v, L, mask);
    forall b | 0 <= b < L.Count()
      ensures 2 * RS.Distance(blocks[b], Deinterleave(got, L)[0 + b]) <= L.ecCodewordsPerBlock
    {
      BlockDistance(sent, received, blocks, v, L, mask, b);
    }
    CorrectReceived(Deinterleave(got, L), data, L, 0);
  }

  /** Whatever messages are written, and however modules are damaged within what the blocks
    * can repair, decoding returns the messages. */
  lemma EndToEnd(base: set<Cell>, received: set<Cell>, ms: seq<Message>, tail: seq<bool>, data: seq<byte>,
    v: Version, L: Layout, mask: DataMask)
    requires ComesFrom(received, base, data, v, L, mask)
    requires Spells(data, ms, tail, SizeOf(v.versionNumber))
    ensures DecodeSymbol(received, v.Dimension(), v, L, mask) == Some(Meanings(ms, SizeOf(v.versionNumber)))
  {
    hide Codewords, Deinterleave, DataCells, Path, Layout.Total, Repairable, Bits, Parse, EncodeAll, Terminated,
      CorrectBlocks, DataFrom, EncodeSymbol, AllFit;
    DataRecovered(base, received, data, v, L, mask);
    MessagesRoundTrip(ms, SizeOf(v.versionNumber), tail, []);
    assert [] + Meanings(ms, SizeOf(v.versionNumber)) == Meanings(ms, SizeOf(v.versionNumber));
  }

  /** Any messages that fit their fields and the symbol, written, damaged within what the blocks
    * can repair and decoded, come back. */
  lemma MessagesSurvive(base: set<Cell>, received: set<Cell>, ms: seq<Message>, v: Version, L: Layout, mask: DataMask)
    requires L.Valid() && AllFit(ms, SizeOf(v.versionNumber))
    requires |EncodeAll(ms, SizeOf(v.versionNumber))| <= 8 * DataFrom(L, 0)
    requires ComesFrom(received, base, EncodeData(ms, SizeOf(v.versionNumber), DataFrom(L, 0)), v, L, mask)
    ensures DecodeSymbol(received, v.Dimension(), v, L, mask) == Some(Meanings(ms, SizeOf(v.versionNumber)))
  {
    hide *;
    var size := SizeOf(v.versionNumber);
    EncodeDataSpells(ms, size, DataFrom(L, 0));
    EndToEnd(base, received, ms, Tail(|EncodeAll(ms, size)|, DataFrom(L, 0)), EncodeData(ms, size, DataFrom(L, 0)),
             v, L, mask);
  }

  /** The same for every version and level of the table, which all have room for their blocks. */
  lemma TableSymbolsSurvive(version: nat, level: nat, base: set<Cell>, received: set<Cell>, ms: seq<Message>,
    mask: DataMask)
    requires 1 <= version <= 40 && level < 4 && AllFit(ms, SizeOf(version))
    requires |EncodeAll(ms, SizeOf(version))| <= 8 * DataFrom(LayoutOf(version, level), 0)
    requires var v, L := VersionOf(version), LayoutOf(version, level);
      Repairable(EncodeSymbol(base, EncodeData(ms, SizeOf(version), DataFrom(L, 0)), v, L, mask), received, v, L)
    ensures var v, L := VersionOf(version), LayoutOf(version, level);
      DecodeSymbol(received, v.Dimension(), v, L, mask) == Some(Meanings(ms, SizeOf(version)))
  {
    hide Table, EncodeSymbol, Repairable, DecodeSymbol, EncodeData, DataFrom, DataCells, Path, Layout.Total, AllFit,
      Layout.Valid, EncodeAll, Version.Valid, LayoutOf;
    MessagesSurvive(base, received, ms, VersionOf(version), LayoutOf(version, level), mask);
  }

  lemma EnoughCodewords(dark: set<Cell>, v: Version, L: Layout, mask: DataMask)
    requires L.Valid() && 8 * L.Total() <= |DataCells(v, Path(v.Dimension()))|
    ensures L.Total() <= |Codewords(dark, v.Dimension(), v, mask)|
  {
    PackLength(BitsRead(dark, DataCells(v, Path(v.Dimension())), mask));
  }

  // ---- decodeMatrix ----

  /** `decodeMatrix` for a given version and format; None is null (or `undefined`). */
  method DecodeMatrix(matrix: BitMatrix, v: Version, L: Layout, dataMask: nat)
    returns (r: Option<(seq<int>, seq<Chunk>)>)
    requires matrix.Valid() && v.Valid() && L.Valid() && dataMask < 8
    ensures match DecodeSymbol(Dark(matrix), matrix.height, v, L, MaskOf(dataMask))
      case None => r == None
      case Some(chunks) => r == Some((AllBytes(chunks), chunks))
  {
    hide Codewords, Deinterleave, Layout.Total, Bits, Parse, AllBytes, DecoderTheorems.Decode, Dark;
    var codewords := ReadCodewords(matrix, v, dataMask);
    var dataBlocks := GetDataBlocks(codewords, L);
    if dataBlocks == None { return None; }
    var blocks := dataBlocks.value;
    ghost var goal := CorrectBlocks(Deinterleave(codewords, L), L, 0);
    var resultBytes: seq<byte> := [];
    OnwardFrom([], [], goal);
    for b := 0 to |blocks|
      invariant goal == Onward(resultBytes, CorrectBlocks(Deinterleave(codewords, L), L, b))
    {
      var block := blocks[b];
      assert block == DataBlock(L.DataSize(b), Deinterleave(codewords, L)[b]);
      var correctedBytes := ReedSolomonDecoder.DecodeBytes(block.codewords, |block.codewords| - block.numDataCodewords);
      if correctedBytes == None { return None; }
      OnwardFrom(resultBytes, correctedBytes.value[..block.numDataCodewords],
                   CorrectBlocks(Deinterleave(codewords, L), L, b + 1));
      ghost var before := resultBytes;
      for i := 0 to block.numDataCodewords
        invariant resultBytes == before + correctedBytes.value[..i]
      {
        resultBytes := resultBytes + [correctedBytes.value[i]];
      }
    }
    assert resultBytes + [] == resultBytes;
    var decoded := DecodeData(resultBytes, v.versionNumber);
    match decoded
    case Returned(bytes, chunks, _) => return Some((bytes, chunks));
    case Undefined => return None;
    case Thrown => return None;
  }
}
