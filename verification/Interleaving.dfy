/** Splitting the data codewords of a symbol into blocks, appending the error
    correction codewords of each block and interleaving everything (section
    7.6 of ISO/IEC 18004:2015), against a reader that goes by closed-form
    positions. */
module Interleaving {
  import opened Binary
  import opened ReedSolomon

  /** How a symbol of one version and error correction level is divided. */
  datatype Layout = Layout(numBlocks: nat, eccLen: nat, rawCodewords: nat) {
    predicate Valid() {
      && 0 < numBlocks && 0 < eccLen <= 255
      && eccLen <= rawCodewords / numBlocks
    }

    function NumShortBlocks(): nat
      requires Valid()
    {
      numBlocks - rawCodewords % numBlocks
    }

    /** The number of data codewords in a short block. */
    function ShortData(): nat
      requires Valid()
    {
      rawCodewords / numBlocks - eccLen
    }

    function DataLength(i: nat): nat
      requires Valid()
    {
      ShortData() + if i < NumShortBlocks() then 0 else 1
    }

    /** Where the data of block i begins. */
    function DataStart(i: nat): (s: nat)
      requires Valid()
    {
      if i == 0 then 0 else DataStart(i - 1) + DataLength(i - 1)
    }

    function DataCodewords(): int {
      rawCodewords - eccLen * numBlocks
    }
  }

  lemma {:induction false} DataStartClosed(l: Layout, i: nat)
    requires l.Valid() && i <= l.numBlocks
    ensures l.DataStart(i) == i * l.ShortData() + if i <= l.NumShortBlocks() then 0 else i - l.NumShortBlocks()
  {
    if i > 0 {
      DataStartClosed(l, i - 1);
      assert i * l.ShortData() == (i - 1) * l.ShortData() + l.ShortData();
    }
  }

  /** The blocks use up exactly the data codewords. */
  lemma DataIsUsedUp(l: Layout)
    requires l.Valid()
    ensures l.DataStart(l.numBlocks) == l.DataCodewords()
  {
    var n, r := l.numBlocks, l.rawCodewords % l.numBlocks;
    DataStartClosed(l, n);
    assert l.rawCodewords == (l.rawCodewords / n) * n + r;
    assert n * l.ShortData() == n * (l.rawCodewords / n) - n * l.eccLen;
  }

  lemma {:induction false} DataStartGrows(l: Layout, i: nat, j: nat)
    requires l.Valid() && i <= j
    ensures l.DataStart(i) <= l.DataStart(j)
    decreases j - i
  {
    if i < j { DataStartGrows(l, i + 1, j); }
  }

  function BlockData(l: Layout, data: Poly, i: nat): (d: Poly)
    requires l.Valid() && i < l.numBlocks && |data| == l.DataStart(l.numBlocks)
    ensures |d| == l.DataLength(i)
  {
    DataStartGrows(l, i + 1, l.numBlocks);
    data[l.DataStart(i)..l.DataStart(i + 1)]
  }

  /** The codewords of block i: its data and then its error correction. */
  function Block(l: Layout, data: Poly, i: nat): (b: Poly)
    requires l.Valid() && i < l.numBlocks && |data| == l.DataStart(l.numBlocks)
    ensures |b| == l.DataLength(i) + l.eccLen
  {
    BlockData(l, data, i) + Ecc(BlockData(l, data, i), l.eccLen)
  }

  /** Block i as the encoder stores it: short blocks get a filler byte between
      data and error correction, so that all have one length. */
  function PaddedBlock(l: Layout, data: Poly, i: nat): (b: Poly)
    requires l.Valid() && i < l.numBlocks && |data| == l.DataStart(l.numBlocks)
    ensures |b| == l.ShortData() + 1 + l.eccLen
  {
    BlockData(l, data, i) + (if i < l.NumShortBlocks() then [0] else []) + Ecc(BlockData(l, data, i), l.eccLen)
  }

  /** The first block that takes part in column c of the padded blocks. */
  function ColumnFrom(l: Layout, c: nat): nat
    requires l.Valid()
  {
    if c == l.ShortData() then l.NumShortBlocks() else 0
  }

  function Column(l: Layout, data: Poly, c: nat): (s: Poly)
    requires l.Valid() && |data| == l.DataStart(l.numBlocks) && c <= l.ShortData() + l.eccLen
    ensures |s| == l.numBlocks - ColumnFrom(l, c)
  {
    seq(l.numBlocks - ColumnFrom(l, c), t requires 0 <= t < l.numBlocks - ColumnFrom(l, c) =>
      PaddedBlock(l, data, ColumnFrom(l, c) + t)[c])
  }

  function Columns(l: Layout, data: Poly, c: nat): Poly
    requires l.Valid() && |data| == l.DataStart(l.numBlocks) && c <= l.ShortData() + 1 + l.eccLen
  {
    if c == 0 then [] else Columns(l, data, c - 1) + Column(l, data, c - 1)
  }

  /** The interleaved codewords of a symbol. */
  function Interleaved(l: Layout, data: Poly): Poly
    requires l.Valid() && |data| == l.DataStart(l.numBlocks)
  {
    Columns(l, data, l.ShortData() + 1 + l.eccLen)
  }

  datatype Outcome = Codewords(words: Poly) | InvalidArgument

  method AddEccAndInterleave(l: Layout, data: Poly) returns (outcome: Outcome)
    requires l.Valid()
    ensures |data| != l.DataCodewords() ==> outcome == InvalidArgument
    ensures |data| == l.DataCodewords() ==> |data| == l.DataStart(l.numBlocks)
    ensures |data| == l.DataCodewords() ==> outcome == Codewords(Interleaved(l, data))
  {
    hide Generator, Layout.DataStart, Column, ColumnPrefix, PaddedBlock;
    DataIsUsedUp(l);
    if |data| != l.DataCodewords() {
      return InvalidArgument;
    }
    var numShortBlocks := l.numBlocks - l.rawCodewords % l.numBlocks;
    var shortBlockLen := l.rawCodewords / l.numBlocks;
    var ok, divisor := ComputeDivisor(l.eccLen);
    var blocks := BuildBlocks(l, data, divisor[..], numShortBlocks, shortBlockLen);
    var result: Poly := [];
    for i := 0 to |blocks[0]|
      invariant result == Columns(l, data, i)
    {
      ghost var before := result;
      ColumnWhole(l, data, i);
      for j := 0 to |blocks|
        invariant result == before + ColumnPrefix(l, data, i, j)
      {
        if i != shortBlockLen - l.eccLen || j >= numShortBlocks {
          result := result + [blocks[j][i]];
        }
        ColumnNext(l, data, i, j);
      }
      ColumnWhole(l, data, i);
    }
    return Codewords(result);
  }

  /** The part of column c that the first j blocks contribute. */
  function ColumnPrefix(l: Layout, data: Poly, c: nat, j: nat): Poly
    requires l.Valid() && |data| == l.DataStart(l.numBlocks)
    requires c <= l.ShortData() + l.eccLen && j <= l.numBlocks
  {
    Column(l, data, c)[..if j < ColumnFrom(l, c) then 0 else j - ColumnFrom(l, c)]
  }

  lemma ColumnNext(l: Layout, data: Poly, c: nat, j: nat)
    requires l.Valid() && |data| == l.DataStart(l.numBlocks)
    requires c <= l.ShortData() + l.eccLen && j < l.numBlocks
    ensures ColumnPrefix(l, data, c, j + 1) == ColumnPrefix(l, data, c, j)
      + if c != l.ShortData() || j >= l.NumShortBlocks() then [PaddedBlock(l, data, j)[c]] else []
  {
    hide PaddedBlock;
  }

  lemma ColumnWhole(l: Layout, data: Poly, c: nat)
    requires l.Valid() && |data| == l.DataStart(l.numBlocks) && c <= l.ShortData() + l.eccLen
    ensures ColumnPrefix(l, data, c, 0) == [] && ColumnPrefix(l, data, c, l.numBlocks) == Column(l, data, c)
  {}

  method BuildBlocks(l: Layout, data: Poly, divisor: Poly, numShortBlocks: nat, shortBlockLen: nat)
    returns (blocks: seq<Poly>)
    requires l.Valid() && |data| == l.DataStart(l.numBlocks)
    requires divisor == Generator(l.eccLen)[1..]
    requires numShortBlocks == l.NumShortBlocks() && shortBlockLen == l.rawCodewords / l.numBlocks
    ensures |blocks| == l.numBlocks
    ensures forall i :: 0 <= i < l.numBlocks ==> blocks[i] == PaddedBlock(l, data, i)
  {
    hide Remainder, Generator, Layout.DataStart;
    StartsAtZero(l);
    blocks := [];
    var k := 0;
    for i := 0 to l.numBlocks
      invariant |blocks| == i && k == l.DataStart(i)
      invariant forall j :: 0 <= j < i ==> blocks[j] == PaddedBlock(l, data, j)
    {
      BlockBounds(l, i);
      var dat := data[k..k + shortBlockLen - l.eccLen + if i < numShortBlocks then 0 else 1];
      k := k + |dat|;
      var ecc := ComputeRemainder(dat, divisor);
      ghost var own := dat;
      if i < numShortBlocks {
        dat := dat + [0];
      }
      dat := dat + ecc;
      assert own == BlockData(l, data, i);
      assert ecc == Ecc(own, l.eccLen);
      assert dat == PaddedBlock(l, data, i);
      blocks := blocks + [dat];
    }
  }

  lemma StartsAtZero(l: Layout)
    requires l.Valid()
    ensures l.DataStart(0) == 0
  {}

  lemma BlockBounds(l: Layout, i: nat)
    requires l.Valid() && i < l.numBlocks
    ensures l.DataStart(i + 1) == l.DataStart(i) + l.DataLength(i) <= l.DataStart(l.numBlocks)
    ensures l.DataLength(i) == l.rawCodewords / l.numBlocks - l.eccLen + if i < l.NumShortBlocks() then 0 else 1
  {
    DataStartGrows(l, i + 1, l.numBlocks);
  }

  // ---- The reader ------------------------------------------------------------

  /** Where codeword c of block j is found in the interleaved sequence. */
  function Position(l: Layout, j: nat, c: nat): int
    requires l.Valid()
  {
    if c < l.ShortData() then c * l.numBlocks + j
    else if c < l.DataLength(j) then l.ShortData() * l.numBlocks + j - l.NumShortBlocks()
    else l.DataCodewords() + (c - l.DataLength(j)) * l.numBlocks + j
  }

  /** Block j, collected from the interleaved sequence. */
  function ReadBlock(l: Layout, words: Poly, j: nat): (b: Poly)
    requires l.Valid() && j < l.numBlocks && |words| == l.rawCodewords
    ensures |b| == l.DataLength(j) + l.eccLen
  {
    seq(l.DataLength(j) + l.eccLen, c requires 0 <= c < l.DataLength(j) + l.eccLen =>
      PositionInRange(l, j, c); words[Position(l, j, c)])
  }

  /** The data codewords of the first i blocks. */
  function ReadData(l: Layout, words: Poly, i: nat): Poly
    requires l.Valid() && i <= l.numBlocks && |words| == l.rawCodewords
  {
    if i == 0 then []
    else ReadData(l, words, i - 1) + ReadBlock(l, words, i - 1)[..l.DataLength(i - 1)]
  }

  function Deinterleave(l: Layout, words: Poly): Poly
    requires l.Valid() && |words| == l.rawCodewords
  {
    ReadData(l, words, l.numBlocks)
  }

  lemma RawSplit(l: Layout)
    requires l.Valid()
    ensures l.DataCodewords() == l.ShortData() * l.numBlocks + l.numBlocks - l.NumShortBlocks()
    ensures l.rawCodewords == l.DataCodewords() + l.eccLen * l.numBlocks
  {
    var q := l.rawCodewords / l.numBlocks;
    assert l.ShortData() * l.numBlocks == q * l.numBlocks - l.eccLen * l.numBlocks;
    assert l.rawCodewords == q * l.numBlocks + l.rawCodewords % l.numBlocks;
  }

  lemma MulMonotone(a: int, b: int, n: nat)
    requires a < b
    ensures a * n + n <= b * n
  {
    assert b * n == (b - a - 1) * n + a * n + n;
  }

  lemma PositionInRange(l: Layout, j: nat, c: nat)
    requires l.Valid() && j < l.numBlocks && c < l.DataLength(j) + l.eccLen
    ensures 0 <= Position(l, j, c) < l.rawCodewords
  {
    RawSplit(l);
    if c < l.ShortData() {
      MulMonotone(c, l.ShortData(), l.numBlocks);
    } else if c >= l.DataLength(j) {
      MulMonotone(c - l.DataLength(j), l.eccLen, l.numBlocks);
    }
  }

  /** The number of codewords in the first c padded columns. */
  function ColumnStart(l: Layout, c: nat): int
    requires l.Valid()
  {
    c * l.numBlocks - if c <= l.ShortData() then 0 else l.NumShortBlocks()
  }

  lemma {:induction false} ColumnsLength(l: Layout, data: Poly, c: nat)
    requires l.Valid() && |data| == l.DataStart(l.numBlocks) && c <= l.ShortData() + 1 + l.eccLen
    ensures |Columns(l, data, c)| == ColumnStart(l, c)
  {
    if c > 0 {
      ColumnsLength(l, data, c - 1);
      assert c * l.numBlocks == (c - 1) * l.numBlocks + l.numBlocks;
    }
  }

  /** The filler bytes, and nothing else, are left out. */
  lemma InterleavedLength(l: Layout, data: Poly)
    requires l.Valid() && |data| == l.DataStart(l.numBlocks)
    ensures |Interleaved(l, data)| == l.rawCodewords
  {
    hide Columns, ColumnStart;
    ColumnsLength(l, data, l.ShortData() + 1 + l.eccLen);
    LateColumnStart(l, l.eccLen);
    RawSplit(l);
  }

  lemma LateColumnStart(l: Layout, e: nat)
    requires l.Valid()
    ensures ColumnStart(l, l.ShortData() + 1 + e) == l.DataCodewords() + e * l.numBlocks
  {
    RawSplit(l);
    Distribute(l.ShortData(), e, l.numBlocks);
  }

  lemma Distribute(a: nat, b: nat, n: nat)
    ensures (a + 1 + b) * n == a * n + n + b * n
  {}

  lemma {:induction false} ColumnsAt(l: Layout, data: Poly, n: nat, c: nat, t: nat)
    requires l.Valid() && |data| == l.DataStart(l.numBlocks)
    requires c < n <= l.ShortData() + 1 + l.eccLen && t < l.numBlocks - ColumnFrom(l, c)
    ensures 0 <= ColumnStart(l, c) + t < |Columns(l, data, n)|
    ensures Columns(l, data, n)[ColumnStart(l, c) + t] == Column(l, data, c)[t]
  {
    ColumnsLength(l, data, c);
    if c < n - 1 {
      ColumnsAt(l, data, n - 1, c, t);
    }
  }

  lemma InterleavedAt(l: Layout, data: Poly, j: nat, c: nat)
    requires l.Valid() && |data| == l.DataStart(l.numBlocks)
    requires j < l.numBlocks && c < l.DataLength(j) + l.eccLen
    ensures 0 <= Position(l, j, c) < |Interleaved(l, data)|
    ensures Interleaved(l, data)[Position(l, j, c)] == Block(l, data, j)[c]
  {
    hide Ecc, Columns, Column, PaddedBlock, Block;
    var s, n := l.ShortData(), l.ShortData() + 1 + l.eccLen;
    var column := if c < l.DataLength(j) then c else c - l.DataLength(j) + s + 1;
    var t := j - ColumnFrom(l, column);
    ColumnPosition(l, j, c, column);
    ColumnsAt(l, data, n, column, t);
    ColumnCell(l, data, column, t);
    PaddedCell(l, data, j, c);
  }

  lemma ColumnPosition(l: Layout, j: nat, c: nat, column: nat)
    requires l.Valid() && j < l.numBlocks && c < l.DataLength(j) + l.eccLen
    requires column == if c < l.DataLength(j) then c else c - l.DataLength(j) + l.ShortData() + 1
    ensures column <= l.ShortData() + l.eccLen && j >= ColumnFrom(l, column)
    ensures ColumnStart(l, column) + j - ColumnFrom(l, column) == Position(l, j, c)
  {
    if column > l.ShortData() {
      LateColumnStart(l, column - l.ShortData() - 1);
    }
  }

  lemma ColumnCell(l: Layout, data: Poly, column: nat, t: nat)
    requires l.Valid() && |data| == l.DataStart(l.numBlocks)
    requires column <= l.ShortData() + l.eccLen && t < l.numBlocks - ColumnFrom(l, column)
    ensures Column(l, data, column)[t] == PaddedBlock(l, data, ColumnFrom(l, column) + t)[column]
  {
    hide PaddedBlock, Layout.DataStart;
  }

  lemma PaddedCell(l: Layout, data: Poly, j: nat, c: nat)
    requires l.Valid() && |data| == l.DataStart(l.numBlocks)
    requires j < l.numBlocks && c < l.DataLength(j) + l.eccLen
    ensures var column := if c < l.DataLength(j) then c else c - l.DataLength(j) + l.ShortData() + 1;
      PaddedBlock(l, data, j)[column] == Block(l, data, j)[c]
  {
    hide Ecc;
  }

  /** Every block comes back, data and error correction. */
  lemma ReadBlockInterleaved(l: Layout, data: Poly, j: nat)
    requires l.Valid() && |data| == l.DataStart(l.numBlocks) && j < l.numBlocks
    ensures |Interleaved(l, data)| == l.rawCodewords
    ensures ReadBlock(l, Interleaved(l, data), j) == Block(l, data, j)
  {
    hide Interleaved, Block, Position;
    InterleavedLength(l, data);
    var words := Interleaved(l, data);
    forall c | 0 <= c < l.DataLength(j) + l.eccLen
      ensures ReadBlock(l, words, j)[c] == Block(l, data, j)[c]
    {
      InterleavedAt(l, data, j, c);
    }
  }

  lemma {:induction false} ReadDataInterleaved(l: Layout, data: Poly, i: nat)
    requires l.Valid() && |data| == l.DataStart(l.numBlocks) && i <= l.numBlocks
    ensures |Interleaved(l, data)| == l.rawCodewords
    ensures l.DataStart(i) <= |data|
    ensures ReadData(l, Interleaved(l, data), i) == data[..l.DataStart(i)]
  {
    hide Interleaved, Ecc, ReadBlock;
    InterleavedLength(l, data);
    if i > 0 {
      ReadDataInterleaved(l, data, i - 1);
      ReadBlockInterleaved(l, data, i - 1);
      BlockBounds(l, i - 1);
    }
  }

  /** The whole data comes back. */
  lemma DeinterleaveInterleaved(l: Layout, data: Poly)
    requires l.Valid() && |data| == l.DataCodewords()
    ensures |data| == l.DataStart(l.numBlocks)
    ensures |Interleaved(l, data)| == l.rawCodewords
    ensures Deinterleave(l, Interleaved(l, data)) == data
  {
    DataIsUsedUp(l);
    ReadDataInterleaved(l, data, l.numBlocks);
  }

  /** Error correction of a whole symbol: if in each block at most half as many
      codewords arrive wrong as it has check symbols, then the received
      codewords determine the data. */
  lemma {:induction false} SymbolIsCorrectable(l: Layout, data: Poly, other: Poly, received: Poly, i: nat)
    requires l.Valid() && l.rawCodewords / l.numBlocks + 1 <= 255
    requires |data| == |other| == l.DataStart(l.numBlocks) && |received| == l.rawCodewords
    requires forall j :: 0 <= j < l.numBlocks ==>
      && 2 * Distance(Block(l, data, j), ReadBlock(l, received, j)) <= l.eccLen
      && 2 * Distance(ReadBlock(l, received, j), Block(l, other, j)) <= l.eccLen
    requires i <= l.numBlocks
    ensures l.DataStart(i) <= |data|
    ensures data[..l.DataStart(i)] == other[..l.DataStart(i)]
  {
    hide Distance, Ecc, ReadBlock;
    DataStartGrows(l, i, l.numBlocks);
    if i > 0 {
      SymbolIsCorrectable(l, data, other, received, i - 1);
      BlockBounds(l, i - 1);
      UniqueDecoding(BlockData(l, data, i - 1), BlockData(l, other, i - 1), l.eccLen, ReadBlock(l, received, i - 1));
      assert data[..l.DataStart(i)] == data[..l.DataStart(i - 1)] + BlockData(l, data, i - 1);
      assert other[..l.DataStart(i)] == other[..l.DataStart(i - 1)] + BlockData(l, other, i - 1);
    }
  }
}
