/** Finished symbols as pictures, and an ideal reader that knows nothing but
    the picture. */
module QrSymbols {
  import opened Binary
  import opened Placement
  import opened BitStrings
  import opened ReedSolomon
  import opened Masking
  import opened Interleaving
  import opened QrTables
  import opened FunctionPatterns
  import opened FunctionArea
  import opened Segments
  import opened Encoding

  predicate IsFormatCell(n: nat, c: Cell) {
    0 <= FormatOrder(n, c) < 31
  }

  /** The module at c after format information has been drawn over it. */
  predicate FormatOver(n: nat, bits: nat, c: Cell, below: bool) {
    if IsFormatCell(n, c) then FormatModule(bits, FormatOrder(n, c)) else below
  }

  ghost function WithFormat(n: nat, g: Grid, bits: nat): (r: Grid)
    requires Square(g, n)
    ensures Square(r, n)
  {
    seq(n, y requires 0 <= y < n => seq(n, x requires 0 <= x < n => FormatOver(n, bits, Cell(x, y), g[y][x])))
  }

  predicate Dark(i: Ink) {
    i.Ink? && i.dark
  }

  /** The function patterns on an otherwise light symbol. */
  ghost function BlankSymbol(v: nat, ecl: Ecl): (g: Grid)
    requires 1 <= v
    ensures Square(g, Size(v))
  {
    seq(Size(v), y => seq(Size(v), x => Dark(InkOf(Patterns(v, ecl), Cell(x, y)))))
  }

  /** All codewords of a symbol, interleaved. */
  ghost function SymbolWords(v: nat, ecl: Ecl, data: seq<Byte>): (words: seq<Byte>)
    requires Version(v) && |data| == NumDataCodewords(v, ecl)
  {
    LayoutsAreValid(v, ecl);
    DataIsUsedUp(LayoutOf(v, ecl));
    hide NumDataCodewords, Interleaved, LayoutOf;
    Interleaved(LayoutOf(v, ecl), data)
  }

  /** The symbol with its codewords, not yet masked. */
  ghost function DrawnSymbol(v: nat, ecl: Ecl, words: seq<Byte>): (g: Grid)
    requires Version(v)
    ensures Square(g, Size(v))
  {
    DrawnGrid(Size(v), FunctionGrid(v), BlankSymbol(v, ecl), words)
  }

  /** The finished symbol with a given mask. */
  ghost function FinishedSymbol(v: nat, ecl: Ecl, mask: nat, data: seq<Byte>): (g: Grid)
    requires Version(v) && |data| == NumDataCodewords(v, ecl)
    ensures Square(g, Size(v))
  {
    hide NumDataCodewords;
    MaskedSymbol(v, ecl, mask, SymbolWords(v, ecl, data))
  }

  ghost function MaskedSymbol(v: nat, ecl: Ecl, mask: nat, words: seq<Byte>): (g: Grid)
    requires Version(v)
    ensures Square(g, Size(v))
  {
    WithFormat(Size(v), Masked(Size(v), FunctionGrid(v), DrawnSymbol(v, ecl, words), mask), FormatBits(ecl, mask))
  }

  // ---- The reader: format information ----------------------------------------------

  /** Where bit k of the first copy of the format information stands. */
  function FormatCell(k: nat): Cell {
    if k < 6 then Cell(8, k)
    else if k == 6 then Cell(8, 7)
    else if k == 7 then Cell(8, 8)
    else if k == 8 then Cell(7, 8)
    else Cell(14 - k, 8)
  }

  lemma FormatCellOrder(n: nat, k: nat)
    requires n >= 21 && k < 15
    ensures FormatOrder(n, FormatCell(k)) == k && 0 <= FormatCell(k).x <= 8 && 0 <= FormatCell(k).y <= 8
  {}

  /** The 15 bits of format information in a picture. */
  ghost function ReadFormat(n: nat, g: Grid): nat
    requires Square(g, n) && n >= 21
  {
    Number(seq(15, i requires 0 <= i < 15 => FormatCellOrder(n, 14 - i); At(g, FormatCell(14 - i))))
  }

  lemma ReadFormatWritten(n: nat, g: Grid, bits: nat)
    requires Square(g, n) && n >= 21 && bits < Pow2(15)
    ensures ReadFormat(n, WithFormat(n, g, bits)) == bits
  {
    hide Number, BitsOf, Bit, Pow2, FormatOrder, FormatCell;
    var w := WithFormat(n, g, bits);
    var read := seq(15, i requires 0 <= i < 15 => FormatCellOrder(n, 14 - i); At(w, FormatCell(14 - i)));
    forall i | 0 <= i < 15 ensures read[i] == BitsOf(bits, 15)[i] {
      FormatCellOrder(n, 14 - i);
      BitsOfAt(bits, 15, i);
      var c := FormatCell(14 - i);
      assert w[c.y][c.x] == FormatOver(n, bits, Cell(c.x, c.y), g[c.y][c.x]);
    }
    assert read == BitsOf(bits, 15);
    NumberBitsOf(bits, 15);
  }

  function LevelOf(code: nat): Ecl {
    match code
    case 0 => MEDIUM
    case 1 => LOW
    case 2 => HIGH
    case _ => QUARTILE
  }

  // ---- The reader: codewords -----------------------------------------------------------

  lemma WholeOctets(r: nat)
    ensures 0 <= 8 * (r / 8) <= r && (8 * (r / 8)) % 8 == 0 && 8 * (r / 8) / 8 == r / 8
  {}

  /** The codewords of a symbol whose mask is known. */
  ghost function ReadWords(v: nat, g: Grid, mask: nat): (words: seq<Byte>)
    requires Version(v) && Square(g, Size(v))
    ensures |words| == NumRawDataModules(v) / 8
  {
    hide NumRawDataModules, ScanLength, Rank, ReadBits, Masked, FunctionGrid, Size, Pack;
    var n, f := Size(v), FunctionGrid(v);
    FreeModules(v);
    ReadLength(n, f, Masked(n, f, g, mask), ScanLength(n));
    WholeOctets(NumRawDataModules(v));
    Pack(ReadBits(n, f, Masked(n, f, g, mask), ScanLength(n))[..8 * (NumRawDataModules(v) / 8)])
  }

  /** Reads a picture: size, format information, mask, codewords in the order
      of the scan, blocks, segments. */
  ghost function ReadSymbol(g: Grid): Parsed {
    hide *;
    var n := |g|;
    if !(21 <= n <= 177 && (n - 17) % 4 == 0 && Square(g, n)) then Malformed
    else
      var v: nat := (n - 17) / 4;
      SizeOf(v, n);
      var format := Xor(ReadFormat(n, g), 0x5412) / 1024;
      var ecl, mask := LevelOf(format / 8), format % 8;
      LayoutsAreValid(v, ecl);
      RawCodewords(v, ecl);
      Parse(CodewordBits(Deinterleave(LayoutOf(v, ecl), ReadWords(v, g, mask))), v)
  }

  lemma SizeOf(v: nat, n: nat)
    requires n == 4 * v + 17
    ensures Size(v) == n && (21 <= n <= 177 ==> Version(v))
  {}

  lemma RawCodewords(v: nat, ecl: Ecl)
    requires Version(v)
    ensures LayoutOf(v, ecl).rawCodewords == NumRawDataModules(v) / 8
  {
    hide NumRawDataModules, EccCodewordsPerBlock, NumErrorCorrectionBlocks;
  }

  // ---- The reader undoes the encoder --------------------------------------------------------

  lemma FormatIsFunction(v: nat, c: Cell)
    requires Version(v) && 0 <= c.x < Size(v) && 0 <= c.y < Size(v) && IsFormatCell(Size(v), c)
    ensures c in Area(v)
  {
    hide FixedArea, VersionArea, AlignmentArea, FormatOrder, InFixedArea;
    CornersCovered(v, c);
    FixedAreaFacts(v);
  }

  /** Format information does not touch the data. */
  lemma FormatKeepsData(v: nat, g: Grid, bits: nat)
    requires Version(v) && Square(g, Size(v))
    ensures SameData(Size(v), FunctionGrid(v), WithFormat(Size(v), g, bits), g)
  {
    hide FormatOrder, Area, FormatModule;
    forall y, x | 0 <= y < Size(v) && 0 <= x < Size(v) && !FunctionGrid(v)[y][x]
      ensures WithFormat(Size(v), g, bits)[y][x] == g[y][x]
    {
      if IsFormatCell(Size(v), Cell(x, y)) {
        FormatIsFunction(v, Cell(x, y));
      }
    }
  }

  /** Unmasking a finished symbol gives its data modules back. */
  lemma UnmaskFinished(v: nat, ecl: Ecl, mask: nat, words: seq<Byte>)
    requires Version(v)
    ensures SameData(Size(v), FunctionGrid(v),
      Masked(Size(v), FunctionGrid(v), MaskedSymbol(v, ecl, mask, words), mask), DrawnSymbol(v, ecl, words))
  {
    hide DrawnSymbol, WithFormat, Masked, FormatBits, FunctionGrid, Size;
    var n, f, drawn := Size(v), FunctionGrid(v), DrawnSymbol(v, ecl, words);
    var masked := Masked(n, f, drawn, mask);
    FormatKeepsData(v, masked, FormatBits(ecl, mask));
    MaskKeepsFunctionModules(n, f, MaskedSymbol(v, ecl, mask, words), masked, mask);
    MaskTwice(n, f, drawn, mask);
  }

  /** The codewords come back from the picture. */
  lemma WordsOfFinished(v: nat, ecl: Ecl, mask: nat, words: seq<Byte>)
    requires Version(v) && |words| == NumRawDataModules(v) / 8
    ensures ReadWords(v, MaskedSymbol(v, ecl, mask, words), mask) == words
  {
    UnmaskFinished(v, ecl, mask, words);
    FreeModules(v);
    hide NumRawDataModules, ScanLength, Rank, ReadBits, Masked, FunctionGrid, Size, Pack;
    hide MaskedSymbol, DrawnGrid, BlankSymbol, CodewordBits;
    var n, f, drawn := Size(v), FunctionGrid(v), DrawnSymbol(v, ecl, words);
    var unmasked := Masked(n, f, MaskedSymbol(v, ecl, mask, words), mask);
    ReadSameData(n, f, unmasked, drawn, ScanLength(n));
    ReadBack(n, f, BlankSymbol(v, ecl), words);
    PackCodewordBits(words);
  }

  lemma FormatOfFinished(v: nat, ecl: Ecl, mask: nat, words: seq<Byte>)
    requires Version(v) && mask < 8
    ensures var format := Xor(ReadFormat(Size(v), MaskedSymbol(v, ecl, mask, words)), 0x5412) / 1024;
      LevelOf(format / 8) == ecl && format % 8 == mask
  {
    hide ReadFormat, WithFormat, Masked, Xor, FormatBits, DrawnSymbol, FunctionGrid;
    FormatBitsBound(ecl, mask);
    ReadFormatWritten(Size(v), Masked(Size(v), FunctionGrid(v), DrawnSymbol(v, ecl, words), mask), FormatBits(ecl, mask));
    LevelOfCode(ecl, mask);
  }

  lemma LevelOfCode(ecl: Ecl, mask: nat)
    requires mask < 8
    ensures LevelOf((ecl.FormatCode() * 8 + mask) / 8) == ecl && (ecl.FormatCode() * 8 + mask) % 8 == mask
  {}

  /** Whatever segments fit a symbol, the reader finds them in its picture. */
  lemma SymbolIsReadable(v: nat, ecl: Ecl, mask: nat, segs: seq<Segment>)
    requires Version(v) && mask < 8 && Fits(segs, v, ecl)
    requires forall i :: 0 <= i < |segs| ==> WellFormed(segs[i])
    ensures ReadSymbol(FinishedSymbol(v, ecl, mask, DataCodewords(segs, v, ecl))) == Parsed(segs)
  {
    hide MaskedSymbol, DataCodewords, Parse, CodewordBits, Deinterleave, LayoutOf, ReadWords, ReadFormat, Xor;
    hide LevelOf, Fits, WellFormed, Size, NumDataCodewords, NumRawDataModules, Interleaved;
    var data := DataCodewords(segs, v, ecl);
    SizeOf(v, 4 * v + 17);
    LayoutsAreValid(v, ecl);
    RawCodewords(v, ecl);
    DeinterleaveInterleaved(LayoutOf(v, ecl), data);
    FormatOfFinished(v, ecl, mask, SymbolWords(v, ecl, data));
    WordsOfFinished(v, ecl, mask, SymbolWords(v, ecl, data));
    ParseCodewords(segs, v, ecl);
  }

  /** Within half the check symbols of each block wrong, the received codewords
      can stand for the segments of one symbol only. */
  ghost predicate Explains(v: nat, ecl: Ecl, segs: seq<Segment>, received: seq<Byte>)
    requires Version(v) && Fits(segs, v, ecl) && |received| == NumRawDataModules(v) / 8
  {
    LayoutsAreValid(v, ecl);
    RawCodewords(v, ecl);
    DataIsUsedUp(LayoutOf(v, ecl));
    hide DataCodewords, LayoutOf, Fits, NumDataCodewords;
    var l, data := LayoutOf(v, ecl), DataCodewords(segs, v, ecl);
    forall j :: 0 <= j < l.numBlocks ==> WithinReach(l, data, received, j)
  }

  ghost predicate WithinReach(l: Layout, data: seq<Byte>, received: seq<Byte>, j: nat)
    requires l.Valid() && |data| == l.DataStart(l.numBlocks) && |received| == l.rawCodewords && j < l.numBlocks
  {
    2 * Distance(Block(l, data, j), ReadBlock(l, received, j)) <= l.eccLen
  }

  lemma WithinReachBack(l: Layout, data: seq<Byte>, received: seq<Byte>, j: nat)
    requires l.Valid() && |data| == l.DataStart(l.numBlocks) && |received| == l.rawCodewords && j < l.numBlocks
    requires WithinReach(l, data, received, j)
    ensures 2 * Distance(ReadBlock(l, received, j), Block(l, data, j)) <= l.eccLen
  {
    hide Distance, Block, ReadBlock;
    DistanceCommutes(Block(l, data, j), ReadBlock(l, received, j));
  }

  lemma DamageIsUnambiguous(v: nat, ecl: Ecl, segs: seq<Segment>, other: seq<Segment>, received: seq<Byte>)
    requires Version(v) && Fits(segs, v, ecl) && Fits(other, v, ecl) && |received| == NumRawDataModules(v) / 8
    requires forall i :: 0 <= i < |segs| ==> WellFormed(segs[i])
    requires forall i :: 0 <= i < |other| ==> WellFormed(other[i])
    requires Explains(v, ecl, segs, received) && Explains(v, ecl, other, received)
    ensures segs == other
  {
    hide DataCodewords, LayoutOf, Fits, NumDataCodewords, WellFormed, Distance, Block, ReadBlock, Parse;
    hide NumRawDataModules, Layout.DataStart, CodewordBits;
    LayoutsAreValid(v, ecl);
    RawCodewords(v, ecl);
    var l, d, e := LayoutOf(v, ecl), DataCodewords(segs, v, ecl), DataCodewords(other, v, ecl);
    DataIsUsedUp(l);
    forall j | 0 <= j < l.numBlocks
      ensures 2 * Distance(Block(l, d, j), ReadBlock(l, received, j)) <= l.eccLen
      ensures 2 * Distance(ReadBlock(l, received, j), Block(l, e, j)) <= l.eccLen
    {
      assert WithinReach(l, d, received, j) && WithinReach(l, e, received, j);
      WithinReachBack(l, e, received, j);
    }
    SymbolIsCorrectable(l, d, e, received, l.numBlocks);
    assert d == d[..|d|] && e == e[..|e|];
    ParseCodewords(segs, v, ecl);
    ParseCodewords(other, v, ecl);
  }
}
