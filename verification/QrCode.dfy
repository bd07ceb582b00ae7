/** The symbol object: its grids are drawn in place, masked, judged and
    finished. */
module QrCodes {
  import opened Binary
  import opened Placement
  import opened BitStrings
  import opened Masking
  import opened Interleaving
  import opened QrTables
  import opened FunctionPatterns
  import opened FunctionArea
  import opened Segments
  import opened Encoding
  import opened QrSymbols

  const MAX_PENALTY := 2568888
  const LONG_MAX := 0x7FFF_FFFF

  /** An all-light grid. */
  ghost function Light(n: nat): (g: Grid)
    ensures Square(g, n)
  {
    seq(n, _ => seq(n, _ => false))
  }

  /** Mask m has the least penalty among the finished symbols of all eight
      masks, and the least number among those. */
  ghost predicate IsBest(penalty: Grid -> int, v: nat, ecl: Ecl, words: seq<Byte>, m: nat)
    requires Version(v)
  {
    m < 8 && BestUpTo(penalty, v, ecl, words, m, 8)
  }

  ghost predicate BestUpTo(penalty: Grid -> int, v: nat, ecl: Ecl, words: seq<Byte>, m: nat, n: nat)
    requires Version(v)
  {
    forall i: nat :: i < n ==> BetterThan(penalty, v, ecl, words, m, i)
  }

  lemma NextBest(penalty: Grid -> int, v: nat, ecl: Ecl, words: seq<Byte>, i: nat, m: int, least: int)
    requires Version(v)
    requires i == 0 || (0 <= m < i && BestUpTo(penalty, v, ecl, words, m, i))
    requires i > 0 ==> least == penalty(MaskedSymbol(v, ecl, m, words))
    ensures i == 0 || penalty(MaskedSymbol(v, ecl, i, words)) < least ==> BestUpTo(penalty, v, ecl, words, i, i + 1)
    ensures i > 0 && penalty(MaskedSymbol(v, ecl, i, words)) >= least ==> BestUpTo(penalty, v, ecl, words, m, i + 1)
  {
    hide MaskedSymbol;
    if i == 0 || penalty(MaskedSymbol(v, ecl, i, words)) < least {
      forall k: nat | k < i + 1 ensures BetterThan(penalty, v, ecl, words, i, k) {
        if k < i {
          assert BetterThan(penalty, v, ecl, words, m, k);
        }
      }
    }
  }

  ghost predicate BetterThan(penalty: Grid -> int, v: nat, ecl: Ecl, words: seq<Byte>, m: nat, i: nat)
    requires Version(v)
  {
    var p, q := penalty(MaskedSymbol(v, ecl, m, words)), penalty(MaskedSymbol(v, ecl, i, words));
    p <= q && (i < m ==> p < q)
  }

  datatype Built = Code(code: QrCode) | DomainError | InvalidArgument | LengthError | TooLong(reason: Choice)

  class QrCode {
    var version: nat
    var size: nat
    var errorCorrectionLevel: Ecl
    var mask: int
    var modules: array2<bool>
    var isFunction: array2<bool>

    ghost predicate Shape()
      reads this
    {
      Version(version) && size == Size(version) && Canvas(modules, isFunction, size)
    }

    constructor (ver: nat, ecl: Ecl)
      requires Version(ver)
      ensures Shape() && fresh(modules) && fresh(isFunction)
      ensures version == ver && errorCorrectionLevel == ecl
      ensures Picture(modules) == Light(size) && Picture(isFunction) == Light(size)
    {
      version, size, errorCorrectionLevel, mask := ver, Size(ver), ecl, -1;
      modules := new bool[Size(ver), Size(ver)]((_, _) => false);
      isFunction := new bool[Size(ver), Size(ver)]((_, _) => false);
      new;
      assert forall y :: 0 <= y < size ==> Picture(modules)[y] == Light(size)[y];
      assert forall y :: 0 <= y < size ==> Picture(isFunction)[y] == Light(size)[y];
    }

    /** The state after the function patterns are drawn. */
    method DrawPatterns()
      requires Shape() && Picture(modules) == Light(size) && Picture(isFunction) == Light(size)
      modifies modules, isFunction
      ensures Picture(modules) == BlankSymbol(version, errorCorrectionLevel)
      ensures Picture(isFunction) == FunctionGrid(version)
    {
      hide InkOf, Patterns, PaintedPicture, Size;
      DrawFunctionPatterns(modules, isFunction, version, errorCorrectionLevel);
      PatternsPainted(version, errorCorrectionLevel, Picture(modules), Picture(isFunction));
    }

    /** Places the codewords; refuses a wrong number of them. All their bits
        find room. */
    method DrawCodewords(words: seq<Byte>) returns (ok: bool)
      requires Shape() && Picture(isFunction) == FunctionGrid(version)
      modifies modules
      ensures ok == (|words| == NumRawDataModules(version) / 8)
      ensures Picture(modules) == if ok then DrawnGrid(size, FunctionGrid(version), old(Picture(modules)), words)
                                  else old(Picture(modules))
    {
      hide NumRawDataModules, DrawnGrid, FunctionGrid, Rank, ScanLength;
      if |words| != NumRawDataModules(version) / 8 {
        return false;
      }
      FreeModules(version);
      var i := DrawBits(modules, isFunction, words);
      assert i == 8 * |words|;
      return true;
    }

    /** Masks the symbol and overwrites its format information. */
    method MaskAndFormat(m: nat, ghost drawn: Grid)
      requires Shape() && m < 8 && Square(drawn, size)
      requires Picture(isFunction) == FunctionGrid(version) && SameButFormat(size, Picture(modules), drawn)
      modifies modules, isFunction
      ensures Picture(isFunction) == FunctionGrid(version)
      ensures Picture(modules) == WithFormat(size, Masked(size, FunctionGrid(version), drawn, m),
                                             FormatBits(errorCorrectionLevel, m))
    {
      hide Masked, FunctionGrid, FormatBits, WithFormat, PaintedPicture, InkOf, SameButFormat, Size;
      ghost var before := Picture(modules);
      var ok := ApplyMask(modules, isFunction, m);
      ghost var masked := Picture(modules);
      SizeRange(version);
      DrawFormatBits(modules, isFunction, errorCorrectionLevel, m);
      FormatPainted(version, masked, FormatBits(errorCorrectionLevel, m), Picture(modules), Picture(isFunction));
      MaskBeforeFormat(version, before, drawn, m, FormatBits(errorCorrectionLevel, m));
    }

    /** Tries all eight masks and picks the one with the least penalty; the
        data modules are left as they were. */
    method ChooseMask(penalty: Grid -> int, ghost words: seq<Byte>) returns (msk: int)
      requires Shape()
      requires forall g :: 0 <= penalty(g) <= MAX_PENALTY
      requires Picture(isFunction) == FunctionGrid(version)
      requires SameButFormat(size, Picture(modules), DrawnSymbol(version, errorCorrectionLevel, words))
      modifies modules, isFunction
      ensures Picture(isFunction) == FunctionGrid(version)
      ensures SameButFormat(size, Picture(modules), DrawnSymbol(version, errorCorrectionLevel, words))
      ensures 0 <= msk < 8 && IsBest(penalty, version, errorCorrectionLevel, words, msk)
    {
      hide Masked, FunctionGrid, FormatBits, WithFormat, SameButFormat, Size, DrawnSymbol, IsFormatCell,
           BestUpTo, BetterThan;
      ghost var v, ecl, drawn := version, errorCorrectionLevel, DrawnSymbol(version, errorCorrectionLevel, words);
      msk := -1;
      var minPenalty := LONG_MAX;
      for i := 0 to 8
        invariant Picture(isFunction) == FunctionGrid(version)
        invariant SameButFormat(size, Picture(modules), drawn)
        invariant i == 0 ==> minPenalty == LONG_MAX
        invariant i > 0 ==> 0 <= msk < i && minPenalty == penalty(MaskedSymbol(v, ecl, msk, words))
        invariant i > 0 ==> BestUpTo(penalty, v, ecl, words, msk, i)
      {
        MaskAndFormat(i, drawn);
        var score := penalty(Picture(modules));
        assert Picture(modules) == MaskedSymbol(v, ecl, i, words);
        NextBest(penalty, v, ecl, words, i, msk, minPenalty);
        if score < minPenalty {
          msk, minPenalty := i, score;
        }
        UnmaskSameButFormat(v, drawn, i, FormatBits(ecl, i));
        var ok := ApplyMask(modules, isFunction, i);
      }
    }

    /** Builds a symbol from its data codewords, with a given mask or, for -1,
        the best one. */
    static method Build(ver: int, ecl: Ecl, dataCodewords: seq<Byte>, msk: int, penalty: Grid -> int) returns (r: Built)
      requires forall g :: 0 <= penalty(g) <= MAX_PENALTY
      ensures r.DomainError? <==> !Version(ver) || msk < -1 || msk > 7
      ensures r.InvalidArgument? <==>
        Version(ver) && -1 <= msk <= 7 && |dataCodewords| != NumDataCodewords(ver, ecl)
      ensures !r.TooLong? && !r.LengthError?
      ensures r.Code? ==>
        && fresh(r.code) && r.code.version == ver && r.code.size == Size(ver) && r.code.errorCorrectionLevel == ecl
        && 0 <= r.code.mask < 8 && (msk != -1 ==> r.code.mask == msk)
        && (msk == -1 ==> IsBest(penalty, ver, ecl, SymbolWords(ver, ecl, dataCodewords), r.code.mask))
        && Picture(r.code.modules) == FinishedSymbol(ver, ecl, r.code.mask, dataCodewords)
    {
      hide NumDataCodewords, FunctionGrid, BlankSymbol, WithFormat, Masked, SameButFormat, Size;
      hide DrawnGrid, Interleaved, LayoutOf, Layout.DataStart, FormatBits, IsBest, NumRawDataModules, Light;
      if !Version(ver) || msk < -1 || msk > 7 {
        return Built.DomainError;
      }
      var code := new QrCode(ver, ecl);
      code.DrawPatterns();
      LayoutsAreValid(ver, ecl);
      RawCodewords(ver, ecl);
      var outcome := AddEccAndInterleave(LayoutOf(ver, ecl), dataCodewords);
      if outcome.InvalidArgument? {
        return Built.InvalidArgument;
      }
      InterleavedLength(LayoutOf(ver, ecl), dataCodewords);
      var drawn := code.DrawCodewords(outcome.words);
      LayoutFits(ver, ecl, dataCodewords);
      SameAsItself(code.size, Picture(code.modules));
      var best := msk;
      if msk == -1 {
        best := code.ChooseMask(penalty, outcome.words);
      }
      code.MaskAndFormat(best, DrawnSymbol(ver, ecl, outcome.words));
      code.mask := best;
      code.isFunction := new bool[0, 0];
      return Code(code);
    }

    /** Encodes segments in the least version that holds them. */
    static method EncodeSegments(segs: seq<Segment>, ecl: Ecl, minVersion: int, maxVersion: int, mask: int,
                                 boostEcl: bool, penalty: Grid -> int) returns (r: Built)
      requires forall g :: 0 <= penalty(g) <= MAX_PENALTY
      ensures r.InvalidArgument? <==> !(1 <= minVersion <= maxVersion <= 40) || mask < -1 || mask > 7
      ensures !r.DomainError? && !r.LengthError?
      ensures r.TooLong? ==> !r.reason.Chosen? && forall v: nat :: minVersion <= v <= maxVersion ==> !Fits(segs, v, ecl)
      ensures r.TooLong? && r.reason.DataTooLong? ==>
        && CountsFit(segs, maxVersion) && r.reason.usedBits == |ListBits(segs, maxVersion)|
        && r.reason.capacityBits == Capacity(maxVersion, ecl) < r.reason.usedBits
      ensures r.TooLong? && r.reason.SegmentTooLong? ==>
        !CountsFit(segs, maxVersion) || |ListBits(segs, maxVersion)| > INT_MAX
      ensures r.Code? ==>
        && var c := r.code;
        && minVersion <= c.version <= maxVersion && Fits(segs, c.version, ecl)
        && (forall v: nat :: minVersion <= v < c.version ==> !Fits(segs, v, ecl))
        && Fits(segs, c.version, c.errorCorrectionLevel) && ecl.Ordinal() <= c.errorCorrectionLevel.Ordinal()
        && (!boostEcl ==> c.errorCorrectionLevel == ecl)
        && (boostEcl ==> forall e: Ecl :: c.errorCorrectionLevel.Ordinal() < e.Ordinal() ==> !Fits(segs, c.version, e))
        && 0 <= c.mask < 8 && (mask != -1 ==> c.mask == mask)
        && Picture(c.modules) == FinishedSymbol(c.version, c.errorCorrectionLevel, c.mask,
                                                DataCodewords(segs, c.version, c.errorCorrectionLevel))
        && (mask == -1 ==> IsBest(penalty, c.version, c.errorCorrectionLevel,
                                  SymbolWords(c.version, c.errorCorrectionLevel,
                                              DataCodewords(segs, c.version, c.errorCorrectionLevel)), c.mask))
    {
      hide FinishedSymbol, IsBest, CountsFit, ListBits, Capacity, NumDataCodewords, Padded, Pack;
      if !(1 <= minVersion <= maxVersion <= 40) || mask < -1 || mask > 7 {
        return Built.InvalidArgument;
      }
      var choice := ChooseVersion(segs, ecl, minVersion, maxVersion);
      if !choice.Chosen? {
        return TooLong(choice);
      }
      var version := choice.version;
      var level := BoostLevel(version, ecl, choice.used, boostEcl);
      var bb := Concatenate(segs, version);
      CapacityIsOctets(version, level);
      bb := PadToCapacity(bb, Capacity(version, level));
      var words := PackCodewords(bb);
      assert words[..] == DataCodewords(segs, version, level);
      r := Build(version, level, words[..], mask, penalty);
    }

    /** The least of all versions that holds the segments at the level asked
        for, the highest level that still holds them, and the mask with the
        least penalty. */
    static ghost predicate Optimal(version: nat, level: Ecl, mask: int, segs: seq<Segment>, ecl: Ecl, penalty: Grid -> int) {
      && 1 <= version <= 40 && Fits(segs, version, ecl)
      && (forall v: nat :: 1 <= v < version ==> !Fits(segs, v, ecl))
      && ecl.Ordinal() <= level.Ordinal() && Fits(segs, version, level)
      && (forall e: Ecl :: level.Ordinal() < e.Ordinal() ==> !Fits(segs, version, e))
      && 0 <= mask < 8
      && IsBest(penalty, version, level, SymbolWords(version, level, DataCodewords(segs, version, level)), mask)
    }

    static lemma IsOptimal(version: nat, level: Ecl, mask: int, segs: seq<Segment>, ecl: Ecl, penalty: Grid -> int)
      requires 1 <= version <= 40 && Fits(segs, version, ecl)
      requires forall v: nat :: 1 <= v < version ==> !Fits(segs, v, ecl)
      requires ecl.Ordinal() <= level.Ordinal() && Fits(segs, version, level)
      requires forall e: Ecl :: level.Ordinal() < e.Ordinal() ==> !Fits(segs, version, e)
      requires 0 <= mask < 8
      requires IsBest(penalty, version, level, SymbolWords(version, level, DataCodewords(segs, version, level)), mask)
      ensures Optimal(version, level, mask, segs, ecl, penalty)
    {
      hide Fits, IsBest, DataCodewords;
    }

    /** Encodes a text. An ideal reader that is given the modules of the symbol
        finds the text again. */
    static method EncodeText(text: seq<Char>, ecl: Ecl, penalty: Grid -> int) returns (r: Built)
      requires BestMode(text) != BYTE ==> |text| <= INT_MAX
      requires forall g :: 0 <= penalty(g) <= MAX_PENALTY
      ensures r.Code? || r.TooLong? || r.LengthError?
      ensures r.LengthError? <==> |text| > INT_MAX
      ensures r.TooLong? <==> |text| <= INT_MAX && forall v: nat :: 1 <= v <= 40 ==> !Fits(SegmentsOf(text), v, ecl)
      ensures r.Code? ==>
        && Optimal(r.code.version, r.code.errorCorrectionLevel, r.code.mask, SegmentsOf(text), ecl, penalty)
        && ReadSymbol(Picture(r.code.modules)) == Parsed(SegmentsOf(text))
        && TextOf(SegmentsOf(text)) == text
    {
      hide FinishedSymbol, IsBest, Fits, ReadSymbol, DataCodewords, SegmentsOf, WellFormed, TextOf, BestMode, Optimal;
      var made := MakeSegments(text);
      if made.TextTooLong? {
        return Built.LengthError;
      }
      var segs := made.segs;
      r := EncodeSegments(segs, ecl, 1, 40, -1, true, penalty);
      TextIsWellFormed(text);
      if r.Code? {
        IsOptimal(r.code.version, r.code.errorCorrectionLevel, r.code.mask, segs, ecl, penalty);
        SymbolIsReadable(r.code.version, r.code.errorCorrectionLevel, r.code.mask, segs);
      }
    }

    /** The same for any bytes, as one segment. */
    static method EncodeBinary(data: seq<Byte>, ecl: Ecl, penalty: Grid -> int) returns (r: Built)
      requires forall g :: 0 <= penalty(g) <= MAX_PENALTY
      ensures Encodable(BYTE, data)
      ensures r.Code? || r.TooLong? || r.LengthError?
      ensures r.LengthError? <==> |data| > INT_MAX
      ensures r.TooLong? <==>
        |data| <= INT_MAX && forall v: nat :: 1 <= v <= 40 ==> !Fits([SegmentOf(BYTE, data)], v, ecl)
      ensures r.Code? ==>
        && Optimal(r.code.version, r.code.errorCorrectionLevel, r.code.mask, [SegmentOf(BYTE, data)], ecl, penalty)
        && ReadSymbol(Picture(r.code.modules)) == Parsed([SegmentOf(BYTE, data)])
        && TextOf([SegmentOf(BYTE, data)]) == data
    {
      hide FinishedSymbol, IsBest, Fits, ReadSymbol, DataCodewords, WellFormed, TextOf, SegmentOf, Encodable, Optimal;
      BytesAreWellFormed(data);
      var made := MakeBytes(data);
      if made.LengthError? {
        return Built.LengthError;
      }
      var segs := [made.segment];
      r := EncodeSegments(segs, ecl, 1, 40, -1, true, penalty);
      if r.Code? {
        IsOptimal(r.code.version, r.code.errorCorrectionLevel, r.code.mask, segs, ecl, penalty);
        SymbolIsReadable(r.code.version, r.code.errorCorrectionLevel, r.code.mask, segs);
      }
    }
  }

  lemma CapacityIsOctets(v: nat, ecl: Ecl)
    requires Version(v)
    ensures Capacity(v, ecl) == 8 * NumDataCodewords(v, ecl) > 0 && Capacity(v, ecl) % 8 == 0
  {
    CapacityBound(v, ecl);
    hide NumDataCodewords;
  }

  lemma SizeRange(v: nat)
    requires Version(v)
    ensures 21 <= Size(v) <= 177
  {}

  /** What drawing the function patterns on a light canvas leaves. */
  lemma PatternsPainted(v: nat, ecl: Ecl, g: Grid, f: Grid)
    requires Version(v) && Square(g, Size(v)) && Square(f, Size(v))
    requires PaintedPicture(Size(v), Light(Size(v)), Light(Size(v)), Patterns(v, ecl), g, f)
    ensures g == BlankSymbol(v, ecl) && f == FunctionGrid(v)
  {
    hide InkOf, Patterns, Area;
    var n, blank, area := Size(v), BlankSymbol(v, ecl), FunctionGrid(v);
    forall y, x | 0 <= y < n && 0 <= x < n ensures g[y][x] == blank[y][x] && f[y][x] == area[y][x] {
      PatternsCoverArea(v, ecl, Cell(x, y));
    }
    assert forall y :: 0 <= y < n ==> g[y] == blank[y];
    assert forall y :: 0 <= y < n ==> f[y] == area[y];
  }

  lemma FormatInkAt(n: nat, bits: nat, c: Cell)
    ensures InkOf(Format(n, bits, 31), c)
         == if IsFormatCell(n, c) then Ink(FormatModule(bits, FormatOrder(n, c))) else Clear
  {
    hide FormatOrder, FormatModule, TimingInk, FinderInk, AlignmentInk, VersionInk;
  }

  /** What drawing format information over a picture leaves. */
  lemma FormatPainted(v: nat, g: Grid, bits: nat, g1: Grid, f1: Grid)
    requires Version(v) && Square(g, Size(v)) && Square(g1, Size(v)) && Square(f1, Size(v))
    requires PaintedPicture(Size(v), g, FunctionGrid(v), Format(Size(v), bits, 31), g1, f1)
    ensures g1 == WithFormat(Size(v), g, bits) && f1 == FunctionGrid(v)
  {
    hide InkOf, FormatOrder, FormatModule, Area, IsFormatCell, Size;
    var n, w, f := Size(v), WithFormat(Size(v), g, bits), FunctionGrid(v);
    forall y, x | 0 <= y < n && 0 <= x < n ensures g1[y][x] == w[y][x] && f1[y][x] == f[y][x] {
      FormatInkAt(n, bits, Cell(x, y));
      if IsFormatCell(n, Cell(x, y)) {
        FormatIsFunction(v, Cell(x, y));
      }
    }
    assert forall y :: 0 <= y < n ==> g1[y] == w[y];
    assert forall y :: 0 <= y < n ==> f1[y] == f[y];
  }

  /** Pictures that agree outside the format information. */
  ghost predicate SameButFormat(n: nat, g: Grid, h: Grid)
    requires Square(g, n) && Square(h, n)
  {
    forall y, x :: 0 <= y < n && 0 <= x < n && !IsFormatCell(n, Cell(x, y)) ==> g[y][x] == h[y][x]
  }

  lemma SameAsItself(n: nat, g: Grid)
    requires Square(g, n)
    ensures SameButFormat(n, g, g)
  {
    hide IsFormatCell;
  }

  lemma MaskBeforeFormat(v: nat, g: Grid, h: Grid, m: nat, bits: nat)
    requires Version(v) && Square(g, Size(v)) && Square(h, Size(v)) && SameButFormat(Size(v), g, h)
    ensures WithFormat(Size(v), Masked(Size(v), FunctionGrid(v), g, m), bits)
         == WithFormat(Size(v), Masked(Size(v), FunctionGrid(v), h, m), bits)
  {
    hide IsFormatCell, FormatModule, FormatOrder, Inverts, FunctionGrid, Size;
    var n, f := Size(v), FunctionGrid(v);
    var a, b := WithFormat(n, Masked(n, f, g, m), bits), WithFormat(n, Masked(n, f, h, m), bits);
    forall y | 0 <= y < n ensures a[y] == b[y] {
      assert forall x :: 0 <= x < n ==> a[y][x] == b[y][x];
    }
  }

  lemma UnmaskSameButFormat(v: nat, drawn: Grid, m: nat, bits: nat)
    requires Version(v) && Square(drawn, Size(v))
    ensures SameButFormat(Size(v),
      Masked(Size(v), FunctionGrid(v), WithFormat(Size(v), Masked(Size(v), FunctionGrid(v), drawn, m), bits), m), drawn)
  {
    hide IsFormatCell, FormatModule, FormatOrder, Inverts, FunctionGrid, Size;
  }

  lemma LayoutFits(v: nat, ecl: Ecl, data: seq<Byte>)
    requires Version(v) && |data| == NumDataCodewords(v, ecl)
    ensures LayoutOf(v, ecl).Valid() && |data| == LayoutOf(v, ecl).DataStart(LayoutOf(v, ecl).numBlocks)
  {
    LayoutsAreValid(v, ecl);
    DataIsUsedUp(LayoutOf(v, ecl));
    hide LayoutOf, NumDataCodewords;
  }
}
