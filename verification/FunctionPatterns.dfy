/** The function modules of a symbol: timing, finder and alignment patterns,
    format and version information (sections 6.3 and 7.9-7.10 of ISO/IEC
    18004:2015), drawn in place. */
module FunctionPatterns {
  import opened Binary
  import opened BitStrings
  import opened Placement
  import opened QrTables
  import opened BinaryPolynomials

  /** What a drawing step does to one module. */
  datatype Ink = Clear | Ink(dark: bool)

  function Over(below: Ink, above: Ink): Ink {
    if above.Clear? then below else above
  }

  /** Both arrays have the shape of a symbol of the given size. */
  ghost predicate Canvas(modules: array2<bool>, isFunction: array2<bool>, n: nat) {
    modules != isFunction && modules.Length0 == modules.Length1 == isFunction.Length0 == isFunction.Length1 == n
  }

  function Size(v: nat): nat {
    4 * v + 17
  }

  // ---- Single modules -----------------------------------------------------------

  method SetFunctionModule(modules: array2<bool>, isFunction: array2<bool>, x: int, y: int, isDark: bool)
    requires Canvas(modules, isFunction, modules.Length0)
    requires 0 <= x < modules.Length0 && 0 <= y < modules.Length0
    modifies modules, isFunction
    ensures forall v, u :: 0 <= v < modules.Length0 && 0 <= u < modules.Length0 ==>
      && modules[v, u] == (if u == x && v == y then isDark else old(modules[v, u]))
      && isFunction[v, u] == (old(isFunction[v, u]) || (u == x && v == y))
  {
    modules[y, x] := isDark;
    isFunction[y, x] := true;
  }

  function Abs(a: int): nat {
    if a < 0 then -a else a
  }

  function Max(a: int, b: int): int {
    if a < b then b else a
  }

  // ---- Strokes ------------------------------------------------------------------------

  /** What has been drawn so far: parts of patterns, and layers of them. */
  datatype Stroke =
    | Nothing
    | Timing(size: int)                           // the first modules of row and column 6
    | Finder(cx: int, cy: int, dx: int, dy: int)    // a finder pattern up to an offset
    | Alignment(cx: int, cy: int, dx: int, dy: int) // an alignment pattern up to an offset
    | Format(size: int, bits: nat, count: int)      // the first modules of the format information
    | VersionInfo(size: int, bits: nat, count: int) // the first modules of the version information
    | Layer(below: Stroke, above: Stroke)

  /** Whether (x, y) comes before (dx, dy) in a scan by rows. */
  predicate Before(x: int, y: int, dx: int, dy: int) {
    y < dy || (y == dy && x < dx)
  }

  function InkOf(s: Stroke, c: Cell): Ink {
    match s
    case Nothing => Clear
    case Timing(size) => TimingInk(size, c)
    case Finder(cx, cy, dx, dy) => FinderInk(c.x - cx, c.y - cy, dx, dy)
    case Alignment(cx, cy, dx, dy) => AlignmentInk(c.x - cx, c.y - cy, dx, dy)
    case Format(size, bits, count) => FormatInk(size, bits, count, c)
    case VersionInfo(size, bits, count) => VersionInk(size, bits, count, c)
    case Layer(below, above) => Over(InkOf(below, c), InkOf(above, c))
  }

  function TimingInk(size: int, c: Cell): Ink {
    if c.x == 6 && 0 <= c.y < size then Ink(c.y % 2 == 0)
    else if c.y == 6 && 0 <= c.x < size then Ink(c.x % 2 == 0)
    else Clear
  }

  function FinderInk(x: int, y: int, dx: int, dy: int): Ink {
    var dist := Max(Abs(x), Abs(y));
    if dist <= 4 && Before(x, y, dx, dy) then Ink(dist != 2 && dist != 4) else Clear
  }

  function AlignmentInk(x: int, y: int, dx: int, dy: int): Ink {
    var dist := Max(Abs(x), Abs(y));
    if dist <= 2 && Before(x, y, dx, dy) then Ink(dist != 1) else Clear
  }

  function FormatInk(size: int, bits: nat, count: int, c: Cell): Ink {
    var k := FormatOrder(size, c);
    if 0 <= k < count then Ink(FormatModule(bits, k)) else Clear
  }

  function VersionInk(size: int, bits: nat, count: int, c: Cell): Ink {
    var k := VersionOrder(size, c);
    if 0 <= k < count then Ink(Bit(bits, k / 2)) else Clear
  }

  /** When the format information reaches a module: bits 0 to 14 of the first
      copy around the top left finder pattern, then those of the second copy
      beside the other two, and a module that is always dark. */
  function FormatOrder(size: int, c: Cell): int {
    if c.x == 8 && 0 <= c.y <= 5 then c.y
    else if c.x == 8 && c.y == 7 then 6
    else if c.x == 8 && c.y == 8 then 7
    else if c.x == 7 && c.y == 8 then 8
    else if c.y == 8 && 0 <= c.x <= 5 then 14 - c.x
    else if c.y == 8 && size - 8 <= c.x < size then 15 + (size - 1 - c.x)
    else if c.x == 8 && size - 7 <= c.y < size then 15 + (c.y - (size - 15))
    else if c.x == 8 && c.y == size - 8 then 30
    else -1
  }

  predicate FormatModule(bits: nat, k: int)
    requires 0 <= k
  {
    k >= 30 || Bit(bits, k % 15)
  }

  /** When the version information reaches a module: each bit goes to a block
      above the bottom left finder pattern and to its mirror image. */
  function VersionOrder(size: int, c: Cell): int {
    if size - 11 <= c.x < size - 8 && 0 <= c.y < 6 then 2 * (3 * c.y + c.x - (size - 11))
    else if size - 11 <= c.y < size - 8 && 0 <= c.x < 6 then 2 * (3 * c.x + c.y - (size - 11)) + 1
    else -1
  }

  function WholeFinder(cx: int, cy: int): Stroke {
    Finder(cx, cy, -4, 5)
  }

  function WholeAlignment(cx: int, cy: int): Stroke {
    Alignment(cx, cy, -2, 3)
  }

  /** Every module is as the stroke over the pictures g and f says. */
  ghost predicate Painted(modules: array2<bool>, isFunction: array2<bool>, n: nat, g: Grid, f: Grid, s: Stroke)
    requires Canvas(modules, isFunction, n) && Square(g, n) && Square(f, n)
    reads modules, isFunction
  {
    forall y, x :: 0 <= y < n && 0 <= x < n ==>
      && modules[y, x] == (if InkOf(s, Cell(x, y)).Ink? then InkOf(s, Cell(x, y)).dark else g[y][x])
      && isFunction[y, x] == (f[y][x] || InkOf(s, Cell(x, y)).Ink?)
  }

  /** Stroke t is stroke s with one more module. */
  ghost predicate OneMore(n: nat, s: Stroke, t: Stroke, x: int, y: int, isDark: bool) {
    forall u, v :: 0 <= u < n && 0 <= v < n ==>
      InkOf(t, Cell(u, v)) == if u == x && v == y then Ink(isDark) else InkOf(s, Cell(u, v))
  }

  ghost predicate SameInk(n: nat, s: Stroke, t: Stroke) {
    forall u, v :: 0 <= u < n && 0 <= v < n ==> InkOf(t, Cell(u, v)) == InkOf(s, Cell(u, v))
  }

  method Dot(modules: array2<bool>, isFunction: array2<bool>, x: int, y: int, isDark: bool,
             ghost n: nat, ghost g: Grid, ghost f: Grid, ghost s: Stroke, ghost t: Stroke)
    requires Canvas(modules, isFunction, n) && Square(g, n) && Square(f, n)
    requires 0 <= x < n && 0 <= y < n
    requires Painted(modules, isFunction, n, g, f, s) && OneMore(n, s, t, x, y, isDark)
    modifies modules, isFunction
    ensures Painted(modules, isFunction, n, g, f, t)
  {
    hide InkOf;
    SetFunctionModule(modules, isFunction, x, y, isDark);
  }

  lemma NothingPainted(modules: array2<bool>, isFunction: array2<bool>, n: nat, s: Stroke)
    requires Canvas(modules, isFunction, n) && SameInk(n, Nothing, s)
    ensures Painted(modules, isFunction, n, Picture(modules), Picture(isFunction), s)
  {
    hide InkOf;
    assert forall c :: InkOf(Nothing, c) == Clear by { NothingIsClear(); }
  }

  lemma NothingIsClear()
    ensures forall c :: InkOf(Nothing, c) == Clear
  {}

  lemma RenamePainted(modules: array2<bool>, isFunction: array2<bool>, n: nat, g: Grid, f: Grid, s: Stroke, t: Stroke)
    requires Canvas(modules, isFunction, n) && Square(g, n) && Square(f, n)
    requires Painted(modules, isFunction, n, g, f, s) && SameInk(n, s, t)
    ensures Painted(modules, isFunction, n, g, f, t)
  {
    hide InkOf;
  }

  /** A picture that is itself painted can be painted over. */
  ghost predicate PaintedPicture(n: nat, g: Grid, f: Grid, s: Stroke, g1: Grid, f1: Grid)
    requires Square(g, n) && Square(f, n) && Square(g1, n) && Square(f1, n)
  {
    forall y, x :: 0 <= y < n && 0 <= x < n ==>
      && g1[y][x] == (if InkOf(s, Cell(x, y)).Ink? then InkOf(s, Cell(x, y)).dark else g[y][x])
      && f1[y][x] == (f[y][x] || InkOf(s, Cell(x, y)).Ink?)
  }

  lemma PicturePainted(modules: array2<bool>, isFunction: array2<bool>, n: nat, g: Grid, f: Grid, s: Stroke)
    requires Canvas(modules, isFunction, n) && Square(g, n) && Square(f, n)
    ensures Painted(modules, isFunction, n, g, f, s)
      <==> PaintedPicture(n, g, f, s, Picture(modules), Picture(isFunction))
  {
    hide InkOf;
  }

  lemma PaintOver(n: nat, g: Grid, f: Grid, below: Stroke, g1: Grid, f1: Grid, above: Stroke, g2: Grid, f2: Grid)
    requires Square(g, n) && Square(f, n) && Square(g1, n) && Square(f1, n) && Square(g2, n) && Square(f2, n)
    requires PaintedPicture(n, g, f, below, g1, f1) && PaintedPicture(n, g1, f1, above, g2, f2)
    ensures PaintedPicture(n, g, f, Layer(below, above), g2, f2)
  {
    assert forall c :: InkOf(Layer(below, above), c) == Over(InkOf(below, c), InkOf(above, c));
    hide InkOf;
  }

  // ---- Timing patterns ------------------------------------------------------------

  method DrawTiming(modules: array2<bool>, isFunction: array2<bool>)
    requires Canvas(modules, isFunction, modules.Length0) && modules.Length0 > 6
    modifies modules, isFunction
    ensures PaintedPicture(modules.Length0, old(Picture(modules)), old(Picture(isFunction)),
                           Timing(modules.Length0), Picture(modules), Picture(isFunction))
  {
    var size := modules.Length0;
    ghost var g, f := Picture(modules), Picture(isFunction);
    for i := 0 to size
      invariant Painted(modules, isFunction, size, g, f, Timing(i))
    {
      SetFunctionModule(modules, isFunction, 6, i, i % 2 == 0);
      SetFunctionModule(modules, isFunction, i, 6, i % 2 == 0);
    }
    PicturePainted(modules, isFunction, size, g, f, Timing(size));
  }

  // ---- Finder and alignment patterns ------------------------------------------------

  lemma FinderStep(n: nat, cx: int, cy: int, dx: int, dy: int)
    requires -4 <= dx <= 4 && -4 <= dy <= 4
    ensures var dist := Max(Abs(dx), Abs(dy));
      OneMore(n, Finder(cx, cy, dx, dy), Finder(cx, cy, dx + 1, dy), cx + dx, cy + dy, dist != 2 && dist != 4)
  {
    hide TimingInk, AlignmentInk, FormatInk, VersionInk;
  }

  lemma FinderStepOutside(n: nat, cx: int, cy: int, dx: int, dy: int)
    requires -4 <= dx <= 4 && -4 <= dy <= 4 && !(0 <= cx + dx < n && 0 <= cy + dy < n)
    ensures SameInk(n, Finder(cx, cy, dx, dy), Finder(cx, cy, dx + 1, dy))
  {
    hide InkOf;
    FinderStep(n, cx, cy, dx, dy);
  }

  lemma FinderRows(n: nat, cx: int, cy: int, dy: int)
    ensures SameInk(n, Finder(cx, cy, 5, dy), Finder(cx, cy, -4, dy + 1))
    ensures SameInk(n, Nothing, Finder(cx, cy, -4, -4))
  {
    hide TimingInk, AlignmentInk, FormatInk, VersionInk;
  }

  /** A finder pattern with its light border, as far as it lies in the grid. */
  method DrawFinderPattern(modules: array2<bool>, isFunction: array2<bool>, cx: int, cy: int)
    requires Canvas(modules, isFunction, modules.Length0)
    modifies modules, isFunction
    ensures PaintedPicture(modules.Length0, old(Picture(modules)), old(Picture(isFunction)),
                           WholeFinder(cx, cy), Picture(modules), Picture(isFunction))
  {
    hide InkOf, Painted, OneMore, SameInk, Max, Abs;
    var size := modules.Length0;
    ghost var g, f := Picture(modules), Picture(isFunction);
    FinderRows(size, cx, cy, 0);
    NothingPainted(modules, isFunction, size, Finder(cx, cy, -4, -4));
    for dy := -4 to 5
      invariant Painted(modules, isFunction, size, g, f, Finder(cx, cy, -4, dy))
    {
      for dx := -4 to 5
        invariant Painted(modules, isFunction, size, g, f, Finder(cx, cy, dx, dy))
      {
        var dist := Max(Abs(dx), Abs(dy));
        var xx, yy := cx + dx, cy + dy;
        ghost var s, t := Finder(cx, cy, dx, dy), Finder(cx, cy, dx + 1, dy);
        FinderStep(size, cx, cy, dx, dy);
        if 0 <= xx < size && 0 <= yy < size {
          Dot(modules, isFunction, xx, yy, dist != 2 && dist != 4, size, g, f, s, t);
        } else {
          FinderStepOutside(size, cx, cy, dx, dy);
          RenamePainted(modules, isFunction, size, g, f, s, t);
        }
      }
      FinderRows(size, cx, cy, dy);
      RenamePainted(modules, isFunction, size, g, f, Finder(cx, cy, 5, dy), Finder(cx, cy, -4, dy + 1));
    }
    PicturePainted(modules, isFunction, size, g, f, WholeFinder(cx, cy));
  }

  lemma AlignmentStep(n: nat, cx: int, cy: int, dx: int, dy: int)
    requires -2 <= dx <= 2 && -2 <= dy <= 2
    ensures OneMore(n, Alignment(cx, cy, dx, dy), Alignment(cx, cy, dx + 1, dy), cx + dx, cy + dy,
                    Max(Abs(dx), Abs(dy)) != 1)
  {
    hide TimingInk, FinderInk, FormatInk, VersionInk;
  }

  lemma AlignmentRows(n: nat, cx: int, cy: int, dy: int)
    ensures SameInk(n, Alignment(cx, cy, 3, dy), Alignment(cx, cy, -2, dy + 1))
    ensures SameInk(n, Nothing, Alignment(cx, cy, -2, -2))
  {
    hide TimingInk, FinderInk, FormatInk, VersionInk;
  }

  method DrawAlignmentPattern(modules: array2<bool>, isFunction: array2<bool>, cx: int, cy: int)
    requires Canvas(modules, isFunction, modules.Length0)
    requires 2 <= cx < modules.Length0 - 2 && 2 <= cy < modules.Length0 - 2
    modifies modules, isFunction
    ensures PaintedPicture(modules.Length0, old(Picture(modules)), old(Picture(isFunction)),
                           WholeAlignment(cx, cy), Picture(modules), Picture(isFunction))
  {
    hide InkOf, Painted, OneMore, SameInk, Max, Abs;
    var size := modules.Length0;
    ghost var g, f := Picture(modules), Picture(isFunction);
    AlignmentRows(size, cx, cy, 0);
    NothingPainted(modules, isFunction, size, Alignment(cx, cy, -2, -2));
    for dy := -2 to 3
      invariant Painted(modules, isFunction, size, g, f, Alignment(cx, cy, -2, dy))
    {
      for dx := -2 to 3
        invariant Painted(modules, isFunction, size, g, f, Alignment(cx, cy, dx, dy))
      {
        AlignmentStep(size, cx, cy, dx, dy);
        Dot(modules, isFunction, cx + dx, cy + dy, Max(Abs(dx), Abs(dy)) != 1, size, g, f,
            Alignment(cx, cy, dx, dy), Alignment(cx, cy, dx + 1, dy));
      }
      AlignmentRows(size, cx, cy, dy);
      RenamePainted(modules, isFunction, size, g, f, Alignment(cx, cy, 3, dy), Alignment(cx, cy, -2, dy + 1));
    }
    PicturePainted(modules, isFunction, size, g, f, WholeAlignment(cx, cy));
  }

  /** The number of alignment pattern positions on each axis. */
  function NumAlign(v: nat): nat {
    if v == 1 then 0 else v / 7 + 2
  }

  function AlignStep(v: nat): int
    requires 2 <= v
  {
    (v * 8 + NumAlign(v) * 3 + 5) / (NumAlign(v) * 4 - 4) * 2
  }

  /** The i-th alignment pattern position, in ascending order. */
  function AlignPosition(v: nat, i: nat): int
    requires 2 <= v && i < NumAlign(v)
  {
    if i == 0 then 6 else Size(v) - 7 - (NumAlign(v) - 1 - i) * AlignStep(v)
  }

  method GetAlignmentPatternPositions(v: nat) returns (positions: seq<int>)
    requires Version(v)
    ensures |positions| == NumAlign(v)
    ensures forall i :: 0 <= i < |positions| ==> positions[i] == AlignPosition(v, i)
  {
    if v == 1 {
      return [];
    }
    var numAlign := v / 7 + 2;
    var step := (v * 8 + numAlign * 3 + 5) / (numAlign * 4 - 4) * 2;
    positions := [];
    var pos := Size(v) - 7;
    for i := 0 to numAlign - 1
      invariant |positions| == i && pos == Size(v) - 7 - i * step
      invariant forall k :: 0 <= k < i ==> positions[k] == AlignPosition(v, numAlign - i + k)
    {
      positions := [pos] + positions;
      assert (i + 1) * step == i * step + step;
      pos := pos - step;
    }
    positions := [6] + positions;
  }

  /** The positions keep their distance from each other and from the edges. */
  lemma AlignmentSpacing(v: nat)
    requires 2 <= v <= 40
    ensures NumAlign(v) >= 2 && AlignPosition(v, NumAlign(v) - 1) == Size(v) - 7
    ensures 16 <= AlignStep(v) || NumAlign(v) == 2
    ensures AlignPosition(v, 1) >= 18
  {
    var d := NumAlign(v);
    if d == 2 {} else if d == 3 {} else if d == 4 {} else if d == 5 {} else if d == 6 {} else { assert d == 7; }
  }

  lemma AlignNext(v: nat, i: nat)
    requires 2 <= v <= 40 && 1 <= i && i + 1 < NumAlign(v)
    ensures AlignPosition(v, i + 1) == AlignPosition(v, i) + AlignStep(v)
  {
    var m, s := NumAlign(v) - 2 - i, AlignStep(v);
    assert (m + 1) * s == m * s + s;
  }

  lemma {:induction false} AlignAscends(v: nat, i: nat, j: nat)
    requires 2 <= v <= 40 && 1 <= i <= j < NumAlign(v)
    ensures AlignPosition(v, i) + 16 * (j - i) <= AlignPosition(v, j)
    decreases j - i
  {
    hide AlignStep, AlignPosition;
    if i < j {
      AlignmentSpacing(v);
      AlignNext(v, i);
      AlignAscends(v, i + 1, j);
    }
  }

  lemma AlignBounds(v: nat, i: nat)
    requires 2 <= v <= 40 && i < NumAlign(v)
    ensures 6 <= AlignPosition(v, i) <= Size(v) - 7
    ensures i >= 1 ==> AlignPosition(v, i) >= 18
    ensures i + 1 < NumAlign(v) ==> AlignPosition(v, i) <= Size(v) - 23 || i == 0
  {
    hide AlignStep;
    AlignmentSpacing(v);
    if i >= 1 {
      AlignAscends(v, 1, i);
      AlignAscends(v, i, NumAlign(v) - 1);
    }
  }

  /** The three corners that belong to the finder patterns. */
  predicate FinderCorner(v: nat, i: nat, j: nat) {
    (i == 0 && j == 0) || (i == 0 && j == NumAlign(v) - 1) || (i == NumAlign(v) - 1 && j == 0)
  }

  /** Alignment patterns (i, 0) to (i, j - 1), the later ones on top. */
  function AlignmentRow(v: nat, i: nat, j: nat): Stroke
    requires 2 <= v && i < NumAlign(v) && j <= NumAlign(v)
  {
    if j == 0 then Nothing
    else if FinderCorner(v, i, j - 1) then AlignmentRow(v, i, j - 1)
    else Layer(AlignmentRow(v, i, j - 1), WholeAlignment(AlignPosition(v, i), AlignPosition(v, j - 1)))
  }

  function AlignmentsUpTo(v: nat, i: nat): Stroke
    requires 2 <= v && i <= NumAlign(v)
  {
    if i == 0 then Nothing
    else Layer(AlignmentsUpTo(v, i - 1), AlignmentRow(v, i - 1, NumAlign(v)))
  }

  function Alignments(v: nat): Stroke
    requires 1 <= v
  {
    if v == 1 then Nothing else AlignmentsUpTo(v, NumAlign(v))
  }

  lemma LayerNothing(n: nat, s: Stroke, a: Stroke, b: Stroke)
    ensures SameInk(n, s, Layer(s, Nothing))
    ensures SameInk(n, Layer(Layer(s, a), b), Layer(s, Layer(a, b)))
  {
    assert forall c :: InkOf(Layer(Layer(s, a), b), c) == Over(Over(InkOf(s, c), InkOf(a, c)), InkOf(b, c));
    assert forall c :: InkOf(Layer(s, Layer(a, b)), c) == Over(InkOf(s, c), Over(InkOf(a, c), InkOf(b, c)));
  }

  method DrawAlignmentPatterns(modules: array2<bool>, isFunction: array2<bool>, v: nat)
    requires Version(v) && Canvas(modules, isFunction, Size(v))
    modifies modules, isFunction
    ensures PaintedPicture(Size(v), old(Picture(modules)), old(Picture(isFunction)),
                           Alignments(v), Picture(modules), Picture(isFunction))
  {
    hide InkOf, AlignPosition, Painted, PaintedPicture, SameInk;
    var positions := GetAlignmentPatternPositions(v);
    var numAlign := |positions|;
    ghost var n, g, f := Size(v), Picture(modules), Picture(isFunction);
    LayerNothing(n, Nothing, Nothing, Nothing);
    SameIsSame(n, Nothing);
    NothingPainted(modules, isFunction, n, Nothing);
    if v > 1 {
      for i := 0 to numAlign
        invariant Painted(modules, isFunction, n, g, f, AlignmentsUpTo(v, i))
      {
        LayerNothing(n, AlignmentsUpTo(v, i), Nothing, Nothing);
        RenamePainted(modules, isFunction, n, g, f, AlignmentsUpTo(v, i), Layer(AlignmentsUpTo(v, i), Nothing));
        for j := 0 to numAlign
          invariant Painted(modules, isFunction, n, g, f, Layer(AlignmentsUpTo(v, i), AlignmentRow(v, i, j)))
        {
          if !((i == 0 && j == 0) || (i == 0 && j == numAlign - 1) || (i == numAlign - 1 && j == 0)) {
            DrawOneAlignment(modules, isFunction, v, i, j, positions[i], positions[j], g, f);
          }
        }
      }
    }
    PicturePainted(modules, isFunction, n, g, f, Alignments(v));
  }

  lemma SameIsSame(n: nat, s: Stroke)
    ensures SameInk(n, s, s)
  {}

  method DrawOneAlignment(modules: array2<bool>, isFunction: array2<bool>, v: nat, i: nat, j: nat, x: int, y: int,
                          ghost g: Grid, ghost f: Grid)
    requires 2 <= v <= 40 && Canvas(modules, isFunction, Size(v)) && Square(g, Size(v)) && Square(f, Size(v))
    requires i < NumAlign(v) && j < NumAlign(v) && !FinderCorner(v, i, j)
    requires x == AlignPosition(v, i) && y == AlignPosition(v, j)
    requires Painted(modules, isFunction, Size(v), g, f, Layer(AlignmentsUpTo(v, i), AlignmentRow(v, i, j)))
    modifies modules, isFunction
    ensures Painted(modules, isFunction, Size(v), g, f, Layer(AlignmentsUpTo(v, i), AlignmentRow(v, i, j + 1)))
  {
    hide InkOf, AlignPosition, Painted, PaintedPicture, SameInk, AlignmentsUpTo;
    AlignBounds(v, i);
    AlignBounds(v, j);
    ghost var n, g1, f1 := Size(v), Picture(modules), Picture(isFunction);
    ghost var s, a, b := AlignmentsUpTo(v, i), AlignmentRow(v, i, j), WholeAlignment(x, y);
    PicturePainted(modules, isFunction, n, g, f, Layer(s, a));
    DrawAlignmentPattern(modules, isFunction, x, y);
    PaintOver(n, g, f, Layer(s, a), g1, f1, b, Picture(modules), Picture(isFunction));
    PicturePainted(modules, isFunction, n, g, f, Layer(Layer(s, a), b));
    LayerNothing(n, s, a, b);
    RenamePainted(modules, isFunction, n, g, f, Layer(Layer(s, a), b), Layer(s, Layer(a, b)));
  }

  // ---- Format and version information --------------------------------------------------

  /** One step of the division by a generator polynomial of degree w. */
  function DivideStep(rem: nat, w: nat, poly: nat): nat
    requires w > 0
  {
    Xor(2 * rem, Shr(rem, w - 1) * poly)
  }

  lemma DivideStepBound(rem: nat, w: nat, poly: nat)
    requires w > 0 && rem < Pow2(w) <= poly < Pow2(w + 1)
    ensures DivideStep(rem, w, poly) < Pow2(w)
  {
    hide Xor;
    ShrBound(rem, w - 1, 1);
    ShrZero(rem, w - 1);
    var top := Shr(rem, w - 1);
    if top == 0 {
      XorZero(2 * rem);
      assert Shr(rem, w - 1) * poly == 0;
    } else {
      assert Shr(rem, w - 1) * poly == poly;
      XorTop(2 * rem, poly, w);
      XorBound(2 * rem, poly, w + 1);
    }
  }

  /** The remainder after n steps. */
  function CheckBits(data: nat, n: nat, w: nat, poly: nat): nat
    requires w > 0
  {
    if n == 0 then data else DivideStep(CheckBits(data, n - 1, w, poly), w, poly)
  }

  lemma {:induction false} CheckBitsBound(data: nat, n: nat, w: nat, poly: nat)
    requires w > 0 && data < Pow2(w) <= poly < Pow2(w + 1)
    ensures CheckBits(data, n, w, poly) < Pow2(w)
  {
    hide DivideStep;
    if n > 0 {
      CheckBitsBound(data, n - 1, w, poly);
      DivideStepBound(CheckBits(data, n - 1, w, poly), w, poly);
    }
  }

  /** The 15 bits of format information. */
  function FormatBits(ecl: Ecl, mask: nat): nat {
    var data := ecl.FormatCode() * 8 + mask;
    Xor(data * 1024 + CheckBits(data, 10, 10, 0x537), 0x5412)
  }

  lemma FormatBitsBound(ecl: Ecl, mask: nat)
    requires mask < 8
    ensures FormatBits(ecl, mask) < Pow2(15)
    ensures Xor(FormatBits(ecl, mask), 0x5412) / 1024 == ecl.FormatCode() * 8 + mask
  {
    hide Xor, CheckBits;
    var data := ecl.FormatCode() * 8 + mask;
    assert Pow2(10) == 1024 && Pow2(11) == 2048 && Pow2(15) == 32768;
    CheckBitsBound(data, 10, 10, 0x537);
    var bits := data * 1024 + CheckBits(data, 10, 10, 0x537);
    XorBound(bits, 0x5412, 15);
    XorCancels(bits, 0x5412);
  }

  /** The 18 bits of version information. */
  function VersionBits(v: nat): nat {
    v * 4096 + CheckBits(v, 12, 12, 0x1F25)
  }

  // ---- What the check bits are -----------------------------------------------------------

  lemma {:induction false} BitsOfXor(a: nat, b: nat, k: nat)
    ensures BitsOf(Xor(a, b), k) == Sum(BitsOf(a, k), BitsOf(b, k))
    decreases k
  {
    hide Xor;
    if k > 0 {
      XorHalves(a, b);
      BitsOfXor(a / 2, b / 2, k - 1);
    }
  }

  lemma {:induction false} TopBit(n: nat, k: nat)
    ensures BitsOf(n, k + 1)[0] <==> Shr(n, k) % 2 == 1
    ensures BitsOf(n, k + 1)[1..] == BitsOf(n, k)
    decreases k
  {
    if k > 0 {
      TopBit(n / 2, k - 1);
      ShrHalf(n, k - 1);
      assert BitsOf(n, k + 1)[1..] == BitsOf(n / 2, k)[1..] + [n % 2 == 1];
    }
  }

  lemma Doubled(n: nat, k: nat)
    requires k > 0
    ensures BitsOf(2 * n, k) == BitsOf(n, k)[1..] + [false]
  {
    TopBit(n, k - 1);
    assert 2 * n / 2 == n && 2 * n % 2 == 0;
  }

  /** A step of the loop is a step of the division of polynomials. */
  lemma DivideStepIsStep(rem: nat, w: nat, poly: nat)
    requires w > 0 && rem < Pow2(w) <= poly < Pow2(w + 1)
    ensures BitsOf(DivideStep(rem, w, poly), w) == Step(BitsOf(rem, w), false, BitsOf(poly, w + 1))
  {
    hide Xor, BitsOf, Shr;
    ShrBound(rem, w - 1, 1);
    ShrBound(poly, w, 1);
    ShrZero(poly, w);
    assert Pow2(1) == 2;
    hide Pow2;
    var top := Shr(rem, w - 1);
    TopBit(rem, w - 1);
    TopBit(poly, w);
    Doubled(rem, w);
    if top == 0 {
      assert top * poly == 0;
      XorZero(2 * rem);
      XorCommutes(2 * rem, 0);
    } else {
      assert top == 1 && top * poly == poly;
      BitsOfXor(2 * rem, poly, w);
    }
  }

  lemma {:induction false} CheckBitsIsRun(data: nat, n: nat, w: nat, poly: nat)
    requires w > 0 && data < Pow2(w) <= poly < Pow2(w + 1)
    ensures BitsOf(CheckBits(data, n, w, poly), w) == BinaryPolynomials.Run(BitsOf(data, w), Zeros(n), BitsOf(poly, w + 1))
  {
    hide DivideStep, Step, BitsOf;
    var p := BitsOf(poly, w + 1);
    if n > 0 {
      CheckBitsIsRun(data, n - 1, w, poly);
      CheckBitsBound(data, n - 1, w, poly);
      DivideStepIsStep(CheckBits(data, n - 1, w, poly), w, poly);
      assert Zeros(n) == Zeros(n - 1) + [false];
      RunAppend(BitsOf(data, w), Zeros(n - 1), [false], p);
    }
  }

  /** Data times x^w leaves the check bits when it is divided by the
      generator. */
  lemma CheckBitsDivide(data: nat, w: nat, poly: nat)
    requires w > 0 && data < Pow2(w) <= poly < Pow2(w + 1)
    ensures Leaves(BitsOf(data, w) + Zeros(w), BitsOf(poly, w + 1), BitsOf(CheckBits(data, w, w, poly), w))
  {
    hide BitsOf, CheckBits, Times;
    var d, p := BitsOf(data, w), BitsOf(poly, w + 1);
    CheckBitsIsRun(data, w, w, poly);
    TopBit(poly, w);
    ShrBound(poly, w, 1);
    ShrZero(poly, w);
    assert Pow2(1) == 2;
    RunDivides(d, Zeros(w), p);
    assert Sum(d + Zeros(w), Zeros(w) + Zeros(w)) == d + Zeros(w);
  }

  /** x^10+x^8+x^5+x^4+x^2+x+1. */
  function FormatGenerator(): (p: Poly)
    ensures |p| == 11
  {
    seq(11, i => 10 - i in {10, 8, 5, 4, 2, 1, 0})
  }

  /** x^12+x^11+x^10+x^9+x^8+x^5+x^2+1. */
  function VersionGenerator(): (p: Poly)
    ensures |p| == 13
  {
    seq(13, i => 12 - i in {12, 11, 10, 9, 8, 5, 2, 0})
  }

  lemma Generators()
    ensures BitsOf(0x537, 11) == FormatGenerator() && BitsOf(0x1F25, 13) == VersionGenerator()
  {}

  lemma LowBits(high: nat, low: nat, k: nat)
    requires low < Pow2(k)
    ensures BitsOf(high * Pow2(k) + low, k) == BitsOf(low, k)
    decreases k
  {
    if k > 0 {
      assert (high * Pow2(k) + low) / 2 == high * Pow2(k - 1) + low / 2 && (high * Pow2(k) + low) % 2 == low % 2 by {
        assert high * Pow2(k) == 2 * (high * Pow2(k - 1));
      }
      LowBits(high, low / 2, k - 1);
    }
  }

  /** The format word, but for a fixed pattern, is the level and the mask in
      five bits and then their remainder. */
  lemma FormatWord(ecl: Ecl, mask: nat)
    requires mask < 8
    ensures var word := Xor(FormatBits(ecl, mask), 0x5412);
      var data := mask + match ecl { case LOW => 8 case MEDIUM => 0 case QUARTILE => 24 case HIGH => 16 };
      word / 1024 == data && Leaves(BitsOf(data, 10) + Zeros(10), FormatGenerator(), BitsOf(word, 10))
  {
    hide Xor, CheckBits, BitsOf, Leaves, Zeros;
    FormatBitsBound(ecl, mask);
    var data := ecl.FormatCode() * 8 + mask;
    assert Pow2(10) == 1024 && Pow2(11) == 2048;
    CheckBitsBound(data, 10, 10, 0x537);
    var check := CheckBits(data, 10, 10, 0x537);
    XorCancels(data * 1024 + check, 0x5412);
    CheckBitsDivide(data, 10, 0x537);
    LowBits(data, check, 10);
    Generators();
  }

  /** The version word is the version and then its remainder. */
  lemma VersionWord(v: nat)
    requires v < 64
    ensures VersionBits(v) / 4096 == v
    ensures Leaves(BitsOf(v, 12) + Zeros(12), VersionGenerator(), BitsOf(VersionBits(v), 12))
  {
    hide Xor, CheckBits, BitsOf, Leaves, Zeros;
    assert Pow2(12) == 4096 && Pow2(13) == 8192;
    CheckBitsBound(v, 12, 12, 0x1F25);
    CheckBitsDivide(v, 12, 0x1F25);
    LowBits(v, CheckBits(v, 12, 12, 0x1F25), 12);
    Generators();
  }

  lemma FormatStep(n: nat, bits: nat, k: nat, c: Cell)
    requires n >= 21 && k < 31 && 0 <= c.x < n && 0 <= c.y < n && FormatOrder(n, c) == k
    ensures OneMore(n, Format(n, bits, k), Format(n, bits, k + 1), c.x, c.y, FormatModule(bits, k))
  {
    hide FormatModule, TimingInk, FinderInk, AlignmentInk, VersionInk;
  }

  lemma FormatNothing(n: nat, bits: nat)
    ensures SameInk(n, Nothing, Format(n, bits, 0))
  {
    hide TimingInk, FinderInk, AlignmentInk, VersionInk, FormatOrder, FormatModule;
  }

  method ComputeFormatBits(ecl: Ecl, mask: nat) returns (bits: nat)
    requires mask < 8
    ensures bits == FormatBits(ecl, mask)
  {
    hide CheckBits, DivideStep, Xor;
    var data := ecl.FormatCode() * 8 + mask;
    var rem := data;
    CheckBitsStart(data, 10, 0x537);
    for i := 0 to 10
      invariant rem == CheckBits(data, i, 10, 0x537)
    {
      CheckBitsNext(data, i, 10, 0x537);
      rem := DivideStep(rem, 10, 0x537);
    }
    bits := Xor(data * 1024 + rem, 0x5412);
  }

  /** One module of the format information. */
  method FormatDot(modules: array2<bool>, isFunction: array2<bool>, x: int, y: int, isDark: bool,
                   ghost n: nat, ghost g: Grid, ghost f: Grid, ghost bits: nat, ghost k: nat)
    requires Canvas(modules, isFunction, n) && Square(g, n) && Square(f, n) && n >= 21 && k < 31
    requires 0 <= x < n && 0 <= y < n && FormatOrder(n, Cell(x, y)) == k && isDark == FormatModule(bits, k)
    requires Painted(modules, isFunction, n, g, f, Format(n, bits, k))
    modifies modules, isFunction
    ensures Painted(modules, isFunction, n, g, f, Format(n, bits, k + 1))
  {
    hide InkOf, Painted, OneMore, FormatOrder, FormatModule;
    FormatStep(n, bits, k, Cell(x, y));
    Dot(modules, isFunction, x, y, isDark, n, g, f, Format(n, bits, k), Format(n, bits, k + 1));
  }

  method DrawFormatBits(modules: array2<bool>, isFunction: array2<bool>, ecl: Ecl, mask: nat)
    requires Canvas(modules, isFunction, modules.Length0) && modules.Length0 >= 21 && mask < 8
    modifies modules, isFunction
    ensures PaintedPicture(modules.Length0, old(Picture(modules)), old(Picture(isFunction)),
                           Format(modules.Length0, FormatBits(ecl, mask), 31), Picture(modules), Picture(isFunction))
  {
    hide InkOf, Painted, Bit, SameInk, FormatBits;
    var size := modules.Length0;
    ghost var g, f := Picture(modules), Picture(isFunction);
    var bits := ComputeFormatBits(ecl, mask);
    FormatNothing(size, bits);
    NothingPainted(modules, isFunction, size, Format(size, bits, 0));
    for i := 0 to 6
      invariant Painted(modules, isFunction, size, g, f, Format(size, bits, i))
    {
      FormatDot(modules, isFunction, 8, i, Bit(bits, i), size, g, f, bits, i);
    }
    FormatDot(modules, isFunction, 8, 7, Bit(bits, 6), size, g, f, bits, 6);
    FormatDot(modules, isFunction, 8, 8, Bit(bits, 7), size, g, f, bits, 7);
    FormatDot(modules, isFunction, 7, 8, Bit(bits, 8), size, g, f, bits, 8);
    for i := 9 to 15
      invariant Painted(modules, isFunction, size, g, f, Format(size, bits, i))
    {
      FormatDot(modules, isFunction, 14 - i, 8, Bit(bits, i), size, g, f, bits, i);
    }
    for i := 0 to 8
      invariant Painted(modules, isFunction, size, g, f, Format(size, bits, 15 + i))
    {
      FormatDot(modules, isFunction, size - 1 - i, 8, Bit(bits, i), size, g, f, bits, 15 + i);
    }
    for i := 8 to 15
      invariant Painted(modules, isFunction, size, g, f, Format(size, bits, 15 + i))
    {
      FormatDot(modules, isFunction, 8, size - 15 + i, Bit(bits, i), size, g, f, bits, 15 + i);
    }
    FormatDot(modules, isFunction, 8, size - 8, true, size, g, f, bits, 30);
    PicturePainted(modules, isFunction, size, g, f, Format(size, bits, 31));
  }

  lemma CheckBitsStart(data: nat, w: nat, poly: nat)
    requires w > 0
    ensures CheckBits(data, 0, w, poly) == data
  {}

  lemma CheckBitsNext(data: nat, n: nat, w: nat, poly: nat)
    requires w > 0
    ensures CheckBits(data, n + 1, w, poly) == DivideStep(CheckBits(data, n, w, poly), w, poly)
  {}

  lemma VersionStep(n: nat, bits: nat, i: nat)
    requires n >= 21 && i < 18
    ensures OneMore(n, VersionInfo(n, bits, 2 * i), VersionInfo(n, bits, 2 * i + 1), n - 11 + i % 3, i / 3, Bit(bits, i))
    ensures OneMore(n, VersionInfo(n, bits, 2 * i + 1), VersionInfo(n, bits, 2 * i + 2), i / 3, n - 11 + i % 3, Bit(bits, i))
  {
    hide Bit, TimingInk, FinderInk, AlignmentInk, FormatInk;
  }

  lemma VersionNothing(n: nat, bits: nat)
    ensures SameInk(n, Nothing, VersionInfo(n, bits, 0))
  {
    hide Bit, TimingInk, FinderInk, AlignmentInk, FormatInk, VersionOrder;
  }

  method ComputeVersionBits(v: nat) returns (bits: nat)
    ensures bits == VersionBits(v)
  {
    hide CheckBits, DivideStep;
    var rem := v;
    CheckBitsStart(v, 12, 0x1F25);
    for i := 0 to 12
      invariant rem == CheckBits(v, i, 12, 0x1F25)
    {
      CheckBitsNext(v, i, 12, 0x1F25);
      rem := DivideStep(rem, 12, 0x1F25);
    }
    bits := v * 4096 + rem;
  }

  function VersionStroke(v: nat): Stroke {
    if v < 7 then Nothing else VersionInfo(Size(v), VersionBits(v), 36)
  }

  method DrawVersion(modules: array2<bool>, isFunction: array2<bool>, v: nat)
    requires Version(v) && Canvas(modules, isFunction, Size(v))
    modifies modules, isFunction
    ensures PaintedPicture(Size(v), old(Picture(modules)), old(Picture(isFunction)),
                           VersionStroke(v), Picture(modules), Picture(isFunction))
  {
    hide InkOf, Painted, Bit, VersionBits, SameInk, OneMore;
    var size := modules.Length0;
    ghost var g, f := Picture(modules), Picture(isFunction);
    if v < 7 {
      SameIsSame(size, Nothing);
      NothingPainted(modules, isFunction, size, Nothing);
      PicturePainted(modules, isFunction, size, g, f, Nothing);
      return;
    }
    var bits := ComputeVersionBits(v);
    VersionNothing(size, bits);
    NothingPainted(modules, isFunction, size, VersionInfo(size, bits, 0));
    for i := 0 to 18
      invariant Painted(modules, isFunction, size, g, f, VersionInfo(size, bits, 2 * i))
    {
      var bit := Bit(bits, i);
      var a, b := size - 11 + i % 3, i / 3;
      VersionStep(size, bits, i);
      Dot(modules, isFunction, a, b, bit, size, g, f, VersionInfo(size, bits, 2 * i), VersionInfo(size, bits, 2 * i + 1));
      Dot(modules, isFunction, b, a, bit, size, g, f, VersionInfo(size, bits, 2 * i + 1), VersionInfo(size, bits, 2 * i + 2));
    }
    PicturePainted(modules, isFunction, size, g, f, VersionInfo(size, bits, 36));
  }

  // ---- All function patterns --------------------------------------------------------------

  /** The function patterns of a version in the order they are drawn, with
      the format information for mask 0. */
  function Patterns(v: nat, ecl: Ecl): Stroke
    requires 1 <= v
  {
    var n := Size(v);
    Layer(Layer(Layer(Layer(Layer(Layer(Timing(n), WholeFinder(3, 3)), WholeFinder(n - 4, 3)),
      WholeFinder(3, n - 4)), Alignments(v)), Format(n, FormatBits(ecl, 0), 31)), VersionStroke(v))
  }

  method DrawFunctionPatterns(modules: array2<bool>, isFunction: array2<bool>, v: nat, ecl: Ecl)
    requires Version(v) && Canvas(modules, isFunction, Size(v))
    modifies modules, isFunction
    ensures PaintedPicture(Size(v), old(Picture(modules)), old(Picture(isFunction)),
                           Patterns(v, ecl), Picture(modules), Picture(isFunction))
  {
    hide InkOf, PaintedPicture, Alignments, FormatBits, VersionStroke;
    var size := modules.Length0;
    ghost var g, f := Picture(modules), Picture(isFunction);
    DrawTiming(modules, isFunction);
    ghost var s := Timing(size);
    ghost var g1, f1 := Picture(modules), Picture(isFunction);
    DrawFinderPattern(modules, isFunction, 3, 3);
    ghost var g2, f2 := Picture(modules), Picture(isFunction);
    PaintOver(size, g, f, s, g1, f1, WholeFinder(3, 3), g2, f2);
    s := Layer(s, WholeFinder(3, 3));
    DrawFinderPattern(modules, isFunction, size - 4, 3);
    ghost var g3, f3 := Picture(modules), Picture(isFunction);
    PaintOver(size, g, f, s, g2, f2, WholeFinder(size - 4, 3), g3, f3);
    s := Layer(s, WholeFinder(size - 4, 3));
    DrawFinderPattern(modules, isFunction, 3, size - 4);
    ghost var g4, f4 := Picture(modules), Picture(isFunction);
    PaintOver(size, g, f, s, g3, f3, WholeFinder(3, size - 4), g4, f4);
    s := Layer(s, WholeFinder(3, size - 4));
    DrawAlignmentPatterns(modules, isFunction, v);
    ghost var g5, f5 := Picture(modules), Picture(isFunction);
    PaintOver(size, g, f, s, g4, f4, Alignments(v), g5, f5);
    s := Layer(s, Alignments(v));
    DrawFormatBits(modules, isFunction, ecl, 0);
    ghost var g6, f6 := Picture(modules), Picture(isFunction);
    PaintOver(size, g, f, s, g5, f5, Format(size, FormatBits(ecl, 0), 31), g6, f6);
    s := Layer(s, Format(size, FormatBits(ecl, 0), 31));
    DrawVersion(modules, isFunction, v);
    PaintOver(size, g, f, s, g6, f6, VersionStroke(v), Picture(modules), Picture(isFunction));
  }
}
