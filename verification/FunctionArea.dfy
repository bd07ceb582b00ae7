/** Finite sets of cells and their sizes. */
module CellSets {
  import opened Placement

  ghost function Range(a: int, b: int): set<int>
    decreases b - a
  {
    if a >= b then {} else Range(a, b - 1) + {b - 1}
  }

  lemma {:induction false} InRange(a: int, b: int)
    ensures forall x :: x in Range(a, b) <==> a <= x < b
    ensures a <= b ==> |Range(a, b)| == b - a
    decreases b - a
  {
    if a < b { InRange(a, b - 1); }
  }

  ghost function Rect(xs: set<int>, ys: set<int>): set<Cell> {
    set x, y | x in xs && y in ys :: Cell(x, y)
  }

  lemma InRect(xs: set<int>, ys: set<int>)
    ensures forall c :: c in Rect(xs, ys) <==> c.x in xs && c.y in ys
  {
    forall c: Cell | c.x in xs && c.y in ys ensures c in Rect(xs, ys) {
      assert c == Cell(c.x, c.y);
    }
  }

  lemma Pick<T>(s: set<T>) returns (x: T)
    requires s != {}
    ensures x in s
  {
    x :| x in s;
  }

  lemma {:induction false} ColumnSize(x: int, ys: set<int>)
    ensures |Rect({x}, ys)| == |ys|
  {
    hide Rect;
    InRect({x}, ys);
    if ys != {} {
      var y := Pick(ys);
      ColumnSize(x, ys - {y});
      InRect({x}, ys - {y});
      assert Rect({x}, ys) == Rect({x}, ys - {y}) + {Cell(x, y)};
    } else {
      assert Rect({x}, ys) == {};
    }
  }

  lemma {:induction false} RectSize(xs: set<int>, ys: set<int>)
    ensures |Rect(xs, ys)| == |xs| * |ys|
  {
    hide Rect;
    InRect(xs, ys);
    if xs != {} {
      var x := Pick(xs);
      RectSize(xs - {x}, ys);
      ColumnSize(x, ys);
      InRect(xs - {x}, ys);
      InRect({x}, ys);
      assert Rect(xs, ys) == Rect(xs - {x}, ys) + Rect({x}, ys);
      assert |xs| * |ys| == (|xs| - 1) * |ys| + |ys|;
    } else {
      assert Rect(xs, ys) == {};
    }
  }

  /** The cells with a <= x < b and c <= y < d. */
  ghost function Box(a: int, b: int, c: int, d: int): set<Cell> {
    Rect(Range(a, b), Range(c, d))
  }

  lemma BoxFacts(a: int, b: int, c: int, d: int)
    requires a <= b && c <= d
    ensures |Box(a, b, c, d)| == (b - a) * (d - c)
    ensures forall e :: e in Box(a, b, c, d) <==> a <= e.x < b && c <= e.y < d
  {
    hide Rect, Range;
    InRange(a, b);
    InRange(c, d);
    RectSize(Range(a, b), Range(c, d));
    InRect(Range(a, b), Range(c, d));
  }

  ghost function AllCells(n: nat): set<Cell> {
    Box(0, n, 0, n)
  }

  /** The free cells that the first t steps of the scan reach. */
  ghost function FreeCells(n: nat, f: Grid, t: nat): set<Cell>
    requires IsSize(n) && Square(f, n)
  {
    BoxFacts(0, n, 0, n);
    set c | c in AllCells(n) && c.x != 6 && !At(f, c) && Index(n, c) < t
  }

  /** Ranks count cells. */
  lemma {:induction false} RankCounts(n: nat, f: Grid, t: nat)
    requires IsSize(n) && Square(f, n) && t <= ScanLength(n)
    ensures Rank(n, f, t) == |FreeCells(n, f, t)|
  {
    hide Scan, Index, ScanLength, Box;
    BoxFacts(0, n, 0, n);
    if t == 0 {
      forall c | c in AllCells(n) && c.x != 6 ensures Index(n, c) >= 0 { ScanReaches(n, c); }
      assert FreeCells(n, f, 0) == {};
    } else {
      RankCounts(n, f, t - 1);
      ScanOnce(n, t - 1);
      var now, before, c := FreeCells(n, f, t), FreeCells(n, f, t - 1), Scan(n, t - 1);
      forall d | d in now && d !in before ensures d == c { ScanReaches(n, d); }
      if FreeAt(n, f, t - 1) {
        assert now == before + {c};
      } else {
        assert now == before;
      }
    }
  }

  /** The whole scan reaches every cell that is not a function module, when
      column 6 consists of function modules. */
  lemma RankOfComplement(n: nat, f: Grid, area: set<Cell>)
    requires IsSize(n) && Square(f, n) && area <= AllCells(n)
    requires forall c :: c in AllCells(n) && 0 <= c.x < n && 0 <= c.y < n ==> (At(f, c) <==> c in area)
    requires forall y :: 0 <= y < n ==> Cell(6, y) in area
    ensures ScanLength(n) >= 0
    ensures Rank(n, f, ScanLength(n)) == n * n - |area|
  {
    hide Index, Box, Rank;
    var length := ScanLength(n);
    BoxFacts(0, n, 0, n);
    RankCounts(n, f, length);
    hide ScanLength;
    var free := FreeCells(n, f, length);
    forall c | c in AllCells(n) && c.x != 6 ensures Index(n, c) < length { ScanReaches(n, c); }
    forall c | c in AllCells(n) && c.x == 6 ensures c in area { assert c == Cell(6, c.y); }
    assert AllCells(n) == free + area;
    assert free !! area;
  }
}

/** Which modules are function modules, in closed form, and how many. */
module FunctionArea {
  import opened Placement
  import opened QrTables
  import opened CellSets
  import opened FunctionPatterns

  /** The columns (or rows) that alignment patterns i to j - 1 cover. */
  ghost function Strips(v: nat, i: nat, j: nat): set<int>
    requires 2 <= v && j <= NumAlign(v)
    decreases j - i
  {
    if i >= j then {} else Strips(v, i, j - 1) + Strip(v, j - 1)
  }

  ghost function Strip(v: nat, k: nat): set<int>
    requires 2 <= v && k < NumAlign(v)
  {
    Range(AlignPosition(v, k) - 2, AlignPosition(v, k) + 3)
  }

  lemma {:induction false} StripsContain(v: nat, i: nat, j: nat, x: int)
    requires 2 <= v && j <= NumAlign(v)
    ensures x in Strips(v, i, j) <==> exists k: nat :: i <= k < j && OnStrip(v, k, x)
    decreases j - i
  {
    hide AlignPosition, Range;
    if i < j {
      StripsContain(v, i, j - 1, x);
      InRange(AlignPosition(v, j - 1) - 2, AlignPosition(v, j - 1) + 3);
      assert x in Strips(v, i, j) <==> x in Strips(v, i, j - 1) || OnStrip(v, j - 1, x);
    }
  }

  ghost predicate OnStrip(v: nat, k: nat, x: int)
    requires 2 <= v && k < NumAlign(v)
  {
    AlignPosition(v, k) - 2 <= x <= AlignPosition(v, k) + 2
  }

  /** Strips do not overlap. */
  lemma {:induction false} StripsSize(v: nat, j: nat)
    requires 2 <= v <= 40 && 1 <= j <= NumAlign(v)
    ensures |Strips(v, 1, j)| == 5 * (j - 1)
  {
    hide AlignPosition, NumAlign, Range;
    if j > 1 {
      StripsSize(v, j - 1);
      var p, lower := AlignPosition(v, j - 1), Strips(v, 1, j - 1);
      InRange(p - 2, p + 3);
      forall x: int | x in lower ensures x < p - 2 {
        StripsContain(v, 1, j - 1, x);
        var k: nat :| 1 <= k < j - 1 && OnStrip(v, k, x);
        AlignAscends(v, k, j - 1);
      }
      assert lower !! Strip(v, j - 1);
    }
  }

  lemma StripsRange(v: nat, j: nat, x: int)
    requires 2 <= v <= 40 && j <= NumAlign(v) && x in Strips(v, 1, j)
    ensures 16 <= x < Size(v) - 4
    ensures j < NumAlign(v) ==> x < Size(v) - 20
  {
    hide AlignPosition, NumAlign;
    StripsContain(v, 1, j, x);
    var k: nat :| 1 <= k < j && OnStrip(v, k, x);
    AlignBounds(v, k);
  }

  // ---- The area -----------------------------------------------------------------

  /** The corner squares with the format information and the rest of the
      timing patterns. */
  ghost function FixedArea(v: nat): set<Cell> {
    var n := Size(v);
    Corners(n) + Box(9, n - 8, 6, 7) + Box(6, 7, 9, n - 8)
  }

  ghost function Corners(n: nat): set<Cell> {
    Box(0, 9, 0, 9) + Box(n - 8, n, 0, 9) + Box(0, 9, n - 8, n)
  }

  ghost function VersionArea(v: nat): set<Cell> {
    var n := Size(v);
    if v < 7 then {} else Box(n - 11, n - 8, 0, 6) + Box(0, 6, n - 11, n - 8)
  }

  /** What the alignment patterns add: those away from the timing patterns,
      and what sticks out of the timing patterns. */
  ghost function AlignmentArea(v: nat): set<Cell>
    requires 1 <= v
  {
    if v == 1 then {}
    else
      var a, b := Strips(v, 1, NumAlign(v)), Strips(v, 1, NumAlign(v) - 1);
      Rect(a, a) + Rect(Beside(), b) + Rect(b, Beside())
  }

  ghost function Beside(): set<int> {
    {4, 5, 7, 8}
  }

  ghost function Area(v: nat): set<Cell>
    requires 1 <= v
  {
    FixedArea(v) + VersionArea(v) + AlignmentArea(v)
  }

  predicate InFixedArea(v: nat, c: Cell) {
    var n := Size(v);
    || (0 <= c.x < 9 && (0 <= c.y < 9 || n - 8 <= c.y < n))
    || (n - 8 <= c.x < n && 0 <= c.y < 9)
    || (c.x == 6 && 0 <= c.y < n) || (c.y == 6 && 0 <= c.x < n)
  }

  predicate InVersionArea(v: nat, c: Cell) {
    var n := Size(v);
    v >= 7 && ((n - 11 <= c.x < n - 8 && 0 <= c.y < 6) || (n - 11 <= c.y < n - 8 && 0 <= c.x < 6))
  }

  lemma FixedAreaFacts(v: nat)
    requires Version(v)
    ensures |FixedArea(v)| == 225 + 8 * v
    ensures forall c :: c in FixedArea(v) <==> InFixedArea(v, c)
  {
    FixedAreaSize(v);
    hide FixedArea, InFixedArea;
    forall c ensures c in FixedArea(v) <==> InFixedArea(v, c) { FixedAreaMember(v, c); }
  }

  lemma FixedAreaMember(v: nat, c: Cell)
    requires Version(v)
    ensures c in FixedArea(v) <==> InFixedArea(v, c)
  {
    hide Box, Corners;
    var n := Size(v);
    CornersFacts(n);
    BoxFacts(9, n - 8, 6, 7);
    BoxFacts(6, 7, 9, n - 8);
  }

  lemma FixedAreaSize(v: nat)
    requires Version(v)
    ensures |FixedArea(v)| == 225 + 8 * v
  {
    hide Box, Corners;
    var n := Size(v);
    CornersFacts(n);
    BoxFacts(9, n - 8, 6, 7);
    BoxFacts(6, 7, 9, n - 8);
    assert Corners(n) !! Box(9, n - 8, 6, 7);
    assert Corners(n) + Box(9, n - 8, 6, 7) !! Box(6, 7, 9, n - 8);
  }

  lemma CornersFacts(n: nat)
    requires n >= 21
    ensures |Corners(n)| == 225
    ensures forall c :: c in Corners(n) <==>
      || (0 <= c.x < 9 && (0 <= c.y < 9 || n - 8 <= c.y < n))
      || (n - 8 <= c.x < n && 0 <= c.y < 9)
  {
    hide Box;
    BoxFacts(0, 9, 0, 9);
    BoxFacts(n - 8, n, 0, 9);
    BoxFacts(0, 9, n - 8, n);
    assert Box(0, 9, 0, 9) !! Box(n - 8, n, 0, 9);
    assert Box(0, 9, 0, 9) + Box(n - 8, n, 0, 9) !! Box(0, 9, n - 8, n);
  }

  lemma VersionAreaFacts(v: nat)
    requires Version(v)
    ensures |VersionArea(v)| == if v < 7 then 0 else 36
    ensures forall c :: c in VersionArea(v) <==> InVersionArea(v, c)
  {
    hide Box;
    var n := Size(v);
    BoxFacts(n - 11, n - 8, 0, 6);
    BoxFacts(0, 6, n - 11, n - 8);
    assert v >= 7 ==> Box(n - 11, n - 8, 0, 6) !! Box(0, 6, n - 11, n - 8);
  }

  lemma AlignmentAreaSize(v: nat)
    requires 2 <= v <= 40
    ensures |AlignmentArea(v)| == 25 * (NumAlign(v) - 1) * (NumAlign(v) - 1) + 40 * (NumAlign(v) - 2)
  {
    hide Strips, Rect;
    var d := NumAlign(v);
    var a, b := Strips(v, 1, d), Strips(v, 1, d - 1);
    StripsSize(v, d);
    StripsSize(v, d - 1);
    StripBounds(v);
    StripRects(a, b);
    assert (5 * (d - 1)) * (5 * (d - 1)) == 25 * (d - 1) * (d - 1);
  }

  lemma StripRects(a: set<int>, b: set<int>)
    requires forall x :: x in a || x in b ==> x >= 16
    ensures |Rect(a, a) + Rect(Beside(), b) + Rect(b, Beside())| == |a| * |a| + 8 * |b|
  {
    hide Rect;
    RectSize(a, a);
    RectSize(Beside(), b);
    RectSize(b, Beside());
    InRect(a, a);
    InRect(Beside(), b);
    InRect(b, Beside());
    var beside := Beside();
    assert |beside| == 4;
    assert forall x :: x in beside ==> x < 16;
    hide Beside;
    assert Rect(a, a) !! Rect(beside, b);
    assert Rect(a, a) + Rect(beside, b) !! Rect(b, beside);
  }

  ghost predicate Within(s: set<int>, low: int, high: int) {
    forall x :: x in s ==> low <= x < high
  }

  lemma StripBounds(v: nat)
    requires 2 <= v <= 40
    ensures Within(Strips(v, 1, NumAlign(v)), 16, Size(v) - 4)
    ensures Within(Strips(v, 1, NumAlign(v) - 1), 16, Size(v) - 20)
  {
    hide Strips;
    var a, b := Strips(v, 1, NumAlign(v)), Strips(v, 1, NumAlign(v) - 1);
    forall x: int | x in a ensures 16 <= x < Size(v) - 4 { StripsRange(v, NumAlign(v), x); }
    forall x: int | x in b ensures 16 <= x < Size(v) - 20 { StripsRange(v, NumAlign(v) - 1, x); }
  }

  /** The parts of the area do not overlap. */
  lemma PartsAreDisjoint(v: nat)
    requires Version(v)
    ensures FixedArea(v) !! VersionArea(v)
    ensures FixedArea(v) + VersionArea(v) !! AlignmentArea(v)
  {
    hide Strips, Rect, FixedArea, VersionArea;
    FixedAreaFacts(v);
    VersionAreaFacts(v);
    if v > 1 {
      var a, b := Strips(v, 1, NumAlign(v)), Strips(v, 1, NumAlign(v) - 1);
      StripBounds(v);
      InRect(a, a);
      InRect(Beside(), b);
      InRect(b, Beside());
    }
  }

  /** The number of modules that are left for data is the number in the
      table formula. */
  lemma AreaSize(v: nat)
    requires Version(v)
    ensures Size(v) * Size(v) - |Area(v)| == NumRawDataModules(v)
  {
    PartsAreDisjoint(v);
    hide FixedArea, VersionArea, AlignmentArea, NumRawDataModules, Size;
    FixedAreaFacts(v);
    VersionAreaFacts(v);
    AlignmentAreaTotal(v);
    ModuleSum(v);
    assert |Area(v)| == |FixedArea(v)| + |VersionArea(v)| + |AlignmentArea(v)|;
  }

  /** The number of modules in the alignment area. */
  function AlignmentCount(v: nat): int {
    if v < 2 then 0 else 25 * (NumAlign(v) - 1) * (NumAlign(v) - 1) + 40 * (NumAlign(v) - 2)
  }

  lemma AlignmentAreaTotal(v: nat)
    requires Version(v)
    ensures |AlignmentArea(v)| == AlignmentCount(v)
  {
    if v > 1 {
      hide AlignmentArea;
      AlignmentAreaSize(v);
    }
  }

  lemma ModuleSum(v: nat)
    requires Version(v)
    ensures Size(v) * Size(v) - (225 + 8 * v) - (if v < 7 then 0 else 36) - AlignmentCount(v) == NumRawDataModules(v)
  {
    if v > 1 {
      hide NumAlign;
      var d := NumAlign(v);
      assert d == v / 7 + 2 by { AlignCount(v); }
      SumOfSquares(v, d);
    }
  }

  lemma AlignCount(v: nat)
    requires v > 1
    ensures NumAlign(v) == v / 7 + 2
  {}

  lemma SumOfSquares(v: nat, d: nat)
    ensures (4 * v + 17) * (4 * v + 17) - (225 + 8 * v) - (25 * (d - 1) * (d - 1) + 40 * (d - 2))
         == (16 * v + 128) * v + 64 - ((25 * d - 10) * d - 55)
  {
    assert (4 * v + 17) * (4 * v + 17) == 16 * v * v + 136 * v + 289;
    assert 25 * (d - 1) * (d - 1) == 25 * d * d - 50 * d + 25;
    assert (25 * d - 10) * d == 25 * d * d - 10 * d;
    assert (16 * v + 128) * v == 16 * v * v + 128 * v;
  }

  // ---- What is drawn covers the area -----------------------------------------------

  /** Whether alignment pattern (i, k) covers a cell. */
  ghost predicate OnPattern(v: nat, i: nat, k: nat, c: Cell)
    requires 2 <= v && i < NumAlign(v) && k < NumAlign(v)
  {
    !FinderCorner(v, i, k) && OnStrip(v, i, c.x) && OnStrip(v, k, c.y)
  }

  lemma PatternInk(cx: int, cy: int, c: Cell)
    ensures InkOf(WholeAlignment(cx, cy), c).Ink? <==> cx - 2 <= c.x <= cx + 2 && cy - 2 <= c.y <= cy + 2
  {
    hide TimingInk, FinderInk, FormatInk, VersionInk;
  }

  lemma LayerInk(s: Stroke, t: Stroke, c: Cell)
    ensures InkOf(Layer(s, t), c).Ink? <==> InkOf(s, c).Ink? || InkOf(t, c).Ink?
    ensures InkOf(Nothing, c) == Clear
  {}

  lemma {:induction false} RowInk(v: nat, i: nat, j: nat, c: Cell)
    requires 2 <= v && i < NumAlign(v) && j <= NumAlign(v)
    ensures InkOf(AlignmentRow(v, i, j), c).Ink? <==> exists k: nat :: k < j && OnPattern(v, i, k, c)
  {
    hide InkOf, AlignPosition, NumAlign;
    LayerInk(Nothing, Nothing, c);
    if j > 0 {
      RowInk(v, i, j - 1, c);
      PatternInk(AlignPosition(v, i), AlignPosition(v, j - 1), c);
      LayerInk(AlignmentRow(v, i, j - 1), WholeAlignment(AlignPosition(v, i), AlignPosition(v, j - 1)), c);
      assert InkOf(AlignmentRow(v, i, j), c).Ink? <==>
        InkOf(AlignmentRow(v, i, j - 1), c).Ink? || OnPattern(v, i, j - 1, c);
    }
  }

  ghost predicate OnRow(v: nat, i: nat, c: Cell)
    requires 2 <= v && i < NumAlign(v)
  {
    exists k: nat :: k < NumAlign(v) && OnPattern(v, i, k, c)
  }

  lemma {:induction false} UpToInk(v: nat, i: nat, c: Cell)
    requires 2 <= v && i <= NumAlign(v)
    ensures InkOf(AlignmentsUpTo(v, i), c).Ink? <==> exists k: nat :: k < i && OnRow(v, k, c)
  {
    hide InkOf, OnPattern, NumAlign, AlignmentRow;
    LayerInk(Nothing, Nothing, c);
    if i > 0 {
      UpToInk(v, i - 1, c);
      RowInk(v, i - 1, NumAlign(v), c);
      LayerInk(AlignmentsUpTo(v, i - 1), AlignmentRow(v, i - 1, NumAlign(v)), c);
      assert InkOf(AlignmentsUpTo(v, i), c).Ink? <==>
        InkOf(AlignmentsUpTo(v, i - 1), c).Ink? || OnRow(v, i - 1, c);
    }
  }

  lemma FirstStrip(v: nat, x: int)
    requires 2 <= v
    ensures OnStrip(v, 0, x) <==> 4 <= x <= 8
  {}

  /** A pattern covers cells of the area only. */
  lemma PatternInArea(v: nat, i: nat, k: nat, c: Cell)
    requires 2 <= v <= 40 && i < NumAlign(v) && k < NumAlign(v) && OnPattern(v, i, k, c)
    requires 0 <= c.x < Size(v) && 0 <= c.y < Size(v)
    ensures InFixedArea(v, c) || c in AlignmentArea(v)
  {
    hide Strips, NumAlign, Rect, OnStrip;
    var d := NumAlign(v);
    var a, b := Strips(v, 1, d), Strips(v, 1, d - 1);
    StripsContain(v, 1, d, c.x);
    StripsContain(v, 1, d, c.y);
    StripsContain(v, 1, d - 1, c.x);
    StripsContain(v, 1, d - 1, c.y);
    FirstStrip(v, c.x);
    FirstStrip(v, c.y);
    InRect(a, a);
    InRect(Beside(), b);
    InRect(b, Beside());
  }

  lemma AreaHasPattern(v: nat, c: Cell)
    requires 2 <= v <= 40 && c in AlignmentArea(v)
    ensures exists i: nat :: i < NumAlign(v) && OnRow(v, i, c)
  {
    hide Strips, NumAlign, Rect, OnStrip;
    AlignCount(v);
    var d := NumAlign(v);
    var a, b := Strips(v, 1, d), Strips(v, 1, d - 1);
    StripsContain(v, 1, d, c.x);
    StripsContain(v, 1, d, c.y);
    StripsContain(v, 1, d - 1, c.x);
    StripsContain(v, 1, d - 1, c.y);
    FirstStrip(v, c.x);
    FirstStrip(v, c.y);
    InRect(a, a);
    InRect(Beside(), b);
    InRect(b, Beside());
    if c in Rect(a, a) {
      var i: nat :| 1 <= i < d && OnStrip(v, i, c.x);
      var k: nat :| 1 <= k < d && OnStrip(v, k, c.y);
      assert OnPattern(v, i, k, c);
      assert OnRow(v, i, c);
    } else if c in Rect(Beside(), b) {
      var k: nat :| 1 <= k < d - 1 && OnStrip(v, k, c.y);
      assert OnPattern(v, 0, k, c);
      assert OnRow(v, 0, c);
    } else {
      var i: nat :| 1 <= i < d - 1 && OnStrip(v, i, c.x);
      assert OnPattern(v, i, 0, c);
      assert OnRow(v, i, c);
    }
  }

  lemma AlignmentsInk(v: nat, c: Cell)
    requires Version(v) && 0 <= c.x < Size(v) && 0 <= c.y < Size(v)
    ensures InFixedArea(v, c) || InkOf(Alignments(v), c).Ink? <==> InFixedArea(v, c) || c in AlignmentArea(v)
  {
    hide InkOf, OnPattern, AlignmentsUpTo, InFixedArea;
    LayerInk(Nothing, Nothing, c);
    if v > 1 {
      hide AlignmentArea, NumAlign;
      UpToInk(v, NumAlign(v), c);
      if c in AlignmentArea(v) {
        AreaHasPattern(v, c);
      }
      if InkOf(Alignments(v), c).Ink? {
        var i: nat :| i < NumAlign(v) && OnRow(v, i, c);
        var k: nat :| k < NumAlign(v) && OnPattern(v, i, k, c);
        PatternInArea(v, i, k, c);
      }
    }
  }

  lemma FinderTouches(cx: int, cy: int, c: Cell)
    ensures InkOf(WholeFinder(cx, cy), c).Ink? <==> cx - 4 <= c.x <= cx + 4 && cy - 4 <= c.y <= cy + 4
  {
    hide TimingInk, AlignmentInk, FormatInk, VersionInk;
  }

  lemma TimingTouches(n: nat, c: Cell)
    requires 0 <= c.x < n && 0 <= c.y < n
    ensures InkOf(Timing(n), c).Ink? <==> c.x == 6 || c.y == 6
  {
    hide FinderInk, AlignmentInk, FormatInk, VersionInk;
  }

  lemma FormatTouches(n: nat, bits: nat, c: Cell)
    ensures InkOf(Format(n, bits, 31), c).Ink? <==> 0 <= FormatOrder(n, c) < 31
  {
    hide TimingInk, FinderInk, AlignmentInk, VersionInk, FormatModule, FormatOrder;
  }

  /** The corners, the timing patterns and the format information make up the
      fixed area. */
  lemma CornersCovered(v: nat, c: Cell)
    requires Version(v) && 0 <= c.x < Size(v) && 0 <= c.y < Size(v)
    ensures var n := Size(v); InFixedArea(v, c) <==>
      || c.x == 6 || c.y == 6 || (c.x <= 7 && c.y <= 7) || (c.x >= n - 8 && c.y <= 7) || (c.x <= 7 && c.y >= n - 8)
      || 0 <= FormatOrder(n, c) < 31
  {}

  lemma VersionTouches(v: nat, c: Cell)
    requires Version(v)
    ensures InkOf(VersionStroke(v), c).Ink? <==> InVersionArea(v, c)
  {
    hide TimingInk, FinderInk, AlignmentInk, FormatInk, VersionBits;
  }

  /** The function patterns of a version cover exactly its area. */
  lemma PatternsCoverArea(v: nat, ecl: Ecl, c: Cell)
    requires Version(v) && 0 <= c.x < Size(v) && 0 <= c.y < Size(v)
    ensures InkOf(Patterns(v, ecl), c).Ink? <==> c in Area(v)
  {
    hide InkOf, Alignments, FixedArea, VersionArea, AlignmentArea, FormatBits, VersionStroke, FormatOrder;
    hide WholeFinder, InFixedArea, InVersionArea;
    var n, bits := Size(v), FormatBits(ecl, 0);
    var s1 := Layer(Timing(n), WholeFinder(3, 3));
    var s2 := Layer(s1, WholeFinder(n - 4, 3));
    var s3 := Layer(s2, WholeFinder(3, n - 4));
    var s4 := Layer(s3, Alignments(v));
    var s5 := Layer(s4, Format(n, bits, 31));
    LayerInk(Timing(n), WholeFinder(3, 3), c);
    LayerInk(s1, WholeFinder(n - 4, 3), c);
    LayerInk(s2, WholeFinder(3, n - 4), c);
    LayerInk(s3, Alignments(v), c);
    LayerInk(s4, Format(n, bits, 31), c);
    LayerInk(s5, VersionStroke(v), c);
    TimingTouches(n, c);
    FinderTouches(3, 3, c);
    FinderTouches(n - 4, 3, c);
    FinderTouches(3, n - 4, c);
    AlignmentsInk(v, c);
    FormatTouches(n, bits, c);
    VersionTouches(v, c);
    FixedAreaFacts(v);
    VersionAreaFacts(v);
    CornersCovered(v, c);
  }

  /** The grid of function modules, known from the version alone. */
  ghost function FunctionGrid(v: nat): (f: Grid)
    requires 1 <= v
    ensures Square(f, Size(v))
    ensures forall y, x :: 0 <= y < Size(v) && 0 <= x < Size(v) ==> (f[y][x] <==> Cell(x, y) in Area(v))
  {
    hide Area;
    seq(Size(v), y => seq(Size(v), x => Cell(x, y) in Area(v)))
  }

  lemma AreaInGrid(v: nat, c: Cell)
    requires Version(v) && c in Area(v)
    ensures 0 <= c.x < Size(v) && 0 <= c.y < Size(v)
  {
    hide FixedArea, VersionArea, Strips, Rect;
    FixedAreaFacts(v);
    VersionAreaFacts(v);
    if c in AlignmentArea(v) && v > 1 {
      StripBounds(v);
      var a, b := Strips(v, 1, NumAlign(v)), Strips(v, 1, NumAlign(v) - 1);
      InRect(a, a);
      InRect(Beside(), b);
      InRect(b, Beside());
    }
  }

  /** A symbol has exactly as many free modules as the table formula says. */
  lemma FreeModules(v: nat)
    requires Version(v)
    ensures IsSize(Size(v)) && ScanLength(Size(v)) >= 0
    ensures Rank(Size(v), FunctionGrid(v), ScanLength(Size(v))) == NumRawDataModules(v)
  {
    hide Area, NumRawDataModules, Rank, Box, ScanLength;
    var n, f, area := Size(v), FunctionGrid(v), Area(v);
    BoxFacts(0, n, 0, n);
    forall c | c in area ensures c in AllCells(n) { AreaInGrid(v, c); }
    forall c: Cell | c in AllCells(n) && 0 <= c.x < n && 0 <= c.y < n ensures At(f, c) <==> c in area {
      assert c == Cell(c.x, c.y);
    }
    forall y | 0 <= y < n ensures Cell(6, y) in area { Column6(v, y); }
    RankOfComplement(n, f, area);
    AreaSize(v);
  }

  lemma Column6(v: nat, y: int)
    requires Version(v) && 0 <= y < Size(v)
    ensures Cell(6, y) in Area(v)
  {
    hide FixedArea, VersionArea, AlignmentArea;
    FixedAreaFacts(v);
  }
}
