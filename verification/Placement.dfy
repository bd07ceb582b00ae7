/** Module grids, the zigzag order in which codewords are drawn into them
    (section 7.7.3 of ISO/IEC 18004:2015) and the reader that goes the same
    way. Everything here is for any odd size above 8. */
module Placement {
  import opened Binary

  type Bits = seq<bool>

  /** A picture of the modules: rows from the top, each from the left. */
  type Grid = seq<seq<bool>>

  ghost predicate Square(g: Grid, n: nat) {
    |g| == n && forall y :: 0 <= y < n ==> |g[y]| == n
  }

  ghost predicate IsSize(n: nat) {
    n % 2 == 1 && n > 8
  }

  /** The contents of a square array of modules. */
  function Picture(a: array2<bool>): (g: Grid)
    reads a
    ensures |g| == a.Length0
    ensures forall y :: 0 <= y < a.Length0 ==> |g[y]| == a.Length1
    ensures forall y, x :: 0 <= y < a.Length0 && 0 <= x < a.Length1 ==> g[y][x] == a[y, x]
  {
    seq(a.Length0, y requires 0 <= y < a.Length0 reads a =>
      seq(a.Length1, x requires 0 <= x < a.Length1 reads a => a[y, x]))
  }

  // ---- Codewords as bits -----------------------------------------------------

  /** Bit i of a sequence of codewords, most significant bit of each first. */
  predicate CodewordBit(words: seq<Byte>, i: nat)
    requires i < 8 * |words|
  {
    Bit(words[i / 8], 7 - i % 8)
  }

  function CodewordBits(words: seq<Byte>): (b: Bits)
    ensures |b| == 8 * |words|
  {
    seq(8 * |words|, i requires 0 <= i < 8 * |words| => CodewordBit(words, i))
  }

  // ---- The scan ---------------------------------------------------------------

  datatype Cell = Cell(x: int, y: int)

  /** The right column of the k-th column pair; column 6 is skipped. */
  function Right(n: nat, k: nat): int {
    if n - 1 - 2 * k > 6 then n - 1 - 2 * k else n - 2 - 2 * k
  }

  predicate Upward(right: int) {
    (right + 1) / 2 % 2 == 0
  }

  /** The number of cells that the scan visits. */
  function ScanLength(n: nat): int {
    (n - 1) * n
  }

  /** The cell that the v-th step within the k-th column pair visits. */
  function PairCell(n: nat, k: nat, v: nat): Cell {
    var right := Right(n, k);
    Cell(right - v % 2, if Upward(right) then n - 1 - v / 2 else v / 2)
  }

  /** The t-th cell of the scan. */
  function Scan(n: nat, t: nat): Cell
    requires n > 0
  {
    PairCell(n, t / (2 * n), t % (2 * n))
  }

  ghost predicate Visited(n: nat, c: Cell) {
    0 <= c.x < n && 0 <= c.y < n && c.x != 6
  }

  /** The column pair that a column belongs to. */
  function PairOf(n: nat, x: int): int {
    if x > 6 then (n - 1 - x) / 2 else (n - 2 - x) / 2
  }

  /** When the scan visits a cell. */
  function Index(n: nat, c: Cell): int {
    var k := PairOf(n, c.x);
    var right := if k >= 0 then Right(n, k) else 0;
    2 * n * k + 2 * (if Upward(right) then n - 1 - c.y else c.y) + (right - c.x)
  }

  lemma PairRange(n: nat, k: nat)
    requires IsSize(n) && k < (n - 1) / 2
    ensures 1 <= Right(n, k) < n && Right(n, k) != 6 && Right(n, k) - 1 != 6
    ensures PairOf(n, Right(n, k)) == k && PairOf(n, Right(n, k) - 1) == k
  {}

  lemma ColumnRange(n: nat, x: int)
    requires IsSize(n) && 0 <= x < n && x != 6
    ensures 0 <= PairOf(n, x) < (n - 1) / 2
    ensures Right(n, PairOf(n, x)) - 1 <= x <= Right(n, PairOf(n, x))
  {}

  /** Division by a positive number is determined by quotient and remainder. */
  lemma DivModUnique(t: int, d: int, q: int, r: int)
    requires 0 <= r < d && t == d * q + r
    ensures t / d == q && t % d == r
  {
    var e := t / d - q;
    assert d * e == d * (t / d) - d * q == r - t % d;
    assert -d < d * e < d;
  }

  lemma ProductNonNegative(a: int, b: int)
    requires a >= 0 && b >= 0
    ensures a * b >= 0
  {}

  lemma ChunkOrder(d: nat, k: nat, h: nat, v: nat)
    requires v < d
    ensures k < h <==> d * k + v < d * h
  {
    if k < h {
      ProductNonNegative(d, h - k - 1);
      assert d * (h - k - 1) == d * h - d * k - d;
    } else {
      ProductNonNegative(d, k - h);
      assert d * (k - h) == d * k - d * h;
    }
  }

  /** Step v of column pair k, as a time. */
  lemma PairTime(n: nat, k: nat, v: nat)
    requires IsSize(n) && v < 2 * n
    ensures (2 * n * k + v) / (2 * n) == k && (2 * n * k + v) % (2 * n) == v
    ensures 0 <= 2 * n * k + v
    ensures k < (n - 1) / 2 <==> 2 * n * k + v < ScanLength(n)
  {
    var h := (n - 1) / 2;
    assert ScanLength(n) == (2 * n) * h by {
      assert n - 1 == 2 * h;
      assert (2 * h) * n == (2 * n) * h;
    }
    DivModUnique(2 * n * k + v, 2 * n, k, v);
    ChunkOrder(2 * n, k, h, v);
  }

  /** The scan reaches every cell outside column 6 ... */
  lemma ScanReaches(n: nat, c: Cell)
    requires IsSize(n) && Visited(n, c)
    ensures 0 <= Index(n, c) < ScanLength(n)
    ensures Scan(n, Index(n, c)) == c
  {
    hide ScanLength;
    var k := PairOf(n, c.x);
    ColumnRange(n, c.x);
    var right := Right(n, k);
    var v := 2 * (if Upward(right) then n - 1 - c.y else c.y) + (right - c.x);
    PairTime(n, k, v);
    hide Right, PairOf, Upward;
    assert Index(n, c) == 2 * n * k + v;
    assert PairCell(n, k, v) == c;
  }

  /** ... and each of them once. */
  lemma ScanOnce(n: nat, t: nat)
    requires IsSize(n) && t < ScanLength(n)
    ensures Visited(n, Scan(n, t)) && Index(n, Scan(n, t)) == t
  {
    hide ScanLength;
    var k, v := t / (2 * n), t % (2 * n);
    assert t == 2 * n * k + v;
    PairTime(n, k, v);
    PairRange(n, k);
    hide Right, PairOf, Upward;
    var c := Scan(n, t);
    assert PairOf(n, c.x) == k;
  }

  // ---- Drawing and reading ------------------------------------------------------

  /** The module of a grid at a cell the scan can visit. */
  predicate At(g: Grid, c: Cell)
    requires 0 <= c.y < |g| && 0 <= c.x < |g[c.y]|
  {
    g[c.y][c.x]
  }

  ghost predicate FreeAt(n: nat, f: Grid, t: nat)
    requires IsSize(n) && Square(f, n) && t < ScanLength(n)
  {
    ScanOnce(n, t);
    !At(f, Scan(n, t))
  }

  /** The number of free cells among the first t of the scan. */
  ghost function Rank(n: nat, f: Grid, t: nat): (r: nat)
    requires IsSize(n) && Square(f, n) && t <= ScanLength(n)
    ensures r <= t
  {
    if t == 0 then 0
    else Rank(n, f, t - 1) + if FreeAt(n, f, t - 1) then 1 else 0
  }

  /** The module at c once all codewords are drawn: the free cells take the
      codeword bits in the order of the scan, everything else stays. */
  ghost predicate Drawn(n: nat, f: Grid, g: Grid, words: seq<Byte>, c: Cell)
    requires IsSize(n) && Square(f, n) && Square(g, n) && 0 <= c.x < n && 0 <= c.y < n
  {
    if c.x == 6 || At(f, c) then At(g, c)
    else
      ScanReaches(n, c);
      var r := Rank(n, f, Index(n, c));
      if r < 8 * |words| then CodewordBit(words, r) else At(g, c)
  }

  ghost function DrawnGrid(n: nat, f: Grid, g: Grid, words: seq<Byte>): (d: Grid)
    requires IsSize(n) && Square(f, n) && Square(g, n)
    ensures Square(d, n)
  {
    seq(n, y requires 0 <= y < n => seq(n, x requires 0 <= x < n => Drawn(n, f, g, words, Cell(x, y))))
  }

  /** The modules of the free cells, in the order of the first t of the scan. */
  ghost function ReadBits(n: nat, f: Grid, g: Grid, t: nat): Bits
    requires IsSize(n) && Square(f, n) && Square(g, n) && t <= ScanLength(n)
  {
    if t == 0 then []
    else
      ScanOnce(n, t - 1);
      ReadBits(n, f, g, t - 1) + if FreeAt(n, f, t - 1) then [At(g, Scan(n, t - 1))] else []
  }

  /** Reading what was drawn, cell by cell. */
  lemma {:induction false} ReadDrawn(n: nat, f: Grid, g: Grid, words: seq<Byte>, t: nat, i: nat)
    requires IsSize(n) && Square(f, n) && Square(g, n) && t <= ScanLength(n)
    requires i < Rank(n, f, t) && i < 8 * |words|
    ensures |ReadBits(n, f, DrawnGrid(n, f, g, words), t)| == Rank(n, f, t)
    ensures ReadBits(n, f, DrawnGrid(n, f, g, words), t)[i] == CodewordBit(words, i)
  {
    hide Scan, Index, Bit, ScanLength;
    var d := DrawnGrid(n, f, g, words);
    ReadLength(n, f, d, t);
    ReadLength(n, f, d, t - 1);
    ScanOnce(n, t - 1);
    if i < Rank(n, f, t - 1) {
      ReadDrawn(n, f, g, words, t - 1, i);
    }
  }

  lemma {:induction false} ReadLength(n: nat, f: Grid, g: Grid, t: nat)
    requires IsSize(n) && Square(f, n) && Square(g, n) && t <= ScanLength(n)
    ensures |ReadBits(n, f, g, t)| == Rank(n, f, t)
  {
    if t > 0 { ReadLength(n, f, g, t - 1); }
  }

  /** With room for all codewords, the reader gets them back bit by bit. */
  lemma ReadBack(n: nat, f: Grid, g: Grid, words: seq<Byte>)
    requires IsSize(n) && Square(f, n) && Square(g, n)
    requires 8 * |words| <= Rank(n, f, ScanLength(n))
    ensures |ReadBits(n, f, DrawnGrid(n, f, g, words), ScanLength(n))| == Rank(n, f, ScanLength(n))
    ensures ReadBits(n, f, DrawnGrid(n, f, g, words), ScanLength(n))[..8 * |words|] == CodewordBits(words)
  {
    hide DrawnGrid, ReadBits, Bit, ScanLength;
    var t := ScanLength(n);
    var d := DrawnGrid(n, f, g, words);
    ReadLength(n, f, d, t);
    forall i | 0 <= i < 8 * |words| ensures ReadBits(n, f, d, t)[i] == CodewordBits(words)[i] {
      ReadDrawn(n, f, g, words, t, i);
    }
  }

  /** The state of the drawing after t steps of the scan. */
  ghost predicate Progress(n: nat, f: Grid, g: Grid, words: seq<Byte>, t: nat, modules: array2<bool>)
    requires IsSize(n) && Square(f, n) && Square(g, n)
    reads modules
  {
    && modules.Length0 == modules.Length1 == n
    && forall x, y :: 0 <= x < n && 0 <= y < n ==>
      modules[y, x] == if x != 6 && Index(n, Cell(x, y)) < t then Drawn(n, f, g, words, Cell(x, y)) else g[y][x]
  }

  /** One cell of the scan. */
  method DrawCell(modules: array2<bool>, isFunction: array2<bool>, words: seq<Byte>, i: nat, x: nat, y: nat,
                  ghost n: nat, ghost g: Grid, ghost t: nat) returns (next: nat)
    requires modules != isFunction && isFunction.Length0 == isFunction.Length1 == n
    requires IsSize(n) && Square(g, n) && t < ScanLength(n) && Scan(n, t) == Cell(x, y)
    requires i == Min(Rank(n, Picture(isFunction), t), 8 * |words|)
    requires Progress(n, Picture(isFunction), g, words, t, modules)
    requires x < n && y < n
    modifies modules
    ensures next == Min(Rank(n, Picture(isFunction), t + 1), 8 * |words|)
    ensures Progress(n, Picture(isFunction), g, words, t + 1, modules)
  {
    hide Scan, Index, Bit, ScanLength;
    ghost var f := Picture(isFunction);
    ScanOnce(n, t);
    next := i;
    if !isFunction[y, x] && i < 8 * |words| {
      modules[y, x] := CodewordBit(words, i);
      next := i + 1;
    }
    forall u, v | 0 <= u < n && 0 <= v < n && u != 6 && Index(n, Cell(u, v)) == t
      ensures u == x && v == y
    {
      ScanReaches(n, Cell(u, v));
    }
  }

  function Min(a: int, b: int): int {
    if a < b then a else b
  }

  /** The time at which the scan enters column pair k. */
  function PairStart(n: nat, k: nat): nat {
    2 * n * k
  }

  lemma PairStartNext(n: nat, k: nat)
    ensures PairStart(n, k + 1) == PairStart(n, k) + 2 * n
  {
    assert 2 * n * (k + 1) == 2 * n * k + 2 * n;
  }

  /** Draws on along one column pair, upwards or downwards. */
  method DrawPair(modules: array2<bool>, isFunction: array2<bool>, words: seq<Byte>, start: nat, right: int,
                  ghost n: nat, ghost g: Grid, ghost k: nat) returns (i: nat)
    requires modules != isFunction && isFunction.Length0 == isFunction.Length1 == n
    requires IsSize(n) && Square(g, n) && k < (n - 1) / 2 && right == Right(n, k) && 1 <= right < n
    requires PairStart(n, k) + 2 * n <= ScanLength(n)
    requires start == Min(Rank(n, Picture(isFunction), PairStart(n, k)), 8 * |words|)
    requires Progress(n, Picture(isFunction), g, words, PairStart(n, k), modules)
    modifies modules
    ensures i == Min(Rank(n, Picture(isFunction), PairStart(n, k) + 2 * n), 8 * |words|)
    ensures Progress(n, Picture(isFunction), g, words, PairStart(n, k) + 2 * n, modules)
  {
    hide Scan, Index, Bit, ScanLength, Right, Progress, Rank, PairStart;
    i := start;
    var size := isFunction.Length0;
    ghost var t := PairStart(n, k);
    for vert := 0 to size
      invariant t == PairStart(n, k) + 2 * vert
      invariant i == Min(Rank(n, Picture(isFunction), t), 8 * |words|)
      invariant Progress(n, Picture(isFunction), g, words, t, modules)
    {
      for j := 0 to 2
        invariant t == PairStart(n, k) + 2 * vert + j
        invariant i == Min(Rank(n, Picture(isFunction), t), 8 * |words|)
        invariant Progress(n, Picture(isFunction), g, words, t, modules)
      {
        var x := right - j;
        var upward := (right + 1) / 2 % 2 == 0;
        var y := if upward then size - 1 - vert else vert;
        StepCell(n, k, right, vert, j);
        i := DrawCell(modules, isFunction, words, i, x, y, n, g, t);
        t := t + 1;
      }
    }
  }

  /** Draws the codewords onto the free cells, column pair by column pair.
      Returns how many of their bits found room. */
  method DrawBits(modules: array2<bool>, isFunction: array2<bool>, words: seq<Byte>) returns (i: nat)
    requires modules != isFunction && IsSize(modules.Length0)
    requires modules.Length0 == modules.Length1 == isFunction.Length0 == isFunction.Length1
    modifies modules
    ensures var n := modules.Length0; var f := Picture(isFunction);
      && Picture(modules) == DrawnGrid(n, f, old(Picture(modules)), words)
      && i == Min(Rank(n, f, ScanLength(n)), 8 * |words|)
  {
    hide Scan, Index, Bit, ScanLength, Right, Progress, Rank, DrawnGrid, PairStart;
    var size := modules.Length0;
    ghost var g := Picture(modules);
    ghost var k, t := 0, 0;
    i := 0;
    var right := size - 1;
    StartOfScan(size, Picture(isFunction), g, words, modules);
    while right >= 1
      invariant 0 <= k && right == size - 1 - 2 * k - if size - 1 - 2 * k < 6 then 1 else 0
      invariant k <= (size - 1) / 2
      invariant t == PairStart(size, k) <= ScanLength(size)
      invariant i == Min(Rank(size, Picture(isFunction), t), 8 * |words|)
      invariant Progress(size, Picture(isFunction), g, words, t, modules)
      decreases right
    {
      if right == 6 {
        right := 5;
      }
      PairBounds(size, k, right);
      i := DrawPair(modules, isFunction, words, i, right, size, g, k);
      right := right - 2;
      PairStartNext(size, k);
      k, t := k + 1, t + 2 * size;
    }
    EndOfScan(size, k, Picture(isFunction), g, words, modules);
  }

  lemma StartOfScan(n: nat, f: Grid, g: Grid, words: seq<Byte>, modules: array2<bool>)
    requires IsSize(n) && Square(f, n) && modules.Length0 == modules.Length1 == n && g == Picture(modules)
    ensures PairStart(n, 0) == 0 <= ScanLength(n) && Rank(n, f, 0) == 0 && Progress(n, f, g, words, 0, modules)
  {
    hide Scan, Rank, Drawn;
    assert Rank(n, f, 0) == 0 by { EmptyRank(n, f); }
    forall x, y | 0 <= x < n && 0 <= y < n && x != 6 ensures Index(n, Cell(x, y)) >= 0 {
      ScanReaches(n, Cell(x, y));
    }
  }

  lemma EmptyRank(n: nat, f: Grid)
    requires IsSize(n) && Square(f, n)
    ensures Rank(n, f, 0) == 0
  {}

  lemma PairBounds(n: nat, k: nat, right: int)
    requires IsSize(n) && right >= 1
    requires right == (if n - 1 - 2 * k == 6 then 5 else n - 1 - 2 * k - if n - 1 - 2 * k < 6 then 1 else 0)
    ensures k < (n - 1) / 2 && right == Right(n, k) && 1 <= right < n
    ensures PairStart(n, k) + 2 * n <= ScanLength(n)
  {
    PairTime(n, k, 2 * n - 1);
  }

  lemma StepCell(n: nat, k: nat, right: int, vert: nat, j: nat)
    requires IsSize(n) && k < (n - 1) / 2 && right == Right(n, k) && vert < n && j < 2
    ensures PairStart(n, k) + 2 * vert + j < ScanLength(n)
    ensures Scan(n, PairStart(n, k) + 2 * vert + j)
         == Cell(right - j, if (right + 1) / 2 % 2 == 0 then n - 1 - vert else vert)
  {
    PairTime(n, k, 2 * vert + j);
    hide Right, ScanLength;
    assert (2 * vert + j) / 2 == vert && (2 * vert + j) % 2 == j;
  }

  lemma EndOfScan(n: nat, k: nat, f: Grid, g: Grid, words: seq<Byte>, modules: array2<bool>)
    requires IsSize(n) && Square(f, n) && Square(g, n)
    requires n - 1 - 2 * k - (if n - 1 - 2 * k < 6 then 1 else 0) < 1 && k <= (n - 1) / 2
    requires Progress(n, f, g, words, PairStart(n, k), modules)
    ensures PairStart(n, k) == ScanLength(n)
    ensures Picture(modules) == DrawnGrid(n, f, g, words)
  {
    hide Scan, Index, Rank, CodewordBit;
    assert k == (n - 1) / 2;
    assert 2 * n * k == (2 * k) * n;
    var p, d := Picture(modules), DrawnGrid(n, f, g, words);
    forall x, y | 0 <= x < n && 0 <= y < n ensures p[y][x] == d[y][x] {
      if x != 6 {
        ScanReaches(n, Cell(x, y));
      }
    }
    assert forall y :: 0 <= y < n ==> p[y] == d[y];
  }
}
