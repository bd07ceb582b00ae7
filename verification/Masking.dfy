/** The eight data masks (section 7.8 of ISO/IEC 18004:2015). */
module Masking {
  import opened Placement

  /** Whether mask m inverts the module in column x and row y. */
  predicate Inverts(m: nat, x: nat, y: nat) {
    match m
    case 0 => (x + y) % 2 == 0
    case 1 => y % 2 == 0
    case 2 => x % 3 == 0
    case 3 => (x + y) % 3 == 0
    case 4 => (x / 3 + y / 2) % 2 == 0
    case 5 => x * y % 2 + x * y % 3 == 0
    case 6 => (x * y % 2 + x * y % 3) % 2 == 0
    case _ => ((x + y) % 2 + x * y % 3) % 2 == 0
  }

  /** The eight patterns as the standard draws them, one tile of each: # is an
      inverted module. */
  function Tile(m: nat): (tile: seq<string>)
    requires m <= 7
    ensures tile != [] && tile[0] != "" && forall y :: 0 <= y < |tile| ==> |tile[y]| == |tile[0]|
  {
    match m
    case 0 => ["#.",
               ".#"]
    case 1 => ["#",
               "."]
    case 2 => ["#.."]
    case 3 => ["#..",
               "..#",
               ".#."]
    case 4 => ["###...",
               "###...",
               "...###",
               "...###"]
    case 5 => ["######",
               "#.....",
               "#..#..",
               "#.#.#.",
               "#..#..",
               "#....."]
    case 6 => ["######",
               "###...",
               "##.##.",
               "#.#.#.",
               "#.##.#",
               "#...##"]
    case 7 => ["#.#.#.",
               "...###",
               "#...##",
               ".#.#.#",
               "###...",
               ".###.."]
  }

  /** The module in column x and row y of a plane that is paved with tiles of
      pattern m. */
  predicate Paved(m: nat, x: nat, y: nat)
    requires m <= 7
  {
    var tile := Tile(m);
    tile[y % |tile|][x % |tile[0]|] == '#'
  }

  lemma SixTimes(x: nat, y: nat) returns (q: int)
    ensures x * y == 6 * q + (x % 6) * (y % 6)
  {
    var a, b, u, v := x / 6, y / 6, x % 6, y % 6;
    q := a * y + u * b;
    Expand(a, b, u, v);
  }

  lemma Expand(a: int, b: int, u: int, v: int)
    ensures (6 * a + u) * (6 * b + v) == 6 * (a * (6 * b + v) + u * b) + u * v
  {}

  lemma Remainders(a: int, q: int, b: int)
    requires a == 6 * q + b
    ensures a % 2 == b % 2 && a % 3 == b % 3
  {}

  /** A pattern whose tile is six by six. */
  predicate Sixfold(m: nat, sum: nat, product: nat) {
    if m == 5 then product % 2 + product % 3 == 0
    else if m == 6 then (product % 2 + product % 3) % 2 == 0
    else (sum % 2 + product % 3) % 2 == 0
  }

  lemma InvertsSixfold(m: nat, x: nat, y: nat)
    requires 5 <= m <= 7
    ensures Inverts(m, x, y) <==> Sixfold(m, x + y, x * y)
  {}

  lemma SameSixfold(m: nat, s: nat, p: nat, s': nat, p': nat)
    requires s % 2 == s' % 2 && p % 2 == p' % 2 && p % 3 == p' % 3
    ensures Sixfold(m, s, p) <==> Sixfold(m, s', p')
  {}

  /** What the last three masks depend on. */
  lemma ModuloSix(m: nat, x: nat, y: nat)
    requires 5 <= m <= 7
    ensures Inverts(m, x, y) <==> Inverts(m, x % 6, y % 6)
  {
    hide Inverts, Sixfold;
    var u, v := x % 6, y % 6;
    var q := SixTimes(x, y);
    var p, p' := x * y, u * v;
    Remainders(p, q, p');
    Remainders(x + y, x / 6 + y / 6, u + v);
    InvertsSixfold(m, x, y);
    InvertsSixfold(m, u, v);
    SameSixfold(m, x + y, p, u + v, p');
  }

  /** u * v, for factors below six. */
  function SmallProduct(u: nat, v: nat): nat {
    if v == 0 then 0 else if v == 1 then u else if v == 2 then 2 * u
    else if v == 3 then 3 * u else if v == 4 then 4 * u else 5 * u
  }

  lemma TileFive(u: nat, v: nat)
    requires u < 6 && v < 6
    ensures Sixfold(5, u + v, SmallProduct(u, v)) <==> Tile(5)[v][u] == '#'
  {}

  lemma TopOfSix(u: nat, v: nat)
    requires u < 6 && v < 3
    ensures Sixfold(6, u + v, SmallProduct(u, v)) <==> Tile(6)[v][u] == '#'
  {
    if v == 0 {
    } else if v == 1 {
    } else {
    }
  }

  lemma BottomOfSix(u: nat, v: nat)
    requires u < 6 && 3 <= v < 6
    ensures Sixfold(6, u + v, SmallProduct(u, v)) <==> Tile(6)[v][u] == '#'
  {
    if v == 3 {
    } else if v == 4 {
    } else {
    }
  }

  lemma TileSix(u: nat, v: nat)
    requires u < 6 && v < 6
    ensures Sixfold(6, u + v, SmallProduct(u, v)) <==> Tile(6)[v][u] == '#'
  {
    hide Sixfold, Tile, SmallProduct;
    if v < 3 {
      TopOfSix(u, v);
    } else {
      BottomOfSix(u, v);
    }
  }

  lemma TopOfSeven(u: nat, v: nat)
    requires u < 6 && v < 3
    ensures Sixfold(7, u + v, SmallProduct(u, v)) <==> Tile(7)[v][u] == '#'
  {
    if v == 0 {
    } else if v == 1 {
    } else {
    }
  }

  lemma BottomOfSeven(u: nat, v: nat)
    requires u < 6 && 3 <= v < 6
    ensures Sixfold(7, u + v, SmallProduct(u, v)) <==> Tile(7)[v][u] == '#'
  {
    if v == 3 {
    } else if v == 4 {
    } else {
    }
  }

  lemma TileSeven(u: nat, v: nat)
    requires u < 6 && v < 6
    ensures Sixfold(7, u + v, SmallProduct(u, v)) <==> Tile(7)[v][u] == '#'
  {
    hide Sixfold, Tile, SmallProduct;
    if v < 3 {
      TopOfSeven(u, v);
    } else {
      BottomOfSeven(u, v);
    }
  }

  lemma SixBySix(m: nat, u: nat, v: nat)
    requires 5 <= m <= 7 && u < 6 && v < 6
    ensures Inverts(m, u, v) <==> Tile(m)[v][u] == '#'
  {
    InvertsSixfold(m, u, v);
    assert u * v == SmallProduct(u, v);
    hide Inverts, Sixfold, Tile, SmallProduct;
    TileFive(u, v);
    TileSix(u, v);
    TileSeven(u, v);
  }

  lemma SixfoldTiles(m: nat, x: nat, y: nat)
    requires 5 <= m <= 7
    ensures Inverts(m, x, y) <==> Paved(m, x, y)
  {
    assert |Tile(m)| == 6 && |Tile(m)[0]| == 6;
    hide Inverts, Tile;
    ModuloSix(m, x, y);
    SixBySix(m, x % 6, y % 6);
  }

  lemma HalfOfSix(z: nat)
    ensures z / 3 % 2 == if z % 6 < 3 then 0 else 1
  {
    var q, r := z / 6, z % 6;
    assert z / 3 == 2 * q + if r < 3 then 0 else 1;
  }

  lemma HalfOfFour(z: nat)
    ensures z / 2 % 2 == if z % 4 < 2 then 0 else 1
  {
    var q, r := z / 4, z % 4;
    assert z / 2 == 2 * q + if r < 2 then 0 else 1;
  }

  lemma TileFour(x: nat, y: nat)
    ensures Inverts(4, x, y) <==> Paved(4, x, y)
  {
    assert |Tile(4)| == 4 && |Tile(4)[0]| == 6;
    var u, v := x % 6, y % 4;
    assert Tile(4)[v][u] == '#' <==> (u < 3 <==> v < 2);
    assert Inverts(4, x, y) <==> (x / 3 + y / 2) % 2 == 0;
    hide Inverts, Tile;
    HalfOfSix(x);
    HalfOfFour(y);
    Parity(x / 3, y / 2);
  }

  lemma Parity(a: nat, b: nat)
    ensures (a + b) % 2 == 0 <==> a % 2 == b % 2
  {}

  lemma TileThree(x: nat, y: nat)
    ensures Inverts(3, x, y) <==> Paved(3, x, y)
  {
    assert |Tile(3)| == 3 && |Tile(3)[0]| == 3;
    var u, v := x % 3, y % 3;
    assert Tile(3)[v][u] == '#' <==> u + v == 0 || u + v == 3;
    assert Inverts(3, x, y) <==> (x + y) % 3 == 0;
    hide Inverts, Tile;
  }

  lemma TileZero(x: nat, y: nat)
    ensures Inverts(0, x, y) <==> Paved(0, x, y)
  {
    assert |Tile(0)| == 2 && |Tile(0)[0]| == 2;
    var u, v := x % 2, y % 2;
    assert Tile(0)[v][u] == '#' <==> u == v;
    assert Inverts(0, x, y) <==> (x + y) % 2 == 0;
    hide Inverts, Tile;
    Parity(x, y);
  }

  /** Every mask is the pattern that the standard draws. */
  lemma MaskPattern(m: nat, x: nat, y: nat)
    requires m <= 7
    ensures Inverts(m, x, y) <==> Paved(m, x, y)
  {
    match m
    case 0 => TileZero(x, y);
    case 1 => assert Tile(1) == ["#", "."];
    case 2 => assert Tile(2) == ["#.."];
    case 3 => TileThree(x, y);
    case 4 => TileFour(x, y);
    case _ => SixfoldTiles(m, x, y);
  }

  /** The grid g with mask m applied to everything but function modules. */
  ghost function Masked(n: nat, f: Grid, g: Grid, m: nat): (r: Grid)
    requires Square(f, n) && Square(g, n)
    ensures Square(r, n)
  {
    seq(n, y requires 0 <= y < n => seq(n, x requires 0 <= x < n => g[y][x] != (Inverts(m, x, y) && !f[y][x])))
  }

  /** Returns whether the mask number is one of the eight. */
  method ApplyMask(modules: array2<bool>, isFunction: array2<bool>, m: int) returns (ok: bool)
    requires modules != isFunction
    requires modules.Length0 == modules.Length1 == isFunction.Length0 == isFunction.Length1
    modifies modules
    ensures ok == (0 <= m <= 7)
    ensures ok ==> forall y, x :: 0 <= y < modules.Length0 && 0 <= x < modules.Length0 ==>
      (modules[y, x] != old(modules[y, x]) <==> !isFunction[y, x] && Paved(m, x, y))
    ensures Picture(modules)
         == if ok then Masked(modules.Length0, Picture(isFunction), old(Picture(modules)), m) else old(Picture(modules))
  {
    hide Inverts, Paved;
    if m < 0 || m > 7 {
      return false;
    }
    var size := modules.Length0;
    ghost var g, f := Picture(modules), Picture(isFunction);
    for y := 0 to size
      invariant Picture(isFunction) == f
      invariant forall v, u :: 0 <= v < size && 0 <= u < size ==>
        modules[v, u] == if v < y then g[v][u] != (Inverts(m, u, v) && !f[v][u]) else g[v][u]
      invariant forall v, u :: 0 <= v < y && 0 <= u < size ==> (Inverts(m, u, v) <==> Paved(m, u, v))
    {
      for x := 0 to size
        invariant Picture(isFunction) == f
        invariant forall v, u :: 0 <= v < size && 0 <= u < size ==>
          modules[v, u] == if v < y || (v == y && u < x) then g[v][u] != (Inverts(m, u, v) && !f[v][u]) else g[v][u]
        invariant forall v, u :: 0 <= v < size && 0 <= u < size && (v < y || (v == y && u < x)) ==>
          (Inverts(m, u, v) <==> Paved(m, u, v))
      {
        var invert := Inverts(m, x, y);
        MaskPattern(m, x, y);
        modules[y, x] := modules[y, x] != (invert && !isFunction[y, x]);
      }
    }
    ghost var p, r := Picture(modules), Masked(size, f, g, m);
    forall v | 0 <= v < size ensures p[v] == r[v] {
      assert forall u :: 0 <= u < size ==> p[v][u] == r[v][u];
    }
    return true;
  }

  /** Applying a mask twice undoes it. */
  lemma MaskTwice(n: nat, f: Grid, g: Grid, m: nat)
    requires Square(f, n) && Square(g, n)
    ensures Masked(n, f, Masked(n, f, g, m), m) == g
  {
    hide Inverts;
    var r := Masked(n, f, Masked(n, f, g, m), m);
    forall y | 0 <= y < n ensures r[y] == g[y] {
      assert forall x :: 0 <= x < n ==> r[y][x] == g[y][x];
    }
  }

  /** Grids that agree outside the function modules. */
  ghost predicate SameData(n: nat, f: Grid, g: Grid, h: Grid)
    requires Square(f, n) && Square(g, n) && Square(h, n)
  {
    forall y, x :: 0 <= y < n && 0 <= x < n && !f[y][x] ==> g[y][x] == h[y][x]
  }

  /** Masking neither reads nor changes function modules. */
  lemma MaskKeepsFunctionModules(n: nat, f: Grid, g: Grid, h: Grid, m: nat)
    requires Square(f, n) && Square(g, n) && Square(h, n)
    ensures forall y, x :: 0 <= y < n && 0 <= x < n && f[y][x] ==> Masked(n, f, g, m)[y][x] == g[y][x]
    ensures SameData(n, f, g, h) ==> SameData(n, f, Masked(n, f, g, m), Masked(n, f, h, m))
  {
    hide Inverts;
  }

  /** Only the data modules matter to the reader. */
  lemma {:induction false} ReadSameData(n: nat, f: Grid, g: Grid, h: Grid, t: nat)
    requires IsSize(n) && Square(f, n) && Square(g, n) && Square(h, n) && t <= ScanLength(n)
    requires SameData(n, f, g, h)
    ensures ReadBits(n, f, g, t) == ReadBits(n, f, h, t)
  {
    hide Scan, ScanLength;
    if t > 0 {
      ScanOnce(n, t - 1);
      ReadSameData(n, f, g, h, t - 1);
    }
  }
}
