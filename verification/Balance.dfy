/** The balance term of the penalty score (section 7.8.3 of ISO/IEC
    18004:2015). */
module Balance {
  import opened Placement

  function RowDark(row: seq<bool>, n: nat): (d: nat)
    requires n <= |row|
    ensures d <= n
  {
    if n == 0 then 0 else RowDark(row, n - 1) + if row[n - 1] then 1 else 0
  }

  /** The number of dark modules in the first n rows. */
  function RowsDark(g: Grid, n: nat): nat
    requires n <= |g|
  {
    if n == 0 then 0 else RowsDark(g, n - 1) + RowDark(g[n - 1], |g[n - 1]|)
  }

  lemma {:induction false} DarkBound(g: Grid, n: nat, width: nat)
    requires n <= |g| && forall y :: 0 <= y < |g| ==> |g[y]| == width
    ensures RowsDark(g, n) <= n * width
  {
    if n > 0 {
      DarkBound(g, n - 1, width);
      assert n * width == (n - 1) * width + width;
    }
  }

  /** The share of dark modules lies within 50% plus or minus 5 (k + 1)
      percentage points. */
  predicate Balanced(dark: int, total: int, k: int) {
    (45 - 5 * k) * total <= 100 * dark <= (55 + 5 * k) * total
  }

  method BalanceTerm(modules: array2<bool>) returns (k: int)
    requires modules.Length0 == modules.Length1 && modules.Length0 % 2 == 1
    ensures var n := modules.Length0; var dark := RowsDark(Picture(modules), n);
      && 0 <= k <= 9 && Balanced(dark, n * n, k) && (k > 0 ==> !Balanced(dark, n * n, k - 1))
  {
    hide Balanced;
    var size := modules.Length0;
    var dark := 0;
    for y := 0 to size
      invariant dark == RowsDark(Picture(modules), y)
    {
      var above := dark;
      for x := 0 to size
        invariant dark == above + RowDark(Picture(modules)[y], x)
      {
        if modules[y, x] {
          dark := dark + 1;
        }
      }
    }
    var total := size * size;
    DarkBound(Picture(modules), size, size);
    OddSquare(size);
    k := (Distance(dark, total) + total - 1) / total - 1;
    LeastDeviation(dark, total);
  }

  function Distance(dark: int, total: int): nat {
    if dark * 20 < total * 10 then total * 10 - dark * 20 else dark * 20 - total * 10
  }

  lemma OddSquare(n: nat)
    requires n % 2 == 1
    ensures n * n % 2 == 1 && n * n > 0
  {
    var h := n / 2;
    assert n * n == 2 * (2 * h * h + 2 * h) + 1;
  }

  /** The quotient is the least deviation that covers the share. */
  lemma LeastDeviation(dark: int, total: int)
    requires 0 <= dark <= total && total % 2 == 1
    ensures var k := (Distance(dark, total) + total - 1) / total - 1;
      0 <= k <= 9 && Balanced(dark, total, k) && (k > 0 ==> !Balanced(dark, total, k - 1))
  {
    var d := Distance(dark, total);
    var q := (d + total - 1) / total;
    assert 0 < d <= 10 * total;
    Ceiling(d, total);
    assert 1 <= q by { if q <= 0 { NotPositive(q, total); } }
    assert q <= 10 by { if q >= 11 { TooLarge(q, total); } }
    BalancedMeans(dark, total, q - 1);
    BalancedMeans(dark, total, q - 2);
  }

  lemma Ceiling(d: int, t: int)
    requires t > 0
    ensures var q := (d + t - 1) / t; (q - 1) * t < d <= q * t
  {
    var q := (d + t - 1) / t;
    assert (q - 1) * t == q * t - t;
  }

  lemma NotPositive(q: int, t: int)
    requires q <= 0 && t > 0
    ensures q * t <= 0
  {}

  lemma TooLarge(q: int, t: int)
    requires q >= 11 && t > 0
    ensures (q - 1) * t >= 10 * t
  {}

  lemma BalancedMeans(dark: int, total: int, k: int)
    ensures Balanced(dark, total, k) <==> Distance(dark, total) <= (k + 1) * total
  {
    assert (45 - 5 * k) * total == 50 * total - 5 * ((k + 1) * total);
    assert (55 + 5 * k) * total == 50 * total + 5 * ((k + 1) * total);
  }
}
