/** Reed-Solomon error correction as the QR encoder computes it (section 7.5
    of ISO/IEC 18004:2015): the generator polynomial, the remainder register,
    and what the resulting blocks are good for.

    A polynomial is the sequence of its coefficients, highest power first. */
module ReedSolomon {
  import opened Binary
  import opened Gf256
  import GeneratorOrder

  type Poly = seq<Byte>

  function Zeros(n: nat): (z: Poly)
    ensures |z| == n && forall i :: 0 <= i < n ==> z[i] == 0
  {
    seq(n, _ => 0)
  }

  function Last(p: Poly): Byte
    requires p != []
  {
    p[|p| - 1]
  }

  function DropLast(p: Poly): Poly
    requires p != []
  {
    p[..|p| - 1]
  }

  /** Coefficientwise sum of two polynomials of the same length. */
  function Sum(p: Poly, q: Poly): (r: Poly)
    requires |p| == |q|
    ensures |r| == |p| && forall i :: 0 <= i < |p| ==> r[i] == Add(p[i], q[i])
  {
    seq(|p|, i requires 0 <= i < |p| => Add(p[i], q[i]))
  }

  function Scale(p: Poly, c: Byte): (r: Poly)
    ensures |r| == |p| && forall i :: 0 <= i < |p| ==> r[i] == Mul(p[i], c)
  {
    seq(|p|, i requires 0 <= i < |p| => Mul(p[i], c))
  }

  /** The product q * g: each new coefficient of q shifts what there is and
      adds a multiple of g at the low end. */
  function Product(q: Poly, g: Poly): (r: Poly)
    requires g != []
    ensures |r| == |q| + |g| - 1
  {
    if q == [] then Zeros(|g| - 1)
    else Sum(Product(DropLast(q), g) + [0], Zeros(|q| - 1) + Scale(g, Last(q)))
  }

  /** p(x) */
  function Eval(p: Poly, x: Byte): Byte {
    if p == [] then 0
    else Add(Mul(Eval(DropLast(p), x), x), Last(p))
  }

  // ---- Evaluation is a ring homomorphism ------------------------------------

  lemma {:induction false} EvalZeros(n: nat, x: Byte)
    ensures Eval(Zeros(n), x) == 0
  {
    if n > 0 {
      assert DropLast(Zeros(n)) == Zeros(n - 1);
      EvalZeros(n - 1, x);
      TimesZero(x);
    }
  }

  lemma {:induction false} EvalSum(p: Poly, q: Poly, x: Byte)
    requires |p| == |q|
    ensures Eval(Sum(p, q), x) == Add(Eval(p, x), Eval(q, x))
  {
    hide Mul, Add;
    if p == [] {
      AddZero(0);
    } else {
      var a, b := Eval(DropLast(p), x), Eval(DropLast(q), x);
      assert DropLast(Sum(p, q)) == Sum(DropLast(p), DropLast(q));
      EvalSum(DropLast(p), DropLast(q), x);
      Distributes(a, b, x);
      AddSwaps(Mul(a, x), Mul(b, x), Last(p), Last(q));
    }
  }

  lemma {:induction false} EvalScale(p: Poly, c: Byte, x: Byte)
    ensures Eval(Scale(p, c), x) == Mul(Eval(p, x), c)
  {
    hide Mul, Add;
    TimesZero(c);
    if p != [] {
      var a := Eval(DropLast(p), x);
      assert DropLast(Scale(p, c)) == Scale(DropLast(p), c);
      EvalScale(DropLast(p), c, x);
      Associates(a, c, x);
      Associates(a, x, c);
      Commutes(c, x);
      Distributes(Mul(a, x), Last(p), c);
    }
  }

  lemma {:induction false} EvalPadded(n: nat, p: Poly, x: Byte)
    ensures Eval(Zeros(n) + p, x) == Eval(p, x)
  {
    hide Mul, Add;
    if p == [] {
      assert Zeros(n) + p == Zeros(n);
      EvalZeros(n, x);
    } else {
      assert DropLast(Zeros(n) + p) == Zeros(n) + DropLast(p);
      EvalPadded(n, DropLast(p), x);
    }
  }

  lemma {:induction false} EvalProduct(q: Poly, g: Poly, x: Byte)
    requires g != []
    ensures Eval(Product(q, g), x) == Mul(Eval(q, x), Eval(g, x))
  {
    hide Mul, Add;
    var v := Eval(g, x);
    if q == [] {
      EvalZeros(|g| - 1, x);
      TimesZero(v);
    } else {
      var rest := DropLast(q);
      var p := Product(rest, g);
      EvalProduct(rest, g, x);
      EvalSum(p + [0], Zeros(|q| - 1) + Scale(g, Last(q)), x);
      assert DropLast(p + [0]) == p;
      AddZero(Mul(Eval(p, x), x));
      EvalPadded(|q| - 1, Scale(g, Last(q)), x);
      EvalScale(g, Last(q), x);
      var a := Eval(rest, x);
      Associates(a, v, x);
      Associates(a, x, v);
      Commutes(v, x);
      Commutes(Last(q), v);
      Distributes(Mul(a, x), Last(q), v);
    }
  }

  // ---- The generator polynomial --------------------------------------------

  /** (x - 2^0)(x - 2^1)...(x - 2^(n-1)) */
  function Generator(n: nat): (g: Poly)
    ensures |g| == n + 1
  {
    if n == 0 then [1]
    else TimesLinear(Generator(n - 1), Exp(n - 1))
  }

  /** g * (x - r) */
  function TimesLinear(g: Poly, r: Byte): (h: Poly)
    ensures |h| == |g| + 1
  {
    Sum(g + [0], [0] + Scale(g, r))
  }

  lemma EvalTimesLinear(g: Poly, r: Byte, x: Byte)
    ensures Eval(TimesLinear(g, r), x) == Mul(Eval(g, x), Add(x, r))
  {
    hide Mul, Add, Exp;
    EvalSum(g + [0], [0] + Scale(g, r), x);
    assert DropLast(g + [0]) == g;
    AddZero(Mul(Eval(g, x), x));
    assert [0] + Scale(g, r) == Zeros(1) + Scale(g, r);
    EvalPadded(1, Scale(g, r), x);
    EvalScale(g, r, x);
    Distributes(Eval(g, x), x, r);
  }

  lemma {:induction false} GeneratorIsMonic(n: nat)
    ensures Generator(n)[0] == 1
  {
    hide Mul, Add;
    if n > 0 {
      GeneratorIsMonic(n - 1);
      AddZero(1);
    }
  }

  lemma {:induction false} GeneratorVanishes(n: nat, j: nat)
    requires j < n
    ensures Eval(Generator(n), Exp(j)) == 0
  {
    hide Mul, Add, Exp;
    var g, x := Generator(n - 1), Exp(j);
    EvalTimesLinear(g, Exp(n - 1), x);
    if j == n - 1 {
      AddSelf(x);
      TimesZero(Eval(g, x));
    } else {
      GeneratorVanishes(n - 1, j);
      TimesZero(Add(x, Exp(n - 1)));
    }
  }

  /** The window of the generator polynomial that an array of n cells holds
      after i linear factors; the leading 1 has just left it when i == n. */
  function DivisorWindow(n: nat, i: nat): (w: Poly)
    ensures |w| == n
  {
    (Zeros(n) + Generator(i))[i + 1..]
  }

  /** The new value of cell k of the window: the old one times the root, plus
      the old value of the next cell. */
  function DivisorUpdate(before: Poly, root: Byte, k: nat): Byte
    requires k < |before|
  {
    Add(Mul(before[k], root), if k + 1 < |before| then before[k + 1] else 0)
  }

  lemma GeneratorStep(i: nat)
    ensures Generator(i + 1) == TimesLinear(Generator(i), Exp(i))
  {}

  lemma DivisorStep(n: nat, i: nat, before: Poly, after: Poly)
    requires i < n && |after| == n && before == DivisorWindow(n, i)
    requires forall k :: 0 <= k < n ==> after[k] == DivisorUpdate(before, Exp(i), k)
    ensures after == DivisorWindow(n, i + 1)
  {
    hide *;
    forall k | 0 <= k < n ensures after[k] == DivisorWindow(n, i + 1)[k] {
      DivisorCell(n, i, before, k);
    }
  }

  lemma DivisorCell(n: nat, i: nat, before: Poly, k: nat)
    requires k < n && i < n && before == DivisorWindow(n, i)
    ensures DivisorWindow(n, i + 1)[k] == DivisorUpdate(before, Exp(i), k)
  {
    hide Mul, Add, Exp, Generator;
    var g, r := Generator(i), Exp(i);
    GeneratorStep(i);
    var h := TimesLinear(g, r);
    var m := i + 2 + k - n;
    TimesZero(r);
    AddZero(0);
    if m >= 0 {
      var u, v := (g + [0])[m], ([0] + Scale(g, r))[m];
      assert u == if k + 1 < n then before[k + 1] else 0;
      assert v == Mul(before[k], r);
      assert h[m] == Add(u, v);
      AddCommutes(u, v);
    }
  }

  /** The inner loop of the divisor computation: multiplies the product so far
      by (x - root) in place. */
  method MultiplyByLinear(result: array<Byte>, root: Byte)
    modifies result
    ensures forall k :: 0 <= k < result.Length ==> result[k] == DivisorUpdate(old(result[..]), root, k)
  {
    for j := 0 to result.Length
      invariant forall k :: j <= k < result.Length ==> result[k] == old(result[k])
      invariant forall k :: 0 <= k < j ==> result[k] == DivisorUpdate(old(result[..]), root, k)
    {
      var term := Multiply(result[j], root);
      AddZero(term);
      result[j] := term;
      if j + 1 < result.Length {
        result[j] := Add(result[j], result[j + 1]);
      }
    }
  }

  /** The encoder keeps the coefficients below the leading one, in an array of
      a fixed size, multiplying by one linear factor after another. Degrees out
      of range are refused. */
  method ComputeDivisor(degree: int) returns (ok: bool, result: array<Byte>)
    ensures fresh(result) && ok == (1 <= degree <= 255)
    ensures ok ==> result[..] == Generator(degree)[1..]
  {
    hide Mul, Exp, Generator, DivisorWindow, DivisorUpdate;
    ok := 1 <= degree <= 255;
    if !ok {
      result := new Byte[0];
      return;
    }
    result := new Byte[degree](_ => 0);
    result[degree - 1] := 1;
    var root: Byte := 1;
    FirstWindow(degree);
    for i := 0 to degree
      invariant root == Exp(i)
      invariant result[..] == DivisorWindow(degree, i)
    {
      ghost var before := result[..];
      MultiplyByLinear(result, root);
      DivisorStep(degree, i, before, result[..]);
      NextRoot(i);
      root := Multiply(root, 0x02);
    }
    LastWindow(degree);
  }

  lemma LastWindow(n: nat)
    ensures DivisorWindow(n, n) == Generator(n)[1..]
  {}

  lemma FirstWindow(n: nat)
    requires n > 0
    ensures DivisorWindow(n, 0) == Zeros(n - 1) + [1] && Exp(0) == 1
  {}

  lemma NextRoot(i: nat)
    ensures Mul(Exp(i), 0x02) == Exp(i + 1)
  {
    ExpAdds(i, 1);
  }

  // ---- The remainder register ------------------------------------------------

  /** The register after one more data byte: it shifts, and the byte that
      leaves it selects a multiple of the divisor. */
  function Clock(register: Poly, divisor: Poly, factor: Byte): (r: Poly)
    requires |register| == |divisor| > 0
    ensures |r| == |divisor|
  {
    Sum(register[1..] + [0], Scale(divisor, factor))
  }

  function Remainder(data: Poly, divisor: Poly): (r: Poly)
    requires divisor != []
    ensures |r| == |divisor|
  {
    if data == [] then Zeros(|divisor|)
    else
      var register := Remainder(DropLast(data), divisor);
      Clock(register, divisor, Add(Last(data), register[0]))
  }

  function Quotient(data: Poly, divisor: Poly): (q: Poly)
    requires divisor != []
    ensures |q| == |data|
  {
    if data == [] then []
    else Quotient(DropLast(data), divisor) + [Add(Last(data), Remainder(DropLast(data), divisor)[0])]
  }

  method ComputeRemainder(data: Poly, divisor: Poly) returns (result: Poly)
    requires divisor != []
    ensures result == Remainder(data, divisor)
  {
    hide Mul, Remainder, Clock, Add;
    result := Zeros(|divisor|);
    RemainderOfPrefix(data, divisor, 0);
    for k := 0 to |data|
      invariant result == Remainder(data[..k], divisor)
    {
      var factor := Add(data[k], result[0]);
      ghost var register := result;
      result := result[1..];
      result := result + [0];
      ghost var shifted := result;
      for i := 0 to |result|
        invariant |result| == |divisor|
        invariant result[i..] == shifted[i..]
        invariant result[..i] == ClockPrefix(shifted, divisor, factor, i)
      {
        var term := Multiply(divisor[i], factor);
        ClockCell(shifted, divisor, factor, i);
        result := result[i := Add(result[i], term)];
      }
      RemainderOfPrefix(data, divisor, k + 1);
      ClockAll(register, divisor, factor);
    }
    assert data[..|data|] == data;
  }

  function ClockPrefix(shifted: Poly, divisor: Poly, factor: Byte, n: nat): (r: Poly)
    requires n <= |shifted| == |divisor|
    ensures |r| == n
  {
    Sum(shifted, Scale(divisor, factor))[..n]
  }

  lemma ClockCell(shifted: Poly, divisor: Poly, factor: Byte, i: nat)
    requires i < |shifted| == |divisor|
    ensures ClockPrefix(shifted, divisor, factor, 0) == []
    ensures ClockPrefix(shifted, divisor, factor, i + 1)
         == ClockPrefix(shifted, divisor, factor, i) + [Add(shifted[i], Mul(divisor[i], factor))]
  {}

  lemma ClockAll(register: Poly, divisor: Poly, factor: Byte)
    requires |register| == |divisor| > 0
    ensures ClockPrefix(register[1..] + [0], divisor, factor, |divisor|) == Clock(register, divisor, factor)
  {}

  lemma RemainderOfPrefix(data: Poly, divisor: Poly, k: nat)
    requires divisor != [] && k <= |data|
    ensures k == 0 ==> Remainder(data[..k], divisor) == Zeros(|divisor|)
    ensures k > 0 ==>
      var register := Remainder(data[..k - 1], divisor);
      Remainder(data[..k], divisor) == Clock(register, divisor, Add(data[k - 1], register[0]))
  {
    hide Clock, Add, Mul;
    if k > 0 {
      assert DropLast(data[..k]) == data[..k - 1];
      assert Last(data[..k]) == data[k - 1];
    }
  }

  // ---- Division with remainder ----------------------------------------------

  /** The register holds the remainder of data * x^n modulo the monic divisor:
      appended to the data it makes a multiple of the divisor, exactly. */
  lemma {:induction false} DivisionWithRemainder(data: Poly, divisor: Poly)
    requires divisor != []
    ensures Product(Quotient(data, divisor), [1] + divisor) == data + Remainder(data, divisor)
  {
    hide Mul, Add;
    var g := [1] + divisor;
    if data == [] {
      assert Quotient(data, divisor) == [];
    } else {
      var init := DropLast(data);
      var register := Remainder(init, divisor);
      DivisionWithRemainder(init, divisor);
      var f := Add(Last(data), register[0]);
      var q := Quotient(init, divisor);
      assert DropLast(q + [f]) == q;
      assert Product(q + [f], g) == Sum(Product(q, g) + [0], Zeros(|q|) + Scale(g, f));
      DivisionStep(init, register, Last(data), divisor);
      assert init + [Last(data)] == data;
    }
  }

  lemma DivisionStep(init: Poly, register: Poly, b: Byte, divisor: Poly)
    requires |register| == |divisor| > 0
    ensures var f := Add(b, register[0]);
      Sum(init + register + [0], Zeros(|init|) + Scale([1] + divisor, f)) == init + [b] + Clock(register, divisor, f)
  {
    hide Mul, Add;
    var f := Add(b, register[0]);
    var g := [1] + divisor;
    var left := Sum(init + register + [0], Zeros(|init|) + Scale(g, f));
    var right := init + [b] + Clock(register, divisor, f);
    TimesOne(f);
    AddCancels(b, register[0]);
    forall k | 0 <= k < |left| ensures left[k] == right[k] {
      var j := k - |init|;
      if j < 0 {
        AddZero(init[k]);
      } else if j == 0 {
        assert left[k] == Add(register[0], Mul(1, f));
      } else {
        assert (init + register + [0])[k] == (register[1..] + [0])[j - 1];
        assert (Zeros(|init|) + Scale(g, f))[k] == Scale(divisor, f)[j - 1];
      }
    }
  }

  /** What the last symbol of the quotient does to a product. */
  lemma PeelQuotient(data: Poly, divisor: Poly, q: Poly, r: Poly)
    requires divisor != [] && |q| == |data| > 0 && |r| == |divisor|
    requires Product(q, [1] + divisor) == data + r
    ensures var p, n := Product(DropLast(q), [1] + divisor), |data| - 1;
      |p| == n + |divisor| && p[..n] == DropLast(data) && Last(data) == Add(p[n], Last(q))
  {
    hide Mul, Add;
    var g, n := [1] + divisor, |data| - 1;
    var p, high := Product(DropLast(q), g), Zeros(n) + Scale(g, Last(q));
    forall k | 0 <= k < n ensures p[k] == data[k] {
      assert (data + r)[k] == Add((p + [0])[k], high[k]);
      AddZero(p[k]);
    }
    assert (data + r)[n] == Add((p + [0])[n], high[n]);
    TimesOne(Last(q));
  }

  /** There is only one quotient and one remainder. */
  lemma {:induction false} DivisionIsUnique(data: Poly, divisor: Poly, q: Poly, r: Poly)
    requires divisor != [] && |q| == |data| && |r| == |divisor|
    requires Product(q, [1] + divisor) == data + r
    ensures q == Quotient(data, divisor) && r == Remainder(data, divisor)
  {
    hide Mul, Add, Clock, Remainder, Product;
    if data == [] {
      NoDivision(divisor, q, r);
    } else {
      var init, f, p := DropLast(data), Last(q), Product(DropLast(q), [1] + divisor);
      PeelQuotient(data, divisor, q, r);
      assert p == init + p[|init|..];
      DivisionIsUnique(init, divisor, DropLast(q), p[|init|..]);
      AddCancels(f, p[|init|]);
      AddCommutes(f, p[|init|]);
      AddCommutes(Last(data), p[|init|]);
      assert q == DropLast(q) + [f];
      assert q == Quotient(data, divisor);
      DivisionWithRemainder(data, divisor);
      assert r == (data + r)[|data|..] == Remainder(data, divisor);
    }
  }

  lemma NoDivision(divisor: Poly, q: Poly, r: Poly)
    requires divisor != [] && q == [] && |r| == |divisor| && Product(q, [1] + divisor) == [] + r
    ensures q == Quotient([], divisor) && r == Remainder([], divisor)
  {
    assert r == [] + r;
  }

  // ---- Codewords -------------------------------------------------------------

  /** The error correction codewords of a block with n of them. */
  function Ecc(data: Poly, n: nat): (ecc: Poly)
    requires n > 0
    ensures |ecc| == n
  {
    Remainder(data, Generator(n)[1..])
  }

  /** The codewords of the Reed-Solomon code with n check symbols: the words
      that vanish at the first n powers of 2. */
  ghost predicate IsCodeword(c: Poly, n: nat) {
    forall j :: 0 <= j < n ==> Vanishes(c, j)
  }

  predicate Vanishes(c: Poly, j: nat) {
    Eval(c, Exp(j)) == 0
  }

  lemma BlockIsCodeword(data: Poly, n: nat)
    requires n > 0
    ensures IsCodeword(data + Ecc(data, n), n)
  {
    hide Mul, Remainder, Quotient, Eval, Exp;
    var g := Generator(n);
    GeneratorIsMonic(n);
    assert [1] + g[1..] == g;
    DivisionWithRemainder(data, g[1..]);
    var q := Quotient(data, g[1..]);
    forall j | 0 <= j < n ensures Vanishes(data + Ecc(data, n), j) {
      EvalProduct(q, g, Exp(j));
      GeneratorVanishes(n, j);
      TimesZero(Eval(q, Exp(j)));
    }
  }

  // ---- Minimum distance --------------------------------------------------------

  /** The number of nonzero symbols. */
  function Weight(c: Poly): (w: nat)
    ensures w <= |c|
  {
    if c == [] then 0
    else Weight(DropLast(c)) + if Last(c) == 0 then 0 else 1
  }

  /** Every symbol times the sum of a and s times its locator: position p of a
      word of length N has the locator 2^(N - 1 - p). */
  function Twist(c: Poly, a: Byte, s: Byte): (t: Poly)
    ensures |t| == |c|
  {
    if c == [] then []
    else Twist(DropLast(c), a, Twice(s)) + [Mul(Last(c), Add(a, s))]
  }

  lemma {:induction false} TwistAt(c: Poly, a: Byte, s: Byte, p: nat)
    requires p < |c|
    ensures Twist(c, a, s)[p] == Mul(c[p], Add(a, Mul(s, Exp(|c| - 1 - p))))
  {
    hide Mul, Add, Twice;
    if p == |c| - 1 {
      TimesOne(s);
    } else {
      TwistAt(DropLast(c), a, Twice(s), p);
      var e := |c| - 2 - p;
      MulTwice(s, Exp(e));
    }
  }

  /** Twisting turns the value at x into a combination of those at x and 2x. */
  lemma {:induction false} TwistEval(c: Poly, a: Byte, s: Byte, x: Byte)
    ensures Eval(Twist(c, a, s), x) == Add(Mul(a, Eval(c, x)), Mul(s, Eval(c, Twice(x))))
  {
    hide Mul, Add, Twice;
    if c == [] {
      TimesZero(a);
      TimesZero(s);
      AddZero(0);
    } else {
      var init, l, y := DropLast(c), Last(c), Twice(x);
      TwistEval(init, a, Twice(s), x);
      assert DropLast(Twist(c, a, s)) == Twist(init, a, Twice(s));
      var u, v := Eval(init, x), Eval(init, y);
      calc {
        Eval(Twist(c, a, s), x);
        Add(Mul(Add(Mul(a, u), Mul(Twice(s), v)), x), Mul(l, Add(a, s)));
        { TwistTerm(a, u, s, v, x); Distributes(l, a, s); Commutes(l, a); Commutes(l, s); }
        Add(Add(Mul(a, Mul(u, x)), Mul(s, Mul(v, y))), Add(Mul(a, l), Mul(s, l)));
        { AddSwaps(Mul(a, Mul(u, x)), Mul(s, Mul(v, y)), Mul(a, l), Mul(s, l)); }
        Add(Add(Mul(a, Mul(u, x)), Mul(a, l)), Add(Mul(s, Mul(v, y)), Mul(s, l)));
        { Distributes(a, Mul(u, x), l); Distributes(s, Mul(v, y), l); }
        Add(Mul(a, Eval(c, x)), Mul(s, Eval(c, y)));
      }
    }
  }

  lemma TwistTerm(a: Byte, u: Byte, s: Byte, v: Byte, x: Byte)
    ensures Mul(Add(Mul(a, u), Mul(Twice(s), v)), x) == Add(Mul(a, Mul(u, x)), Mul(s, Mul(v, Twice(x))))
  {
    hide Mul, Add, Twice;
    Distributes(Mul(a, u), Mul(Twice(s), v), x);
    Associates(a, u, x);
    MulTwice(s, v);
    MulTwice(Mul(s, v), x);
    Associates(s, v, Twice(x));
    assert Mul(Mul(Twice(s), v), x) == Mul(Twice(Mul(s, v)), x) == Mul(Mul(s, v), Twice(x));
  }

  lemma ExpIsUnit(c: Byte, u: nat)
    requires u <= 255 && Mul(c, Exp(u)) == 0
    ensures c == 0
  {
    hide Mul, Exp;
    Associates(c, Exp(u), Exp(255 - u));
    ExpAdds(u, 255 - u);
    GeneratorOrder.PowerValues();
    TimesOne(c);
    TimesZero(Exp(255 - u));
  }

  /** Different locators stay apart under multiplication. */
  lemma LocatorsDiffer(c: Byte, u: nat, v: nat)
    requires u < v < 255 && Mul(c, Add(Exp(u), Exp(v))) == 0
    ensures c == 0
  {
    hide Mul, Exp, Add;
    var y := Mul(c, Exp(u));
    Distributes(c, Exp(u), Exp(v));
    ExpAdds(u, v - u);
    Associates(c, Exp(u), Exp(v - u));
    Commutes(y, Exp(v - u));
    assert Add(y, Mul(Exp(v - u), y)) == 0;
    AddEqual(y, Mul(Exp(v - u), y));
    GeneratorOrder.NoFixedPoints(v - u, y);
    ExpIsUnit(c, u);
  }

  /** Twisting with the locator of position k wipes out that symbol and no
      other. */
  lemma TwistKills(c: Poly, k: nat, p: nat)
    requires |c| <= 255 && k < |c| && p < |c|
    ensures Twist(c, Exp(|c| - 1 - k), 1)[p] == 0 <==> p == k || c[p] == 0
  {
    hide Mul, Add, Exp;
    var u, v := |c| - 1 - k, |c| - 1 - p;
    var t := Twist(c, Exp(u), 1)[p];
    TwistAt(c, Exp(u), 1, p);
    TimesOne(Exp(v));
    AddSelf(Exp(u));
    TimesZero(c[p]);
    TimesZero(Add(Exp(u), Exp(v)));
    if t == 0 && p != k {
      if u < v {
        LocatorsDiffer(c[p], u, v);
      } else {
        AddCommutes(Exp(u), Exp(v));
        LocatorsDiffer(c[p], v, u);
      }
    }
  }

  lemma {:induction false} WeightWithout(c: Poly, t: Poly, k: nat)
    requires |t| == |c| && k < |c| && c[k] != 0
    requires forall p :: 0 <= p < |c| ==> (t[p] == 0 <==> p == k || c[p] == 0)
    ensures Weight(t) == Weight(c) - 1
  {
    if k == |c| - 1 {
      SameWeight(DropLast(c), DropLast(t));
    } else {
      WeightWithout(DropLast(c), DropLast(t), k);
    }
  }

  lemma {:induction false} SameWeight(c: Poly, t: Poly)
    requires |t| == |c|
    requires forall p :: 0 <= p < |c| ==> (t[p] == 0 <==> c[p] == 0)
    ensures Weight(t) == Weight(c)
  {
    if c != [] { SameWeight(DropLast(c), DropLast(t)); }
  }

  lemma {:induction false} WeightZero(c: Poly)
    ensures Weight(c) == 0 <==> c == Zeros(|c|)
  {
    if c != [] {
      WeightZero(DropLast(c));
      if Weight(c) == 0 {
        assert c == DropLast(c) + [Last(c)];
      }
      if c == Zeros(|c|) {
        assert DropLast(c) == Zeros(|c| - 1);
      }
    }
  }

  /** A single nonzero symbol is seen by the value at 2^0. */
  lemma {:induction false} EvalSingle(c: Poly, k: nat)
    requires k < |c| && forall p :: 0 <= p < |c| && p != k ==> c[p] == 0
    ensures Eval(c, 1) == c[k]
  {
    hide Mul, Add;
    TimesOne(Eval(DropLast(c), 1));
    AddZero(Eval(DropLast(c), 1));
    if k == |c| - 1 {
      assert DropLast(c) == Zeros(|c| - 1);
      EvalZeros(|c| - 1, 1);
      AddZero(c[k]);
    } else {
      EvalSingle(DropLast(c), k);
    }
  }

  lemma TwistIsCodeword(c: Poly, n: nat, a: Byte)
    requires n > 0 && IsCodeword(c, n)
    ensures IsCodeword(Twist(c, a, 1), n - 1)
  {
    hide Mul, Add, Twist, Eval;
    forall j | 0 <= j < n - 1 ensures Vanishes(Twist(c, a, 1), j) {
      assert Vanishes(c, j) && Vanishes(c, j + 1);
      TwistEval(c, a, 1, Exp(j));
      TimesZero(a);
      TimesZero(1);
      AddZero(0);
    }
  }

  lemma VanishesFirst(c: Poly, n: nat)
    requires n > 0 && IsCodeword(c, n)
    ensures Eval(c, 1) == 0
  {
    assert Vanishes(c, 0);
  }

  /** The minimum distance of the code: a codeword with at most n nonzero
      symbols is the zero word. */
  lemma {:induction false} LightCodewordsAreZero(c: Poly, n: nat)
    requires |c| <= 255 && IsCodeword(c, n) && Weight(c) <= n
    ensures c == Zeros(|c|)
    decreases n
  {
    hide Mul, Add, Twist, Eval, Weight, Exp;
    WeightZero(c);
    if c != Zeros(|c|) {
      var k :| 0 <= k < |c| && c[k] != 0;
      var a := Exp(|c| - 1 - k);
      var t := Twist(c, a, 1);
      forall p | 0 <= p < |c| ensures t[p] == 0 <==> p == k || c[p] == 0 {
        TwistKills(c, k, p);
      }
      WeightWithout(c, t, k);
      TwistIsCodeword(c, n, a);
      LightCodewordsAreZero(t, n - 1);
      FirstWindow(1);
      EvalSingle(c, k);
      VanishesFirst(c, n);
    }
  }

  /** The number of positions in which two words of one length differ. */
  function Distance(c: Poly, d: Poly): nat
    requires |c| == |d|
  {
    Weight(Sum(c, d))
  }

  lemma DistanceCommutes(c: Poly, d: Poly)
    requires |c| == |d|
    ensures Distance(c, d) == Distance(d, c)
  {
    hide Add, Weight;
    forall i | 0 <= i < |c| ensures Sum(c, d)[i] == Sum(d, c)[i] { AddCommutes(c[i], d[i]); }
    assert Sum(c, d) == Sum(d, c);
  }

  lemma {:induction false} DistanceTriangle(c: Poly, r: Poly, d: Poly)
    requires |c| == |r| == |d|
    ensures Distance(c, d) <= Distance(c, r) + Distance(r, d)
  {
    hide Add;
    if c != [] {
      DistanceTriangle(DropLast(c), DropLast(r), DropLast(d));
      assert DropLast(Sum(c, d)) == Sum(DropLast(c), DropLast(d));
      assert DropLast(Sum(c, r)) == Sum(DropLast(c), DropLast(r));
      assert DropLast(Sum(r, d)) == Sum(DropLast(r), DropLast(d));
      AddEqual(Last(c), Last(d));
      AddEqual(Last(c), Last(r));
      AddEqual(Last(r), Last(d));
    }
  }

  lemma SumIsCodeword(c: Poly, d: Poly, n: nat)
    requires |c| == |d| && IsCodeword(c, n) && IsCodeword(d, n)
    ensures IsCodeword(Sum(c, d), n)
  {
    hide Add, Eval;
    forall j | 0 <= j < n ensures Vanishes(Sum(c, d), j) {
      assert Vanishes(c, j) && Vanishes(d, j);
      EvalSum(c, d, Exp(j));
      AddZero(0);
    }
  }

  /** Two different codewords differ in more than n positions. */
  lemma CodewordsAreFarApart(c: Poly, d: Poly, n: nat)
    requires |c| == |d| <= 255 && IsCodeword(c, n) && IsCodeword(d, n)
    requires Distance(c, d) <= n
    ensures c == d
  {
    hide Add, Weight, IsCodeword;
    SumIsCodeword(c, d, n);
    var s := Sum(c, d);
    LightCodewordsAreZero(s, n);
    forall i | 0 <= i < |c| ensures c[i] == d[i] {
      assert s[i] == 0;
      AddEqual(c[i], d[i]);
    }
  }

  /** The encoder's blocks are exactly the codewords. */
  lemma CodewordsAreBlocks(c: Poly, n: nat)
    requires 0 < n <= |c| <= 255
    ensures IsCodeword(c, n) <==> c == c[..|c| - n] + Ecc(c[..|c| - n], n)
  {
    hide Eval, Remainder, Weight;
    var data := c[..|c| - n];
    var block := data + Ecc(data, n);
    BlockIsCodeword(data, n);
    if IsCodeword(c, n) {
      AgreeingPrefix(c, block, |c| - n);
      CodewordsAreFarApart(c, block, n);
    }
  }

  lemma {:induction false} AgreeingPrefix(c: Poly, d: Poly, m: nat)
    requires m <= |c| == |d| && c[..m] == d[..m]
    ensures Distance(c, d) <= |c| - m
  {
    if |c| == m {
      assert c == d;
      SelfDistance(c);
    } else {
      assert DropLast(Sum(c, d)) == Sum(DropLast(c), DropLast(d));
      assert DropLast(c)[..m] == c[..m] && DropLast(d)[..m] == d[..m];
      AgreeingPrefix(DropLast(c), DropLast(d), m);
    }
  }

  lemma {:induction false} SelfDistance(c: Poly)
    ensures Distance(c, c) == 0
  {
    forall i | 0 <= i < |c| ensures Sum(c, c)[i] == 0 { AddSelf(c[i]); }
    WeightZero(Sum(c, c));
  }

  /** Error correction: when at most half as many symbols of a block as it has
      check symbols arrive wrong, no other data could have been sent. */
  lemma UniqueDecoding(data: Poly, other: Poly, n: nat, received: Poly)
    requires n > 0 && |data| == |other| && |received| == |data| + n <= 255
    requires 2 * Distance(data + Ecc(data, n), received) <= n
    requires 2 * Distance(received, other + Ecc(other, n)) <= n
    ensures data == other
  {
    hide Weight, Remainder, Eval, IsCodeword, Sum;
    var c, d := data + Ecc(data, n), other + Ecc(other, n);
    BlockIsCodeword(data, n);
    BlockIsCodeword(other, n);
    DistanceTriangle(c, received, d);
    CodewordsAreFarApart(c, d, n);
    assert data == c[..|data|] && other == d[..|data|];
  }
}
