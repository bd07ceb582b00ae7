/** The field GF(2^8) with reduction polynomial 0x11D, as the QR encoder's
    Russian-peasant multiplication computes it, and the ring laws that
    Reed-Solomon coding rests on. */
module Gf256 {
  import opened Binary

  function Add(x: Byte, y: Byte): Byte {
    XorBound(x, y, 8);
    Xor(x, y)
  }

  /** Multiplication by the generator 0x02: a shift, reduced by 0x11D. */
  function Twice(x: Byte): Byte {
    if x < 128 then 2 * x
    else
      XorBound(2 * x, 0x11D, 9);
      XorTop(2 * x, 0x11D, 8);
      Xor(2 * x, 0x11D)
  }

  /** The product of the polynomials over GF(2) that x and y spell in binary,
      modulo 0x11D. */
  function Mul(x: Byte, y: nat): Byte {
    if y == 0 then 0
    else if y % 2 == 0 then Twice(Mul(x, y / 2))
    else Add(Twice(Mul(x, y / 2)), x)
  }

  /** The i-th power of the generator. */
  function Exp(i: nat): Byte {
    if i == 0 then 1 else Twice(Exp(i - 1))
  }

  /** The reduction as the loop writes it, on the shifted nine-bit value. */
  function ShiftReduce(z: Byte): (r: Byte)
    ensures r == Twice(z)
  {
    assert Xor(2 * z, z / 128 * 0x11D) == Twice(z) by {
      hide Xor;
      XorZero(2 * z);
      if z < 128 {
        assert z / 128 == 0;
      } else {
        assert z / 128 == 1;
      }
    }
    Xor(z * 2, z / 128 * 0x11D)
  }

  /** x if the bit is set, and 0 otherwise. */
  function Select(bit: nat, x: Byte): Byte
    requires bit < 2
  {
    bit * x
  }

  /** The encoder's multiplication loop. */
  method Multiply(x: Byte, y: Byte) returns (z: Byte)
    ensures z == Mul(x, y)
  {
    z := 0;
    ShrBound(y, 8, 0);
    for i := 8 downto 0
      invariant z == Mul(x, Shr(y, i))
    {
      z := ShiftReduce(z);
      MulStep(x, Shr(y, i));
      z := Add(z, Select(Shr(y, i) % 2, x));
    }
  }

  lemma MulStep(x: Byte, y: nat)
    ensures Mul(x, y) == Add(Twice(Mul(x, y / 2)), Select(y % 2, x))
  {
    XorZero(Twice(Mul(x, y / 2)));
    if y == 0 {
      assert Twice(0) == 0;
    }
  }

  // ---- Ring laws ---------------------------------------------------------

  lemma AddZero(x: Byte)
    ensures Add(x, 0) == x == Add(0, x)
  {
    XorZero(x);
  }

  lemma AddCommutes(x: Byte, y: Byte)
    ensures Add(x, y) == Add(y, x)
  {
    XorCommutes(x, y);
  }

  lemma AddCancels(x: Byte, y: Byte)
    ensures Add(y, Add(x, y)) == x
  {
    XorCommutes(x, y);
    XorCancels(x, y);
  }

  lemma AddEqual(x: Byte, y: Byte)
    ensures Add(x, y) == 0 <==> x == y
  {
    XorEqual(x, y);
  }

  lemma AddSelf(x: Byte)
    ensures Add(x, x) == 0
  {
    XorSelf(x);
  }

  lemma AddSwaps(a: Byte, b: Byte, c: Byte, d: Byte)
    ensures Add(Add(a, b), Add(c, d)) == Add(Add(a, c), Add(b, d))
  {
    XorSwaps(a, b, c, d);
  }

  lemma TwiceAdds(x: Byte, y: Byte)
    ensures Twice(Add(x, y)) == Add(Twice(x), Twice(y))
  {
    XorTop(x, y, 7);
    assert Pow2(7) == 128;
    XorDoubles(x, y);
    var s, m := Xor(2 * x, 2 * y), 0x11D;
    if x >= 128 && y >= 128 {
      calc {
        Xor(Xor(2 * x, m), Xor(2 * y, m));
        { XorSwaps(2 * x, m, 2 * y, m); }
        Xor(s, Xor(m, m));
        { XorSelf(m); XorZero(s); }
        s;
      }
    } else if x >= 128 {
      calc {
        Xor(Xor(2 * x, m), 2 * y);
        { XorAssociates(2 * x, m, 2 * y); XorCommutes(m, 2 * y); XorAssociates(2 * x, 2 * y, m); }
        Xor(s, m);
      }
    } else if y >= 128 {
      XorAssociates(2 * x, 2 * y, m);
    }
  }

  lemma SelectAdds(x: Byte, s: nat, t: nat)
    requires s < 2 && t < 2
    ensures Select((s + t) % 2, x) == Add(Select(s, x), Select(t, x))
  {
    XorZero(x);
    XorSelf(x);
    XorZero(0);
  }

  lemma {:induction false} AddRight(x: Byte, y: nat, z: nat)
    ensures Mul(x, Xor(y, z)) == Add(Mul(x, y), Mul(x, z))
    decreases y + z
  {
    hide Mul, Add, Xor, Twice, Select;
    TimesZero(x);
    if y == 0 {
      XorZero(z);
      AddZero(Mul(x, z));
    } else if z == 0 {
      AddZero(Mul(x, y));
      XorZero(y);
    } else {
      var a, b := Twice(Mul(x, y / 2)), Twice(Mul(x, z / 2));
      var s, t := Select(y % 2, x), Select(z % 2, x);
      calc {
        Mul(x, Xor(y, z));
        { XorHalves(y, z); MulStep(x, Xor(y, z)); }
        Add(Twice(Mul(x, Xor(y / 2, z / 2))), Select((y + z) % 2, x));
        { AddRight(x, y / 2, z / 2); TwiceAdds(Mul(x, y / 2), Mul(x, z / 2)); }
        Add(Add(a, b), Select((y + z) % 2, x));
        { SelectAdds(x, y % 2, z % 2); }
        Add(Add(a, b), Add(s, t));
        { AddSwaps(a, b, s, t); }
        Add(Add(a, s), Add(b, t));
        { MulStep(x, y); MulStep(x, z); }
        Add(Mul(x, y), Mul(x, z));
      }
    }
  }

  lemma {:induction false} AddLeft(x: Byte, y: Byte, z: nat)
    ensures Mul(Add(x, y), z) == Add(Mul(x, z), Mul(y, z))
  {
    if z > 0 {
      AddLeft(x, y, z / 2);
      var a, b := Mul(x, z / 2), Mul(y, z / 2);
      TwiceAdds(a, b);
      XorSwaps(Twice(a), Twice(b), x, y);
    }
  }

  lemma Distributes(x: Byte, y: Byte, z: Byte)
    ensures Mul(x, Add(y, z)) == Add(Mul(x, y), Mul(x, z))
    ensures Mul(Add(x, y), z) == Add(Mul(x, z), Mul(y, z))
  {
    AddRight(x, y, z);
    AddLeft(x, y, z);
  }

  lemma {:induction false} TwiceLeft(x: Byte, y: nat)
    ensures Mul(Twice(x), y) == Twice(Mul(x, y))
  {
    if y > 0 {
      TwiceLeft(x, y / 2);
      TwiceAdds(Twice(Mul(x, y / 2)), x);
    }
  }

  lemma {:induction false} TimesZero(y: Byte)
    ensures Mul(0, y) == 0 && Mul(y, 0) == 0
  {
    if y > 0 { TimesZero(y / 2); }
  }

  /** A byte is twice its half, plus its last bit. */
  lemma SplitByte(y: Byte)
    ensures y == Add(Twice(y / 2), y % 2)
  {
    hide Xor;
    XorDigit(y / 2, 0, 0, y % 2);
    XorZero(y / 2);
  }

  lemma {:induction false} TimesOne(y: Byte)
    ensures Mul(1, y) == y && Mul(y, 1) == y
  {
    hide Xor, Mul, Add;
    TimesZero(y);
    MulStep(y, 1);
    assert Twice(0) == 0;
    AddZero(y);
    MulStep(1, y);
    SplitByte(y);
    if y > 0 {
      TimesOne(y / 2);
    } else {
      TimesZero(1);
    }
  }

  lemma CommuteBit(b: Byte, x: Byte)
    requires b < 2
    ensures Mul(b, x) == Select(b, x)
  {
    hide Mul;
    TimesZero(x);
    TimesOne(x);
  }

  lemma {:induction false} Commutes(x: Byte, y: Byte)
    ensures Mul(x, y) == Mul(y, x)
    decreases y
  {
    TimesZero(x);
    if y > 0 {
      Commutes(x, y / 2);
      CommutesStep(x, y);
    }
  }

  lemma CommutesStep(x: Byte, y: Byte)
    requires Mul(x, y / 2) == Mul(y / 2, x)
    ensures Mul(x, y) == Mul(y, x)
  {
    hide Xor, Mul, Add, Twice, Select;
    var h: Byte, b: Byte := y / 2, y % 2;
    calc {
      Mul(y, x);
      { SplitByte(y); }
      Mul(Add(Twice(h), b), x);
      { AddLeft(Twice(h), b, x); }
      Add(Mul(Twice(h), x), Mul(b, x));
      { TwiceLeft(h, x); CommuteBit(b, x); }
      Add(Twice(Mul(h, x)), Select(b, x));
      { MulStep(x, y); }
      Mul(x, y);
    }
  }

  lemma MulTwice(x: Byte, y: Byte)
    ensures Mul(Twice(x), y) == Twice(Mul(x, y)) == Mul(x, Twice(y))
  {
    TwiceLeft(x, y);
    TwiceLeft(y, x);
    Commutes(x, y);
    Commutes(x, Twice(y));
  }

  lemma {:induction false} Associates(x: Byte, y: Byte, z: nat)
    ensures Mul(Mul(x, y), z) == Mul(x, Mul(y, z))
  {
    if z > 0 {
      Associates(x, y, z / 2);
      var p := Mul(y, z / 2);
      MulTwice(x, p);
      AddRight(x, Twice(p), y);
    }
  }

  // ---- Powers of the generator ---------------------------------------------

  lemma {:induction false} ExpAdds(i: nat, j: nat)
    ensures Exp(i + j) == Mul(Exp(i), Exp(j))
  {
    if i == 0 {
      TimesOne(Exp(j));
    } else {
      ExpAdds(i - 1, j);
      MulTwice(Exp(i - 1), Exp(j));
    }
  }
}

/** The generator 0x02 has order 255: no smaller positive power of it fixes a
    nonzero element. The three numerical facts behind this are computed on
    binary digits. */
module GeneratorOrder {
  import opened Binary
  import opened Gf256

  type Digit = d: nat | d < 2

  /** A byte as its eight binary digits. */
  datatype Octet = Octet(b7: Digit, b6: Digit, b5: Digit, b4: Digit, b3: Digit, b2: Digit, b1: Digit, b0: Digit)
  {
    function Low(): nat {
      b0 + 2 * (b1 + 2 * (b2 + 2 * b3))
    }

    function High(): nat {
      b4 + 2 * (b5 + 2 * (b6 + 2 * b7))
    }

    function Value(): nat {
      Low() + 16 * High()
    }

    function Plus(y: Octet): Octet {
      Octet(Flip(b7, y.b7), Flip(b6, y.b6), Flip(b5, y.b5), Flip(b4, y.b4),
            Flip(b3, y.b3), Flip(b2, y.b2), Flip(b1, y.b1), Flip(b0, y.b0))
    }

    function PlusIf(d: Digit, y: Octet): Octet {
      if d == 0 then this else Plus(y)
    }

    function Double(): Octet {
      Octet(b6, b5, b4, Flip(b3, b7), Flip(b2, b7), Flip(b1, b7), b0, b7)
    }

    function HighDigits(): Digits {
      Then(Then(Then(Then(End, b7), b6), b5), b4)
    }

    function Digits(): Digits {
      Then(Then(Then(Then(HighDigits(), b3), b2), b1), b0)
    }

    function TimesHigh(y: Octet): Octet {
      NONE.Double().PlusIf(y.b7, this).Double().PlusIf(y.b6, this)
      .Double().PlusIf(y.b5, this).Double().PlusIf(y.b4, this)
    }

    function Times(y: Octet): Octet {
      TimesHigh(y).Double().PlusIf(y.b3, this).Double().PlusIf(y.b2, this)
      .Double().PlusIf(y.b1, this).Double().PlusIf(y.b0, this)
    }
  }

  /** Binary digits, the last one least significant. */
  datatype Digits = End | Then(higher: Digits, last: Digit)

  function Number(y: Digits): nat {
    match y
    case End => 0
    case Then(higher, last) => 2 * Number(higher) + last
  }

  function TimesDigits(x: Octet, y: Digits): Octet {
    match y
    case End => NONE
    case Then(higher, last) => TimesDigits(x, higher).Double().PlusIf(last, x)
  }

  const NONE := Octet(0, 0, 0, 0, 0, 0, 0, 0)

  function Flip(p: Digit, q: Digit): Digit {
    if p == q then 0 else 1
  }

  lemma XorOneDigit(h: nat, k: nat, p: Digit, q: Digit)
    ensures Xor(p + 2 * h, q + 2 * k) == Flip(p, q) + 2 * Xor(h, k)
  {
    XorDigit(h, k, p, q);
  }

  lemma XorTwoDigits(h: nat, k: nat, p1: Digit, q1: Digit, p0: Digit, q0: Digit)
    ensures Xor(p0 + 2 * p1 + 4 * h, q0 + 2 * q1 + 4 * k) == Flip(p0, q0) + 2 * Flip(p1, q1) + 4 * Xor(h, k)
  {
    hide Flip, Xor;
    XorOneDigit(h, k, p1, q1);
    XorOneDigit(p1 + 2 * h, q1 + 2 * k, p0, q0);
  }

  lemma XorLow(h: nat, k: nat, p: Octet, q: Octet)
    ensures Xor(p.Low() + 16 * h, q.Low() + 16 * k) == p.Plus(q).Low() + 16 * Xor(h, k)
  {
    XorTwoDigits(h, k, p.b3, q.b3, p.b2, q.b2);
    XorTwoDigits(p.b2 + 2 * p.b3 + 4 * h, q.b2 + 2 * q.b3 + 4 * k, p.b1, q.b1, p.b0, q.b0);
  }

  lemma XorHigh(x: Octet, y: Octet)
    ensures Xor(x.High(), y.High()) == x.Plus(y).High()
  {
    var p := Octet(0, 0, 0, 0, x.b7, x.b6, x.b5, x.b4);
    var q := Octet(0, 0, 0, 0, y.b7, y.b6, y.b5, y.b4);
    XorLow(0, 0, p, q);
    assert p.Low() == x.High() && q.Low() == y.High();
  }

  lemma PlusValue(x: Octet, y: Octet)
    ensures x.Plus(y).Value() == Xor(x.Value(), y.Value())
  {
    var h, k := x.High(), y.High();
    XorHigh(x, y);
    XorLow(h, k, x, y);
  }

  lemma DoubleValue(x: Octet)
    ensures x.Value() < 256 && x.Double().Value() == Twice(x.Value())
  {
    var low := Octet(x.b6, x.b5, x.b4, x.b3, x.b2, x.b1, x.b0, 0);
    assert 2 * x.Value() == low.Value() + 256 * x.b7;
    if x.b7 == 1 {
      var m := Octet(0, 0, 0, 1, 1, 1, 0, 1);
      assert low.Plus(m) == x.Double();
      PlusValue(low, m);
      ReduceTop(low.Value());
    } else {
      assert low == x.Double();
    }
  }

  /** The shifted-out ninth bit meets the leading term of 0x11D. */
  lemma ReduceTop(low: nat)
    requires low < 256
    ensures Xor(256 + low, 0x11D) == Xor(low, 0x1D)
  {
    hide Xor;
    assert Pow2(8) == 256;
    HighBit(low, 8);
    HighBit(0x1D, 8);
    XorSwaps(256, low, 256, 0x1D);
    XorSelf(256);
    XorZero(Xor(low, 0x1D));
  }

  lemma {:induction false} HighBit(x: nat, n: nat)
    requires x < Pow2(n)
    ensures Xor(Pow2(n), x) == Pow2(n) + x
  {
    hide Xor, Pow2;
    PowerStep(n);
    if n == 0 {
      XorZero(1);
    } else {
      HalfBelow(x, Pow2(n - 1));
      HighBit(x / 2, n - 1);
      XorDigit(Pow2(n - 1), x / 2, 0, x % 2);
    }
  }

  lemma PowerStep(n: nat)
    ensures Pow2(n) == if n == 0 then 1 else 2 * Pow2(n - 1)
  {}

  lemma HalfBelow(x: nat, p: nat)
    requires x < 2 * p
    ensures x / 2 < p && x == 2 * (x / 2) + x % 2 && (0 + x % 2) % 2 == x % 2
  {}

  lemma OctetBound(x: Octet)
    ensures x.Value() < 256
  {
    assert x.Low() < 16 && x.High() < 16;
  }

  lemma PlusIfValue(x: Octet, d: Digit, y: Octet)
    requires x.Value() < 256 && y.Value() < 256
    ensures x.PlusIf(d, y).Value() == Add(x.Value(), Select(d, y.Value()))
  {
    hide Octet.Value, Octet.Plus, Xor;
    if d == 0 {
      XorZero(x.Value());
    } else {
      var v := y.Value();
      assert Select(d, v) == v;
      PlusValue(x, y);
    }
  }

  /** One bit of the multiplier. */
  lemma TimesStep(z: Octet, x: Octet, y: nat, d: Digit)
    requires x.Value() < 256 && z.Value() == Mul(x.Value(), y)
    ensures z.Double().PlusIf(d, x).Value() == Mul(x.Value(), 2 * y + d)
  {
    hide Octet.Value, Octet.Double, Octet.PlusIf, Xor, Twice;
    DoubleValue(z);
    OctetBound(z.Double());
    PlusIfValue(z.Double(), d, x);
    MulStep(x.Value(), 2 * y + d);
    assert (2 * y + d) / 2 == y && (2 * y + d) % 2 == d;
  }

  lemma NoneValue()
    ensures NONE.Value() == 0
  {}

  lemma {:induction false} TimesDigitsValue(x: Octet, y: Digits)
    requires x.Value() < 256
    ensures TimesDigits(x, y).Value() == Mul(x.Value(), Number(y))
  {
    hide Octet.Value, Octet.Double, Octet.PlusIf;
    NoneValue();
    if y.Then? {
      TimesDigitsValue(x, y.higher);
      TimesStep(TimesDigits(x, y.higher), x, Number(y.higher), y.last);
    }
  }

  lemma DigitsNumber(y: Octet)
    ensures Number(y.Digits()) == y.Value()
  {
    assert Number(Then(End, y.b7)) == y.b7;
    assert Number(y.HighDigits().higher.higher) == y.b6 + 2 * y.b7;
    assert Number(y.HighDigits()) == y.High();
    assert Number(y.Digits().higher.higher) == y.b2 + 2 * y.b3 + 4 * y.High();
  }

  lemma TimesUnrolls(x: Octet, y: Octet)
    ensures TimesDigits(x, y.Digits()) == x.Times(y)
  {
    hide Octet.Double, Octet.PlusIf;
    assert TimesDigits(x, Then(End, y.b7)) == NONE.Double().PlusIf(y.b7, x);
    assert TimesDigits(x, y.HighDigits().higher.higher)
        == NONE.Double().PlusIf(y.b7, x).Double().PlusIf(y.b6, x);
    assert TimesDigits(x, y.HighDigits()) == x.TimesHigh(y);
    assert TimesDigits(x, y.Digits().higher.higher)
        == x.TimesHigh(y).Double().PlusIf(y.b3, x).Double().PlusIf(y.b2, x);
  }

  lemma TimesValue(x: Octet, y: Octet)
    ensures x.Value() < 256 && y.Value() < 256
    ensures x.Times(y).Value() == Mul(x.Value(), y.Value())
  {
    hide TimesDigits, Mul, Octet.Value, Octet.Times;
    OctetBound(x);
    OctetBound(y);
    TimesDigitsValue(x, y.Digits());
    DigitsNumber(y);
    TimesUnrolls(x, y);
  }

  lemma PowerProduct(i: nat, x: Octet, j: nat, y: Octet)
    requires Exp(i) == x.Value() && Exp(j) == y.Value()
    ensures Exp(i + j) == x.Times(y).Value()
  {
    hide Mul, Octet.Value, Octet.Times, Exp;
    TimesValue(x, y);
    ExpAdds(i, j);
  }

  const E7 := Octet(1, 0, 0, 0, 0, 0, 0, 0)
  const E8 := Octet(0, 0, 0, 1, 1, 1, 0, 1)
  const E15 := Octet(0, 0, 1, 0, 0, 1, 1, 0)
  const E17 := Octet(1, 0, 0, 1, 1, 0, 0, 0)
  const E34 := Octet(0, 1, 0, 0, 1, 1, 1, 0)
  const E51 := Octet(0, 0, 0, 0, 1, 0, 1, 0)
  const E85 := Octet(1, 1, 0, 1, 0, 1, 1, 0)
  const E170 := Octet(1, 1, 0, 1, 0, 1, 1, 1)

  const UNIT := Octet(0, 0, 0, 0, 0, 0, 0, 1)

  lemma SmallProducts()
    ensures E7.Times(E8) == E15 && E15.Double().Double() == E17 && E17.Times(E17) == E34
  {}

  lemma LargeProducts()
    ensures E17.Times(E34) == E51 && E34.Times(E51) == E85
    ensures E85.Times(E85) == E170 && E85.Times(E170) == UNIT
  {}

  lemma SmallPowers()
    ensures Exp(7) == E7.Value() && Exp(8) == E8.Value() && UNIT.Value() == 1
  {
    assert Exp(7) == 128 by { assert Exp(4) == 16; }
    DoubleValue(E7);
  }

  lemma PowerValues()
    ensures Exp(15) == E15.Value() && Exp(51) == E51.Value() && Exp(85) == E85.Value()
    ensures Exp(255) == UNIT.Value() == 1
  {
    hide Octet.Value, Octet.Times, Octet.Double, Exp, Twice;
    SmallPowers();
    SmallProducts();
    LargeProducts();
    PowerProduct(7, E7, 8, E8);
    DoubleValue(E15);
    DoubleValue(E15.Double());
    ExpStep(15);
    ExpStep(16);
    PowerProduct(17, E17, 17, E17);
    PowerProduct(17, E17, 34, E34);
    PowerProduct(34, E34, 51, E51);
    PowerProduct(85, E85, 85, E85);
    PowerProduct(85, E85, 170, E170);
  }

  lemma ExpStep(i: nat)
    ensures Exp(i + 1) == Twice(Exp(i))
  {}

  /** An element and an inverse of one plus it. */
  predicate MovesAll(e: Byte) {
    exists f: Byte :: Mul(f, Add(e, 1)) == 1
  }

  lemma Inverse(e: Octet, f: Octet)
    requires f.Times(e.Plus(UNIT)) == UNIT
    ensures e.Value() < 256 && MovesAll(e.Value())
  {
    hide Mul, Xor, Octet.Value, Octet.Times, Octet.Plus;
    TimesValue(f, e.Plus(UNIT));
    TimesValue(e, UNIT);
    PlusValue(e, UNIT);
    SmallPowers();
    assert Mul(f.Value(), Add(e.Value(), 1)) == 1;
  }

  lemma Inverses()
    ensures Octet(1, 0, 0, 0, 1, 0, 1, 0).Times(E15.Plus(UNIT)) == UNIT
    ensures Octet(1, 0, 0, 1, 1, 0, 0, 0).Times(E51.Plus(UNIT)) == UNIT
    ensures Octet(1, 1, 0, 1, 0, 1, 1, 0).Times(E85.Plus(UNIT)) == UNIT
  {}

  lemma PrimeOrderPowers()
    ensures MovesAll(Exp(15)) && MovesAll(Exp(51)) && MovesAll(Exp(85))
  {
    hide Octet.Value, Octet.Times, Octet.Plus, Exp;
    PowerValues();
    Inverses();
    Inverse(E15, Octet(1, 0, 0, 0, 1, 0, 1, 0));
    Inverse(E51, Octet(1, 0, 0, 1, 1, 0, 0, 0));
    Inverse(E85, Octet(1, 1, 0, 1, 0, 1, 1, 0));
  }

  lemma Moved(e: Byte, c: Byte)
    requires MovesAll(e) && Mul(e, c) == c
    ensures c == 0
  {
    var f: Byte :| Mul(f, Add(e, 1)) == 1;
    Distributes(e, 1, c);
    TimesOne(c);
    XorSelf(c);
    Associates(f, Add(e, 1), c);
    assert Mul(f, 0) == 0;
  }

  lemma ExpZero()
    ensures Exp(0) == 1
  {}

  lemma {:induction false} FixedByPowers(d: nat, c: Byte, k: nat)
    requires Mul(Exp(d), c) == c
    ensures Mul(Exp(k * d), c) == c
  {
    hide Mul, Exp;
    if k == 0 {
      ExpZero();
      TimesOne(c);
    } else {
      FixedByPowers(d, c, k - 1);
      assert k * d == (k - 1) * d + d;
      ExpAdds((k - 1) * d, d);
      Associates(Exp((k - 1) * d), Exp(d), c);
    }
  }

  lemma {:induction false} PowersRepeat(n: nat, t: nat)
    ensures Exp(n + 255 * t) == Exp(n)
  {
    hide Mul, Exp;
    if t > 0 {
      PowersRepeat(n, t - 1);
      PowerValues();
      ExpAdds(n + 255 * (t - 1), 255);
      TimesOne(Exp(n));
    }
  }

  /** If d has an inverse j modulo a prime factor p of 255, then whatever
      Exp(d) fixes is also fixed by Exp(255 / p). */
  lemma FixedByPrime(d: nat, c: Byte, p: nat, q: nat, j: nat, t: nat)
    requires Mul(Exp(d), c) == c && p * q == 255 && j * d == p * t + 1
    ensures Mul(Exp(q), c) == c
  {
    hide Mul, Exp;
    assert (q * j) * d == q + 255 * t by {
      assert (q * j) * d == q * (j * d) == q * (p * t) + q;
      assert q * (p * t) == (p * q) * t;
    }
    FixedByPowers(d, c, q * j);
    PowersRepeat(q, t);
  }

  /** Inverses modulo the three prime factors of 255. */
  lemma Inverse17(d: nat) returns (j: nat, t: nat)
    requires d % 17 != 0
    ensures j * d == 17 * t + 1
  {
    var m, r := d / 17, d % 17;
    if r == 1 { j, t := 1, 1 * m; }
    else if r == 2 { j, t := 9, 9 * m + 1; }
    else if r == 3 { j, t := 6, 6 * m + 1; }
    else if r == 4 { j, t := 13, 13 * m + 3; }
    else if r == 5 { j, t := 7, 7 * m + 2; }
    else if r == 6 { j, t := 3, 3 * m + 1; }
    else if r == 7 { j, t := 5, 5 * m + 2; }
    else if r == 8 { j, t := 15, 15 * m + 7; }
    else if r == 9 { j, t := 2, 2 * m + 1; }
    else if r == 10 { j, t := 12, 12 * m + 7; }
    else if r == 11 { j, t := 14, 14 * m + 9; }
    else if r == 12 { j, t := 10, 10 * m + 7; }
    else if r == 13 { j, t := 4, 4 * m + 3; }
    else if r == 14 { j, t := 11, 11 * m + 9; }
    else if r == 15 { j, t := 8, 8 * m + 7; }
    else { j, t := 16, 16 * m + 15; }
  }

  lemma Inverse5(d: nat) returns (j: nat, t: nat)
    requires d % 5 != 0
    ensures j * d == 5 * t + 1
  {
    var m, r := d / 5, d % 5;
    if r == 1 { j, t := 1, 1 * m; }
    else if r == 2 { j, t := 3, 3 * m + 1; }
    else if r == 3 { j, t := 2, 2 * m + 1; }
    else { j, t := 4, 4 * m + 3; }
  }

  lemma Inverse3(d: nat) returns (j: nat, t: nat)
    requires d % 3 != 0
    ensures j * d == 3 * t + 1
  {
    var m, r := d / 3, d % 3;
    if r == 1 { j, t := 1, 1 * m; }
    else { j, t := 2, 2 * m + 1; }
  }

  lemma NotBoth(d: nat)
    requires 0 < d < 255 && d % 17 == 0 && d % 5 == 0
    ensures d % 3 != 0
  {
    var a := d / 17;
    assert d == 17 * a && a < 15;
    assert a % 5 == 0 by { assert 17 * a % 5 == 2 * a % 5; }
    assert a == 5 || a == 10;
  }

  /** The powers below 255 of the generator other than the 0th fix only zero. */
  lemma NoFixedPoints(d: nat, c: Byte)
    requires 0 < d < 255 && Mul(Exp(d), c) == c
    ensures c == 0
  {
    hide Mul, Exp;
    PrimeOrderPowers();
    if d % 17 != 0 {
      var j, t := Inverse17(d);
      FixedByPrime(d, c, 17, 15, j, t);
      Moved(Exp(15), c);
    } else if d % 5 != 0 {
      var j, t := Inverse5(d);
      FixedByPrime(d, c, 5, 51, j, t);
      Moved(Exp(51), c);
    } else {
      NotBoth(d);
      var j, t := Inverse3(d);
      FixedByPrime(d, c, 3, 85, j, t);
      Moved(Exp(85), c);
    }
  }

  // ---- The powers of the generator are all nonzero bytes -----------------------------

  lemma PowersAreNonzero(i: nat)
    requires i <= 255
    ensures Exp(i) != 0
  {
    hide Mul, Exp;
    PowerValues();
    ExpAdds(i, 255 - i);
    TimesZero(Exp(255 - i));
  }

  lemma PowersDiffer(i: nat, j: nat)
    requires i < j < 255
    ensures Exp(i) != Exp(j)
  {
    hide Mul, Exp;
    ExpAdds(j - i, i);
    PowersAreNonzero(i);
    if Exp(i) == Exp(j) {
      NoFixedPoints(j - i, Exp(i));
    }
  }

  /** The first n powers. */
  ghost function Powers(n: nat): set<int> {
    if n == 0 then {} else Powers(n - 1) + {Exp(n - 1) as int}
  }

  lemma {:induction false} PowersContain(n: nat, x: int)
    ensures x in Powers(n) <==> exists i: nat :: i < n && IsPower(i, x)
  {
    hide Exp;
    if n > 0 {
      PowersContain(n - 1, x);
      assert x in Powers(n) <==> x in Powers(n - 1) || IsPower(n - 1, x);
    }
  }

  predicate IsPower(i: nat, x: int) {
    Exp(i) == x
  }

  lemma PowerIsNew(n: nat)
    requires n < 255
    ensures Exp(n) !in Powers(n)
  {
    hide Exp, Powers;
    PowersContain(n, Exp(n));
    if Exp(n) in Powers(n) {
      var i: nat :| i < n && IsPower(i, Exp(n));
      PowersDiffer(i, n);
    }
  }

  lemma {:induction false} CountPowers(n: nat)
    requires n <= 255
    ensures |Powers(n)| == n
    ensures forall x :: x in Powers(n) ==> 0 < x < 256
  {
    hide Exp;
    if n > 0 {
      CountPowers(n - 1);
      PowersAreNonzero(n - 1);
      PowerIsNew(n - 1);
    }
  }

  ghost function BytesBelow(n: nat): set<int> {
    if n <= 1 then {} else BytesBelow(n - 1) + {n - 1}
  }

  lemma {:induction false} CountBytes(n: nat)
    requires n > 0
    ensures |BytesBelow(n)| == n - 1 && forall x :: x in BytesBelow(n) <==> 0 < x < n
  {
    if n > 1 { CountBytes(n - 1); }
  }

  lemma SubsetOfSameSize(a: set<int>, b: set<int>)
    requires a <= b && |a| == |b|
    ensures a == b
  {
    assert b == a + (b - a);
    assert |b - a| == 0;
  }

  /** Every nonzero byte is a power of 2 ... */
  lemma EveryByteIsAPower(x: Byte)
    requires x != 0
    ensures exists i: nat :: i < 255 && IsPower(i, x)
  {
    hide Exp, Powers, BytesBelow;
    CountPowers(255);
    CountBytes(256);
    var powers, all := Powers(255), BytesBelow(256);
    forall y: int | y in powers ensures y in all {}
    SubsetOfSameSize(powers, all);
    PowersContain(255, x);
  }

  /** ... and has an inverse. */
  lemma EveryByteHasAnInverse(x: Byte)
    requires x != 0
    ensures exists y: Byte :: Mul(x, y) == 1
  {
    hide Mul, Exp;
    EveryByteIsAPower(x);
    var i: nat :| i < 255 && IsPower(i, x);
    PowerValues();
    ExpAdds(i, 255 - i);
    assert Mul(x, Exp(255 - i)) == 1;
  }
}
