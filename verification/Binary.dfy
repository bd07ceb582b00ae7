/** Unsigned machine integers as naturals: the bitwise operators the encoders
    use, defined on binary digits. */
module Binary {

  function Pow2(n: nat): (p: nat)
    ensures p > 0
  {
    if n == 0 then 1 else 2 * Pow2(n - 1)
  }

  lemma {:induction false} PowProduct(m: nat, n: nat)
    ensures Pow2(m) * Pow2(n) == Pow2(m + n)
  {
    if m > 0 {
      PowProduct(m - 1, n);
      assert 2 * Pow2(m - 1) * Pow2(n) == 2 * (Pow2(m - 1) * Pow2(n));
    }
  }

  lemma WordRange()
    ensures Pow2(32) == 0x1_0000_0000
  {
    PowProduct(8, 8);
    PowProduct(16, 16);
    assert Pow2(8) == 256;
  }

  /** A right shift by i bits. */
  function Shr(x: nat, i: nat): nat {
    if i == 0 then x else Shr(x, i - 1) / 2
  }

  /** Bit i of x, counted from the least significant one. */
  predicate Bit(x: nat, i: nat) {
    Shr(x, i) % 2 == 1
  }

  lemma {:induction false} ShrBound(x: nat, i: nat, n: nat)
    requires x < Pow2(i + n)
    ensures Shr(x, i) < Pow2(n)
  {
    if i > 0 { ShrBound(x, i - 1, n + 1); }
  }

  /** Bitwise exclusive or. */
  function Xor(a: nat, b: nat): nat {
    if a == 0 then b else 2 * Xor(a / 2, b / 2) + (a + b) % 2
  }

  /** Bitwise and. */
  function And(a: nat, b: nat): nat {
    if a == 0 || b == 0 then 0 else 2 * And(a / 2, b / 2) + (a % 2) * (b % 2)
  }

  type Byte = n: nat | n < 256

  lemma XorHalves(a: nat, b: nat)
    ensures Xor(a, b) / 2 == Xor(a / 2, b / 2)
    ensures Xor(a, b) % 2 == (a + b) % 2
  {}

  /** Exclusive or, one binary digit at a time. */
  lemma XorDigit(h: nat, k: nat, p: nat, q: nat)
    requires p < 2 && q < 2
    ensures Xor(2 * h + p, 2 * k + q) == 2 * Xor(h, k) + (p + q) % 2
  {
    var a, b := 2 * h + p, 2 * k + q;
    assert a / 2 == h && b / 2 == k;
    if a > 0 {
      assert (a + b) % 2 == (p + q) % 2;
    }
  }

  lemma {:induction false} XorCommutes(a: nat, b: nat)
    ensures Xor(a, b) == Xor(b, a)
  {
    if a == 0 {
      XorZero(b);
    } else if b == 0 {
      XorZero(a);
    } else {
      XorCommutes(a / 2, b / 2);
    }
  }

  lemma {:induction false} XorZero(a: nat)
    ensures Xor(a, 0) == a == Xor(0, a)
  {
    if a > 0 { XorZero(a / 2); }
  }

  lemma {:induction false} XorSelf(a: nat)
    ensures Xor(a, a) == 0
  {
    if a > 0 { XorSelf(a / 2); }
  }

  lemma {:induction false} XorAssociates(a: nat, b: nat, c: nat)
    ensures Xor(Xor(a, b), c) == Xor(a, Xor(b, c))
  {
    if a > 0 {
      var l, r := Xor(Xor(a, b), c), Xor(a, Xor(b, c));
      assert l / 2 == r / 2 by {
        XorHalves(a, b);
        XorHalves(b, c);
        XorHalves(Xor(a, b), c);
        XorHalves(a, Xor(b, c));
        XorAssociates(a / 2, b / 2, c / 2);
      }
      assert l % 2 == r % 2 by {
        XorParity(a, b, c);
      }
    }
  }

  lemma XorParity(a: nat, b: nat, c: nat)
    ensures Xor(Xor(a, b), c) % 2 == (a + b + c) % 2 == Xor(a, Xor(b, c)) % 2
  {
    XorHalves(a, b);
    XorHalves(b, c);
    XorHalves(Xor(a, b), c);
    XorHalves(a, Xor(b, c));
    ParityAdds(Xor(a, b), a + b, c);
    ParityAdds(Xor(b, c), b + c, a);
  }

  lemma ParityAdds(p: nat, q: nat, c: nat)
    requires p % 2 == q % 2
    ensures (p + c) % 2 == (q + c) % 2
  {}

  lemma XorCancels(a: nat, b: nat)
    ensures Xor(Xor(a, b), b) == a
    ensures Xor(b, Xor(b, a)) == a
  {
    XorAssociates(a, b, b);
    XorAssociates(b, b, a);
    XorSelf(b);
    XorZero(a);
  }

  lemma XorEqual(a: nat, b: nat)
    ensures Xor(a, b) == 0 <==> a == b
  {
    XorSelf(a);
    XorCancels(a, b);
  }

  lemma XorSwaps(a: nat, b: nat, c: nat, d: nat)
    ensures Xor(Xor(a, b), Xor(c, d)) == Xor(Xor(a, c), Xor(b, d))
  {
    calc {
      Xor(Xor(a, b), Xor(c, d));
      { XorAssociates(a, b, Xor(c, d)); }
      Xor(a, Xor(b, Xor(c, d)));
      { XorAssociates(b, c, d); XorCommutes(b, c); XorAssociates(c, b, d); }
      Xor(a, Xor(c, Xor(b, d)));
      { XorAssociates(a, c, Xor(b, d)); }
      Xor(Xor(a, c), Xor(b, d));
    }
  }

  lemma XorDoubles(a: nat, b: nat)
    ensures Xor(2 * a, 2 * b) == 2 * Xor(a, b)
  {}

  lemma {:induction false} XorBound(a: nat, b: nat, n: nat)
    requires a < Pow2(n) && b < Pow2(n)
    ensures Xor(a, b) < Pow2(n)
  {
    if a > 0 && n > 0 { XorBound(a / 2, b / 2, n - 1); }
  }

  /** Flipping the bit of weight 2^n in both or neither operand. */
  lemma {:induction false} XorTop(a: nat, b: nat, n: nat)
    requires a < Pow2(n + 1) && b < Pow2(n + 1)
    ensures Xor(a, b) >= Pow2(n) <==> (a >= Pow2(n)) != (b >= Pow2(n))
  {
    if n == 0 {
    } else if a > 0 {
      XorHalves(a, b);
      XorTop(a / 2, b / 2, n - 1);
    }
  }
}
