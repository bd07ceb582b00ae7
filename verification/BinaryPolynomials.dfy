/** Polynomials over the field of two elements, as the bit strings of their
    coefficients, highest power first. */
module BinaryPolynomials {

  type Poly = seq<bool>

  function Zeros(n: nat): (p: Poly)
    ensures |p| == n
  {
    seq(n, _ => false)
  }

  function Ones(n: nat): (p: Poly)
    ensures |p| == n
  {
    seq(n, _ => true)
  }

  function Sum(a: Poly, b: Poly): (s: Poly)
    requires |a| == |b|
    ensures |s| == |a|
  {
    seq(|a|, i requires 0 <= i < |a| => a[i] != b[i])
  }

  /** The product of q and p, one coefficient of q after the other. */
  function Times(q: Poly, p: Poly): (r: Poly)
    requires p != []
    ensures |r| == |q| + |p| - 1
  {
    if q == [] then Zeros(|p| - 1)
    else Sum((if q[0] then p else Zeros(|p|)) + Zeros(|q| - 1), [false] + Times(q[1..], p))
  }

  /** The dividend w is q times p plus the remainder r. */
  predicate Divides(w: Poly, q: Poly, p: Poly, r: Poly)
    requires p != [] && |r| == |p| - 1
  {
    |w| == |q| + |r| && w == Sum(Times(q, p), Zeros(|q|) + r)
  }

  /** r is what is left of w when it is divided by p. */
  ghost predicate Leaves(w: Poly, p: Poly, r: Poly)
    requires p != [] && |r| == |p| - 1
  {
    exists q :: Divides(w, q, p, r)
  }

  lemma FirstOfProduct(q: Poly, p: Poly, r: Poly)
    requires p != [] && p[0] && |r| == |p| - 1 && q != []
    ensures Sum(Times(q, p), Zeros(|q|) + r)[0] == q[0]
  {}

  lemma RestOfProduct(q: Poly, p: Poly, r: Poly)
    requires p != [] && |r| == |p| - 1 && q != []
    ensures Sum(Times(q, p), Zeros(|q|) + r)
      == Sum((if q[0] then p else Zeros(|p|)) + Zeros(|q| - 1), [false] + Sum(Times(q[1..], p), Zeros(|q| - 1) + r))
  {
    var head, z := (if q[0] then p else Zeros(|p|)) + Zeros(|q| - 1), Times(q[1..], p);
    hide Times;
    Regroup(head, z, Zeros(|q| - 1) + r);
    assert [false] + (Zeros(|q| - 1) + r) == Zeros(|q|) + r;
  }

  lemma Regroup(a: Poly, b: Poly, c: Poly)
    requires |a| == |b| + 1 == |c| + 1
    ensures Sum(Sum(a, [false] + b), [false] + c) == Sum(a, [false] + Sum(b, c))
  {
    var s, t := Sum(Sum(a, [false] + b), [false] + c), Sum(a, [false] + Sum(b, c));
    forall i | 0 <= i < |a| ensures s[i] == t[i] {
      if i > 0 {
        assert Sum(b, c)[i - 1] == (b[i - 1] != c[i - 1]);
      }
    }
  }

  lemma SameSummand(a: Poly, b: Poly, c: Poly)
    requires |a| == |b| == |c| && Sum(a, b) == Sum(a, c)
    ensures b == c
  {
    forall i | 0 <= i < |a| ensures b[i] == c[i] {
      assert Sum(a, b)[i] == Sum(a, c)[i];
    }
  }

  /** Quotient and remainder of a division by a polynomial that starts with 1
      are unique. */
  lemma {:induction false} DivisionIsUnique(w: Poly, p: Poly, q: Poly, r: Poly, q': Poly, r': Poly)
    requires p != [] && p[0] && |r| == |r'| == |p| - 1
    requires Divides(w, q, p, r) && Divides(w, q', p, r')
    ensures q == q' && r == r'
    decreases |q|
  {
    if q == [] {
      assert w == r by {
        forall i | 0 <= i < |r| ensures w[i] == r[i] {}
      }
      forall i | 0 <= i < |r| ensures w[i] == r'[i] {}
    } else {
      FirstOfProduct(q, p, r);
      FirstOfProduct(q', p, r');
      RestOfProduct(q, p, r);
      RestOfProduct(q', p, r');
      var t, t' := Sum(Times(q[1..], p), Zeros(|q| - 1) + r), Sum(Times(q'[1..], p), Zeros(|q| - 1) + r');
      SameSummand((if q[0] then p else Zeros(|p|)) + Zeros(|q| - 1), [false] + t, [false] + t');
      assert t == ([false] + t)[1..] && t' == ([false] + t')[1..];
      DivisionIsUnique(t, p, q[1..], r, q'[1..], r');
    }
  }

  /** And so is what is left. */
  lemma RemainderIsUnique(w: Poly, p: Poly, r: Poly, r': Poly)
    requires p != [] && p[0] && |r| == |r'| == |p| - 1 && Leaves(w, p, r) && Leaves(w, p, r')
    ensures r == r'
  {
    hide Divides;
    var q :| Divides(w, q, p, r);
    var q' :| Divides(w, q', p, r');
    DivisionIsUnique(w, p, q, r, q', r');
  }

  /** A register that a dividend passes through, one bit at a time: the bit and
      the highest one of the register decide whether p is added. */
  function Step(r: Poly, bit: bool, p: Poly): (s: Poly)
    requires |r| == |p| - 1 > 0
    ensures |s| == |r|
  {
    var shifted := r[1..] + [false];
    if r[0] != bit then Sum(shifted, p[1..]) else shifted
  }

  function Run(r: Poly, bits: Poly, p: Poly): (s: Poly)
    requires |r| == |p| - 1 > 0
    ensures |s| == |r|
    decreases |bits|
  {
    if bits == [] then r else Run(Step(r, bits[0], p), bits[1..], p)
  }

  lemma {:induction false} RunAppend(r: Poly, a: Poly, b: Poly, p: Poly)
    requires |r| == |p| - 1 > 0
    ensures Run(r, a + b, p) == Run(Run(r, a, p), b, p)
    decreases |a|
  {
    hide Step;
    if a == [] {
      assert a + b == b;
    } else {
      assert (a + b)[1..] == a[1..] + b;
      RunAppend(Step(r, a[0], p), a[1..], b, p);
    }
  }

  /** The bits that have made it add p. */
  function Quotient(r: Poly, bits: Poly, p: Poly): (q: Poly)
    requires |r| == |p| - 1 > 0
    ensures |q| == |bits|
    decreases |bits|
  {
    if bits == [] then [] else [r[0] != bits[0]] + Quotient(Step(r, bits[0], p), bits[1..], p)
  }

  /** The register holds the remainder of the bits, followed by as many zeros
      as it is long, with the first of them changed by its initial contents. */
  lemma {:induction false} RunDivides(r: Poly, bits: Poly, p: Poly)
    requires |r| == |p| - 1 > 0 && p[0]
    ensures Divides(Sum(r + Zeros(|bits|), bits + Zeros(|r|)), Quotient(r, bits, p), p, Run(r, bits, p))
    decreases |bits|
  {
    var w := Sum(r + Zeros(|bits|), bits + Zeros(|r|));
    var q, s := Quotient(r, bits, p), Run(r, bits, p);
    if bits == [] {
      assert w == Sum(Times(q, p), Zeros(0) + s);
    } else {
      var r1, rest := Step(r, bits[0], p), bits[1..];
      RunDivides(r1, rest, p);
      assert q[1..] == Quotient(r1, rest, p);
      RestOfProduct(q, p, s);
      var t := Sum(r1 + Zeros(|rest|), rest + Zeros(|r|));
      var head := (if q[0] then p else Zeros(|p|)) + Zeros(|rest|);
      StepDivides(r, bits, p);
      assert w == Sum(head, [false] + t);
    }
  }

  lemma StepDivides(r: Poly, bits: Poly, p: Poly)
    requires |r| == |p| - 1 > 0 && p[0] && bits != []
    ensures Sum(r + Zeros(|bits|), bits + Zeros(|r|))
      == Sum((if r[0] != bits[0] then p else Zeros(|p|)) + Zeros(|bits| - 1),
             [false] + Sum(Step(r, bits[0], p) + Zeros(|bits| - 1), bits[1..] + Zeros(|r|)))
  {
    var w := Sum(r + Zeros(|bits|), bits + Zeros(|r|));
    var r1 := Step(r, bits[0], p);
    var t := Sum(r1 + Zeros(|bits| - 1), bits[1..] + Zeros(|r|));
    var v := Sum((if r[0] != bits[0] then p else Zeros(|p|)) + Zeros(|bits| - 1), [false] + t);
    forall i | 0 <= i < |w| ensures w[i] == v[i] {
      if i > 0 {
        assert t[i - 1] == ((r1 + Zeros(|bits| - 1))[i - 1] != (bits[1..] + Zeros(|r|))[i - 1]);
      }
    }
  }
}
