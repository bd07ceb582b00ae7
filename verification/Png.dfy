/** The checksums of PNG and zlib streams. */
module Checksums {
  import opened Binary
  import opened BinaryPolynomials

  type Word = n: nat | n < 0x1_0000_0000

  const POLYNOMIAL: Word := 0xEDB8_8320

  // ---- CRC-32 ------------------------------------------------------------------

  lemma {:induction false} AndAllOnes(a: nat, n: nat)
    requires a < Pow2(n)
    ensures And(a, Pow2(n) - 1) == a
  {
    if a > 0 && n > 0 {
      assert (Pow2(n) - 1) / 2 == Pow2(n - 1) - 1;
      AndAllOnes(a / 2, n - 1);
    }
  }

  /** One shift of the register: the bit that falls out feeds the polynomial
      back. */
  function Shift(crc: nat): nat {
    Xor(crc / 2, if crc % 2 == 1 then POLYNOMIAL else 0)
  }

  /** A register that takes a message bit by bit, least significant bit of each
      byte first: the definition of the checksum. */
  function Feed(crc: nat, bits: nat, n: nat): nat
    decreases n
  {
    if n == 0 then crc else Feed(Shift(Xor(crc, bits % 2)), bits / 2, n - 1)
  }

  function Shifts(crc: nat, n: nat): nat
    decreases n
  {
    if n == 0 then crc else Shifts(Shift(crc), n - 1)
  }

  function FeedAll(crc: nat, bytes: seq<Byte>): nat {
    if bytes == [] then crc else Feed(FeedAll(crc, bytes[..|bytes| - 1]), bytes[|bytes| - 1], 8)
  }

  function Crc32(bytes: seq<Byte>): nat {
    Xor(FeedAll(0xFFFF_FFFF, bytes), 0xFFFF_FFFF)
  }

  lemma ShiftIsLinear(a: nat, b: nat)
    ensures Shift(Xor(a, b)) == Xor(Shift(a), Shift(b))
  {
    hide Xor;
    XorHalves(a, b);
    var p, q := if a % 2 == 1 then POLYNOMIAL else 0, if b % 2 == 1 then POLYNOMIAL else 0;
    XorSwaps(a / 2, p, b / 2, q);
    XorSelf(POLYNOMIAL);
    XorZero(POLYNOMIAL);
    XorZero(0);
    assert Xor(a, b) % 2 == (a + b) % 2;
    ParityCases(a, b);
  }

  lemma ParityCases(a: nat, b: nat)
    ensures (a + b) % 2 == if a % 2 == b % 2 then 0 else 1
  {}

  lemma ShiftOfEven(a: nat)
    ensures Shift(2 * a) == a
  {
    hide Xor;
    assert (2 * a) % 2 == 0 && (2 * a) / 2 == a;
    XorZero(a);
  }

  lemma SplitParity(bits: nat)
    ensures bits == Xor(bits % 2, 2 * (bits / 2))
  {
    hide Xor;
    XorDigit(0, bits / 2, bits % 2, 0);
    XorZero(bits / 2);
    assert 2 * 0 + bits % 2 == bits % 2 && 2 * (bits / 2) + 0 == 2 * (bits / 2);
  }

  /** Adding a whole byte to the register at once and then shifting amounts to
      feeding its bits one by one. */
  lemma {:induction false} ByteAtOnce(crc: nat, bits: nat, n: nat)
    requires bits < Pow2(n)
    ensures Shifts(Xor(crc, bits), n) == Feed(crc, bits, n)
    decreases n
  {
    hide Xor, Shift;
    if n == 0 {
      XorZero(crc);
    } else {
      var low, rest := bits % 2, bits / 2;
      SplitParity(bits);
      XorAssociates(crc, low, 2 * rest);
      ShiftIsLinear(Xor(crc, low), 2 * rest);
      ShiftOfEven(rest);
      ByteAtOnce(Shift(Xor(crc, low)), rest, n - 1);
    }
  }

  /** Shifts from the other end. */
  lemma {:induction false} OneMoreShift(crc: nat, n: nat)
    ensures Shifts(crc, n + 1) == Shift(Shifts(crc, n))
    decreases n
  {
    hide Shift;
    if n > 0 { OneMoreShift(Shift(crc), n - 1); }
  }

  lemma ShiftBound(crc: nat)
    requires crc < 0x1_0000_0000
    ensures Shift(crc) < 0x1_0000_0000
  {
    hide Xor;
    WordRange();
    XorBound(crc / 2, if crc % 2 == 1 then POLYNOMIAL else 0, 32);
  }

  /** The masked form of a shift. */
  lemma MaskedShift(crc: Word)
    ensures var mask := (0x1_0000_0000 - crc % 2) % 0x1_0000_0000;
      Xor(crc / 2, And(POLYNOMIAL, mask)) == Shift(crc)
  {
    hide Xor, And, Pow2;
    WordRange();
    AndAllOnes(POLYNOMIAL, 32);
    AndZero(POLYNOMIAL);
  }

  lemma AndZero(a: nat)
    ensures And(a, 0) == 0
  {}

  lemma {:induction false} ComplementIsXor(x: nat, n: nat)
    requires x < Pow2(n)
    ensures Xor(x, Pow2(n) - 1) == Pow2(n) - 1 - x
  {
    hide Xor;
    if n == 0 {
      XorZero(0);
    } else {
      ComplementIsXor(x / 2, n - 1);
      assert Pow2(n) == 2 * Pow2(n - 1);
      XorDigit(x / 2, Pow2(n - 1) - 1, x % 2, 1);
    }
  }

  lemma {:induction false} FeedBound(crc: nat, bits: nat, n: nat)
    requires crc < 0x1_0000_0000
    ensures Feed(crc, bits, n) < 0x1_0000_0000
    decreases n
  {
    hide Xor, Shift;
    if n > 0 {
      WordRange();
      XorBound(crc, bits % 2, 32);
      ShiftBound(Xor(crc, bits % 2));
      FeedBound(Shift(Xor(crc, bits % 2)), bits / 2, n - 1);
    }
  }

  lemma {:induction false} FeedAllBound(bytes: seq<Byte>)
    ensures FeedAll(0xFFFF_FFFF, bytes) < 0x1_0000_0000
  {
    hide Feed;
    if bytes != [] {
      FeedAllBound(bytes[..|bytes| - 1]);
      FeedBound(FeedAll(0xFFFF_FFFF, bytes[..|bytes| - 1]), bytes[|bytes| - 1], 8);
    }
  }

  // ---- What the checksum is ----------------------------------------------------

  /** The generator x^32+x^26+x^23+x^22+x^16+x^12+x^11+x^10+x^8+x^7+x^5+x^4+
      x^2+x+1. */
  function Generator(): (p: Poly)
    ensures |p| == 33 && p[0]
  {
    seq(33, i => 32 - i in {32, 26, 23, 22, 16, 12, 11, 10, 8, 7, 5, 4, 2, 1, 0})
  }

  /** The k lowest bits of n, lowest first: in this order they are sent, and
      are the coefficients from the highest power down. */
  function Coefficients(n: nat, k: nat): (p: Poly)
    ensures |p| == k
    decreases k
  {
    if k == 0 then [] else [n % 2 == 1] + Coefficients(n / 2, k - 1)
  }

  function MessageBits(bytes: seq<Byte>): (p: Poly)
    ensures |p| == 8 * |bytes|
  {
    if bytes == [] then [] else MessageBits(bytes[..|bytes| - 1]) + Coefficients(bytes[|bytes| - 1], 8)
  }

  /** The message times x^32, with its first 32 coefficients complemented,
      leaves the complement of r when it is divided by the generator. */
  ghost predicate IsCrc(bytes: seq<Byte>, r: nat) {
    var m := MessageBits(bytes);
    Leaves(Sum(Ones(32) + Zeros(|m|), m + Zeros(32)), Generator(), Sum(Ones(32), Coefficients(r, 32)))
  }

  function ValueFrom(p: Poly, i: nat): nat
    requires i <= |p|
    decreases |p| - i
  {
    if i == |p| then 0 else (if p[i] then 1 else 0) + 2 * ValueFrom(p, i + 1)
  }

  lemma {:induction false} CoefficientsOfValue(p: Poly, i: nat)
    requires i <= |p|
    ensures Coefficients(ValueFrom(p, i), |p| - i) == p[i..]
    decreases |p| - i
  {
    if i < |p| {
      CoefficientsOfValue(p, i + 1);
      var b := if p[i] then 1 else 0;
      assert (b + 2 * ValueFrom(p, i + 1)) % 2 == b;
    }
  }

  /** Coefficient i of the generator as a number. */
  function Digit(i: nat): nat
    requires i < 33
  {
    if Generator()[i] then 1 else 0
  }

  lemma GeneratorDigits()
    ensures Digit(1) + Digit(2) + Digit(3) + Digit(4) + Digit(5) == 0 && Digit(6) == 1 && Digit(7) == Digit(8) == 0
    ensures Digit(9) == Digit(10) == 1 && Digit(11) + Digit(12) + Digit(13) + Digit(14) + Digit(15) == 0 && Digit(16) == 1
    ensures Digit(17) + Digit(18) + Digit(19) == 0 && Digit(20) == Digit(21) == Digit(22) == 1 && Digit(23) == 0
    ensures Digit(24) == Digit(25) == 1 && Digit(26) == 0 && Digit(27) == Digit(28) == 1 && Digit(29) == 0
    ensures Digit(30) == Digit(31) == Digit(32) == 1
  {}

  lemma EightDigits(i: nat)
    requires i + 8 <= 33
    ensures ValueFrom(Generator(), i)
      == Digit(i) + 2 * Digit(i + 1) + 4 * Digit(i + 2) + 8 * Digit(i + 3) + 16 * Digit(i + 4) + 32 * Digit(i + 5)
         + 64 * Digit(i + 6) + 128 * Digit(i + 7) + 256 * ValueFrom(Generator(), i + 8)
  {
    hide Generator;
    var p := Generator();
    assert ValueFrom(p, i + 6) == Digit(i + 6) + 2 * Digit(i + 7) + 4 * ValueFrom(p, i + 8);
    assert ValueFrom(p, i + 4) == Digit(i + 4) + 2 * Digit(i + 5) + 4 * ValueFrom(p, i + 6);
    assert ValueFrom(p, i + 2) == Digit(i + 2) + 2 * Digit(i + 3) + 4 * ValueFrom(p, i + 4);
  }

  lemma GeneratorHalf()
    ensures ValueFrom(Generator(), 17) == 0xEDB8
  {
    assert ValueFrom(Generator(), 33) == 0;
    hide ValueFrom, Generator, Digit;
    GeneratorDigits();
    EightDigits(25);
    EightDigits(17);
  }

  lemma GeneratorValue()
    ensures ValueFrom(Generator(), 1) == POLYNOMIAL
  {
    hide ValueFrom, Generator, Digit;
    GeneratorHalf();
    GeneratorDigits();
    EightDigits(9);
    EightDigits(1);
  }

  lemma GeneratorCoefficients()
    ensures Coefficients(POLYNOMIAL, 32) == Generator()[1..]
  {
    GeneratorValue();
    CoefficientsOfValue(Generator(), 1);
  }

  lemma {:induction false} XorCoefficients(a: nat, b: nat, k: nat)
    ensures Coefficients(Xor(a, b), k) == Sum(Coefficients(a, k), Coefficients(b, k))
    decreases k
  {
    hide Xor;
    if k > 0 {
      XorHalves(a, b);
      XorCoefficients(a / 2, b / 2, k - 1);
      assert (a + b) % 2 == 1 <==> (a % 2 == 1) != (b % 2 == 1) by {
        ParityCases(a, b);
      }
    }
  }

  lemma {:induction false} CoefficientsOfHalf(n: nat, k: nat)
    requires k > 0 && n < Pow2(k)
    ensures Coefficients(n / 2, k) == Coefficients(n, k)[1..] + [false]
  {
    if k == 1 {
      assert n / 2 == 0;
    } else {
      CoefficientsOfHalf(n / 2, k - 1);
    }
  }

  lemma {:induction false} AllCoefficients(k: nat)
    ensures Coefficients(Pow2(k) - 1, k) == Ones(k)
    decreases k
  {
    if k > 0 {
      assert (Pow2(k) - 1) / 2 == Pow2(k - 1) - 1;
      AllCoefficients(k - 1);
    }
  }

  lemma FirstCoefficient(n: nat, k: nat)
    requires k > 0
    ensures Coefficients(n, k)[0] == (n % 2 == 1)
  {}

  lemma HalfOfXor(crc: nat, b: nat)
    requires b < 2
    ensures Xor(crc, b) / 2 == crc / 2 && Xor(crc, b) % 2 == (crc + b) % 2
  {
    XorHalves(crc, b);
    hide Xor;
    assert b / 2 == 0;
    XorCommutes(crc / 2, 0);
    XorZero(crc / 2);
  }

  /** Taking in a bit and shifting is a step of the division. */
  lemma ShiftIsStep(crc: nat, b: nat)
    requires crc < 0x1_0000_0000 && b < 2
    ensures Coefficients(Shift(Xor(crc, b)), 32) == Step(Coefficients(crc, 32), b == 1, Generator())
  {
    hide Xor, Pow2, Coefficients, Generator;
    WordRange();
    HalfOfXor(crc, b);
    ParityCases(crc, b);
    FirstCoefficient(crc, 32);
    CoefficientsOfHalf(crc, 32);
    var h := crc / 2;
    if (crc + b) % 2 == 1 {
      XorCoefficients(h, POLYNOMIAL, 32);
      GeneratorCoefficients();
    } else {
      XorCommutes(h, 0);
      XorZero(h);
    }
  }

  lemma {:induction false} FeedIsRun(crc: nat, bits: nat, n: nat)
    requires crc < 0x1_0000_0000
    ensures Coefficients(Feed(crc, bits, n), 32) == Run(Coefficients(crc, 32), Coefficients(bits, n), Generator())
    decreases n
  {
    hide Xor, Shift, Step, Pow2;
    if n > 0 {
      var next := Shift(Xor(crc, bits % 2));
      ShiftIsStep(crc, bits % 2);
      WordRange();
      XorBound(crc, bits % 2, 32);
      ShiftBound(Xor(crc, bits % 2));
      FeedIsRun(next, bits / 2, n - 1);
      var c := Coefficients(bits, n);
      assert c[0] == (bits % 2 == 1) && c[1..] == Coefficients(bits / 2, n - 1);
    }
  }

  lemma {:induction false} FeedAllIsRun(bytes: seq<Byte>)
    ensures Coefficients(FeedAll(0xFFFF_FFFF, bytes), 32) == Run(Ones(32), MessageBits(bytes), Generator())
  {
    hide Feed, Step, Coefficients;
    if bytes == [] {
      WordRange();
      AllCoefficients(32);
    } else {
      var init, last := bytes[..|bytes| - 1], bytes[|bytes| - 1];
      FeedAllIsRun(init);
      FeedAllBound(init);
      FeedIsRun(FeedAll(0xFFFF_FFFF, init), last, 8);
      RunAppend(Ones(32), MessageBits(init), Coefficients(last, 8), Generator());
    }
  }

  /** The loop's register is the remainder of a division. */
  lemma Crc32IsCrc(bytes: seq<Byte>)
    ensures IsCrc(bytes, Crc32(bytes))
  {
    hide FeedAll, Step, Coefficients, Xor, Times;
    var m, s := MessageBits(bytes), FeedAll(0xFFFF_FFFF, bytes);
    FeedAllIsRun(bytes);
    RunDivides(Ones(32), m, Generator());
    XorCoefficients(s, 0xFFFF_FFFF, 32);
    WordRange();
    AllCoefficients(32);
    SumTwice(Coefficients(s, 32), Ones(32));
  }

  lemma SumTwice(a: Poly, b: Poly)
    requires |a| == |b|
    ensures Sum(b, Sum(a, b)) == a
  {}

  lemma {:induction false} SameCoefficients(a: nat, b: nat, k: nat)
    requires a < Pow2(k) && b < Pow2(k) && Coefficients(a, k) == Coefficients(b, k)
    ensures a == b
    decreases k
  {
    if k > 0 {
      var p, q := Coefficients(a, k), Coefficients(b, k);
      assert p[0] == q[0] && p[1..] == q[1..];
      SameCoefficients(a / 2, b / 2, k - 1);
    }
  }

  /** No other word is the checksum. */
  lemma CrcIsUnique(bytes: seq<Byte>, r: Word, r': Word)
    requires IsCrc(bytes, r) && IsCrc(bytes, r')
    ensures r == r'
  {
    hide Coefficients, Leaves, Pow2;
    var m := MessageBits(bytes);
    var a, b := Coefficients(r, 32), Coefficients(r', 32);
    RemainderIsUnique(Sum(Ones(32) + Zeros(|m|), m + Zeros(32)), Generator(), Sum(Ones(32), a), Sum(Ones(32), b));
    SameSummand(Ones(32), a, b);
    WordRange();
    SameCoefficients(r, r', 32);
  }

  method PngCrc32(bytes: seq<Byte>) returns (r: Word)
    ensures r == Crc32(bytes) && IsCrc(bytes, r)
  {
    Crc32IsCrc(bytes);
    hide IsCrc;
    hide Xor, And, Shift, Feed, Pow2;
    var crc: Word := 0xFFFF_FFFF;
    assert bytes[..0] == [];
    StartFeeding();
    for i := 0 to |bytes|
      invariant crc == FeedAll(0xFFFF_FFFF, bytes[..i])
    {
      ghost var before := crc;
      XorByteBound(crc, bytes[i]);
      crc := Xor(crc, bytes[i]);
      ghost var start := crc;
      for bit := 0 to 8
        invariant crc == Shifts(start, bit)
      {
        MaskedShift(crc);
        ShiftBound(crc);
        OneMoreShift(start, bit);
        var mask := (0x1_0000_0000 - crc % 2) % 0x1_0000_0000;
        crc := Xor(crc / 2, And(POLYNOMIAL, mask));
      }
      ByteRange();
      ByteAtOnce(before, bytes[i], 8);
      FeedNext(0xFFFF_FFFF, bytes, i);
    }
    assert bytes[..|bytes|] == bytes;
    WordRange();
    ComplementIsXor(crc, 32);
    return 0xFFFF_FFFF - crc;
  }

  lemma StartFeeding()
    ensures FeedAll(0xFFFF_FFFF, []) == 0xFFFF_FFFF
  {}

  lemma ByteRange()
    ensures Pow2(8) == 256
  {}

  lemma FeedNext(crc: nat, bytes: seq<Byte>, i: nat)
    requires i < |bytes|
    ensures FeedAll(crc, bytes[..i + 1]) == Feed(FeedAll(crc, bytes[..i]), bytes[i], 8)
  {
    hide Feed;
    assert bytes[..i + 1][..i] == bytes[..i];
  }

  lemma XorByteBound(crc: Word, b: Byte)
    ensures Xor(crc, b) < 0x1_0000_0000
  {
    hide Xor;
    WordRange();
    XorBound(crc, b, 32);
  }

  lemma Crc32Bound(bytes: seq<Byte>)
    ensures Crc32(bytes) < 0x1_0000_0000
  {
    hide Xor;
    FeedAllBound(bytes);
    WordRange();
    XorBound(FeedAll(0xFFFF_FFFF, bytes), 0xFFFF_FFFF, 32);
  }

  // ---- Adler-32 ------------------------------------------------------------------

  const MODULUS := 65521

  function ByteSum(bytes: seq<Byte>): nat {
    if bytes == [] then 0 else ByteSum(bytes[..|bytes| - 1]) + bytes[|bytes| - 1]
  }

  /** The sum over all bytes, each weighted by how many bytes there are from it
      to the end. */
  function WeightedSum(bytes: seq<Byte>): nat {
    if bytes == [] then 0
    else bytes[0] * |bytes| + WeightedSum(bytes[1..])
  }

  /** The two closed-form sums of section 8.2 of RFC 1950. */
  function AdlerA(bytes: seq<Byte>): nat {
    (1 + ByteSum(bytes)) % 65521
  }

  function AdlerB(bytes: seq<Byte>): nat {
    (|bytes| + WeightedSum(bytes)) % 65521
  }

  function Adler32(bytes: seq<Byte>): nat {
    AdlerB(bytes) * 0x10000 + AdlerA(bytes)
  }

  lemma {:induction false} ByteSumCons(b: Byte, bytes: seq<Byte>)
    ensures ByteSum([b] + bytes) == b + ByteSum(bytes)
  {
    if bytes == [] {
      assert [b] + bytes == [b] && [b][..0] == [];
    } else {
      ByteSumCons(b, bytes[..|bytes| - 1]);
      assert ([b] + bytes)[..|bytes|] == [b] + bytes[..|bytes| - 1];
    }
  }

  /** With one byte more, every weight grows by one. */
  lemma {:induction false} WeightedNext(bytes: seq<Byte>, b: Byte)
    ensures WeightedSum(bytes + [b]) == WeightedSum(bytes) + ByteSum(bytes + [b])
  {
    if bytes == [] {
      assert bytes + [b] == [b] && [b][..0] == [] && [b][1..] == [];
    } else {
      var rest := bytes[1..];
      WeightedNext(rest, b);
      assert (bytes + [b])[1..] == rest + [b];
      assert bytes + [b] == [bytes[0]] + (rest + [b]);
      ByteSumCons(bytes[0], rest + [b]);
      assert bytes[0] * (|bytes| + 1) == bytes[0] * |bytes| + bytes[0];
    }
  }

  lemma SumNext(bytes: seq<Byte>, i: nat)
    requires i < |bytes|
    ensures ByteSum(bytes[..i + 1]) == ByteSum(bytes[..i]) + bytes[i]
    ensures i + 1 + WeightedSum(bytes[..i + 1]) == i + WeightedSum(bytes[..i]) + (1 + ByteSum(bytes[..i + 1]))
  {
    hide WeightedSum;
    assert bytes[..i + 1] == bytes[..i] + [bytes[i]];
    assert bytes[..i + 1][..i] == bytes[..i];
    WeightedNext(bytes[..i], bytes[i]);
  }

  lemma ModAdds(a: nat, b: nat)
    ensures (a % MODULUS + b) % MODULUS == (a + b) % MODULUS
    ensures (a % MODULUS + b % MODULUS) % MODULUS == (a + b) % MODULUS
  {}

  /** Reducing at every byte gives the closed-form sums. */
  method ComputeAdler(raw: seq<Byte>) returns (adlerA: nat, adlerB: nat)
    ensures adlerA == AdlerA(raw) && adlerB == AdlerB(raw)
  {
    hide ByteSum, WeightedSum;
    adlerA, adlerB := 1, 0;
    NothingSummed();
    assert raw[..0] == [];
    for i := 0 to |raw|
      invariant adlerA == AdlerA(raw[..i]) && adlerB == AdlerB(raw[..i])
    {
      SumNext(raw, i);
      ModAdds(1 + ByteSum(raw[..i]), raw[i]);
      ModAdds(i + WeightedSum(raw[..i]), 1 + ByteSum(raw[..i + 1]));
      adlerA := (adlerA + raw[i]) % MODULUS;
      adlerB := (adlerB + adlerA) % MODULUS;
    }
    assert raw[..|raw|] == raw;
  }

  lemma NothingSummed()
    ensures ByteSum([]) == 0 && WeightedSum([]) == 0
  {}
}

/** The PNG writer for opaque images, and a reader for the files it writes. */
module PngImages {
  import opened Binary
  import opened Checksums
  import opened Options

  type Bytes = seq<Byte>

  // ---- Numbers --------------------------------------------------------------------

  /** The four bytes of a word, most significant first. */
  function BigEndian(value: Word): (b: Bytes)
    ensures |b| == 4
  {
    [value / 0x100_0000, value / 0x1_0000 % 256, value / 0x100 % 256, value % 256]
  }

  function ReadBigEndian(b: Bytes): Word
    requires |b| >= 4
  {
    (b[0] as nat) * 0x100_0000 + (b[1] as nat) * 0x1_0000 + (b[2] as nat) * 0x100 + b[3]
  }

  lemma BigEndianBack(value: Word, rest: Bytes)
    ensures ReadBigEndian(BigEndian(value) + rest) == value
    ensures (BigEndian(value) + rest)[4..] == rest
  {
    assert value / 0x1_0000 == 0x100 * (value / 0x100_0000) + value / 0x1_0000 % 256;
    assert value / 0x100 == 0x100 * (value / 0x1_0000) + value / 0x100 % 256;
    var b := BigEndian(value) + rest;
    assert b[0] == value / 0x100_0000 && b[1] == value / 0x1_0000 % 256 && b[2] == value / 0x100 % 256;
  }

  method AppendBigEndian(bytes: Bytes, value: Word) returns (r: Bytes)
    ensures r == bytes + BigEndian(value)
  {
    r := bytes + [value / 0x100_0000 % 256];
    r := r + [value / 0x1_0000 % 256];
    r := r + [value / 0x100 % 256];
    r := r + [value % 256];
    hide ReadBigEndian;
    assert value / 0x100_0000 % 256 == value / 0x100_0000;
  }

  // ---- Chunks -----------------------------------------------------------------------

  datatype Chunk = Chunk(kind: Bytes, data: Bytes)

  predicate ValidChunk(c: Chunk) {
    |c.kind| == 4 && |c.data| < 0x1_0000_0000
  }

  function Crc(bytes: Bytes): Word {
    Crc32Bound(bytes);
    Crc32(bytes)
  }

  function ChunkBytes(c: Chunk): (b: Bytes)
    requires ValidChunk(c)
    ensures |b| == 12 + |c.data|
  {
    BigEndian(|c.data|) + (c.kind + c.data) + BigEndian(Crc(c.kind + c.data))
  }

  function ChunksBytes(chunks: seq<Chunk>): Bytes
    requires forall i :: 0 <= i < |chunks| ==> ValidChunk(chunks[i])
  {
    if chunks == [] then [] else ChunkBytes(chunks[0]) + ChunksBytes(chunks[1..])
  }

  method AppendPngChunk(png: Bytes, kind: Bytes, data: Bytes) returns (r: Bytes)
    requires ValidChunk(Chunk(kind, data))
    ensures r == png + ChunkBytes(Chunk(kind, data))
  {
    hide Crc32, BigEndian, IsCrc;
    r := AppendBigEndian(png, |data|);
    var crcStart := |r|;
    for i := 0 to 4
      invariant r == png + BigEndian(|data|) + kind[..i]
    {
      r := r + [kind[i]];
    }
    r := r + data;
    assert r[crcStart..] == kind + data;
    var crc := PngCrc32(r[crcStart..]);
    r := AppendBigEndian(r, crc);
    assert r == png + ChunkBytes(Chunk(kind, data));
  }

  /** Reads a sequence of chunks to the end; checks lengths and checksums. */
  function ReadChunks(s: Bytes): Option<seq<Chunk>>
    decreases |s|
  {
    if s == [] then Some([])
    else if |s| < 12 then None
    else
      var n := ReadBigEndian(s);
      if |s| < 12 + n then None
      else if ReadBigEndian(s[8 + n..]) != Crc(s[4..8 + n]) then None
      else
        match ReadChunks(s[12 + n..])
        case None => None
        case Some(rest) => Some([Chunk(s[4..8], s[8..8 + n])] + rest)
  }

  lemma ReadFirstChunk(c: Chunk, rest: Bytes)
    requires ValidChunk(c)
    ensures ReadChunks(ChunkBytes(c) + rest) == match ReadChunks(rest)
      case None => None
      case Some(more) => Some([c] + more)
  {
    hide Crc, BigEndian, ReadBigEndian;
    var n, body := |c.data|, c.kind + c.data;
    var s := ChunkBytes(c) + rest;
    assert s == BigEndian(n) + (body + BigEndian(Crc(body)) + rest);
    BigEndianBack(n, body + BigEndian(Crc(body)) + rest);
    BigEndianBack(Crc(body), rest);
    assert s[8 + n..] == BigEndian(Crc(body)) + rest;
    assert s[4..8 + n] == body && s[4..8] == c.kind && s[8..8 + n] == c.data && s[12 + n..] == rest;
  }

  /** Chunks are read back whatever they hold. */
  lemma {:induction false} ReadChunksBack(chunks: seq<Chunk>)
    requires forall i :: 0 <= i < |chunks| ==> ValidChunk(chunks[i])
    ensures ReadChunks(ChunksBytes(chunks)) == Some(chunks)
  {
    hide ChunkBytes;
    if chunks != [] {
      ReadChunksBack(chunks[1..]);
      ReadFirstChunk(chunks[0], ChunksBytes(chunks[1..]));
      assert chunks == [chunks[0]] + chunks[1..];
    }
  }

  // ---- Stored blocks --------------------------------------------------------------------

  const BLOCK_SIZE := 65535

  function StoredBlock(data: Bytes, last: bool): (b: Bytes)
    requires |data| <= BLOCK_SIZE
    ensures |b| == 5 + |data|
  {
    var n := |data|;
    [if last then 1 else 0, n % 256, n / 256, (BLOCK_SIZE - n) % 256, (BLOCK_SIZE - n) / 256] + data
  }

  /** The data cut into blocks; exactly the last one is marked final. */
  function Blocks(data: Bytes): Bytes {
    if data == [] then []
    else if |data| <= BLOCK_SIZE then StoredBlock(data, true)
    else StoredBlock(data[..BLOCK_SIZE], false) + Blocks(data[BLOCK_SIZE..])
  }

  function CountBlocks(n: nat): nat {
    (n + BLOCK_SIZE - 1) / BLOCK_SIZE
  }

  lemma {:induction false} BlocksLength(data: Bytes)
    ensures |Blocks(data)| == |data| + 5 * CountBlocks(|data|)
    decreases |data|
  {
    hide StoredBlock;
    if |data| > BLOCK_SIZE {
      BlocksLength(data[BLOCK_SIZE..]);
    }
  }

  /** A number of two bytes, the low one first. */
  function Pair(low: nat, high: nat): nat {
    low + 256 * high
  }

  /** Reads stored blocks up to the final one; returns the data and what
      follows. */
  function Inflate(s: Bytes): Option<(Bytes, Bytes)>
    decreases |s|
  {
    if |s| < 5 || s[0] / 2 % 4 != 0 then None
    else
      var n := Pair(s[1], s[2]);
      if Pair(s[3], s[4]) != 0xFFFF - n || |s| < 5 + n then None
      else if s[0] % 2 == 1 then Some((s[5..5 + n], s[5 + n..]))
      else
        match Inflate(s[5 + n..])
        case None => None
        case Some(more) => Some((s[5..5 + n] + more.0, more.1))
  }

  lemma InflateBlock(data: Bytes, last: bool, rest: Bytes)
    requires |data| <= BLOCK_SIZE
    ensures Inflate(StoredBlock(data, last) + rest) ==
      if last then Some((data, rest))
      else match Inflate(rest)
        case None => None
        case Some(more) => Some((data + more.0, more.1))
  {
    var n := |data|;
    var s := StoredBlock(data, last) + rest;
    assert Pair(s[1], s[2]) == n && Pair(s[3], s[4]) == BLOCK_SIZE - n;
    assert s[5..5 + n] == data && s[5 + n..] == rest;
  }

  lemma {:induction false} InflateBlocks(data: Bytes, rest: Bytes)
    requires data != []
    ensures Inflate(Blocks(data) + rest) == Some((data, rest))
    decreases |data|
  {
    hide StoredBlock, Inflate;
    if |data| <= BLOCK_SIZE {
      InflateBlock(data, true, rest);
    } else {
      var first, more := data[..BLOCK_SIZE], data[BLOCK_SIZE..];
      InflateBlocks(more, rest);
      InflateBlock(first, false, Blocks(more) + rest);
      assert Blocks(data) + rest == StoredBlock(first, false) + (Blocks(more) + rest);
      assert first + more == data;
    }
  }

  // ---- zlib streams ---------------------------------------------------------------------

  lemma AdlerBound(data: Bytes)
    ensures Adler32(data) < 0x1_0000_0000
  {
    hide ByteSum, WeightedSum;
  }

  function Zlib(data: Bytes): Bytes {
    AdlerBound(data);
    [0x78, 0x01] + (Blocks(data) + BigEndian(Adler32(data)))
  }

  /** Reads a zlib stream (section 2.2 of RFC 1950): a header for DEFLATE with a
      valid check and no dictionary, blocks, checksum, nothing after it. */
  function ReadZlib(s: Bytes): Option<Bytes> {
    if |s| < 2 || s[0] % 16 != 8 || s[0] / 16 > 7 || Pair(s[1], s[0]) % 31 != 0 || s[1] / 32 % 2 != 0 then None
    else
      match Inflate(s[2..])
      case None => None
      case Some(r) =>
        if |r.1| == 4 && Pair(r.1[3], r.1[2]) == AdlerA(r.0) && Pair(r.1[1], r.1[0]) == AdlerB(r.0) then Some(r.0) else None
  }

  lemma FourBytes(bh: nat, bl: nat, ah: nat, al: nat)
    requires bh < 256 && bl < 256 && ah < 256 && al < 256
    ensures BigEndian(0x100_0000 * bh + 0x1_0000 * bl + 0x100 * ah + al) == [bh, bl, ah, al]
  {
    var v := 0x100_0000 * bh + 0x1_0000 * bl + 0x100 * ah + al;
    assert v / 0x100_0000 == bh;
    assert v / 0x1_0000 == 0x100 * bh + bl;
    assert v / 0x100 == 0x1_0000 * bh + 0x100 * bl + ah;
  }

  lemma SumBytes(data: Bytes)
    ensures var sum := BigEndian(Adler32(data));
      Pair(sum[3], sum[2]) == AdlerA(data) && Pair(sum[1], sum[0]) == AdlerB(data)
  {
    var a, b := AdlerA(data), AdlerB(data);
    assert a < 0x1_0000 && b < 0x1_0000;
    assert Adler32(data) == b * 0x1_0000 + a;
    hide BigEndian, AdlerA, AdlerB, Adler32, Pair;
    SumOfHalves(a, b);
  }

  lemma SumOfHalves(a: nat, b: nat)
    requires a < 0x1_0000 && b < 0x1_0000
    ensures var sum := BigEndian(b * 0x1_0000 + a); Pair(sum[3], sum[2]) == a && Pair(sum[1], sum[0]) == b
  {
    hide BigEndian;
    var bh, bl, ah, al := b / 256, b % 256, a / 256, a % 256;
    assert b * 0x1_0000 + a == 0x100_0000 * bh + 0x1_0000 * bl + 0x100 * ah + al;
    FourBytes(bh, bl, ah, al);
  }

  lemma ReadZlibBack(data: Bytes)
    requires data != []
    ensures ReadZlib(Zlib(data)) == Some(data)
  {
    hide Adler32, BigEndian, ReadBigEndian, Inflate, Blocks;
    AdlerBound(data);
    var sum := BigEndian(Adler32(data));
    InflateBlocks(data, sum);
    SumBytes(data);
    assert Zlib(data)[2..] == Blocks(data) + sum;
  }

  // ---- Pixels ----------------------------------------------------------------------------

  /** A colour with its opacity. */
  datatype Rgba = Rgba(r: Byte, g: Byte, b: Byte, a: Byte)

  /** What a source word 0xAARRGGBB means. */
  function ColourOf(pixel: Word): Rgba {
    Rgba(pixel / 0x1_0000 % 256, pixel / 0x100 % 256, pixel % 256, pixel / 0x100_0000)
  }

  predicate Opaque(pixel: Word) {
    pixel / 0x100_0000 == 255
  }

  /** The bytes of n pixels. */
  function PixelBytes(row: seq<Word>): (b: Bytes)
    ensures |b| == 4 * |row|
  {
    if row == [] then []
    else [row[0] / 0x1_0000 % 256, row[0] / 0x100 % 256, row[0] % 256, 255] + PixelBytes(row[1..])
  }

  function RowsBytes(rows: seq<seq<Word>>): Bytes {
    if rows == [] then [] else [0] + PixelBytes(rows[0]) + RowsBytes(rows[1..])
  }

  function ReadPixels(s: Bytes): seq<Rgba>
    requires |s| % 4 == 0
  {
    if s == [] then [] else [Rgba(s[0], s[1], s[2], s[3])] + ReadPixels(s[4..])
  }

  /** Reads h unfiltered rows of w pixels. */
  function ReadRows(s: Bytes, w: nat, h: nat): Option<seq<seq<Rgba>>> {
    if h == 0 then if s == [] then Some([]) else None
    else if |s| < 1 + 4 * w || s[0] != 0 then None
    else
      match ReadRows(s[1 + 4 * w..], w, h - 1)
      case None => None
      case Some(rows) => Some([ReadPixels(s[1..1 + 4 * w])] + rows)
  }

  function Colours(row: seq<Word>): (c: seq<Rgba>)
    ensures |c| == |row|
  {
    seq(|row|, i requires 0 <= i < |row| => ColourOf(row[i]))
  }

  predicate AllOpaque(row: seq<Word>) {
    forall i :: 0 <= i < |row| ==> Opaque(row[i])
  }

  lemma {:induction false} ReadPixelsBack(row: seq<Word>)
    requires AllOpaque(row)
    ensures ReadPixels(PixelBytes(row)) == Colours(row)
  {
    if row != [] {
      ReadPixelsBack(row[1..]);
      FirstPixel(row);
      assert Colours(row) == [ColourOf(row[0])] + Colours(row[1..]);
    }
  }

  lemma FirstPixel(row: seq<Word>)
    requires row != [] && Opaque(row[0])
    ensures ReadPixels(PixelBytes(row)) == [ColourOf(row[0])] + ReadPixels(PixelBytes(row[1..]))
  {
    var p := row[0];
    var first: Bytes := [p / 0x1_0000 % 256, p / 0x100 % 256, p % 256, 255];
    var s := PixelBytes(row);
    assert s == first + PixelBytes(row[1..]);
    assert s[4..] == PixelBytes(row[1..]);
  }

  lemma {:induction false} ReadRowsBack(rows: seq<seq<Word>>, w: nat)
    requires forall y :: 0 <= y < |rows| ==> |rows[y]| == w && AllOpaque(rows[y])
    ensures var r := ReadRows(RowsBytes(rows), w, |rows|);
      r.Some? && |r.value| == |rows| && forall y :: 0 <= y < |rows| ==> r.value[y] == Colours(rows[y])
  {
    hide PixelBytes, ReadPixels, AllOpaque, Colours;
    if rows != [] {
      ReadRowsBack(rows[1..], w);
      ReadPixelsBack(rows[0]);
      var s, rest := RowsBytes(rows), RowsBytes(rows[1..]);
      assert s[1..1 + 4 * w] == PixelBytes(rows[0]) && s[1 + 4 * w..] == rest;
    }
  }

  lemma {:induction false} RowsLength(rows: seq<seq<Word>>, w: nat)
    requires forall y :: 0 <= y < |rows| ==> |rows[y]| == w
    ensures |RowsBytes(rows)| == (4 * w + 1) * |rows|
  {
    hide PixelBytes;
    if rows != [] {
      RowsLength(rows[1..], w);
      assert (4 * w + 1) * |rows| == (4 * w + 1) * (|rows| - 1) + (4 * w + 1);
    }
  }

  // ---- Files --------------------------------------------------------------------------------

  function Signature(): (b: Bytes)
    ensures |b| == 8
  {
    [137, 80, 78, 71] + [13, 10, 26, 10]
  }

  function IHDR(): Bytes { [73, 72, 68, 82] }

  function IDAT(): Bytes { [73, 68, 65, 84] }

  function IEND(): Bytes { [73, 69, 78, 68] }

  /** The header of an RGBA image with 8 bits a channel, not interlaced. */
  function Header(width: Word, height: Word): (b: Bytes)
    ensures |b| == 13
  {
    BigEndian(width) + BigEndian(height) + [8, 6, 0, 0, 0]
  }

  function FileChunks(width: Word, height: Word, raw: Bytes): seq<Chunk> {
    [Chunk(IHDR(), Header(width, height)), Chunk(IDAT(), Zlib(raw)), Chunk(IEND(), [])]
  }

  function PngFile(width: Word, height: Word, raw: Bytes): Bytes
    requires |Zlib(raw)| < 0x1_0000_0000
  {
    hide Zlib, Header;
    Signature() + ChunksBytes(FileChunks(width, height, raw))
  }

  datatype Image = Image(width: nat, height: nat, rows: seq<seq<Rgba>>)

  function Joined(chunks: seq<Chunk>): Bytes {
    if chunks == [] then [] else chunks[0].data + Joined(chunks[1..])
  }

  /** The bytes of a chunk name. */
  function Name(s: string): Bytes
    requires forall i :: 0 <= i < |s| ==> s[i] as int < 256
  {
    seq(|s|, i requires 0 <= i < |s| => s[i] as int)
  }

  lemma Names()
    ensures Name("IHDR") == IHDR() && Name("IDAT") == IDAT() && Name("IEND") == IEND()
    ensures Signature() == [0x89, 0x50, 0x4E, 0x47, 0xD, 0xA, 0x1A, 0xA]
  {}

  /** Reads a PNG file of this format: signature, chunks, one header first, the
      end chunk last, image data between them, zlib, rows. */
  function ReadPng(s: Bytes): Option<Image> {
    if |s| < 8 || s[..8] != [0x89, 0x50, 0x4E, 0x47, 0xD, 0xA, 0x1A, 0xA] then None
    else
      match ReadChunks(s[8..])
      case None => None
      case Some(chunks) => ReadImage(chunks)
  }

  function ReadImage(chunks: seq<Chunk>): Option<Image> {
    if |chunks| < 2 || chunks[0].kind != Name("IHDR") || |chunks[0].data| != 13 || chunks[0].data[8..] != [8, 6, 0, 0, 0]
    then None
    else if chunks[|chunks| - 1] != Chunk(Name("IEND"), [])
      || exists i :: 0 < i < |chunks| - 1 && chunks[i].kind != Name("IDAT")
    then None
    else
      var w, h := ReadBigEndian(chunks[0].data), ReadBigEndian(chunks[0].data[4..]);
      match ReadZlib(Joined(chunks[1..|chunks| - 1]))
      case None => None
      case Some(raw) =>
        match ReadRows(raw, w, h)
        case None => None
        case Some(rows) => Some(Image(w, h, rows))
  }

  lemma ReadFileChunks(width: Word, height: Word, raw: Bytes)
    requires |Zlib(raw)| < 0x1_0000_0000
    ensures ReadPng(PngFile(width, height, raw)) == ReadImage(FileChunks(width, height, raw))
  {
    hide Zlib, Header, ReadChunks, ChunksBytes, ReadImage, Signature, IHDR, IDAT, IEND;
    ValidKinds();
    Names();
    var chunks := FileChunks(width, height, raw);
    ReadChunksBack(chunks);
    var file := PngFile(width, height, raw);
    assert file[..8] == Signature() && file[8..] == ChunksBytes(chunks);
  }

  lemma ValidKinds()
    ensures |IHDR()| == |IDAT()| == |IEND()| == 4
  {}

  lemma ReadHeader(width: Word, height: Word)
    ensures var h := Header(width, height);
      ReadBigEndian(h) == width && ReadBigEndian(h[4..]) == height && h[8..] == [8, 6, 0, 0, 0]
  {
    hide BigEndian, ReadBigEndian;
    var h := Header(width, height);
    BigEndianBack(width, BigEndian(height) + [8, 6, 0, 0, 0]);
    BigEndianBack(height, [8, 6, 0, 0, 0]);
    assert h == BigEndian(width) + (BigEndian(height) + [8, 6, 0, 0, 0]);
  }

  lemma ReadImageBack(width: Word, height: Word, raw: Bytes)
    requires raw != []
    ensures ReadImage(FileChunks(width, height, raw)) == match ReadRows(raw, width, height)
      case None => None
      case Some(rows) => Some(Image(width, height, rows))
  {
    hide Zlib, Header, ReadRows, ReadZlib, ReadBigEndian, IHDR, IDAT, IEND, Name;
    Names();
    var chunks := FileChunks(width, height, raw);
    ReadHeader(width, height);
    ReadZlibBack(raw);
    JoinedOne(chunks[1]);
    assert chunks[1..2] == [chunks[1]];
    assert chunks[1].kind == IDAT();
  }

  lemma JoinedOne(c: Chunk)
    ensures Joined([c]) == c.data
  {
    assert [c][1..] == [];
  }

  // ---- The encoder ---------------------------------------------------------------------------

  const MAX_DIMENSION := 4096
  const MAX_SOURCE_PIXELS := 0x100_0000

  /** The dimensions that are accepted. */
  predicate Accepts(width: nat, height: nat, stride: nat) {
    && 0 < width <= 4096 && 0 < height <= 4096 && width <= stride
    && (height - 1) * stride + width <= 4096 * 4096
  }

  lemma InRow(height: nat, stride: nat, width: nat, y: nat, total: nat)
    requires y < height && (height - 1) * stride + width <= total
    ensures 0 <= y * stride && y * stride + width <= total
  {
    assert (height - 1) * stride == y * stride + (height - 1 - y) * stride;
    NonNegative(height - 1 - y, stride);
    NonNegative(y, stride);
  }

  lemma NonNegative(a: nat, b: nat)
    ensures a * b >= 0
  {}

  function RowOf(source: seq<Word>, width: nat, height: nat, stride: nat, y: nat): (row: seq<Word>)
    requires y < height && (height - 1) * stride + width <= |source|
    ensures |row| == width
  {
    InRow(height, stride, width, y, |source|);
    source[y * stride..y * stride + width]
  }

  /** The rows of a source with padding between them. */
  function Rows(source: seq<Word>, width: nat, height: nat, stride: nat): (rows: seq<seq<Word>>)
    requires height > 0 && (height - 1) * stride + width <= |source|
    ensures |rows| == height && forall y :: 0 <= y < height ==> |rows[y]| == width
  {
    hide RowOf;
    seq(height, y requires 0 <= y < height => RowOf(source, width, height, stride, y))
  }

  predicate RowsOpaque(rows: seq<seq<Word>>) {
    forall y :: 0 <= y < |rows| ==> AllOpaque(rows[y])
  }

  /** The division in the guard rejects exactly the sources that are too long,
      without ever computing their length. */
  lemma GuardIsExact(width: nat, height: nat, stride: nat)
    requires 0 < width <= MAX_DIMENSION && 0 < height <= MAX_DIMENSION
    ensures height > 1 ==>
      (stride > (MAX_SOURCE_PIXELS - width) / (height - 1) <==> (height - 1) * stride + width > MAX_SOURCE_PIXELS)
    ensures height == 1 ==> (height - 1) * stride + width <= MAX_SOURCE_PIXELS
  {
    if height > 1 {
      QuotientBound(MAX_SOURCE_PIXELS - width, height - 1, stride);
    }
  }

  lemma QuotientBound(a: nat, d: nat, x: nat)
    requires d > 0
    ensures x > a / d <==> d * x > a
  {
    var q := a / d;
    assert d * q <= a < d * q + d;
    if x > q {
      assert d * x == d * q + d + d * (x - q - 1);
      NonNegative(d, x - q - 1);
    } else {
      assert d * q == d * x + d * (q - x);
      NonNegative(d, q - x);
    }
  }

  method PutByte(raw: array<Byte>, offset: nat, value: Byte)
    requires offset < raw.Length
    modifies raw
    ensures raw[..offset + 1] == old(raw[..offset]) + [value]
  {
    raw[offset] := value;
  }

  /** Writes one row from offset on; stops at a pixel that is not opaque. */
  method WriteRow(raw: array<Byte>, offset: nat, row: seq<Word>) returns (ok: bool)
    requires offset + 1 + 4 * |row| <= raw.Length
    modifies raw
    ensures ok <==> AllOpaque(row)
    ensures ok ==> raw[..offset + 1 + 4 * |row|] == old(raw[..offset]) + ([0] + PixelBytes(row))
  {
    hide PixelBytes;
    ghost var before := raw[..offset];
    PutByte(raw, offset, 0);
    var next := offset + 1;
    assert row[0..] == row;
    assert before + [0] + PixelBytes(row) == before + ([0] + PixelBytes(row));
    for x := 0 to |row|
      invariant next == offset + 1 + 4 * x
      invariant raw[..next] + PixelBytes(row[x..]) == before + ([0] + PixelBytes(row))
      invariant forall i :: 0 <= i < x ==> Opaque(row[i])
    {
      var pixel := row[x];
      if pixel / 0x100_0000 != 255 {
        return false;
      }
      ghost var done := raw[..next];
      PutByte(raw, next, pixel / 0x1_0000 % 256);
      PutByte(raw, next + 1, pixel / 0x100 % 256);
      PutByte(raw, next + 2, pixel % 256);
      PutByte(raw, next + 3, 255);
      next := next + 4;
      NextPixel(row, x, done, raw[..next]);
    }
    LastPixel(row);
    return true;
  }

  lemma NextPixel(row: seq<Word>, x: nat, done: Bytes, now: Bytes)
    requires x < |row|
    requires var p := row[x];
      now == done + [p / 0x1_0000 % 256] + [p / 0x100 % 256] + [p % 256] + [255]
    ensures now + PixelBytes(row[x + 1..]) == done + PixelBytes(row[x..])
  {
    assert row[x..][1..] == row[x + 1..];
  }

  lemma LastPixel(row: seq<Word>)
    ensures PixelBytes(row[|row|..]) == []
  {}

  /** Writes all rows one after the other. */
  method WriteRows(source: array<Word>, width: nat, height: nat, stride: nat, raw: array<Byte>) returns (ok: bool)
    requires height > 0 && (height - 1) * stride + width <= source.Length
    requires raw.Length == (4 * width + 1) * height
    modifies raw
    ensures ok <==> RowsOpaque(Rows(old(source[..]), width, height, stride))
    ensures ok ==> raw[..] == RowsBytes(Rows(old(source[..]), width, height, stride))
  {
    hide RowsBytes, PixelBytes, AllOpaque;
    ghost var rows := Rows(source[..], width, height, stride);
    var offset := 0;
    assert rows[0..] == rows;
    for y := 0 to height
      invariant offset == (4 * width + 1) * y
      invariant raw[..offset] + RowsBytes(rows[y..]) == RowsBytes(rows)
      invariant forall i :: 0 <= i < y ==> AllOpaque(rows[i])
    {
      InRow(height, stride, width, y, source.Length);
      RowFits(width, height, y);
      var row := source[y * stride..y * stride + width];
      assert row == rows[y];
      ghost var done := raw[..offset];
      var opaque_ := WriteRow(raw, offset, row);
      if !opaque_ {
        return false;
      }
      offset := offset + 1 + 4 * width;
      NextRow(rows, y, done);
    }
    NoRows(rows);
    assert raw[..offset] == raw[..];
    return true;
  }

  lemma RowFits(width: nat, height: nat, y: nat)
    requires y < height
    ensures (4 * width + 1) * y + 1 + 4 * width == (4 * width + 1) * (y + 1) <= (4 * width + 1) * height
  {
    assert (4 * width + 1) * height == (4 * width + 1) * (y + 1) + (4 * width + 1) * (height - y - 1);
    NonNegative(4 * width + 1, height - y - 1);
  }

  lemma NextRow(rows: seq<seq<Word>>, y: nat, done: Bytes)
    requires y < |rows|
    ensures done + ([0] + PixelBytes(rows[y])) + RowsBytes(rows[y + 1..]) == done + RowsBytes(rows[y..])
  {
    hide PixelBytes;
    assert rows[y..][1..] == rows[y + 1..];
  }

  lemma NoRows(rows: seq<seq<Word>>)
    ensures RowsBytes(rows[|rows|..]) == []
  {}

  /** Wraps the rows into a zlib stream of stored blocks. The length is the one
      computed beforehand. */
  method Compress(raw: Bytes) returns (compressed: Bytes)
    requires raw != []
    ensures compressed == Zlib(raw)
    ensures |compressed| == 2 + |raw| + CountBlocks(|raw|) * 5 + 4
  {
    hide Adler32, BigEndian, Blocks, StoredBlock, CountBlocks;
    var adlerA, adlerB := ComputeAdler(raw);
    AdlerBound(raw);
    assert adlerB * 0x10000 + adlerA == Adler32(raw) by { AdlerWord(raw); }
    compressed := [0x78, 0x01];
    var start := 0;
    assert raw[0..] == raw;
    while start < |raw|
      invariant 0 <= start <= |raw|
      invariant compressed + Blocks(raw[start..]) == [0x78, 0x01] + Blocks(raw)
      decreases |raw| - start
    {
      var remaining := |raw| - start;
      var length := if remaining < BLOCK_SIZE then remaining else BLOCK_SIZE;
      ghost var before := compressed;
      compressed := AppendBlock(compressed, raw[start..start + length], remaining <= BLOCK_SIZE);
      NextBlock(raw, start, before);
      start := start + length;
    }
    NoBlocks(raw, start);
    ZlibLength(raw);
    compressed := AppendBigEndian(compressed, adlerB * 0x10000 + adlerA);
    assert [0x78, 0x01] + Blocks(raw) + BigEndian(Adler32(raw)) == [0x78, 0x01] + (Blocks(raw) + BigEndian(Adler32(raw)));
  }

  lemma AdlerWord(raw: Bytes)
    ensures AdlerB(raw) * 0x10000 + AdlerA(raw) == Adler32(raw)
  {
    hide AdlerA, AdlerB;
  }

  method AppendBlock(bytes: Bytes, data: Bytes, last: bool) returns (r: Bytes)
    requires |data| <= BLOCK_SIZE
    ensures r == bytes + StoredBlock(data, last)
  {
    var length := |data|;
    var inverseLength := BLOCK_SIZE - length; // ~length, in 16 bits
    r := bytes + [if last then 0x01 else 0x00];
    r := r + [length % 256];
    r := r + [length / 256];
    r := r + [inverseLength % 256];
    r := r + [inverseLength / 256];
    r := r + data;
  }

  lemma NextBlock(raw: Bytes, start: nat, before: Bytes)
    requires start < |raw|
    ensures var remaining := |raw| - start; var length := if remaining < BLOCK_SIZE then remaining else BLOCK_SIZE;
      before + StoredBlock(raw[start..start + length], remaining <= BLOCK_SIZE) + Blocks(raw[start + length..])
      == before + Blocks(raw[start..])
  {
    hide StoredBlock;
    var rest := raw[start..];
    if |rest| <= BLOCK_SIZE {
      assert raw[start..start + |rest|] == rest;
      assert raw[start + |rest|..] == [];
    } else {
      assert rest[..BLOCK_SIZE] == raw[start..start + BLOCK_SIZE];
      assert rest[BLOCK_SIZE..] == raw[start + BLOCK_SIZE..];
    }
  }

  lemma NoBlocks(raw: Bytes, start: nat)
    requires start == |raw|
    ensures Blocks(raw[start..]) == []
  {}

  lemma SizesFit(width: nat, height: nat)
    requires 0 < width <= MAX_DIMENSION && 0 < height <= MAX_DIMENSION
    ensures var n := (4 * width + 1) * height; 0 < n && 2 + n + CountBlocks(n) * 5 + 4 < 0x1_0000_0000
  {
    var n := (4 * width + 1) * height;
    assert n <= 16385 * 4096 by {
      assert (4 * width + 1) * height <= 16385 * height by { Grows(4 * width + 1, 16385, height); }
    }
    Grows(1, 4 * width + 1, height);
  }

  lemma Grows(a: nat, b: nat, c: nat)
    requires a <= b
    ensures a * c <= b * c
  {
    assert b * c == a * c + (b - a) * c;
    NonNegative(b - a, c);
  }

  /** The pictures that are encoded. */
  predicate Encodable(source: seq<Word>, width: nat, height: nat, stride: nat) {
    Accepts(width, height, stride) && (height - 1) * stride + width <= |source|
    && RowsOpaque(Rows(source, width, height, stride))
  }

  /** Encodes accepted opaque images and nothing else, as far as there is
      memory. */
  method EncodeOpaqueBgraPng(pixels: array?<Word>, width: Word, height: Word, stride: Word, hasMemory: bool)
    returns (png: Bytes)
    requires pixels != null && Accepts(width, height, stride) ==> (height - 1) * stride + width <= pixels.Length
    ensures pixels == null || !Encodable(pixels[..], width, height, stride) || !hasMemory ==> png == []
    ensures pixels != null && Encodable(pixels[..], width, height, stride) && hasMemory ==>
      var raw := RowsBytes(Rows(pixels[..], width, height, stride));
      && raw != [] && |Zlib(raw)| < 0x1_0000_0000 && png == PngFile(width, height, raw)
      && |png| == 8 + 25 + 12 + |Zlib(raw)| + 12
  {
    hide RowsBytes, Zlib, Header, BigEndian, RowsOpaque, CountBlocks, ChunkBytes;
    if pixels == null || width == 0 || height == 0 || width > MAX_DIMENSION || height > MAX_DIMENSION || stride < width {
      return [];
    }
    GuardIsExact(width, height, stride);
    var rowsBeforeLast := height - 1;
    if rowsBeforeLast != 0 && stride > (MAX_SOURCE_PIXELS - width) / rowsBeforeLast {
      return [];
    }
    assert Accepts(width, height, stride);
    if !hasMemory {
      return [];
    }
    SizesFit(width, height);
    var raw := new Byte[(4 * width + 1) * height](_ => 0);
    ghost var rows := Rows(pixels[..], width, height, stride);
    var ok := WriteRows(pixels, width, height, stride, raw);
    if !ok {
      return [];
    }
    png := BuildFile(width, height, raw[..]);
  }

  /** Signature, header, data and end. */
  method BuildFile(width: Word, height: Word, raw: Bytes) returns (png: Bytes)
    requires raw != [] && 2 + |raw| + CountBlocks(|raw|) * 5 + 4 < 0x1_0000_0000
    ensures |Zlib(raw)| < 0x1_0000_0000 && png == PngFile(width, height, raw)
    ensures |png| == 8 + 25 + 12 + |Zlib(raw)| + 12
  {
    hide Zlib, CountBlocks, ChunkBytes, Signature, IHDR, IDAT, IEND;
    ValidKinds();
    var compressed := Compress(raw);
    png := Signature();
    var ihdr := AppendBigEndian([], width);
    ihdr := AppendBigEndian(ihdr, height);
    ihdr := ihdr + [8, 6, 0, 0, 0];
    assert ihdr == Header(width, height);
    png := AppendPngChunk(png, IHDR(), ihdr);
    png := AppendPngChunk(png, IDAT(), compressed);
    png := AppendPngChunk(png, IEND(), []);
    ThreeChunks(width, height, raw);
  }

  lemma ThreeChunks(width: Word, height: Word, raw: Bytes)
    requires |Zlib(raw)| < 0x1_0000_0000
    requires |IHDR()| == |IDAT()| == |IEND()| == 4
    ensures PngFile(width, height, raw) == Signature() + ChunkBytes(Chunk(IHDR(), Header(width, height)))
      + ChunkBytes(Chunk(IDAT(), Zlib(raw))) + ChunkBytes(Chunk(IEND(), []))
  {
    hide Zlib, Header, ChunkBytes, Signature, IHDR, IDAT, IEND, ChunksBytes;
    var chunks := FileChunks(width, height, raw);
    ChunksInARow(chunks[0], chunks[1], chunks[2]);
    assert chunks == [chunks[0], chunks[1], chunks[2]];
  }

  lemma ChunksInARow(a: Chunk, b: Chunk, c: Chunk)
    requires ValidChunk(a) && ValidChunk(b) && ValidChunk(c)
    ensures ChunksBytes([a, b, c]) == ChunkBytes(a) + ChunkBytes(b) + ChunkBytes(c)
  {
    hide ChunkBytes, ValidChunk;
    assert [a, b, c][1..] == [b, c] && [b, c][1..] == [c] && [c][1..] == [];
    assert ChunksBytes([c]) == ChunkBytes(c) + ChunksBytes([c][1..]);
    assert ChunksBytes([b, c]) == ChunkBytes(b) + ChunksBytes([b, c][1..]);
  }

  /** A reader of the finished file gets the size and the colour of every
      pixel, whatever the row padding was. */
  lemma PngRoundTrip(source: seq<Word>, width: Word, height: Word, stride: Word)
    requires Encodable(source, width, height, stride)
    ensures var rows := Rows(source, width, height, stride);
      && RowsBytes(rows) != [] && |Zlib(RowsBytes(rows))| < 0x1_0000_0000
      && ReadsAs(ReadPng(PngFile(width, height, RowsBytes(rows))), width, height, rows)
  {
    hide Zlib, RowsBytes, ReadRows, ReadImage, PngFile, ReadPng, Colours, RowsOpaque, CountBlocks;
    var rows := Rows(source, width, height, stride);
    var raw := RowsBytes(rows);
    RowsLength(rows, width);
    SizesFit(width, height);
    ZlibLength(raw);
    ReadFileChunks(width, height, raw);
    ReadImageBack(width, height, raw);
    OpaqueRows(rows);
    ReadRowsBack(rows, width);
  }

  /** An image whose rows are those of the source, in colours. */
  ghost predicate ReadsAs(image: Option<Image>, width: nat, height: nat, rows: seq<seq<Word>>) {
    && image.Some? && image.value.width == width && image.value.height == height
    && |image.value.rows| == |rows| == height
    && forall y :: 0 <= y < height ==> image.value.rows[y] == Colours(rows[y])
  }

  lemma OpaqueRows(rows: seq<seq<Word>>)
    requires RowsOpaque(rows)
    ensures forall y :: 0 <= y < |rows| ==> AllOpaque(rows[y])
  {}

  lemma ZlibLength(raw: Bytes)
    ensures |Zlib(raw)| == 2 + |raw| + CountBlocks(|raw|) * 5 + 4
  {
    hide Blocks, CountBlocks, Adler32, BigEndian;
    BlocksLength(raw);
  }
}
