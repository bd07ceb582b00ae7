/** Bit buffers: numbers written most significant bit first, and bits packed
    into bytes. */
module BitStrings {
  import opened Binary
  import opened Placement

  /** The number that a string of bits spells. */
  function Number(bits: Bits): nat {
    if bits == [] then 0
    else 2 * Number(bits[..|bits| - 1]) + if bits[|bits| - 1] then 1 else 0
  }

  /** The len low-order bits of a number. */
  function BitsOf(val: nat, len: nat): (b: Bits)
    ensures |b| == len
  {
    if len == 0 then [] else BitsOf(val / 2, len - 1) + [val % 2 == 1]
  }

  lemma {:induction false} NumberBitsOf(val: nat, len: nat)
    requires val < Pow2(len)
    ensures Number(BitsOf(val, len)) == val
  {
    if len > 0 {
      NumberBitsOf(val / 2, len - 1);
      assert BitsOf(val, len)[..len - 1] == BitsOf(val / 2, len - 1);
    }
  }

  lemma {:induction false} BitsOfNumber(bits: Bits)
    ensures Number(bits) < Pow2(|bits|)
    ensures BitsOf(Number(bits), |bits|) == bits
  {
    if bits != [] {
      var rest := bits[..|bits| - 1];
      BitsOfNumber(rest);
      assert rest + [bits[|bits| - 1]] == bits;
    }
  }

  lemma {:induction false} ShrHalf(val: nat, i: nat)
    ensures Shr(val / 2, i) == Shr(val, i + 1)
  {
    if i > 0 { ShrHalf(val, i - 1); }
  }

  lemma {:induction false} BitsOfAt(val: nat, len: nat, k: nat)
    requires k < len
    ensures BitsOf(val, len)[k] == Bit(val, len - 1 - k)
  {
    if k < len - 1 {
      BitsOfAt(val / 2, len - 1, k);
      ShrHalf(val, len - 2 - k);
    }
  }

  datatype Appended = Appended(bits: Bits) | OutOfRange

  /** Appends a number to a bit buffer, bit by bit; refuses widths over 31 and
      numbers that do not fit. */
  method AppendBits(bits: Bits, val: nat, len: int) returns (r: Appended)
    ensures r == if 0 <= len <= 31 && val < Pow2(len) then Appended(bits + BitsOf(val, len)) else OutOfRange
  {
    if len < 0 || len > 31 {
      return OutOfRange;
    }
    ShrZero(val, len);
    if Shr(val, len) != 0 {
      return OutOfRange;
    }
    var buffer := bits;
    for i := len downto 0
      invariant buffer == bits + BitsOf(val, len)[..len - i]
    {
      BitsOfAt(val, len, len - 1 - i);
      buffer := buffer + [Bit(val, i)];
    }
    return Appended(buffer);
  }

  lemma {:induction false} ShrZero(val: nat, len: nat)
    ensures Shr(val, len) == 0 <==> val < Pow2(len)
  {
    if len > 0 {
      ShrZero(val / 2, len - 1);
      ShrHalf(val, len - 1);
    }
  }

  // ---- Packing ------------------------------------------------------------------

  /** The bytes that a whole number of octets of bits spells. */
  function Pack(bits: Bits): (b: seq<Byte>)
    requires |bits| % 8 == 0
    ensures |b| == |bits| / 8
  {
    seq(|bits| / 8, i requires 0 <= i < |bits| / 8 => ByteAt(bits, i))
  }

  function ByteAt(bits: Bits, i: nat): Byte
    requires 8 * i + 8 <= |bits|
  {
    BitsOfNumber(bits[8 * i..8 * i + 8]);
    assert Pow2(8) == 256;
    Number(bits[8 * i..8 * i + 8])
  }

  lemma PackedBits(bits: Bits)
    requires |bits| % 8 == 0
    ensures CodewordBits(Pack(bits)) == bits
  {
    hide Bit, Number, BitsOf;
    var words := Pack(bits);
    forall i | 0 <= i < |bits| ensures CodewordBits(words)[i] == bits[i] {
      var octet := bits[8 * (i / 8)..8 * (i / 8) + 8];
      BitsOfNumber(octet);
      BitsOfAt(Number(octet), 8, i % 8);
    }
  }

  lemma OctetOfByte(words: seq<Byte>, i: nat)
    requires i < |words|
    ensures CodewordBits(words)[8 * i..8 * i + 8] == BitsOf(words[i], 8)
  {
    hide Bit, BitsOf;
    var octet := CodewordBits(words)[8 * i..8 * i + 8];
    forall k | 0 <= k < 8 ensures octet[k] == BitsOf(words[i], 8)[k] {
      BitsOfAt(words[i], 8, k);
      assert octet[k] == CodewordBit(words, 8 * i + k);
    }
  }

  lemma PackCodewordBits(words: seq<Byte>)
    ensures Pack(CodewordBits(words)) == words
  {
    hide CodewordBits, Number, BitsOf;
    forall i | 0 <= i < |words| ensures Pack(CodewordBits(words))[i] == words[i] {
      OctetOfByte(words, i);
      EightBits(words[i]);
    }
  }

  lemma EightBits(b: Byte)
    ensures Number(BitsOf(b, 8)) == b
  {
    assert Pow2(8) == 256;
    NumberBitsOf(b, 8);
  }

  /** Bits collected into bytes, one bit at a time. Setting a bit that is
      still clear adds its weight. */
  method PackCodewords(bits: Bits) returns (words: array<Byte>)
    requires |bits| % 8 == 0
    ensures fresh(words) && words[..] == Pack(bits)
  {
    hide Number, Pow2;
    words := new Byte[|bits| / 8](_ => 0);
    for i := 0 to |bits|
      invariant forall q :: 0 <= q < i / 8 ==> words[q] == ByteAt(bits, q)
      invariant i % 8 != 0 ==> words[i / 8] == Partial(bits, i)
      invariant forall q :: (i + 7) / 8 <= q < words.Length ==> words[q] == 0
    {
      PartialStep(bits, i);
      words[i / 8] := words[i / 8] + (if bits[i] then Pow2(7 - i % 8) else 0);
    }
  }

  /** The byte under construction before bit i, whose missing bits are 0. */
  function Partial(bits: Bits, i: nat): nat
    requires i <= |bits|
  {
    Number(bits[i - i % 8..i]) * Pow2(8 - i % 8)
  }

  lemma PartialStep(bits: Bits, i: nat)
    requires i < |bits| && |bits| % 8 == 0
    ensures i % 8 == 0 ==> Partial(bits, i) == 0
    ensures Partial(bits, i) + (if bits[i] then Pow2(7 - i % 8) else 0)
         == if i % 8 == 7 then ByteAt(bits, i / 8) else Partial(bits, i + 1)
    ensures Partial(bits, i) + (if bits[i] then Pow2(7 - i % 8) else 0) < 256
  {
    hide Number, Pow2;
    var low, m := i - i % 8, i % 8;
    StepAt(bits, low, m);
    TwoToTheEighth();
    EmptyNumber(bits, i);
    ZeroProduct(Pow2(8));
    NextOctet(i);
    if m == 7 {
      UnitProduct(Number(bits[low..low + 8]));
    }
  }

  lemma ZeroProduct(p: nat)
    ensures 0 * p == 0
  {}

  lemma UnitProduct(p: nat)
    ensures p * 1 == p
  {}

  lemma NextOctet(i: nat)
    ensures i - i % 8 == 8 * (i / 8)
    ensures i % 8 != 7 ==> (i + 1) % 8 == i % 8 + 1 && (i + 1) / 8 == i / 8
    ensures i % 8 == 7 ==> (i + 1) % 8 == 0 && (i + 1) / 8 == i / 8 + 1
  {}

  lemma StepAt(bits: Bits, low: nat, m: nat)
    requires low + m < |bits| && m < 8
    ensures Number(bits[low..low + m]) * Pow2(8 - m) + (if bits[low + m] then Pow2(7 - m) else 0)
         == Number(bits[low..low + m + 1]) * Pow2(7 - m) < 256
  {
    hide Number, Pow2;
    var done, more := Number(bits[low..low + m]), Number(bits[low..low + m + 1]);
    var p, bit := Pow2(7 - m), if bits[low + m] then 1 else 0;
    NumberNext(bits, low, low + m);
    DoubleProduct(done, bit, p);
    PowerNext(7 - m);
    BitsOfNumber(bits[low..low + m + 1]);
    PowProduct(m + 1, 7 - m);
    BoundedProduct(more, Pow2(m + 1), p);
    TwoToTheEighth();
  }

  lemma NumberNext(bits: Bits, low: nat, i: nat)
    requires low <= i < |bits|
    ensures Number(bits[low..i + 1]) == 2 * Number(bits[low..i]) + if bits[i] then 1 else 0
  {
    var more := bits[low..i + 1];
    assert more[..|more| - 1] == bits[low..i];
  }

  lemma EmptyNumber(bits: Bits, i: nat)
    requires i <= |bits|
    ensures Number(bits[i..i]) == 0
  {}

  lemma PowerNext(n: nat)
    ensures Pow2(n + 1) == 2 * Pow2(n)
  {}

  lemma TwoToTheEighth()
    ensures Pow2(8) == 256 && Pow2(0) == 1
  {}

  lemma DoubleProduct(done: nat, bit: nat, p: nat)
    ensures (2 * done + bit) * p == done * (2 * p) + bit * p
  {}

  lemma BoundedProduct(a: nat, b: nat, p: nat)
    requires a < b && p > 0
    ensures a * p < b * p
  {
    assert b * p == a * p + (b - a) * p;
    assert (b - a) * p > 0;
  }
}
