/** Strings of numbers of a fixed width, as bits. */
module Regrouping {
  import opened Binary
  import opened Placement
  import opened BitStrings

  /** Numbers written one after the other, width bits each. */
  function Spell(values: seq<nat>, width: nat): (b: Bits)
    ensures |b| == width * |values|
  {
    if values == [] then [] else Spell(values[..|values| - 1], width) + BitsOf(values[|values| - 1], width)
  }

  /** Bits cut into numbers of a given width. */
  function Group(bits: Bits, width: nat): (v: seq<nat>)
    requires width > 0
    ensures |bits| % width == 0 ==> width * |v| == |bits|
    decreases |bits|
  {
    if |bits| < width then []
    else
      CutLast(|bits|, width);
      Group(bits[..|bits| - width], width) + [Number(bits[|bits| - width..])]
  }

  lemma CutLast(n: nat, width: nat)
    requires 0 < width <= n
    ensures (n - width) % width == n % width
  {
    var q := n / width;
    assert n == width * q + n % width && q >= 1;
    assert n - width == width * (q - 1) + n % width;
    ProductNonNegative(width, q - 1);
    DivModUnique(n - width, width, q - 1, n % width);
  }

  lemma {:induction false} GroupOfSpell(values: seq<nat>, width: nat)
    requires width > 0 && forall i :: 0 <= i < |values| ==> values[i] < Pow2(width)
    ensures Group(Spell(values, width), width) == values
  {
    hide BitsOf, Number, Pow2;
    if values != [] {
      var init, last := values[..|values| - 1], values[|values| - 1];
      GroupOfSpell(init, width);
      NumberBitsOf(last, width);
      var bits := Spell(values, width);
      assert |bits| >= width by {
        assert width * |values| == width * (|values| - 1) + width;
        ProductNonNegative(width, |values| - 1);
      }
      assert bits[..|bits| - width] == Spell(init, width) && bits[|bits| - width..] == BitsOf(last, width);
    }
  }

  lemma SpellAppend(values: seq<nat>, v: nat, width: nat)
    ensures Spell(values + [v], width) == Spell(values, width) + BitsOf(v, width)
  {
    hide BitsOf;
    assert (values + [v])[..|values|] == values;
  }

  lemma ShortMultiple(n: nat, width: nat)
    requires n < width && n % width == 0
    ensures n == 0
  {
    DivModUnique(n, width, 0, n);
  }

  lemma {:induction false} SpellOfGroup(bits: Bits, width: nat)
    requires width > 0 && |bits| % width == 0
    ensures Spell(Group(bits, width), width) == bits
    ensures forall i :: 0 <= i < |Group(bits, width)| ==> Group(bits, width)[i] < Pow2(width)
    decreases |bits|
  {
    hide BitsOf, Number, Pow2;
    if |bits| < width {
      ShortMultiple(|bits|, width);
    } else {
      CutLast(|bits|, width);
      var init, last := bits[..|bits| - width], bits[|bits| - width..];
      SpellOfGroup(init, width);
      BitsOfNumber(last);
      GroupNext(init, last);
      assert bits == init + last;
      hide Group, Spell;
      SpellAppend(Group(init, width), Number(last), width);
    }
  }

  /** One more group. */
  lemma GroupNext(bits: Bits, group: Bits)
    requires |group| > 0
    ensures Group(bits + group, |group|) == Group(bits, |group|) + [Number(group)]
  {
    hide Number;
    assert (bits + group)[..|bits|] == bits && (bits + group)[|bits|..] == group;
  }

  lemma SpellNext(values: seq<nat>, i: nat, width: nat)
    requires i < |values|
    ensures Spell(values[..i + 1], width) == Spell(values[..i], width) + BitsOf(values[i], width)
  {
    hide BitsOf;
    assert values[..i + 1][..i] == values[..i];
  }

  lemma {:induction false} NumberOfBoth(a: Bits, b: Bits)
    ensures Number(a + b) == Number(a) * Pow2(|b|) + Number(b)
  {
    if b == [] {
      assert a + b == a;
    } else {
      var init := b[..|b| - 1];
      NumberOfBoth(a, init);
      assert (a + b)[..|a + b| - 1] == a + init;
      assert Number(a) * (2 * Pow2(|init|)) == 2 * (Number(a) * Pow2(|init|));
    }
  }
}

/** Base64url (section 5 of RFC 4648, without padding), with an accumulator that
    wraps at 32 bits. */
module Base64Url {
  import opened Binary
  import opened Placement
  import opened BitStrings
  import opened Regrouping

  /** The character for a six-bit number: A-Z a-z 0-9 - _. */
  function Lookup(v: nat): (c: Byte)
    requires v < 64
  {
    if v < 26 then v + 65 else if v < 52 then v + 71 else if v < 62 then v - 4 else if v == 62 then 45 else 95
  }

  /** The number a character stands for, or -1. */
  function Value(c: Byte): int {
    if 65 <= c <= 90 then c - 65
    else if 97 <= c <= 122 then c - 71
    else if 48 <= c <= 57 then c as int + 4
    else if c == 45 then 62
    else if c == 95 then 63
    else -1
  }

  lemma ValueOfLookup(v: nat)
    requires v < 64
    ensures Value(Lookup(v)) == v
  {}

  /** No other character stands for a number. */
  lemma LookupOfValue(c: Byte)
    ensures -1 <= Value(c) < 64 && (Value(c) >= 0 ==> Lookup(Value(c)) == c)
  {}

  // ---- What the code means ----------------------------------------------------------

  lemma WholeSextets(n: nat)
    ensures (8 * n + (6 - 8 * n % 6) % 6) % 6 == 0
    ensures (8 * n + (6 - 8 * n % 6) % 6) % 8 == (6 - 8 * n % 6) % 6
  {
    var q, r := n / 3, n % 3;
    assert n == 3 * q + r;
    if r == 0 {
      Remainders(n, 4 * q, 0, 4 * q, 3 * q, 0);
    } else if r == 1 {
      Remainders(n, 4 * q + 1, 2, 4 * q + 2, 3 * q + 1, 4);
    } else {
      Remainders(n, 4 * q + 2, 4, 4 * q + 3, 3 * q + 2, 2);
    }
  }

  /** Quotients and remainders that determine the padding. */
  lemma Remainders(n: nat, sextets: nat, left: nat, all: nat, octets: nat, pad: nat)
    requires left < 6 && 8 * n == 6 * sextets + left && pad == if left == 0 then 0 else 6 - left
    requires 8 * n + pad == 6 * all == 8 * octets + pad && pad < 8
    ensures (6 - 8 * n % 6) % 6 == pad && (8 * n + pad) % 6 == 0 && (8 * n + pad) % 8 == pad
  {
    DivModUnique(8 * n, 6, sextets, left);
    DivModUnique(8 * n + pad, 6, all, 0);
    DivModUnique(8 * n + pad, 8, octets, pad);
  }

  /** The bits of some bytes, filled up with zeros to whole sextets. */
  function SextetBits(data: seq<Byte>): (b: Bits)
    ensures |b| % 6 == 0
  {
    hide Spell, BitsOf;
    WholeSextets(|data|);
    Spell(data, 8) + BitsOf(0, (6 - 8 * |data| % 6) % 6)
  }

  function Sextets(data: seq<Byte>): (v: seq<nat>)
    ensures forall i :: 0 <= i < |v| ==> v[i] < 64
  {
    hide SextetBits;
    SpellOfGroup(SextetBits(data), 6);
    assert Pow2(6) == 64;
    Group(SextetBits(data), 6)
  }

  function LookupAll(v: seq<nat>): (s: seq<Byte>)
    requires forall i :: 0 <= i < |v| ==> v[i] < 64
    ensures |s| == |v|
  {
    seq(|v|, i requires 0 <= i < |v| => Lookup(v[i]))
  }

  function Encoded(data: seq<Byte>): seq<Byte> {
    hide Sextets;
    LookupAll(Sextets(data))
  }

  /** The values of the characters up to the first foreign one. */
  function Values(text: seq<Byte>): seq<nat> {
    if text == [] || Value(text[0]) < 0 then [] else [Value(text[0]) as nat] + Values(text[1..])
  }

  /** The whole bytes among the bits of the values. */
  function DecodedValues(values: seq<nat>): seq<nat> {
    hide Spell, Group;
    var bits := Spell(values, 6);
    Group(bits[..|bits| - |bits| % 8], 8)
  }

  function Decoded(text: seq<Byte>): seq<nat> {
    DecodedValues(Values(text))
  }

  lemma {:induction false} ValuesOfLookup(v: seq<nat>)
    requires forall i :: 0 <= i < |v| ==> v[i] < 64
    ensures Values(LookupAll(v)) == v
  {
    hide Value, Lookup;
    if v != [] {
      ValueOfLookup(v[0]);
      ValuesOfLookup(v[1..]);
      assert LookupAll(v)[1..] == LookupAll(v[1..]);
    }
  }

  /** Decoding undoes encoding, for all byte strings. */
  lemma DecodedEncoded(data: seq<Byte>)
    ensures Decoded(Encoded(data)) == data
  {
    hide Spell, Group, BitsOf, Lookup, Values;
    var bits, pad := SextetBits(data), (6 - 8 * |data| % 6) % 6;
    ValuesOfLookup(Sextets(data));
    SpellOfGroup(bits, 6);
    WholeSextets(|data|);
    assert |bits| % 8 == pad;
    assert bits[..|bits| - pad] == Spell(data, 8);
    assert Pow2(8) == 256;
    GroupOfSpell(data, 8);
  }

  // ---- The accumulator ---------------------------------------------------------------

  /** A signed 32-bit integer. */
  function Wrap(x: int): (w: int)
    ensures -0x8000_0000 <= w < 0x8000_0000
    ensures (x - w) % 0x1_0000_0000 == 0
  {
    (x + 0x8000_0000) % 0x1_0000_0000 - 0x8000_0000
  }

  /** The low bits of the accumulator. */
  ghost predicate LowBits(val: int, bits: Bits) {
    val % Pow2(|bits|) == Number(bits)
  }

  /** Wrapping does not touch the low bits. */
  lemma WrapKeepsLow(x: int, m: int, k: int)
    requires m > 0 && m * k == 0x1_0000_0000
    ensures Wrap(x) % m == x % m
  {
    var w := Wrap(x);
    var q := (x - w) / 0x1_0000_0000;
    assert x - w == 0x1_0000_0000 * q;
    assert x == m * (k * q + w / m) + w % m by {
      assert (m * k) * q == m * (k * q);
      assert w == m * (w / m) + w % m;
      assert m * (k * q + w / m) == m * (k * q) + m * (w / m);
    }
    DivModUnique(x, m, k * q + w / m, w % m);
  }

  /** Shifting in a number. */
  lemma ShiftIn(val: int, bits: Bits, more: nat, n: nat)
    requires LowBits(val, bits) && more < Pow2(n) && |bits| + n <= 12
    ensures LowBits(Wrap(val * Pow2(n) + more), bits + BitsOf(more, n))
  {
    hide Number, BitsOf, Wrap, Pow2, LowBits;
    var p, m := Pow2(|bits|), Pow2(n);
    var r := Number(bits);
    LowBitsSplit(val, bits);
    NumberOfBoth(bits, BitsOf(more, n));
    NumberBitsOf(more, n);
    PowProduct(|bits|, n);
    BitsOfNumber(bits);
    ShiftedRemainder(val, p, m, val / p, r, more);
    PowProduct(|bits| + n, 32 - |bits| - n);
    WordRange();
    WrapKeepsLow(val * m + more, Pow2(|bits| + n), Pow2(32 - |bits| - n));
    AreLowBits(Wrap(val * m + more), bits + BitsOf(more, n));
  }

  lemma LowBitsSplit(val: int, bits: Bits)
    requires LowBits(val, bits)
    ensures val == Pow2(|bits|) * (val / Pow2(|bits|)) + Number(bits)
  {
    hide Number, Pow2;
  }

  lemma AreLowBits(val: int, bits: Bits)
    requires val % Pow2(|bits|) == Number(bits)
    ensures LowBits(val, bits)
  {
    hide Number, Pow2;
  }

  lemma ShiftedRemainder(val: int, p: nat, m: nat, q: int, r: nat, more: nat)
    requires val == p * q + r && r < p && more < m
    ensures (val * m + more) % (p * m) == r * m + more
  {
    assert val * m + more == (p * m) * q + (r * m + more) by {
      assert (p * q + r) * m == (p * m) * q + r * m;
    }
    assert r * m + more < p * m by {
      assert (p - r - 1) * m >= 0 by { ProductNonNegative(p - r - 1, m); }
      assert p * m == r * m + m + (p - r - 1) * m;
    }
    ProductNonNegative(r, m);
    DivModUnique(val * m + more, p * m, q, r * m + more);
  }

  lemma LowBitsMean(val: int, bits: Bits)
    ensures LowBits(val, bits) <==> val % Pow2(|bits|) == Number(bits)
  {
    hide Number, Pow2;
  }

  /** Taking the number above the low bits out. */
  lemma ShiftOut(val: int, high: Bits, low: Bits)
    requires LowBits(val, high + low)
    ensures val / Pow2(|low|) % Pow2(|high|) == Number(high)
    ensures LowBits(val, low)
  {
    hide Number, Pow2;
    var p, m := Pow2(|low|), Pow2(|high|);
    NumberOfBoth(high, low);
    BitsOfNumber(low);
    BitsOfNumber(high);
    PowProduct(|high|, |low|);
    hide LowBits;
    assert val % (m * p) == Number(high + low) by { LowBitsMean(val, high + low); }
    LowBitsMean(val, low);
    TakeApart(val, p, m, Number(high), Number(low));
  }

  lemma TakeApart(val: int, p: nat, m: nat, h: nat, r: nat)
    requires p > 0 && m > 0 && h < m && r < p && m * p > 0 && val % (m * p) == h * p + r
    ensures val / p % m == h && val % p == r
  {
    var q := val / (m * p);
    assert val == p * (m * q + h) + r by {
      assert val == (m * p) * q + (h * p + r);
      assert (m * p) * q == p * (m * q);
      assert p * (m * q + h) == p * (m * q) + h * p;
    }
    DivModUnique(val, p, m * q + h, r);
    DivModUnique(m * q + h, m, q, h);
  }

  /** A right shift of a signed integer rounds down. */
  function ShiftRight(x: int, n: nat): int {
    x / Pow2(n)
  }

  // ---- Encoding ------------------------------------------------------------------------

  /** The encoder after some bytes whose bits are given: out covers all but the
      last valb + 6 of them, which the accumulator holds. */
  ghost predicate Encoding(bits: Bits, out: seq<Byte>, val: int, valb: int) {
    && -6 <= valb <= 6 && 6 * |out| + valb + 6 == |bits|
    && (forall i :: 0 <= i < |Group(bits[..6 * |out|], 6)| ==> Group(bits[..6 * |out|], 6)[i] < 64)
    && out == LookupAll(Group(bits[..6 * |out|], 6))
    && LowBits(val, bits[6 * |out|..])
  }

  /** One more character. */
  lemma EncodeNext(bits: Bits, out: seq<Byte>, val: int, valb: int)
    requires Encoding(bits, out, val, valb) && valb >= 0
    ensures 0 <= val / Pow2(valb) % 64 < 64
    ensures Encoding(bits, out + [Lookup(val / Pow2(valb) % 64)], val, valb - 6)
  {
    hide Number, Group, LowBits, Pow2, Lookup;
    var k := 6 * |out|;
    var group, rest := bits[k..k + 6], bits[k + 6..];
    assert bits[k..] == group + rest;
    ShiftOut(val, group, rest);
    SixtyFour();
    BitsOfNumber(group);
    assert bits[..k + 6] == bits[..k] + group;
    GroupNext(bits[..k], group);
    assert bits[k + 6..] == rest;
  }

  lemma SixtyFour()
    ensures Pow2(6) == 64 && Pow2(8) == 256 && Pow2(0) == 1
  {}

  lemma EncodeByte(bits: Bits, out: seq<Byte>, val: int, valb: int, b: Byte)
    requires Encoding(bits, out, val, valb) && valb < 0 && valb % 2 == 0
    ensures Encoding(bits + BitsOf(b, 8), out, Wrap(val * 256 + b), valb + 8)
  {
    hide Number, Group, LowBits, Pow2, Lookup, BitsOf, Wrap;
    var k := 6 * |out|;
    SixtyFour();
    ShiftIn(val, bits[k..], b, 8);
    assert (bits + BitsOf(b, 8))[..k] == bits[..k];
    assert (bits + BitsOf(b, 8))[k..] == bits[k..] + BitsOf(b, 8);
  }

  method Base64UrlEncode(data: seq<Byte>) returns (out: seq<Byte>)
    ensures out == Encoded(data)
  {
    hide Encoding, Wrap, Pow2, BitsOf, Lookup, Spell;
    out := [];
    var val, valb := 0, -6;
    EncodingStarts();
    assert data[..0] == [];
    for i := 0 to |data|
      invariant Encoding(Spell(data[..i], 8), out, val, valb)
      invariant valb == -6 || valb == -4 || valb == -2
    {
      SpellNext(data, i, 8);
      EncodeByte(Spell(data[..i], 8), out, val, valb, data[i]);
      val := Wrap(val * 256 + data[i]);
      valb := valb + 8;
      while valb >= 0
        invariant Encoding(Spell(data[..i + 1], 8), out, val, valb)
        invariant -6 <= valb <= 6 && valb % 2 == 0
        decreases valb
      {
        EncodeNext(Spell(data[..i + 1], 8), out, val, valb);
        out := out + [Lookup(ShiftRight(val, valb) % 64)];
        valb := valb - 6;
      }
    }
    assert data[..|data|] == data;
    EncodingEnds(data, out, val, valb);
    if valb > -6 {
      out := out + [Lookup(ShiftRight(Wrap(val * 256), valb + 8) % 64)];
    }
  }

  lemma EncodingStarts()
    ensures Spell([], 8) == [] && Encoding([], [], 0, -6)
  {}

  /** The last bits, with zeros after them. */
  lemma EncodingEnds(data: seq<Byte>, out: seq<Byte>, val: int, valb: int)
    requires Encoding(Spell(data, 8), out, val, valb) && (valb == -6 || valb == -4 || valb == -2)
    ensures valb == -6 ==> out == Encoded(data)
    ensures valb > -6 ==> out + [Lookup(ShiftRight(Wrap(val * 256), valb + 8) % 64)] == Encoded(data)
  {
    hide Number, Group, LowBits, Pow2, Lookup, BitsOf, Wrap, Spell;
    var bits := Spell(data, 8);
    var k, pad := 6 * |out|, (6 - 8 * |data| % 6) % 6;
    if valb == -6 {
      assert pad == 0;
      assert bits[..k] == bits && BitsOf(0, 0) == [];
      assert SextetBits(data) == bits;
    } else {
      assert pad == -valb;
      var rest, zeros := bits[k..], BitsOf(0, pad);
      var group := rest + zeros;
      assert bits[..k] + group == SextetBits(data);
      LastSextet(val, rest, pad, valb);
      BitsOfNumber(group);
      SixtyFour();
      GroupNext(bits[..k], group);
    }
  }

  lemma LastSextet(val: int, rest: Bits, pad: nat, valb: int)
    requires LowBits(val, rest) && |rest| == valb + 6 && pad == -valb && (valb == -4 || valb == -2)
    ensures ShiftRight(Wrap(val * 256), valb + 8) % 64 == Number(rest + BitsOf(0, pad))
  {
    hide Number, BitsOf, Wrap, LowBits;
    var w := Wrap(val * 256);
    ShiftIn(val, rest, 0, 8);
    SixtyFour();
    var zeros, tail := BitsOf(0, pad), BitsOf(0, 8 - pad);
    ZerosSplit(pad, 8);
    assert rest + BitsOf(0, 8) == (rest + zeros) + tail;
    ShiftOut(w, rest + zeros, tail);
    assert |tail| == valb + 8;
  }

  lemma {:induction false} ZerosSplit(a: nat, n: nat)
    requires a <= n
    ensures BitsOf(0, n) == BitsOf(0, a) + BitsOf(0, n - a)
    decreases n
  {
    if a < n {
      ZerosSplit(a, n - 1);
      assert BitsOf(0, n) == BitsOf(0, n - 1) + [false];
      assert BitsOf(0, n - a) == BitsOf(0, n - 1 - a) + [false];
    } else {
      assert BitsOf(0, 0) == [];
    }
  }

  // ---- Decoding ------------------------------------------------------------------------

  /** The decoder after some characters whose bits are given. */
  ghost predicate Decoding(bits: Bits, out: seq<nat>, val: int, valb: int) {
    && -8 <= valb < 0 && 8 * |out| + valb + 8 == |bits|
    && out == Group(bits[..8 * |out|], 8)
    && LowBits(val, bits[8 * |out|..])
  }

  lemma DecodeNext(bits: Bits, out: seq<nat>, val: int, valb: int, v: nat)
    requires Decoding(bits, out, val, valb) && v < 64 && valb % 2 == 0
    ensures var next, shift, all := Wrap(val * 64 + v), valb + 6, bits + BitsOf(v, 6);
      if shift < 0 then Decoding(all, out, next, shift)
      else Decoding(all, out + [ShiftRight(next, shift) % 256], next, shift - 8)
  {
    hide Number, Group, LowBits, Pow2, BitsOf, Wrap, ShiftRight;
    var next, all := Wrap(val * 64 + v), bits + BitsOf(v, 6);
    var k := 8 * |out|;
    SixtyFour();
    ShiftIn(val, bits[k..], v, 6);
    assert all[..k] == bits[..k] && all[k..] == bits[k..] + BitsOf(v, 6);
    if valb + 6 >= 0 {
      DecodeOctet(all, out, next, valb + 6);
    }
  }

  /** One more byte. */
  lemma DecodeOctet(all: Bits, out: seq<nat>, val: int, shift: nat)
    requires 8 * |out| + 8 + shift == |all| && shift < 8 && out == Group(all[..8 * |out|], 8)
    requires LowBits(val, all[8 * |out|..])
    ensures Decoding(all, out + [ShiftRight(val, shift) % 256], val, shift - 8)
  {
    hide Number, Group, LowBits, Pow2;
    var k := 8 * |out|;
    var octet, rest := all[k..k + 8], all[k + 8..];
    SixtyFour();
    assert all[k..] == octet + rest;
    ShiftOut(val, octet, rest);
    assert all[..k + 8] == all[..k] + octet;
    GroupNext(all[..k], octet);
  }

  /** The characters that are decoded: all before the first foreign one. */
  method Base64UrlDecode(text: seq<Byte>) returns (out: seq<nat>)
    ensures out == Decoded(text)
  {
    hide Decoding, Wrap, Pow2, BitsOf, Value, Spell, Values, DecodedValues, ShiftRight;
    out := [];
    var val, valb := 0, -8;
    ghost var values: seq<nat> := [];
    DecodingStarts();
    assert text[0..] == text;
    var i := 0;
    while i < |text|
      invariant 0 <= i <= |text|
      invariant values + Values(text[i..]) == Values(text)
      invariant Decoding(Spell(values, 6), out, val, valb)
      invariant valb == -8 || valb == -6 || valb == -4 || valb == -2
      decreases |text| - i
    {
      ValuesStep(text, i);
      var v := Value(text[i]);
      if v == -1 {
        break;
      }
      SpellAppend(values, v, 6);
      DecodeNext(Spell(values, 6), out, val, valb, v);
      OneMoreValue(values, v, Values(text[i + 1..]));
      values := values + [v];
      val := Wrap(val * 64 + v);
      valb := valb + 6;
      if valb >= 0 {
        out := out + [ShiftRight(val, valb) % 256];
        valb := valb - 8;
      }
      i := i + 1;
    }
    ValuesEnd(text, i);
    assert values + [] == values;
    DecodingEnds(values, out, val, valb);
  }

  lemma OneMoreValue(values: seq<nat>, v: nat, more: seq<nat>)
    ensures values + ([v] + more) == values + [v] + more
  {}

  lemma DecodingStarts()
    ensures Spell([], 6) == [] && Decoding([], [], 0, -8)
  {}

  lemma ValuesStep(text: seq<Byte>, i: nat)
    requires i < |text|
    ensures -1 <= Value(text[i]) < 64
    ensures Values(text[i..]) == if Value(text[i]) == -1 then [] else [Value(text[i])] + Values(text[i + 1..])
  {
    assert text[i..][1..] == text[i + 1..];
  }

  lemma ValuesEnd(text: seq<Byte>, i: nat)
    requires i <= |text| && (i < |text| ==> Value(text[i]) == -1)
    ensures Values(text[i..]) == []
  {}

  lemma DecodingEnds(values: seq<nat>, out: seq<nat>, val: int, valb: int)
    requires Decoding(Spell(values, 6), out, val, valb)
    ensures out == DecodedValues(values)
  {
    hide Spell, Group, LowBits;
    var bits := Spell(values, 6);
    assert |bits| - |bits| % 8 == 8 * |out|;
  }
}

/** Escaping for JSON string literals, and a reader of such literals (section 7
    of RFC 8259). */
module JsonStrings {
  import opened Binary

  const QUOTE: Byte := 34
  const BACKSLASH: Byte := 92

  function Hex(v: nat): Byte
    requires v < 16
  {
    if v < 10 then v + 48 else v + 87
  }

  function HexValue(c: Byte): int {
    if 48 <= c <= 57 then c - 48
    else if 97 <= c <= 102 then c - 87
    else if 65 <= c <= 70 then c - 55
    else -1
  }

  function EscapeByte(c: Byte): seq<Byte> {
    if c == QUOTE then [BACKSLASH, QUOTE]
    else if c == BACKSLASH then [BACKSLASH, BACKSLASH]
    else if c == 8 then [BACKSLASH, 98]
    else if c == 12 then [BACKSLASH, 102]
    else if c == 10 then [BACKSLASH, 110]
    else if c == 13 then [BACKSLASH, 114]
    else if c == 9 then [BACKSLASH, 116]
    else if c < 0x20 then [BACKSLASH, 117, 48, 48] + [Hex(c / 16), Hex(c % 16)]
    else [c]
  }

  function Escaped(s: seq<Byte>): seq<Byte> {
    if s == [] then [] else EscapeByte(s[0]) + Escaped(s[1..])
  }

  method EscapeJson(s: seq<Byte>) returns (out: seq<Byte>)
    ensures out == Escaped(s)
  {
    hide EscapeByte;
    out := [];
    assert s[0..] == s;
    for i := 0 to |s|
      invariant out + Escaped(s[i..]) == Escaped(s)
    {
      ghost var before := out;
      EscapeNext(s, i, before);
      out := out + EscapeByte(s[i]);
    }
    NothingLeft(s);
  }

  lemma EscapeNext(s: seq<Byte>, i: nat, before: seq<Byte>)
    requires i < |s|
    ensures before + EscapeByte(s[i]) + Escaped(s[i + 1..]) == before + Escaped(s[i..])
  {
    hide EscapeByte;
    assert s[i..][1..] == s[i + 1..];
  }

  lemma NothingLeft(s: seq<Byte>)
    ensures Escaped(s[|s|..]) == []
  {}

  datatype Reading = Text(text: seq<Byte>, rest: seq<Byte>) | Malformed

  function Prefixed(c: Byte, r: Reading): Reading {
    match r
    case Malformed => Malformed
    case Text(t, rest) => Text([c] + t, rest)
  }

  /** The character that follows a backslash; -1 if it is not an escape. */
  function Simple(c: Byte): int {
    if c == 0x22 || c == 0x5C || c == 0x2F then c
    else if c == 98 then 8
    else if c == 102 then 12
    else if c == 110 then 10
    else if c == 114 then 13
    else if c == 116 then 9
    else -1
  }

  /** Reads the contents of a string literal up to its closing quote. Raw
      control characters are refused; of the \u escapes, those of ASCII
      characters are understood. */
  function ReadLiteral(s: seq<Byte>): Reading
    decreases |s|
  {
    if s == [] then Malformed
    else if s[0] == 0x22 then Text([], s[1..])
    else if s[0] < 0x20 then Malformed
    else if s[0] != 0x5C then Prefixed(s[0], ReadLiteral(s[1..]))
    else if |s| < 2 then Malformed
    else if Simple(s[1]) >= 0 then Prefixed(Simple(s[1]), ReadLiteral(s[2..]))
    else if s[1] == 117 && |s| >= 6 && s[2] == 48 && s[3] == 48 && 0 <= HexValue(s[4]) < 8 && HexValue(s[5]) >= 0
    then Prefixed(16 * HexValue(s[4]) + HexValue(s[5]), ReadLiteral(s[6..]))
    else Malformed
  }

  lemma HexBack(v: nat)
    requires v < 16
    ensures HexValue(Hex(v)) == v
  {}

  lemma ReadEscaped(c: Byte, rest: seq<Byte>)
    ensures ReadLiteral(EscapeByte(c) + rest) == Prefixed(c, ReadLiteral(rest))
  {
    hide HexValue, Hex, Prefixed;
    var s := EscapeByte(c) + rest;
    if c < 0x20 {
      HexBack(c / 16);
      HexBack(c % 16);
    }
    var n := |EscapeByte(c)|;
    assert s[n..] == rest;
  }

  lemma ReadQuote(rest: seq<Byte>)
    ensures ReadLiteral([0x22] + rest) == Text([], rest)
  {
    assert ([0x22] + rest)[1..] == rest;
  }

  /** Between quotes the escaped text reads back, and the literal ends exactly
      at the closing quote, whatever follows. */
  lemma {:induction false} LiteralRoundTrip(s: seq<Byte>, rest: seq<Byte>)
    ensures ReadLiteral(Escaped(s) + ([0x22] + rest)) == Text(s, rest)
  {
    hide EscapeByte, ReadLiteral;
    if s == [] {
      assert Escaped(s) + ([0x22] + rest) == [0x22] + rest;
      ReadQuote(rest);
    } else {
      LiteralRoundTrip(s[1..], rest);
      ReadEscaped(s[0], Escaped(s[1..]) + ([0x22] + rest));
      assert Escaped(s) + ([0x22] + rest) == EscapeByte(s[0]) + (Escaped(s[1..]) + ([0x22] + rest));
      assert [s[0]] + s[1..] == s;
    }
  }

  /** The characters with escapes of their own: quote, backslash, backspace,
      form feed, newline, carriage return and tab. */
  lemma ShortEscapes()
    ensures EscapeByte(0x22) == [0x5C, 0x22] && EscapeByte(0x5C) == [0x5C, 0x5C]
    ensures EscapeByte(0x8) == [0x5C, 'b' as int] && EscapeByte(0xC) == [0x5C, 'f' as int]
    ensures EscapeByte(0xA) == [0x5C, 'n' as int] && EscapeByte(0xD) == [0x5C, 'r' as int]
    ensures EscapeByte(0x9) == [0x5C, 't' as int]
  {}

  /** No raw control character is emitted. */
  lemma {:induction false} NoControlCharacters(s: seq<Byte>)
    ensures forall i :: 0 <= i < |Escaped(s)| ==> Escaped(s)[i] >= 0x20
  {
    if s != [] { NoControlCharacters(s[1..]); }
  }
}
