/** Segments of text (section 7.4 of ISO/IEC 18004:2015): characters packed
    in groups, segment headers, and a reader that undoes both. */
module Segments {
  import opened Binary
  import opened Placement
  import opened BitStrings
  import opened Options

  const INT_MAX := 0x7FFF_FFFF

  /** A character of a C string: any byte but the terminator. */
  type Char = c: nat | 0 < c < 256 witness 1

  datatype Mode = NUMERIC | ALPHANUMERIC | BYTE | KANJI | ECI {
    function ModeBits(): nat {
      match this
      case NUMERIC => 0x1
      case ALPHANUMERIC => 0x2
      case BYTE => 0x4
      case KANJI => 0x8
      case ECI => 0x7
    }

    /** The width of the character count field. */
    function NumCharCountBits(v: nat): nat {
      var i := (v + 7) / 17;
      match this
      case NUMERIC => if i == 0 then 10 else if i == 1 then 12 else 14
      case ALPHANUMERIC => if i == 0 then 9 else if i == 1 then 11 else 13
      case BYTE => if i == 0 then 8 else 16
      case KANJI => if i == 0 then 8 else if i == 1 then 10 else 12
      case ECI => 0
    }

    /** Modes whose data is characters packed in groups. */
    predicate Packs() {
      NUMERIC? || ALPHANUMERIC? || BYTE?
    }

    function Base(): nat {
      if NUMERIC? then 10 else if ALPHANUMERIC? then 45 else 256
    }

    function Group(): nat {
      if NUMERIC? then 3 else if ALPHANUMERIC? then 2 else 1
    }

    /** The width of a group of k characters. */
    function Width(k: nat): nat {
      if NUMERIC? then 3 * k + 1 else if ALPHANUMERIC? then 5 * k + 1 else 8 * k
    }

    /** What a character counts for in a group; -1 if it has no place in this
        mode. The alphanumeric characters are, in order, the digits, the
        capital letters and " $%*+-./:". */
    function ValueOf(c: Byte): int {
      match this
      case NUMERIC => if 48 <= c <= 57 then c - 48 else -1
      case ALPHANUMERIC =>
        if 48 <= c <= 57 then c - 48
        else if 65 <= c <= 90 then c - 55
        else
          (match c
           case 32 => 36
           case 36 => 37
           case 37 => 38
           case 42 => 39
           case 43 => 40
           case 45 => 41
           case 46 => 42
           case 47 => 43
           case 58 => 44
           case _ => -1)
      case _ => c
    }

    function CharOf(v: nat): (c: nat) {
      match this
      case NUMERIC => v + 48
      case ALPHANUMERIC =>
        if v < 10 then v + 48
        else if v < 36 then v + 55
        else
          (match v
           case 36 => 32
           case 37 => 36
           case 38 => 37
           case 39 => 42
           case 40 => 43
           case 41 => 45
           case 42 => 46
           case 43 => 47
           case _ => 58)
      case _ => v
    }
  }

  lemma CharOfValue(m: Mode, c: Byte)
    requires m.Packs() && m.ValueOf(c) >= 0
    ensures m.ValueOf(c) < m.Base() && m.CharOf(m.ValueOf(c)) == c
  {}

  predicate Encodable(m: Mode, text: seq<Byte>) {
    forall i :: 0 <= i < |text| ==> m.ValueOf(text[i]) >= 0
  }

  // ---- Groups ------------------------------------------------------------------

  function Power(b: nat, k: nat): nat {
    if k == 0 then 1 else b * Power(b, k - 1)
  }

  /** The number that characters spell in the base of the mode. */
  function Spelled(m: Mode, text: seq<Byte>): nat
    requires Encodable(m, text)
  {
    if text == [] then 0 else Spelled(m, text[..|text| - 1]) * m.Base() + m.ValueOf(text[|text| - 1])
  }

  function Letters(m: Mode, x: nat, k: nat): (s: seq<nat>)
    requires m.Packs()
    ensures |s| == k
  {
    if k == 0 then [] else Letters(m, x / m.Base(), k - 1) + [m.CharOf(x % m.Base())]
  }

  lemma QuotientAndRemainder(b: nat, q: nat, r: nat)
    requires r < b
    ensures (q * b + r) / b == q && (q * b + r) % b == r
  {
    assert q * b == b * q;
    DivModUnique(q * b + r, b, q, r);
  }

  lemma ProductGrows(b: nat, x: nat, p: nat, r: nat)
    requires x < p && r < b
    ensures x * b + r < b * p
  {
    assert b * p == x * b + b + (p - x - 1) * b;
    ProductNonNegative(p - x - 1, b);
  }

  lemma {:induction false} LettersOfSpelled(m: Mode, text: seq<Byte>)
    requires m.Packs() && Encodable(m, text)
    ensures Spelled(m, text) < Power(m.Base(), |text|)
    ensures Letters(m, Spelled(m, text), |text|) == text
  {
    hide Mode.Base, Mode.CharOf, Mode.ValueOf;
    if text != [] {
      var init, c := text[..|text| - 1], text[|text| - 1];
      LettersOfSpelled(m, init);
      CharOfValue(m, c);
      QuotientAndRemainder(m.Base(), Spelled(m, init), m.ValueOf(c));
      ProductGrows(m.Base(), Spelled(m, init), Power(m.Base(), |init|), m.ValueOf(c));
    }
  }

  /** Every group fits its field. */
  lemma GroupFits(m: Mode, text: seq<Byte>)
    requires m.Packs() && Encodable(m, text) && |text| <= m.Group()
    ensures Spelled(m, text) < Pow2(m.Width(|text|)) && m.Width(|text|) <= 31
  {
    hide Spelled, Letters, Power, Pow2, Mode.Width, Mode.Group, Mode.Base, Mode.ValueOf;
    LettersOfSpelled(m, text);
    PowerFits(m, |text|);
  }

  lemma PowerFits(m: Mode, k: nat)
    requires m.Packs() && k <= m.Group()
    ensures Power(m.Base(), k) <= Pow2(m.Width(k)) && m.Width(k) <= 31
  {
    PowersFit();
    hide Power, Pow2;
    assert k == 0 || k == 1 || k == 2 || k == 3;
  }

  lemma PowersFit()
    ensures Power(10, 0) == 1 && Power(10, 1) == 10 && Power(10, 2) == 100 && Power(10, 3) == 1000
    ensures Power(45, 0) == 1 && Power(45, 1) == 45 && Power(45, 2) == 2025
    ensures Power(256, 0) == 1 && Power(256, 1) == 256
    ensures Pow2(0) == 1 && Pow2(1) == 2 && Pow2(4) == 16 && Pow2(7) == 128 && Pow2(10) == 1024
    ensures Pow2(6) == 64 && Pow2(11) == 2048 && Pow2(8) == 256
  {}

  /** The bits of a text: its groups from the front, the last one possibly
      shorter. */
  function Packed(m: Mode, text: seq<Byte>): Bits
    requires m.Packs() && Encodable(m, text)
  {
    if |text| <= m.Group() then
      if text == [] then [] else BitsOf(Spelled(m, text), m.Width(|text|))
    else BitsOf(Spelled(m, text[..m.Group()]), m.Width(m.Group())) + Packed(m, text[m.Group()..])
  }

  /** How many bits n characters take. */
  function PackedLength(m: Mode, n: nat): nat {
    if n <= m.Group() then if n == 0 then 0 else m.Width(n)
    else m.Width(m.Group()) + PackedLength(m, n - m.Group())
  }

  lemma {:induction false} PackedHasLength(m: Mode, text: seq<Byte>)
    requires m.Packs() && Encodable(m, text)
    ensures |Packed(m, text)| == PackedLength(m, |text|)
  {
    hide Spelled, Mode.Width, Mode.ValueOf;
    if |text| > m.Group() {
      PackedHasLength(m, text[m.Group()..]);
    }
  }

  /** A reader of n packed characters. */
  function Unpacked(m: Mode, bits: Bits, n: nat): seq<nat>
    requires m.Packs() && |bits| == PackedLength(m, n)
  {
    if n <= m.Group() then
      if n == 0 then [] else Letters(m, Number(bits), n)
    else
      var w := m.Width(m.Group());
      Letters(m, Number(bits[..w]), m.Group()) + Unpacked(m, bits[w..], n - m.Group())
  }

  /** Packing loses nothing. */
  lemma {:induction false} UnpackedPacked(m: Mode, text: seq<Byte>)
    requires m.Packs() && Encodable(m, text)
    ensures |Packed(m, text)| == PackedLength(m, |text|)
    ensures Unpacked(m, Packed(m, text), |text|) == text
  {
    hide Packed, Unpacked, PackedLength, Mode.Width, Mode.ValueOf, Mode.Group;
    NoCharacters(m);
    PackedHasLength(m, text);
    if |text| <= m.Group() {
      LastGroup(m, text);
    } else {
      UnpackedPacked(m, text[m.Group()..]);
      LongerText(m, text);
    }
  }

  /** One more group in front. */
  lemma LongerText(m: Mode, text: seq<Byte>)
    requires m.Packs() && Encodable(m, text) && |text| > m.Group() && |Packed(m, text)| == PackedLength(m, |text|)
    requires |Packed(m, text[m.Group()..])| == PackedLength(m, |text| - m.Group())
    requires Unpacked(m, Packed(m, text[m.Group()..]), |text| - m.Group()) == text[m.Group()..]
    ensures Unpacked(m, Packed(m, text), |text|) == text
  {
    hide Packed, Unpacked, PackedLength, Mode.Width, Mode.ValueOf, Mode.Group, Spelled, Letters, Number, BitsOf;
    var first, rest := text[..m.Group()], text[m.Group()..];
    GroupBack(m, first);
    FirstGroup(m, text);
    UnpackStep(m, BitsOf(Spelled(m, first), m.Width(|first|)), Packed(m, rest), |text|);
    assert first + rest == text;
  }

  /** A group is read back from its own bits. */
  lemma GroupBack(m: Mode, text: seq<Byte>)
    requires m.Packs() && Encodable(m, text) && |text| <= m.Group()
    ensures Letters(m, Number(BitsOf(Spelled(m, text), m.Width(|text|))), |text|) == text
  {
    hide Mode.Width, Mode.ValueOf, Spelled, Letters, Number, BitsOf;
    GroupFits(m, text);
    LettersOfSpelled(m, text);
    NumberBitsOf(Spelled(m, text), m.Width(|text|));
  }

  lemma LastGroup(m: Mode, text: seq<Byte>)
    requires m.Packs() && Encodable(m, text) && |text| <= m.Group()
    requires |Packed(m, text)| == PackedLength(m, |text|)
    ensures Unpacked(m, Packed(m, text), |text|) == text
  {
    hide Mode.Width, Mode.ValueOf, Spelled, Letters, Number, BitsOf;
    GroupBack(m, text);
  }

  lemma FirstGroup(m: Mode, text: seq<Byte>)
    requires m.Packs() && Encodable(m, text) && |text| > m.Group()
    ensures Packed(m, text) == BitsOf(Spelled(m, text[..m.Group()]), m.Width(m.Group())) + Packed(m, text[m.Group()..])
  {
    hide Mode.Width, Mode.ValueOf, Spelled, BitsOf;
  }

  lemma UnpackStep(m: Mode, group: Bits, more: Bits, n: nat)
    requires m.Packs() && n > m.Group() && |group| == m.Width(m.Group()) && |more| == PackedLength(m, n - m.Group())
    ensures |group + more| == PackedLength(m, n)
    ensures Unpacked(m, group + more, n) == Letters(m, Number(group), m.Group()) + Unpacked(m, more, n - m.Group())
  {
    hide Letters, Number, Mode.Width;
    assert (group + more)[..|group|] == group && (group + more)[|group|..] == more;
  }

  /** Whole groups can be split off the end as well. */
  lemma {:induction false} PackedAppend(m: Mode, text: seq<Byte>, group: seq<Byte>)
    requires m.Packs() && Encodable(m, text) && Encodable(m, group)
    requires |text| % m.Group() == 0 && 0 < |group| <= m.Group()
    ensures Encodable(m, text + group)
    ensures Packed(m, text + group) == Packed(m, text) + BitsOf(Spelled(m, group), m.Width(|group|))
  {
    hide Packed, Spelled, Mode.Width, Mode.ValueOf, BitsOf, Mode.Group;
    var g := m.Group();
    NoCharacters(m);
    if text == [] {
      assert text + group == group;
      ShortText(m, group);
    } else {
      var whole, rest := text + group, text[g..];
      TakeGroup(|text|, g);
      PackedAppend(m, rest, group);
      assert whole[..g] == text[..g] && whole[g..] == rest + group;
      FirstGroup(m, whole);
      if |text| == g {
        assert rest == [] && text[..g] == text;
        ShortText(m, text);
      } else {
        FirstGroup(m, text);
      }
    }
  }

  lemma TakeGroup(n: nat, g: nat)
    requires 0 < g && n % g == 0 && n > 0
    ensures n >= g && (n - g) % g == 0
  {
    var q := n / g;
    assert n == g * q && q >= 1;
    assert n - g == g * (q - 1) + 0;
    ProductNonNegative(g, q - 1);
    DivModUnique(n - g, g, q - 1, 0);
  }

  lemma NoCharacters(m: Mode)
    requires m.Packs()
    ensures Packed(m, []) == [] && m.Group() > 0
  {}

  lemma ShortText(m: Mode, text: seq<Byte>)
    requires m.Packs() && Encodable(m, text) && 0 < |text| <= m.Group()
    ensures Packed(m, text) == BitsOf(Spelled(m, text), m.Width(|text|))
  {
    hide Mode.Width, Mode.ValueOf, Spelled, BitsOf;
  }

  // ---- Making segments -----------------------------------------------------------

  datatype Segment = Segment(mode: Mode, numChars: nat, data: Bits)

  function SegmentOf(m: Mode, text: seq<Byte>): Segment
    requires m.Packs() && Encodable(m, text)
  {
    Segment(m, |text|, Packed(m, text))
  }

  datatype Made = Made(segment: Segment) | DomainError | LengthError

  /** Takes one more character into the current group. */
  lemma OneMoreLetter(m: Mode, text: seq<Byte>, from: nat, i: nat)
    requires m.Packs() && from <= i < |text| && Encodable(m, text[from..i]) && m.ValueOf(text[i]) >= 0
    ensures Encodable(m, text[from..i + 1])
    ensures Spelled(m, text[from..i + 1]) == Spelled(m, text[from..i]) * m.Base() + m.ValueOf(text[i])
  {
    hide Mode.ValueOf, Mode.Base;
    var more := text[from..i + 1];
    assert more[..|more| - 1] == text[from..i] && more[|more| - 1] == text[i];
  }

  /** The state of a packing loop after i characters. */
  ghost predicate Packing(m: Mode, text: seq<Byte>, i: nat, bits: Bits, accumData: nat, accumCount: nat)
    requires m.Packs()
  {
    && accumCount <= i <= |text| && accumCount < m.Group() && (i - accumCount) % m.Group() == 0
    && Encodable(m, text[..i]) && Encodable(m, text[..i - accumCount]) && Encodable(m, text[i - accumCount..i])
    && bits == Packed(m, text[..i - accumCount]) && accumData == Spelled(m, text[i - accumCount..i])
  }

  lemma PackingStarts(m: Mode, text: seq<Byte>)
    requires m.Packs()
    ensures Packing(m, text, 0, [], 0, 0)
  {}

  /** Text[..i] is text[..i - k] and a group of k more. */
  lemma GroupEnds(m: Mode, text: seq<Byte>, i: nat, k: nat)
    requires m.Packs() && k <= i <= |text| && Encodable(m, text[..i - k]) && Encodable(m, text[i - k..i])
    requires (i - k) % m.Group() == 0 && 0 < k <= m.Group()
    ensures Encodable(m, text[..i])
    ensures Packed(m, text[..i]) == Packed(m, text[..i - k]) + BitsOf(Spelled(m, text[i - k..i]), m.Width(k))
    ensures Spelled(m, text[i - k..i]) < Pow2(m.Width(k)) && m.Width(k) <= 31
  {
    hide Packed, Spelled, Mode.Width, Mode.ValueOf, BitsOf;
    PackedAppend(m, text[..i - k], text[i - k..i]);
    GroupFits(m, text[i - k..i]);
    assert text[..i - k] + text[i - k..i] == text[..i];
  }

  /** One turn of a packing loop. */
  lemma PackingStep(m: Mode, text: seq<Byte>, i: nat, bits: Bits, accumData: nat, accumCount: nat)
    requires m.Packs() && i < |text| && m.ValueOf(text[i]) >= 0
    requires Packing(m, text, i, bits, accumData, accumCount)
    ensures var data, count := accumData * m.Base() + m.ValueOf(text[i]), accumCount + 1;
      if count == m.Group()
      then data < Pow2(m.Width(count)) && m.Width(count) <= 31
           && Packing(m, text, i + 1, bits + BitsOf(data, m.Width(count)), 0, 0)
      else Packing(m, text, i + 1, bits, data, count)
  {
    hide Packed, Mode.Width, Mode.ValueOf, BitsOf, Mode.Base;
    OneMoreLetter(m, text, i - accumCount, i);
    EncodableNext(m, text, i);
    if accumCount + 1 == m.Group() {
      GroupEnds(m, text, i + 1, accumCount + 1);
      NextMultiple(i - accumCount, m.Group());
      assert text[i + 1..i + 1] == [];
      hide Spelled;
    }
  }

  lemma EncodableNext(m: Mode, text: seq<Byte>, i: nat)
    requires i < |text| && Encodable(m, text[..i]) && m.ValueOf(text[i]) >= 0
    ensures Encodable(m, text[..i + 1])
  {}

  lemma NextMultiple(a: nat, g: nat)
    requires g > 0 && a % g == 0
    ensures (a + g) % g == 0
  {
    assert a == g * (a / g);
    assert a + g == g * (a / g + 1) + 0;
    DivModUnique(a + g, g, a / g + 1, 0);
  }

  lemma PackingEnds(m: Mode, text: seq<Byte>, bits: Bits, accumData: nat, accumCount: nat)
    requires m.Packs() && Packing(m, text, |text|, bits, accumData, accumCount)
    ensures Encodable(m, text)
    ensures accumCount == 0 ==> bits == Packed(m, text)
    ensures accumCount > 0 ==>
      && accumData < Pow2(m.Width(accumCount)) && m.Width(accumCount) <= 31
      && bits + BitsOf(accumData, m.Width(accumCount)) == Packed(m, text)
  {
    hide Packed, Mode.Width, Mode.ValueOf, BitsOf, Spelled;
    assert text[..|text|] == text;
    if accumCount > 0 {
      GroupEnds(m, text, |text|, accumCount);
    }
  }

  method MakeNumeric(text: seq<Char>) returns (r: Made)
    requires |text| <= INT_MAX
    ensures Encodable(NUMERIC, text) ==> r == Made(SegmentOf(NUMERIC, text))
    ensures !Encodable(NUMERIC, text) ==> r == DomainError
  {
    hide Packing, Packed, Spelled, BitsOf;
    var bb: Bits := [];
    var accumData: nat, accumCount: nat := 0, 0;
    PackingStarts(NUMERIC, text);
    for i := 0 to |text|
      invariant Packing(NUMERIC, text, i, bb, accumData, accumCount)
    {
      var c: int := text[i];
      if c < 48 || c > 57 {
        return DomainError;
      }
      PackingStep(NUMERIC, text, i, bb, accumData, accumCount);
      accumData := accumData * 10 + (c - 48);
      accumCount := accumCount + 1;
      if accumCount == 3 {
        var appended := AppendBits(bb, accumData, 10);
        bb := appended.bits;
        accumData, accumCount := 0, 0;
      }
    }
    PackingEnds(NUMERIC, text, bb, accumData, accumCount);
    if accumCount > 0 {
      var appended := AppendBits(bb, accumData, accumCount * 3 + 1);
      bb := appended.bits;
    }
    return Made(Segment(NUMERIC, |text|, bb));
  }

  method MakeAlphanumeric(text: seq<Char>) returns (r: Made)
    requires |text| <= INT_MAX
    ensures Encodable(ALPHANUMERIC, text) ==> r == Made(SegmentOf(ALPHANUMERIC, text))
    ensures !Encodable(ALPHANUMERIC, text) ==> r == DomainError
  {
    hide Packing, Packed, Spelled, BitsOf, Mode.ValueOf;
    var bb: Bits := [];
    var accumData: nat, accumCount: nat := 0, 0;
    PackingStarts(ALPHANUMERIC, text);
    for i := 0 to |text|
      invariant Packing(ALPHANUMERIC, text, i, bb, accumData, accumCount)
    {
      var value := ALPHANUMERIC.ValueOf(text[i]);
      if value < 0 {
        return DomainError;
      }
      PackingStep(ALPHANUMERIC, text, i, bb, accumData, accumCount);
      accumData := accumData * 45 + value;
      accumCount := accumCount + 1;
      if accumCount == 2 {
        var appended := AppendBits(bb, accumData, 11);
        bb := appended.bits;
        accumData, accumCount := 0, 0;
      }
    }
    PackingEnds(ALPHANUMERIC, text, bb, accumData, accumCount);
    if accumCount > 0 {
      var appended := AppendBits(bb, accumData, 6);
      bb := appended.bits;
    }
    return Made(Segment(ALPHANUMERIC, |text|, bb));
  }

  method MakeBytes(data: seq<Byte>) returns (r: Made)
    ensures Encodable(BYTE, data)
    ensures r == if |data| > INT_MAX then LengthError else Made(SegmentOf(BYTE, data))
  {
    hide Packed, BitsOf, Packing, Spelled;
    AllBytes(data);
    if |data| > INT_MAX {
      return LengthError;
    }
    var bb: Bits := [];
    PackingStarts(BYTE, data);
    for i := 0 to |data|
      invariant Packing(BYTE, data, i, bb, 0, 0)
    {
      PackingStep(BYTE, data, i, bb, 0, 0);
      var appended := AppendBits(bb, data[i], 8);
      bb := appended.bits;
    }
    PackingEnds(BYTE, data, bb, 0, 0);
    return Made(Segment(BYTE, |data|, bb));
  }

  lemma AllBytes(data: seq<Byte>)
    ensures Encodable(BYTE, data)
  {}

  method IsNumeric(text: seq<Char>) returns (r: bool)
    ensures r == Encodable(NUMERIC, text)
  {
    for i := 0 to |text|
      invariant forall k :: 0 <= k < i ==> NUMERIC.ValueOf(text[k]) >= 0
    {
      if text[i] < 48 || text[i] > 57 {
        return false;
      }
    }
    return true;
  }

  method IsAlphanumeric(text: seq<Char>) returns (r: bool)
    ensures r == Encodable(ALPHANUMERIC, text)
  {
    hide Mode.ValueOf;
    for i := 0 to |text|
      invariant forall k :: 0 <= k < i ==> ALPHANUMERIC.ValueOf(text[k]) >= 0
    {
      if ALPHANUMERIC.ValueOf(text[i]) < 0 {
        return false;
      }
    }
    return true;
  }

  /** The densest mode that can hold a text. */
  function BestMode(text: seq<Byte>): (m: Mode)
    ensures m.Packs() && Encodable(m, text)
  {
    if Encodable(NUMERIC, text) then NUMERIC
    else if Encodable(ALPHANUMERIC, text) then ALPHANUMERIC
    else BYTE
  }

  function SegmentsOf(text: seq<Byte>): seq<Segment> {
    if text == [] then [] else [SegmentOf(BestMode(text), text)]
  }

  datatype MadeAll = MadeAll(segs: seq<Segment>) | TextTooLong

  /** A count of digits or alphanumeric characters must fit an int; more bytes
      than that are refused. */
  method MakeSegments(text: seq<Char>) returns (r: MadeAll)
    requires BestMode(text) != BYTE ==> |text| <= INT_MAX
    ensures r == if |text| > INT_MAX then TextTooLong else MadeAll(SegmentsOf(text))
  {
    hide Packed, Encodable, Mode.ValueOf;
    if text == [] {
      return MadeAll([]);
    }
    var numeric := IsNumeric(text);
    if numeric {
      var made := MakeNumeric(text);
      return MadeAll([made.segment]);
    }
    var alphanumeric := IsAlphanumeric(text);
    if alphanumeric {
      var made := MakeAlphanumeric(text);
      return MadeAll([made.segment]);
    }
    var bytes: seq<Byte> := [];
    for i := 0 to |text|
      invariant bytes == text[..i]
    {
      bytes := bytes + [text[i]];
    }
    assert bytes == text;
    var made := MakeBytes(bytes);
    return if made.LengthError? then TextTooLong else MadeAll([made.segment]);
  }

  // ---- Segments as a bit string ------------------------------------------------------

  function SegmentBits(s: Segment, v: nat): Bits {
    BitsOf(s.mode.ModeBits(), 4) + BitsOf(s.numChars, s.mode.NumCharCountBits(v)) + s.data
  }

  function ListBits(segs: seq<Segment>, v: nat): Bits {
    if segs == [] then [] else ListBits(segs[..|segs| - 1], v) + SegmentBits(segs[|segs| - 1], v)
  }

  /** Every character count fits its field. */
  predicate CountsFit(segs: seq<Segment>, v: nat) {
    forall i :: 0 <= i < |segs| ==> CountFits(segs[i], v)
  }

  predicate CountFits(s: Segment, v: nat) {
    s.numChars < Pow2(s.mode.NumCharCountBits(v))
  }

  lemma PrefixBits(segs: seq<Segment>, v: nat, i: nat)
    requires i < |segs|
    ensures ListBits(segs[..i + 1], v) == ListBits(segs[..i], v) + SegmentBits(segs[i], v)
  {
    assert segs[..i + 1][..i] == segs[..i];
  }

  lemma {:induction false} PrefixIsShorter(segs: seq<Segment>, v: nat, i: nat)
    requires i <= |segs|
    ensures |ListBits(segs[..i], v)| <= |ListBits(segs, v)|
    decreases |segs| - i
  {
    hide SegmentBits, ListBits;
    if i < |segs| {
      PrefixBits(segs, v, i);
      PrefixIsShorter(segs, v, i + 1);
    } else {
      assert segs[..i] == segs;
    }
  }

  /** The length of the bit string, or -1 if a count does not fit its field or
      the length does not fit an int. */
  method GetTotalBits(segs: seq<Segment>, v: nat) returns (result: int)
    ensures result == if CountsFit(segs, v) && |ListBits(segs, v)| <= INT_MAX then |ListBits(segs, v)| else -1
  {
    hide ListBits, Mode.NumCharCountBits, Mode.ModeBits, BitsOf, Pow2;
    result := 0;
    assert ListBits(segs[..0], v) == [] by { NoBits(v); }
    for i := 0 to |segs|
      invariant CountsFit(segs[..i], v) && result == |ListBits(segs[..i], v)| <= INT_MAX
    {
      PrefixBits(segs, v, i);
      PrefixIsShorter(segs, v, i + 1);
      var ccbits := segs[i].mode.NumCharCountBits(v);
      if segs[i].numChars >= Pow2(ccbits) {
        return -1;
      }
      if 4 + ccbits > INT_MAX - result {
        return -1;
      }
      result := result + 4 + ccbits;
      assert result <= INT_MAX;  // no overflow
      if |segs[i].data| > INT_MAX - result {
        return -1;
      }
      result := result + |segs[i].data|;
    }
    assert segs[..|segs|] == segs;
  }

  lemma NoBits(v: nat)
    ensures ListBits([], v) == []
  {}

  // ---- The reader ------------------------------------------------------------------------

  datatype Parsed = Parsed(segs: seq<Segment>) | Malformed

  /** How many data bits follow the header of a segment; -1 if the data does
      not tell. */
  function DataBits(m: Mode, count: nat, rest: Bits): int {
    match m
    case KANJI => 13 * count
    case ECI =>
      if |rest| >= 1 && !rest[0] then 8
      else if |rest| >= 2 && !rest[1] then 16
      else if |rest| >= 3 && !rest[2] then 24
      else -1
    case _ => PackedLength(m, count)
  }

  /** A segment whose data is as long as its header announces. */
  predicate WellFormed(s: Segment) {
    DataBits(s.mode, s.numChars, s.data) == |s.data| && (s.mode == ECI ==> s.numChars == 0)
  }

  /** The mode that a mode indicator stands for. */
  function ModeOf(x: nat): Option<Mode> {
    match x
    case 1 => Some(NUMERIC)
    case 2 => Some(ALPHANUMERIC)
    case 4 => Some(BYTE)
    case 8 => Some(KANJI)
    case 7 => Some(ECI)
    case _ => None
  }

  /** Reads segments until the terminator or the end of the data. */
  function Parse(bits: Bits, v: nat): Parsed
    decreases |bits|
  {
    if |bits| < 4 || Number(bits[..4]) == 0 then Parsed([])
    else
      var mode := ModeOf(Number(bits[..4]));
      if mode.None? then Malformed
      else
        var m := mode.value;
        var w := m.NumCharCountBits(v);
        if |bits| < 4 + w then Malformed
        else
          var count, rest := Number(bits[4..4 + w]), bits[4 + w..];
          var length := DataBits(m, count, rest);
          if length < 0 || length > |rest| then Malformed
          else
            match Parse(rest[length..], v)
            case Malformed => Malformed
            case Parsed(segs) => Parsed([Segment(m, count, rest[..length])] + segs)
  }

  /** What may follow the last segment: the terminator, or the end. */
  ghost predicate Ending(tail: Bits) {
    |tail| < 4 || Number(tail[..4]) == 0
  }

  lemma ParseSegment(s: Segment, more: Bits, v: nat)
    requires WellFormed(s) && CountFits(s, v)
    ensures Parse(SegmentBits(s, v) + more, v) == match Parse(more, v)
      case Malformed => Malformed
      case Parsed(segs) => Parsed([s] + segs)
  {
    hide BitsOf, Number, Mode.NumCharCountBits, PackedLength;
    var w := s.mode.NumCharCountBits(v);
    var bits := SegmentBits(s, v) + more;
    assert bits[..4] == BitsOf(s.mode.ModeBits(), 4);
    assert bits[4..4 + w] == BitsOf(s.numChars, w);
    assert bits[4 + w..] == s.data + more;
    NumberBitsOf(s.numChars, w);
    ModeNumber(s.mode);
    assert (s.data + more)[|s.data|..] == more && (s.data + more)[..|s.data|] == s.data;
  }

  lemma ModeNumber(m: Mode)
    ensures Number(BitsOf(m.ModeBits(), 4)) == m.ModeBits() && ModeOf(m.ModeBits()) == Some(m)
  {
    assert Pow2(4) == 16;
    NumberBitsOf(m.ModeBits(), 4);
  }

  /** The reader finds the segments again, whatever their number. */
  lemma {:induction false} ParseList(segs: seq<Segment>, more: Bits, v: nat)
    requires forall i :: 0 <= i < |segs| ==> WellFormed(segs[i])
    requires CountsFit(segs, v)
    ensures Parse(ListBits(segs, v) + more, v) == match Parse(more, v)
      case Malformed => Malformed
      case Parsed(t) => Parsed(segs + t)
  {
    hide SegmentBits, Parse, WellFormed;
    if segs == [] {
      assert ListBits(segs, v) + more == more;
      match Parse(more, v) {
        case Malformed =>
        case Parsed(t) => assert segs + t == t;
      }
    } else {
      var init, last := segs[..|segs| - 1], segs[|segs| - 1];
      ParseList(init, SegmentBits(last, v) + more, v);
      ParseSegment(last, more, v);
      assert ListBits(segs, v) + more == ListBits(init, v) + (SegmentBits(last, v) + more);
      match Parse(more, v) {
        case Malformed =>
        case Parsed(t) => assert init + ([last] + t) == segs + t;
      }
    }
  }

  /** The characters of a segment. */
  function CharsOf(s: Segment): seq<nat> {
    if s.mode.Packs() && |s.data| == PackedLength(s.mode, s.numChars) then Unpacked(s.mode, s.data, s.numChars) else []
  }

  function TextOf(segs: seq<Segment>): seq<nat> {
    if segs == [] then [] else TextOf(segs[..|segs| - 1]) + CharsOf(segs[|segs| - 1])
  }

  lemma EmptyTail(tail: Bits, v: nat)
    requires Ending(tail)
    ensures Parse(tail, v) == Parsed([])
  {}

  // ---- The standard's tables and examples ---------------------------------------------

  /** Table 5: the values of the 45 characters. */
  lemma CharacterValues(c: char)
    requires c as int < 256
    ensures var value := ALPHANUMERIC.ValueOf(c as int);
      && ('0' <= c <= '9' ==> value == c as int - '0' as int == NUMERIC.ValueOf(c as int))
      && ('A' <= c <= 'Z' ==> value == 10 + c as int - 'A' as int)
      && (c == ' ' ==> value == 36) && (c == '$' ==> value == 37) && (c == '%' ==> value == 38)
      && (c == '*' ==> value == 39) && (c == '+' ==> value == 40) && (c == '-' ==> value == 41)
      && (c == '.' ==> value == 42) && (c == '/' ==> value == 43) && (c == ':' ==> value == 44)
  {}

  /** Table 3: the widths of the character count. */
  lemma CountWidths(v: nat)
    requires 1 <= v <= 40
    ensures NUMERIC.NumCharCountBits(v) == if v <= 9 then 10 else if v <= 26 then 12 else 14
    ensures ALPHANUMERIC.NumCharCountBits(v) == if v <= 9 then 9 else if v <= 26 then 11 else 13
    ensures BYTE.NumCharCountBits(v) == if v <= 9 then 8 else 16
    ensures KANJI.NumCharCountBits(v) == if v <= 9 then 8 else if v <= 26 then 10 else 12
    ensures ECI.NumCharCountBits(v) == 0
  {}

  /** Table 2: the mode indicators, in front of the count and the data. */
  lemma ModeIndicators(s: Segment, v: nat)
    ensures SegmentBits(s, v)
      == BitsOf(match s.mode { case NUMERIC => 1 case ALPHANUMERIC => 2 case BYTE => 4 case KANJI => 8 case ECI => 7 }, 4)
         + BitsOf(s.numChars, s.mode.NumCharCountBits(v)) + s.data
  {
    hide BitsOf;
  }

  lemma SpelledOne(m: Mode, a: Byte)
    requires m.ValueOf(a) >= 0
    ensures Spelled(m, [a]) == m.ValueOf(a)
  {
    hide Mode.ValueOf, Mode.Base;
    assert [a][..0] == [] && Spelled(m, []) == 0;
  }

  lemma SpelledTwo(m: Mode, a: Byte, b: Byte)
    requires m.ValueOf(a) >= 0 && m.ValueOf(b) >= 0
    ensures Spelled(m, [a, b]) == m.ValueOf(a) * m.Base() + m.ValueOf(b)
  {
    SpelledOne(m, a);
    hide Mode.ValueOf, Mode.Base;
    assert [a, b][..1] == [a];
  }

  lemma SpelledThree(m: Mode, a: Byte, b: Byte, c: Byte)
    requires m.ValueOf(a) >= 0 && m.ValueOf(b) >= 0 && m.ValueOf(c) >= 0
    ensures Spelled(m, [a, b, c]) == (m.ValueOf(a) * m.Base() + m.ValueOf(b)) * m.Base() + m.ValueOf(c)
  {
    SpelledTwo(m, a, b);
    hide Mode.ValueOf, Mode.Base;
    assert [a, b, c][..2] == [a, b];
  }

  lemma GroupByGroup(m: Mode, text: seq<Byte>)
    requires m.Packs() && Encodable(m, text) && |text| >= m.Group()
    ensures Packed(m, text) == BitsOf(Spelled(m, text[..m.Group()]), m.Width(m.Group())) + Packed(m, text[m.Group()..])
  {
    hide Spelled, BitsOf, Mode.ValueOf, Mode.Width;
    if |text| == m.Group() {
      assert text[..m.Group()] == text;
      ShortText(m, text);
      NoCharacters(m);
    } else {
      FirstGroup(m, text);
    }
  }

  /** Section 7.4.3: three digits take ten bits ... */
  lemma NumericGroup(text: seq<Byte>)
    requires Encodable(NUMERIC, text) && |text| >= 3
    ensures var a, b, c := NUMERIC.ValueOf(text[0]), NUMERIC.ValueOf(text[1]), NUMERIC.ValueOf(text[2]);
      Packed(NUMERIC, text) == BitsOf(100 * a + 10 * b + c, 10) + Packed(NUMERIC, text[3..])
  {
    hide BitsOf, Packed, Spelled, Mode.ValueOf;
    GroupByGroup(NUMERIC, text);
    assert text[..3] == [text[0], text[1], text[2]];
    SpelledThree(NUMERIC, text[0], text[1], text[2]);
  }

  /** ... and a rest of two takes seven, of one four. */
  lemma NumericRest(text: seq<Byte>)
    requires Encodable(NUMERIC, text) && 0 < |text| < 3
    ensures Packed(NUMERIC, text)
         == if |text| == 2 then BitsOf(10 * NUMERIC.ValueOf(text[0]) + NUMERIC.ValueOf(text[1]), 7)
            else BitsOf(NUMERIC.ValueOf(text[0]), 4)
  {
    hide BitsOf, Packed, Spelled, Mode.ValueOf;
    ShortText(NUMERIC, text);
    if |text| == 2 {
      assert text == [text[0], text[1]];
      SpelledTwo(NUMERIC, text[0], text[1]);
    } else {
      assert text == [text[0]];
      SpelledOne(NUMERIC, text[0]);
    }
  }

  /** Section 7.4.4: two characters take eleven bits ... */
  lemma AlphanumericGroup(text: seq<Byte>)
    requires Encodable(ALPHANUMERIC, text) && |text| >= 2
    ensures var a, b := ALPHANUMERIC.ValueOf(text[0]), ALPHANUMERIC.ValueOf(text[1]);
      Packed(ALPHANUMERIC, text) == BitsOf(45 * a + b, 11) + Packed(ALPHANUMERIC, text[2..])
  {
    hide BitsOf, Packed, Spelled, Mode.ValueOf;
    GroupByGroup(ALPHANUMERIC, text);
    assert text[..2] == [text[0], text[1]];
    SpelledTwo(ALPHANUMERIC, text[0], text[1]);
  }

  /** ... and a last one six. */
  lemma AlphanumericRest(text: seq<Byte>)
    requires Encodable(ALPHANUMERIC, text) && |text| == 1
    ensures Packed(ALPHANUMERIC, text) == BitsOf(ALPHANUMERIC.ValueOf(text[0]), 6)
  {
    hide BitsOf, Packed, Spelled, Mode.ValueOf;
    ShortText(ALPHANUMERIC, text);
    assert text == [text[0]];
    SpelledOne(ALPHANUMERIC, text[0]);
  }

  /** Section 7.4.5: eight bits a byte. */
  lemma BytePacking(text: seq<Byte>)
    requires Encodable(BYTE, text) && text != []
    ensures Packed(BYTE, text) == BitsOf(text[0], 8) + Packed(BYTE, text[1..])
  {
    hide BitsOf, Packed, Spelled;
    GroupByGroup(BYTE, text);
    SpelledOne(BYTE, text[0]);
    assert text[..1] == [text[0]];
  }
}
