/** From segments to data codewords: the version, the error correction level
    and the padding. */
module Encoding {
  import opened Binary
  import opened Placement
  import opened BitStrings
  import opened QrTables
  import opened Segments

  /** The number of data bits a symbol holds. */
  function Capacity(v: nat, ecl: Ecl): int {
    8 * NumDataCodewords(v, ecl)
  }

  predicate Fits(segs: seq<Segment>, v: nat, ecl: Ecl) {
    CountsFit(segs, v) && |ListBits(segs, v)| <= Capacity(v, ecl)
  }

  lemma CapacityBound(v: nat, ecl: Ecl)
    requires Version(v)
    ensures 0 < Capacity(v, ecl) <= INT_MAX
  {
    LayoutsAreValid(v, ecl);
    LevelIsPlausible(v, ecl);
    RawBound(v);
    ProductNonNegative(EccCodewordsPerBlock(ecl, v), NumErrorCorrectionBlocks(ecl, v));
    hide EccCodewordsPerBlock, NumErrorCorrectionBlocks, NumRawDataModules;
  }

  lemma RawBound(v: nat)
    requires Version(v)
    ensures NumRawDataModules(v) <= 40000
  {
    hide NumRawDataModules;
    TablesArePlausible(v);
    BlocksBound(v);
    hide LowBlocks, LowEccPerBlock, MediumBlocks, QuartileBlocks, HighBlocks;
    hide MediumEccPerBlock, QuartileEccPerBlock, HighEccPerBlock;
  }

  lemma BlocksBound(v: nat)
    ensures LowBlocks(v) <= 25
  {}

  // ---- Version and level -----------------------------------------------------------

  datatype Choice =
    | Chosen(version: nat, used: nat)
    | SegmentTooLong
    | DataTooLong(usedBits: nat, capacityBits: int)

  /** The least version of the range that the segments fit. */
  method ChooseVersion(segs: seq<Segment>, ecl: Ecl, minVersion: nat, maxVersion: nat) returns (r: Choice)
    requires Version(minVersion) && Version(maxVersion) && minVersion <= maxVersion
    ensures r.Chosen? ==>
      && minVersion <= r.version <= maxVersion
      && Fits(segs, r.version, ecl) && r.used == |ListBits(segs, r.version)|
      && forall v :: minVersion <= v < r.version ==> !Fits(segs, v, ecl)
    ensures !r.Chosen? ==> forall v :: minVersion <= v <= maxVersion ==> !Fits(segs, v, ecl)
    ensures r.SegmentTooLong? ==> !CountsFit(segs, maxVersion) || |ListBits(segs, maxVersion)| > INT_MAX
    ensures r.DataTooLong? ==>
      && CountsFit(segs, maxVersion) && r.usedBits == |ListBits(segs, maxVersion)|
      && r.capacityBits == Capacity(maxVersion, ecl) < r.usedBits
  {
    hide Capacity, CountsFit, ListBits;
    var version := minVersion;
    while true
      invariant minVersion <= version <= maxVersion
      invariant forall v :: minVersion <= v < version ==> !Fits(segs, v, ecl)
      decreases maxVersion - version
    {
      var dataCapacityBits := Capacity(version, ecl);
      CapacityBound(version, ecl);
      var dataUsedBits := GetTotalBits(segs, version);
      if dataUsedBits != -1 && dataUsedBits <= dataCapacityBits {
        return Chosen(version, dataUsedBits);
      }
      if version >= maxVersion {
        if dataUsedBits == -1 {
          return SegmentTooLong;
        }
        return DataTooLong(dataUsedBits, dataCapacityBits);
      }
      version := version + 1;
    }
  }

  /** The highest level that the data still fits; never below the request. */
  method BoostLevel(version: nat, requested: Ecl, used: nat, boost: bool) returns (ecl: Ecl)
    requires Version(version) && used <= Capacity(version, requested)
    ensures used <= Capacity(version, ecl) && requested.Ordinal() <= ecl.Ordinal()
    ensures boost ==> forall e: Ecl :: ecl.Ordinal() < e.Ordinal() ==> Capacity(version, e) < used
    ensures !boost ==> ecl == requested
  {
    hide Capacity;
    ecl := requested;
    var levels := [MEDIUM, QUARTILE, HIGH];
    for i := 0 to 3
      invariant used <= Capacity(version, ecl)
      invariant !boost ==> ecl == requested
      invariant boost && i == 0 ==> ecl == requested
      invariant boost && i > 0 ==> Min(requested.Ordinal(), i) <= ecl.Ordinal() <= i
      invariant boost ==> forall e: Ecl :: ecl.Ordinal() < e.Ordinal() <= i ==> Capacity(version, e) < used
    {
      var newEcl := levels[i];
      if boost && used <= Capacity(version, newEcl) {
        ecl := newEcl;
      } else if newEcl.Ordinal() <= requested.Ordinal() {
        HigherHoldsLess(version, newEcl, requested);
      }
    }
  }

  lemma HigherHoldsLess(v: nat, low: Ecl, high: Ecl)
    requires Version(v) && low.Ordinal() <= high.Ordinal()
    ensures Capacity(v, high) <= Capacity(v, low)
  {
    CapacityFalls(v, low, high);
    hide NumDataCodewords;
  }

  // ---- Padding ----------------------------------------------------------------------

  function PadByte(k: nat): nat {
    if k % 2 == 0 then 0xEC else 0x11
  }

  function PadBytes(k: nat): (b: Bits)
    ensures |b| == 8 * k
  {
    if k == 0 then [] else PadBytes(k - 1) + BitsOf(PadByte(k - 1), 8)
  }

  /** The bits with their terminator, filled up to a whole number of octets. */
  function Terminated(bits: Bits, capacity: nat): (b: Bits)
    requires |bits| <= capacity && capacity % 8 == 0
    ensures |bits| <= |b| <= capacity && |b| % 8 == 0
  {
    var t := |bits| + Min(4, capacity - |bits|);
    bits + BitsOf(0, Min(4, capacity - |bits|)) + BitsOf(0, (8 - t % 8) % 8)
  }

  lemma OctetCount(a: nat, capacity: nat)
    requires a <= capacity && a % 8 == capacity % 8 == 0
    ensures 8 * ((capacity - a) / 8) == capacity - a
  {}

  function Padded(bits: Bits, capacity: nat): (b: Bits)
    requires |bits| <= capacity && capacity % 8 == 0
    ensures |b| == capacity
  {
    hide BitsOf, Terminated, PadBytes;
    var t := Terminated(bits, capacity);
    OctetCount(|t|, capacity);
    t + PadBytes((capacity - |t|) / 8)
  }

  lemma PadByteNext(k: nat)
    ensures Xor(PadByte(k), Xor(0xEC, 0x11)) == PadByte(k + 1)
  {
    hide Xor;
    XorCancels(0x11, 0xEC);
    XorCancels(0xEC, 0x11);
    XorCommutes(0xEC, 0x11);
    XorCommutes(0x11, Xor(0xEC, 0x11));
  }

  lemma PadByteRange(k: nat)
    ensures PadByte(k) < Pow2(8) && Pow2(0) == 1 && 0 < Pow2(4) && 0 < Pow2(7)
  {
    assert Pow2(8) == 256;
  }

  method PadToCapacity(bits: Bits, capacity: nat) returns (bb: Bits)
    requires |bits| <= capacity && capacity % 8 == 0
    ensures bb == Padded(bits, capacity)
  {
    hide BitsOf, Pow2;
    PadByteRange(0);
    var first := AppendBits(bits, 0, Min(4, capacity - |bits|));
    bb := first.bits;
    var second := AppendBits(bb, 0, (8 - |bb| % 8) % 8);
    bb := second.bits;
    assert bb == Terminated(bits, capacity);
    hide Terminated;
    bb := PadOctets(bb, capacity);
  }

  /** Pads with alternating octets. */
  method PadOctets(bits: Bits, capacity: nat) returns (bb: Bits)
    requires |bits| <= capacity && capacity % 8 == |bits| % 8 == 0
    ensures bb == bits + PadBytes((capacity - |bits|) / 8)
  {
    hide BitsOf, Pow2, Xor, PadBytes, PadByte;
    bb := bits;
    ghost var k := 0;
    var padByte := 0xEC;
    StartOfPadding();
    while |bb| < capacity
      invariant bb == bits + PadBytes(k) && |bb| == |bits| + 8 * k <= capacity
      invariant padByte == PadByte(k)
      decreases capacity - |bb|
    {
      PadByteRange(k);
      var appended := AppendBits(bb, padByte, 8);
      bb := appended.bits;
      PadByteNext(k);
      padByte := Xor(padByte, Xor(0xEC, 0x11));
      PadBytesNext(k);
      k := k + 1;
    }
  }

  lemma StartOfPadding()
    ensures PadBytes(0) == [] && PadByte(0) == 0xEC
  {}

  lemma PadBytesNext(k: nat)
    ensures PadBytes(k + 1) == PadBytes(k) + BitsOf(PadByte(k), 8)
  {}

  /** What the padding consists of, octet by octet. */
  lemma {:induction false} PaddingOctet(k: nat, i: nat)
    requires i < k
    ensures PadBytes(k)[8 * i..8 * i + 8] == BitsOf(if i % 2 == 0 then 0xEC else 0x11, 8)
  {
    hide BitsOf;
    PadBytesNext(k - 1);
    var before, last := PadBytes(k - 1), BitsOf(PadByte(k - 1), 8);
    if i < k - 1 {
      PaddingOctet(k - 1, i);
      assert (before + last)[8 * i..8 * i + 8] == before[8 * i..8 * i + 8];
    } else {
      assert (before + last)[8 * i..8 * i + 8] == last;
    }
  }

  lemma {:induction false} ZeroBits(len: nat)
    ensures BitsOf(0, len) == seq(len, _ => false)
    ensures Number(BitsOf(0, len)) == 0
  {
    if len > 0 {
      ZeroBits(len - 1);
      assert BitsOf(0, len)[..len - 1] == BitsOf(0, len - 1);
    }
  }

  /** Padding keeps the data, and a reader stops where it begins. */
  lemma PaddedParts(bits: Bits, capacity: nat)
    requires |bits| <= capacity && capacity % 8 == 0
    ensures Padded(bits, capacity)[..|bits|] == bits
    ensures Ending(Padded(bits, capacity)[|bits|..])
  {
    hide BitsOf, PadBytes, Number;
    var p := Padded(bits, capacity);
    if capacity - |bits| >= 4 {
      assert p[|bits|..][..4] == BitsOf(0, 4);
      ZeroBits(4);
    }
  }

  /** The segments one after the other. */
  method Concatenate(segs: seq<Segment>, v: nat) returns (bb: Bits)
    requires CountsFit(segs, v)
    ensures bb == ListBits(segs, v)
  {
    hide ListBits, BitsOf, Pow2, Mode.NumCharCountBits, Mode.ModeBits;
    bb := [];
    NoBits(v);
    assert segs[..0] == [];
    for i := 0 to |segs|
      invariant bb == ListBits(segs[..i], v)
    {
      var s := segs[i];
      assert CountFits(s, v);
      HeaderFits(s, v);
      var mode := AppendBits(bb, s.mode.ModeBits(), 4);
      var count := AppendBits(mode.bits, s.numChars, s.mode.NumCharCountBits(v));
      PrefixBits(segs, v, i);
      var m, c := BitsOf(s.mode.ModeBits(), 4), BitsOf(s.numChars, s.mode.NumCharCountBits(v));
      assert (bb + m) + c + s.data == bb + (m + c + s.data);
      bb := count.bits + s.data;
    }
    assert segs[..|segs|] == segs;
  }

  lemma HeaderFits(s: Segment, v: nat)
    ensures s.mode.ModeBits() < Pow2(4) && s.mode.NumCharCountBits(v) <= 31
  {
    assert Pow2(4) == 16;
  }

  // ---- Data codewords ------------------------------------------------------------------

  /** The data codewords of a symbol. */
  function DataCodewords(segs: seq<Segment>, v: nat, ecl: Ecl): (data: seq<Byte>)
    requires Version(v) && Fits(segs, v, ecl)
    ensures |data| == NumDataCodewords(v, ecl)
  {
    hide ListBits, CountsFit, NumDataCodewords;
    Pack(Padded(ListBits(segs, v), Capacity(v, ecl)))
  }

  /** A reader of data codewords finds the segments, whatever they are. */
  lemma ParseCodewords(segs: seq<Segment>, v: nat, ecl: Ecl)
    requires Version(v) && Fits(segs, v, ecl)
    requires forall i :: 0 <= i < |segs| ==> WellFormed(segs[i])
    ensures Parse(CodewordBits(DataCodewords(segs, v, ecl)), v) == Parsed(segs)
  {
    hide ListBits, NumDataCodewords, Padded, Pack, CodewordBits, Parse, WellFormed;
    var bits, p := ListBits(segs, v), Padded(ListBits(segs, v), Capacity(v, ecl));
    PackedBits(p);
    PaddedParts(bits, Capacity(v, ecl));
    var tail := p[|bits|..];
    assert p == bits + tail;
    EmptyTail(tail, v);
    ParseList(segs, tail, v);
    assert segs + [] == segs;
  }

  /** Bytes as one segment. */
  lemma BytesAreWellFormed(data: seq<Byte>)
    ensures Encodable(BYTE, data) && WellFormed(SegmentOf(BYTE, data))
    ensures TextOf([SegmentOf(BYTE, data)]) == data
  {
    hide Packed, Unpacked, PackedLength;
    AllBytes(data);
    UnpackedPacked(BYTE, data);
    assert [SegmentOf(BYTE, data)][..0] == [];
  }

  lemma TextIsWellFormed(text: seq<Byte>)
    ensures forall i :: 0 <= i < |SegmentsOf(text)| ==> WellFormed(SegmentsOf(text)[i])
    ensures TextOf(SegmentsOf(text)) == text
  {
    hide Packed, Unpacked, PackedLength, BestMode;
    if text != [] {
      UnpackedPacked(BestMode(text), text);
      assert SegmentsOf(text)[..0] == [];
    }
  }
}
