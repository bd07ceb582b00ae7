/** The error correction levels and the block tables of ISO/IEC 18004:2015
    (table 9), and the block layouts they give. */
module QrTables {
  import opened Interleaving

  datatype Ecl = LOW | MEDIUM | QUARTILE | HIGH {
    function Ordinal(): nat {
      match this
      case LOW => 0
      case MEDIUM => 1
      case QUARTILE => 2
      case HIGH => 3
    }

    /** The two bits that stand for the level in the format information. */
    function FormatCode(): nat {
      match this
      case LOW => 1
      case MEDIUM => 0
      case QUARTILE => 3
      case HIGH => 2
    }
  }

  predicate Version(v: int) {
    1 <= v <= 40
  }

  // Error correction codewords per block, by version from 1 to 40.

  function LowEccPerBlock(v: nat): int {
    match v
    case 1 => 7 case 2 => 10 case 3 => 15 case 4 => 20 case 5 => 26 case 6 => 18 case 7 => 20 case 8 => 24
    case 9 => 30 case 10 => 18 case 11 => 20 case 12 => 24 case 13 => 26 case 14 => 30 case 15 => 22
    case 16 => 24 case 17 => 28 case 18 => 30 case 19 => 28 case 20 => 28 case 21 => 28 case 22 => 28
    case 23 => 30 case 24 => 30 case 25 => 26 case 26 => 28 case 27 => 30 case 28 => 30 case 29 => 30
    case 30 => 30 case 31 => 30 case 32 => 30 case 33 => 30 case 34 => 30 case 35 => 30 case 36 => 30
    case 37 => 30 case 38 => 30 case 39 => 30
    case _ => 30
  }

  function MediumEccPerBlock(v: nat): int {
    match v
    case 1 => 10 case 2 => 16 case 3 => 26 case 4 => 18 case 5 => 24 case 6 => 16 case 7 => 18 case 8 => 22
    case 9 => 22 case 10 => 26 case 11 => 30 case 12 => 22 case 13 => 22 case 14 => 24 case 15 => 24
    case 16 => 28 case 17 => 28 case 18 => 26 case 19 => 26 case 20 => 26 case 21 => 26 case 22 => 28
    case 23 => 28 case 24 => 28 case 25 => 28 case 26 => 28 case 27 => 28 case 28 => 28 case 29 => 28
    case 30 => 28 case 31 => 28 case 32 => 28 case 33 => 28 case 34 => 28 case 35 => 28 case 36 => 28
    case 37 => 28 case 38 => 28 case 39 => 28
    case _ => 28
  }

  function QuartileEccPerBlock(v: nat): int {
    match v
    case 1 => 13 case 2 => 22 case 3 => 18 case 4 => 26 case 5 => 18 case 6 => 24 case 7 => 18 case 8 => 22
    case 9 => 20 case 10 => 24 case 11 => 28 case 12 => 26 case 13 => 24 case 14 => 20 case 15 => 30
    case 16 => 24 case 17 => 28 case 18 => 28 case 19 => 26 case 20 => 30 case 21 => 28 case 22 => 30
    case 23 => 30 case 24 => 30 case 25 => 30 case 26 => 28 case 27 => 30 case 28 => 30 case 29 => 30
    case 30 => 30 case 31 => 30 case 32 => 30 case 33 => 30 case 34 => 30 case 35 => 30 case 36 => 30
    case 37 => 30 case 38 => 30 case 39 => 30
    case _ => 30
  }

  function HighEccPerBlock(v: nat): int {
    match v
    case 1 => 17 case 2 => 28 case 3 => 22 case 4 => 16 case 5 => 22 case 6 => 28 case 7 => 26 case 8 => 26
    case 9 => 24 case 10 => 28 case 11 => 24 case 12 => 28 case 13 => 22 case 14 => 24 case 15 => 24
    case 16 => 30 case 17 => 28 case 18 => 28 case 19 => 26 case 20 => 28 case 21 => 30 case 22 => 24
    case 23 => 30 case 24 => 30 case 25 => 30 case 26 => 30 case 27 => 30 case 28 => 30 case 29 => 30
    case 30 => 30 case 31 => 30 case 32 => 30 case 33 => 30 case 34 => 30 case 35 => 30 case 36 => 30
    case 37 => 30 case 38 => 30 case 39 => 30
    case _ => 30
  }

  // Error correction blocks, by version from 1 to 40.

  function LowBlocks(v: nat): int {
    match v
    case 1 => 1 case 2 => 1 case 3 => 1 case 4 => 1 case 5 => 1 case 6 => 2 case 7 => 2 case 8 => 2
    case 9 => 2 case 10 => 4 case 11 => 4 case 12 => 4 case 13 => 4 case 14 => 4 case 15 => 6 case 16 => 6
    case 17 => 6 case 18 => 6 case 19 => 7 case 20 => 8 case 21 => 8 case 22 => 9 case 23 => 9 case 24 => 10
    case 25 => 12 case 26 => 12 case 27 => 12 case 28 => 13 case 29 => 14 case 30 => 15 case 31 => 16
    case 32 => 17 case 33 => 18 case 34 => 19 case 35 => 19 case 36 => 20 case 37 => 21 case 38 => 22
    case 39 => 24
    case _ => 25
  }

  function MediumBlocks(v: nat): int {
    match v
    case 1 => 1 case 2 => 1 case 3 => 1 case 4 => 2 case 5 => 2 case 6 => 4 case 7 => 4 case 8 => 4
    case 9 => 5 case 10 => 5 case 11 => 5 case 12 => 8 case 13 => 9 case 14 => 9 case 15 => 10 case 16 => 10
    case 17 => 11 case 18 => 13 case 19 => 14 case 20 => 16 case 21 => 17 case 22 => 17 case 23 => 18
    case 24 => 20 case 25 => 21 case 26 => 23 case 27 => 25 case 28 => 26 case 29 => 28 case 30 => 29
    case 31 => 31 case 32 => 33 case 33 => 35 case 34 => 37 case 35 => 38 case 36 => 40 case 37 => 43
    case 38 => 45 case 39 => 47
    case _ => 49
  }

  function QuartileBlocks(v: nat): int {
    match v
    case 1 => 1 case 2 => 1 case 3 => 2 case 4 => 2 case 5 => 4 case 6 => 4 case 7 => 6 case 8 => 6
    case 9 => 8 case 10 => 8 case 11 => 8 case 12 => 10 case 13 => 12 case 14 => 16 case 15 => 12
    case 16 => 17 case 17 => 16 case 18 => 18 case 19 => 21 case 20 => 20 case 21 => 23 case 22 => 23
    case 23 => 25 case 24 => 27 case 25 => 29 case 26 => 34 case 27 => 34 case 28 => 35 case 29 => 38
    case 30 => 40 case 31 => 43 case 32 => 45 case 33 => 48 case 34 => 51 case 35 => 53 case 36 => 56
    case 37 => 59 case 38 => 62 case 39 => 65
    case _ => 68
  }

  function HighBlocks(v: nat): int {
    match v
    case 1 => 1 case 2 => 1 case 3 => 2 case 4 => 4 case 5 => 4 case 6 => 4 case 7 => 5 case 8 => 6
    case 9 => 8 case 10 => 8 case 11 => 11 case 12 => 11 case 13 => 16 case 14 => 16 case 15 => 18
    case 16 => 16 case 17 => 19 case 18 => 21 case 19 => 25 case 20 => 25 case 21 => 25 case 22 => 34
    case 23 => 30 case 24 => 32 case 25 => 35 case 26 => 37 case 27 => 40 case 28 => 42 case 29 => 45
    case 30 => 48 case 31 => 51 case 32 => 54 case 33 => 57 case 34 => 60 case 35 => 63 case 36 => 66
    case 37 => 70 case 38 => 74 case 39 => 77
    case _ => 81
  }

  function EccCodewordsPerBlock(ecl: Ecl, v: nat): int {
    match ecl
    case LOW => LowEccPerBlock(v)
    case MEDIUM => MediumEccPerBlock(v)
    case QUARTILE => QuartileEccPerBlock(v)
    case HIGH => HighEccPerBlock(v)
  }

  function NumErrorCorrectionBlocks(ecl: Ecl, v: nat): int {
    match ecl
    case LOW => LowBlocks(v)
    case MEDIUM => MediumBlocks(v)
    case QUARTILE => QuartileBlocks(v)
    case HIGH => HighBlocks(v)
  }

  /** The number of modules of a symbol that are not function modules. */
  function NumRawDataModules(v: nat): int {
    (16 * v + 128) * v + 64
    - (if v >= 2 then (25 * (v / 7 + 2) - 10) * (v / 7 + 2) - 55 else 0)
    - (if v >= 7 then 36 else 0)
  }

  function NumDataCodewords(v: nat, ecl: Ecl): int
  {
    NumRawDataModules(v) / 8 - EccCodewordsPerBlock(ecl, v) * NumErrorCorrectionBlocks(ecl, v)
  }

  datatype Capacities = Capacities(low: int, medium: int, quartile: int, high: int) {
    function At(ecl: Ecl): int {
      match ecl
      case LOW => low
      case MEDIUM => medium
      case QUARTILE => quartile
      case HIGH => high
    }
  }

  /** The number of data codewords at levels L, M, Q and H, as table 7 of
      ISO/IEC 18004:2015 lists it. */
  function DataCodewordsTable(v: nat): Capacities
  {
    match v
    case 1 => Capacities(19, 16, 13, 9)
    case 2 => Capacities(34, 28, 22, 16)
    case 3 => Capacities(55, 44, 34, 26)
    case 4 => Capacities(80, 64, 48, 36)
    case 5 => Capacities(108, 86, 62, 46)
    case 6 => Capacities(136, 108, 76, 60)
    case 7 => Capacities(156, 124, 88, 66)
    case 8 => Capacities(194, 154, 110, 86)
    case 9 => Capacities(232, 182, 132, 100)
    case 10 => Capacities(274, 216, 154, 122)
    case 11 => Capacities(324, 254, 180, 140)
    case 12 => Capacities(370, 290, 206, 158)
    case 13 => Capacities(428, 334, 244, 180)
    case 14 => Capacities(461, 365, 261, 197)
    case 15 => Capacities(523, 415, 295, 223)
    case 16 => Capacities(589, 453, 325, 253)
    case 17 => Capacities(647, 507, 367, 283)
    case 18 => Capacities(721, 563, 397, 313)
    case 19 => Capacities(795, 627, 445, 341)
    case 20 => Capacities(861, 669, 485, 385)
    case 21 => Capacities(932, 714, 512, 406)
    case 22 => Capacities(1006, 782, 568, 442)
    case 23 => Capacities(1094, 860, 614, 464)
    case 24 => Capacities(1174, 914, 664, 514)
    case 25 => Capacities(1276, 1000, 718, 538)
    case 26 => Capacities(1370, 1062, 754, 596)
    case 27 => Capacities(1468, 1128, 808, 628)
    case 28 => Capacities(1531, 1193, 871, 661)
    case 29 => Capacities(1631, 1267, 911, 701)
    case 30 => Capacities(1735, 1373, 985, 745)
    case 31 => Capacities(1843, 1455, 1033, 793)
    case 32 => Capacities(1955, 1541, 1115, 845)
    case 33 => Capacities(2071, 1631, 1171, 901)
    case 34 => Capacities(2191, 1725, 1231, 961)
    case 35 => Capacities(2306, 1812, 1286, 986)
    case 36 => Capacities(2434, 1914, 1354, 1054)
    case 37 => Capacities(2566, 1992, 1426, 1096)
    case 38 => Capacities(2702, 2102, 1502, 1142)
    case 39 => Capacities(2812, 2216, 1582, 1222)
    case _ => Capacities(2956, 2334, 1666, 1276)
  }

  /** The blocks of a level leave room for data, and are short enough for
      the field. */
  predicate Plausible(raw: int, blocks: int, ecc: int) {
    blocks > 0 && 0 < ecc <= 30 && 8 * (ecc + 1) * blocks <= raw < 8 * 155 * blocks
  }

  /** What is checked of the tables, entry by entry. */
  predicate PlausibleAt(v: nat) {
    var raw := NumRawDataModules(v);
    && Plausible(raw, LowBlocks(v), LowEccPerBlock(v))
    && Plausible(raw, MediumBlocks(v), MediumEccPerBlock(v))
    && Plausible(raw, QuartileBlocks(v), QuartileEccPerBlock(v))
    && Plausible(raw, HighBlocks(v), HighEccPerBlock(v))
    && LowBlocks(v) * LowEccPerBlock(v) <= MediumBlocks(v) * MediumEccPerBlock(v)
       <= QuartileBlocks(v) * QuartileEccPerBlock(v) <= HighBlocks(v) * HighEccPerBlock(v)
  }

  /** The capacities that the tables give. */
  function CapacitiesAt(v: nat): Capacities {
    var raw := NumRawDataModules(v) / 8;
    Capacities(raw - LowBlocks(v) * LowEccPerBlock(v), raw - MediumBlocks(v) * MediumEccPerBlock(v),
               raw - QuartileBlocks(v) * QuartileEccPerBlock(v), raw - HighBlocks(v) * HighEccPerBlock(v))
  }

  lemma Table1() ensures PlausibleAt(1) {}
  lemma Capacity1() ensures CapacitiesAt(1) == DataCodewordsTable(1) {}
  lemma Table2() ensures PlausibleAt(2) {}
  lemma Capacity2() ensures CapacitiesAt(2) == DataCodewordsTable(2) {}
  lemma Table3() ensures PlausibleAt(3) {}
  lemma Capacity3() ensures CapacitiesAt(3) == DataCodewordsTable(3) {}
  lemma Table4() ensures PlausibleAt(4) {}
  lemma Capacity4() ensures CapacitiesAt(4) == DataCodewordsTable(4) {}
  lemma Table5() ensures PlausibleAt(5) {}
  lemma Capacity5() ensures CapacitiesAt(5) == DataCodewordsTable(5) {}
  lemma Table6() ensures PlausibleAt(6) {}
  lemma Capacity6() ensures CapacitiesAt(6) == DataCodewordsTable(6) {}
  lemma Table7() ensures PlausibleAt(7) {}
  lemma Capacity7() ensures CapacitiesAt(7) == DataCodewordsTable(7) {}
  lemma Table8() ensures PlausibleAt(8) {}
  lemma Capacity8() ensures CapacitiesAt(8) == DataCodewordsTable(8) {}
  lemma Table9() ensures PlausibleAt(9) {}
  lemma Capacity9() ensures CapacitiesAt(9) == DataCodewordsTable(9) {}
  lemma Table10() ensures PlausibleAt(10) {}
  lemma Capacity10() ensures CapacitiesAt(10) == DataCodewordsTable(10) {}
  lemma Table11() ensures PlausibleAt(11) {}
  lemma Capacity11() ensures CapacitiesAt(11) == DataCodewordsTable(11) {}
  lemma Table12() ensures PlausibleAt(12) {}
  lemma Capacity12() ensures CapacitiesAt(12) == DataCodewordsTable(12) {}
  lemma Table13() ensures PlausibleAt(13) {}
  lemma Capacity13() ensures CapacitiesAt(13) == DataCodewordsTable(13) {}
  lemma Table14() ensures PlausibleAt(14) {}
  lemma Capacity14() ensures CapacitiesAt(14) == DataCodewordsTable(14) {}
  lemma Table15() ensures PlausibleAt(15) {}
  lemma Capacity15() ensures CapacitiesAt(15) == DataCodewordsTable(15) {}
  lemma Table16() ensures PlausibleAt(16) {}
  lemma Capacity16() ensures CapacitiesAt(16) == DataCodewordsTable(16) {}
  lemma Table17() ensures PlausibleAt(17) {}
  lemma Capacity17() ensures CapacitiesAt(17) == DataCodewordsTable(17) {}
  lemma Table18() ensures PlausibleAt(18) {}
  lemma Capacity18() ensures CapacitiesAt(18) == DataCodewordsTable(18) {}
  lemma Table19() ensures PlausibleAt(19) {}
  lemma Capacity19() ensures CapacitiesAt(19) == DataCodewordsTable(19) {}
  lemma Table20() ensures PlausibleAt(20) {}
  lemma Capacity20() ensures CapacitiesAt(20) == DataCodewordsTable(20) {}
  lemma Table21() ensures PlausibleAt(21) {}
  lemma Capacity21() ensures CapacitiesAt(21) == DataCodewordsTable(21) {}
  lemma Table22() ensures PlausibleAt(22) {}
  lemma Capacity22() ensures CapacitiesAt(22) == DataCodewordsTable(22) {}
  lemma Table23() ensures PlausibleAt(23) {}
  lemma Capacity23() ensures CapacitiesAt(23) == DataCodewordsTable(23) {}
  lemma Table24() ensures PlausibleAt(24) {}
  lemma Capacity24() ensures CapacitiesAt(24) == DataCodewordsTable(24) {}
  lemma Table25() ensures PlausibleAt(25) {}
  lemma Capacity25() ensures CapacitiesAt(25) == DataCodewordsTable(25) {}
  lemma Table26() ensures PlausibleAt(26) {}
  lemma Capacity26() ensures CapacitiesAt(26) == DataCodewordsTable(26) {}
  lemma Table27() ensures PlausibleAt(27) {}
  lemma Capacity27() ensures CapacitiesAt(27) == DataCodewordsTable(27) {}
  lemma Table28() ensures PlausibleAt(28) {}
  lemma Capacity28() ensures CapacitiesAt(28) == DataCodewordsTable(28) {}
  lemma Table29() ensures PlausibleAt(29) {}
  lemma Capacity29() ensures CapacitiesAt(29) == DataCodewordsTable(29) {}
  lemma Table30() ensures PlausibleAt(30) {}
  lemma Capacity30() ensures CapacitiesAt(30) == DataCodewordsTable(30) {}
  lemma Table31() ensures PlausibleAt(31) {}
  lemma Capacity31() ensures CapacitiesAt(31) == DataCodewordsTable(31) {}
  lemma Table32() ensures PlausibleAt(32) {}
  lemma Capacity32() ensures CapacitiesAt(32) == DataCodewordsTable(32) {}
  lemma Table33() ensures PlausibleAt(33) {}
  lemma Capacity33() ensures CapacitiesAt(33) == DataCodewordsTable(33) {}
  lemma Table34() ensures PlausibleAt(34) {}
  lemma Capacity34() ensures CapacitiesAt(34) == DataCodewordsTable(34) {}
  lemma Table35() ensures PlausibleAt(35) {}
  lemma Capacity35() ensures CapacitiesAt(35) == DataCodewordsTable(35) {}
  lemma Table36() ensures PlausibleAt(36) {}
  lemma Capacity36() ensures CapacitiesAt(36) == DataCodewordsTable(36) {}
  lemma Table37() ensures PlausibleAt(37) {}
  lemma Capacity37() ensures CapacitiesAt(37) == DataCodewordsTable(37) {}
  lemma Table38() ensures PlausibleAt(38) {}
  lemma Capacity38() ensures CapacitiesAt(38) == DataCodewordsTable(38) {}
  lemma Table39() ensures PlausibleAt(39) {}
  lemma Capacity39() ensures CapacitiesAt(39) == DataCodewordsTable(39) {}
  lemma Table40() ensures PlausibleAt(40) {}
  lemma Capacity40() ensures CapacitiesAt(40) == DataCodewordsTable(40) {}

  lemma TablesArePlausible(v: nat)
    requires Version(v)
    ensures PlausibleAt(v)
  {
    hide PlausibleAt;
    match v
    case 1 => Table1();
    case 2 => Table2();
    case 3 => Table3();
    case 4 => Table4();
    case 5 => Table5();
    case 6 => Table6();
    case 7 => Table7();
    case 8 => Table8();
    case 9 => Table9();
    case 10 => Table10();
    case 11 => Table11();
    case 12 => Table12();
    case 13 => Table13();
    case 14 => Table14();
    case 15 => Table15();
    case 16 => Table16();
    case 17 => Table17();
    case 18 => Table18();
    case 19 => Table19();
    case 20 => Table20();
    case 21 => Table21();
    case 22 => Table22();
    case 23 => Table23();
    case 24 => Table24();
    case 25 => Table25();
    case 26 => Table26();
    case 27 => Table27();
    case 28 => Table28();
    case 29 => Table29();
    case 30 => Table30();
    case 31 => Table31();
    case 32 => Table32();
    case 33 => Table33();
    case 34 => Table34();
    case 35 => Table35();
    case 36 => Table36();
    case 37 => Table37();
    case 38 => Table38();
    case 39 => Table39();
    case _ => Table40();
  }

  function LayoutOf(v: nat, ecl: Ecl): Layout
    requires Version(v)
  {
    TablesArePlausible(v);
    Layout(NumErrorCorrectionBlocks(ecl, v), EccCodewordsPerBlock(ecl, v), NumRawDataModules(v) / 8)
  }

  lemma LevelIsPlausible(v: nat, ecl: Ecl)
    requires Version(v)
    ensures Plausible(NumRawDataModules(v), NumErrorCorrectionBlocks(ecl, v), EccCodewordsPerBlock(ecl, v))
  {
    TablesArePlausible(v);
    hide LowBlocks, MediumBlocks, QuartileBlocks, HighBlocks, NumRawDataModules, Plausible;
    hide LowEccPerBlock, MediumEccPerBlock, QuartileEccPerBlock, HighEccPerBlock;
  }

  /** Every version and level has a valid layout, with data in every block and
      no block longer than the field allows. */
  lemma LayoutsAreValid(v: nat, ecl: Ecl)
    requires Version(v)
    ensures var l := LayoutOf(v, ecl);
      && l.Valid() && l.ShortData() > 0 && l.rawCodewords / l.numBlocks + 1 <= 255
      && l.DataCodewords() == NumDataCodewords(v, ecl) > 0
  {
    LevelIsPlausible(v, ecl);
    hide NumErrorCorrectionBlocks, EccCodewordsPerBlock, NumRawDataModules;
    var l := LayoutOf(v, ecl);
    QuotientBounds(NumRawDataModules(v), l.numBlocks, l.eccLen + 1, 155);
  }

  lemma QuotientBounds(modules: nat, n: nat, low: nat, high: nat)
    requires n > 0 && low > 0 && 8 * low * n <= modules < 8 * high * n
    ensures low <= modules / 8 / n < high
    ensures (low - 1) * n < modules / 8
  {
    var raw := modules / 8;
    assert 8 * low * n == 8 * (low * n) && 8 * high * n == 8 * (high * n);
    assert low * n <= raw < high * n;
    assert (low - 1) * n == low * n - n;
    QuotientAtLeast(raw, n, low);
    QuotientBelow(raw, n, high);
  }

  lemma QuotientAtLeast(raw: nat, n: nat, low: nat)
    requires n > 0 && low * n <= raw
    ensures low <= raw / n
  {
    var q := raw / n;
    assert raw < (q + 1) * n;
    assert (low - q - 1) * n == low * n - (q + 1) * n < 0;
  }

  lemma QuotientBelow(raw: nat, n: nat, high: nat)
    requires n > 0 && raw < high * n
    ensures raw / n < high
  {
    var q := raw / n;
    assert q * n <= raw;
    assert (q - high) * n == q * n - high * n < 0;
  }

  /** A higher level never has more room for data. */
  lemma CapacityFalls(v: nat, low: Ecl, high: Ecl)
    requires Version(v) && low.Ordinal() <= high.Ordinal()
    ensures NumDataCodewords(v, high) <= NumDataCodewords(v, low)
  {
    TablesArePlausible(v);
    LevelProduct(v, low);
    LevelProduct(v, high);
    hide LowBlocks, MediumBlocks, QuartileBlocks, HighBlocks, NumRawDataModules;
    hide LowEccPerBlock, MediumEccPerBlock, QuartileEccPerBlock, HighEccPerBlock;
    hide EccCodewordsPerBlock, NumErrorCorrectionBlocks, Plausible;
  }

  /** The number of error correction codewords of a level. */
  function EccTotal(v: nat, ecl: Ecl): int {
    match ecl
    case LOW => LowBlocks(v) * LowEccPerBlock(v)
    case MEDIUM => MediumBlocks(v) * MediumEccPerBlock(v)
    case QUARTILE => QuartileBlocks(v) * QuartileEccPerBlock(v)
    case HIGH => HighBlocks(v) * HighEccPerBlock(v)
  }

  lemma CapacitiesAreListed(v: nat)
    requires Version(v)
    ensures CapacitiesAt(v) == DataCodewordsTable(v)
  {
    hide CapacitiesAt, DataCodewordsTable;
    match v
    case 1 => Capacity1();
    case 2 => Capacity2();
    case 3 => Capacity3();
    case 4 => Capacity4();
    case 5 => Capacity5();
    case 6 => Capacity6();
    case 7 => Capacity7();
    case 8 => Capacity8();
    case 9 => Capacity9();
    case 10 => Capacity10();
    case 11 => Capacity11();
    case 12 => Capacity12();
    case 13 => Capacity13();
    case 14 => Capacity14();
    case 15 => Capacity15();
    case 16 => Capacity16();
    case 17 => Capacity17();
    case 18 => Capacity18();
    case 19 => Capacity19();
    case 20 => Capacity20();
    case 21 => Capacity21();
    case 22 => Capacity22();
    case 23 => Capacity23();
    case 24 => Capacity24();
    case 25 => Capacity25();
    case 26 => Capacity26();
    case 27 => Capacity27();
    case 28 => Capacity28();
    case 29 => Capacity29();
    case 30 => Capacity30();
    case 31 => Capacity31();
    case 32 => Capacity32();
    case 33 => Capacity33();
    case 34 => Capacity34();
    case 35 => Capacity35();
    case 36 => Capacity36();
    case 37 => Capacity37();
    case 38 => Capacity38();
    case 39 => Capacity39();
    case _ => Capacity40();
  }

  /** The capacities are those of the standard. */
  lemma DataCapacity(v: nat, ecl: Ecl)
    requires Version(v)
    ensures NumDataCodewords(v, ecl) == DataCodewordsTable(v).At(ecl)
  {
    CapacitiesAreListed(v);
    LevelProduct(v, ecl);
    hide LowBlocks, MediumBlocks, QuartileBlocks, HighBlocks, NumRawDataModules, DataCodewordsTable;
    hide LowEccPerBlock, MediumEccPerBlock, QuartileEccPerBlock, HighEccPerBlock;
    hide EccCodewordsPerBlock, NumErrorCorrectionBlocks, NumDataCodewords;
  }

  lemma LevelProduct(v: nat, ecl: Ecl)
    ensures NumDataCodewords(v, ecl) == NumRawDataModules(v) / 8 - EccTotal(v, ecl)
  {
    hide LowBlocks, MediumBlocks, QuartileBlocks, HighBlocks, NumRawDataModules;
    hide LowEccPerBlock, MediumEccPerBlock, QuartileEccPerBlock, HighEccPerBlock;
  }
}
