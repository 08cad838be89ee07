/** The tables of the number conversions, one column for each radix, and why their entries
    are what they are for: powers that fill a limb, and the limits of binary64 in powers
    of the radix. */
module DtoaTables {
  import opened DtoaArith

  type Radix = r: nat | 2 <= r <= 36 witness 10

  /** The entries of a radix: `digits_per_limb_table`, `radix_base_table` (zero stands for
      2^32), `dtoa_max_digits_table`, `atod_max_digits_table`, `max_exponent`, `min_exponent`
      and `mul_log2_radix_table`. */
  datatype Column = Column(perLimb: nat, base: nat, dtoaDigits: nat, atodDigits: nat, maxExp: nat, minExp: int,
                           mulLog2: nat)

  function Table(radix: Radix): Column {
    match radix
    case 2 => Column(32, 0x0, 54, 64, 1024, -1075, 0x0)
    case 3 => Column(20, 0xcfd41b91, 35, 80, 647, -679, 0xa1849d)
    case 4 => Column(16, 0x0, 28, 32, 512, -538, 0x0)
    case 5 => Column(13, 0x48c27395, 24, 55, 442, -463, 0x6e40d2)
    case 6 => Column(12, 0x81bf1000, 22, 49, 397, -416, 0x6308c9)
    case 7 => Column(11, 0x75db9c97, 20, 45, 365, -383, 0x5b3065)
    case 8 => Column(10, 0x40000000, 19, 21, 342, -359, 0x0)
    case 9 => Column(10, 0xcfd41b91, 18, 40, 324, -340, 0x50c24e)
    case 10 => Column(9, 0x3b9aca00, 17, 38, 309, -324, 0x4d104d)
    case 11 => Column(9, 0x8c8b6d2b, 17, 37, 297, -311, 0x4a0027)
    case 12 => Column(8, 0x19a10000, 16, 35, 286, -300, 0x4768ce)
    case 13 => Column(8, 0x309f1021, 16, 34, 277, -291, 0x452e54)
    case 14 => Column(8, 0x57f6c100, 15, 33, 269, -283, 0x433d00)
    case 15 => Column(8, 0x98c29b81, 15, 32, 263, -276, 0x418677)
    case 16 => Column(8, 0x0, 15, 16, 256, -269, 0x0)
    case 17 => Column(7, 0x18754571, 14, 31, 251, -263, 0x3ea16b)
    case 18 => Column(7, 0x247dbc80, 14, 30, 246, -258, 0x3d645a)
    case 19 => Column(7, 0x3547667b, 14, 30, 242, -254, 0x3c43c2)
    case 20 => Column(7, 0x4c4b4000, 14, 29, 237, -249, 0x3b3b9a)
    case 21 => Column(7, 0x6b5a6e1d, 14, 29, 234, -245, 0x3a4899)
    case 22 => Column(7, 0x94ace180, 13, 28, 230, -242, 0x39680b)
    case 23 => Column(7, 0xcaf18367, 13, 28, 227, -238, 0x3897b3)
    case 24 => Column(6, 0xb640000, 13, 27, 224, -235, 0x37d5af)
    case 25 => Column(6, 0xe8d4a51, 13, 27, 221, -232, 0x372069)
    case 26 => Column(6, 0x1269ae40, 13, 27, 218, -229, 0x367686)
    case 27 => Column(6, 0x17179149, 13, 26, 216, -227, 0x35d6df)
    case 28 => Column(6, 0x1cb91000, 13, 26, 214, -224, 0x354072)
    case 29 => Column(6, 0x23744899, 12, 26, 211, -222, 0x34b261)
    case 30 => Column(6, 0x2b73a840, 12, 26, 209, -220, 0x342bea)
    case 31 => Column(6, 0x34e63b41, 12, 25, 207, -217, 0x33ac62)
    case 32 => Column(6, 0x40000000, 12, 12, 205, -215, 0x0)
    case 33 => Column(6, 0x4cfa3cc1, 12, 25, 203, -214, 0x32bfd9)
    case 34 => Column(6, 0x5c13d840, 12, 25, 202, -212, 0x3251dd)
    case 35 => Column(6, 0x6d91b519, 12, 24, 200, -210, 0x31e8d6)
    case 36 => Column(6, 0x81bf1000, 12, 24, 199, -208, 0x318465)
  }

  function DigitsPerLimb(radix: Radix): (n: nat)
    ensures n > 0
  {
    Table(radix).perLimb
  }

  function RadixBase(radix: Radix): nat { Table(radix).base }

  function PrintDigits(radix: Radix): (n: nat)
    ensures 12 <= n <= 54
  {
    Table(radix).dtoaDigits
  }

  function AtodDigits(radix: Radix): (n: nat)
    ensures 12 <= n <= 80
  {
    Table(radix).atodDigits
  }

  function MaxExponent(radix: Radix): (e: int)
    ensures 199 <= e <= 1024
  {
    Table(radix).maxExp
  }

  function MinExponent(radix: Radix): (e: int)
    ensures -1075 <= e <= -208
  {
    Table(radix).minExp
  }

  const LOG_BASE: nat := 0x100_0000

  /** log(2) / log(radix), in units of 1 / `LOG_BASE`. */
  function LogMultiplier(radix: Radix): (m: nat)
    ensures m < LOG_BASE
  {
    Table(radix).mulLog2
  }

  /** `radix >> ctz32(radix)`. */
  function OddPart(radix: nat): (r: nat)
    requires radix > 0
    ensures 0 < r <= radix
  {
    if radix % 2 == 0 then OddPart(radix / 2) else radix
  }

  /** `ctz32(radix)`. */
  function TwosIn(radix: nat): nat
    requires radix > 0
  {
    if radix % 2 == 0 then 1 + TwosIn(radix / 2) else 0
  }

  /** Bits per digit, zero when the radix is not a power of two. */
  function RadixBits(radix: Radix): nat {
    if OddPart(radix) == 1 then TwosIn(radix) else 0
  }

  /** Digits of the odd part that fill a limb; a power of two needs none. */
  function OddPerLimb(radix: Radix): (n: nat)
    ensures n > 0
  {
    if OddPart(radix) == 1 then 1 else DigitsPerLimb(OddPart(radix))
  }

  lemma {:induction false} OddTimesTwos(radix: nat)
    requires radix > 0
    ensures OddPart(radix) * Pow(2, TwosIn(radix)) == radix
    decreases radix
  {
    if radix % 2 == 0 {
      OddTimesTwos(radix / 2);
      assert OddPart(radix) * (2 * Pow(2, TwosIn(radix / 2))) == 2 * (OddPart(radix) * Pow(2, TwosIn(radix / 2)));
    } else {
      assert Pow(2, 0) == 1;
    }
  }

  // ----- bounds of large powers -----

  /** `Pow`, for literals. */
  function Power(b: nat, n: nat): nat {
    if n == 0 then 1 else b * Power(b, n - 1)
  }

  lemma {:induction false} PowerIs(b: nat, n: nat)
    ensures Power(b, n) == Pow(b, n)
    decreases n
  {
    if n > 0 { PowerIs(b, n - 1); }
  }

  function Square(x: nat): nat { x * x }

  function Fourth(x: nat): nat { Square(Square(x)) }

  const W: nat := 0x1_0000

  /** A large power of `r` is bounded step by step: `m * W^t` bounds its k-th power, and
      three times a fourth power with up to three more factors is bounded anew. The last
      significand is compared with a power of two. */
  predicate ChainBelow(r: nat, k: nat, m: nat, t: nat, k1: nat, m1: nat, t1: nat, k2: nat, m2: nat, t2: nat,
      k3: nat, m3: nat, t3: nat, d: nat)
  {
    && Power(r, k) <= m * Power(0x1_0000, t)
    && Power(r, k1) * Fourth(m) <= m1 * Power(0x1_0000, t1)
    && Power(r, k2) * Fourth(m1) <= m2 * Power(0x1_0000, t2)
    && Power(r, k3) * Fourth(m2) <= m3 * Power(0x1_0000, t3)
    && m3 < 0x1_0000 * Power(16, d / 4) * Power(2, d % 4)
  }

  predicate ChainAbove(r: nat, k: nat, m: nat, t: nat, k1: nat, m1: nat, t1: nat, k2: nat, m2: nat, t2: nat,
      k3: nat, m3: nat, t3: nat, d: nat)
  {
    && m * Power(0x1_0000, t) <= Power(r, k)
    && m1 * Power(0x1_0000, t1) <= Power(r, k1) * Fourth(m)
    && m2 * Power(0x1_0000, t2) <= Power(r, k2) * Fourth(m1)
    && m3 * Power(0x1_0000, t3) <= Power(r, k3) * Fourth(m2)
    && 0x1_0000 * Power(16, d / 4) * Power(2, d % 4) < m3
  }

  lemma FourthPow(b: nat, k: nat, c: nat)
    ensures Pow(b, 4 * k + c) == Pow(b, c) * Fourth(Pow(b, k))
  {
    PowAdd(b, k, k);
    PowAdd(b, 2 * k, 2 * k);
    PowAdd(b, c, 4 * k);
  }

  lemma FourthMono(x: nat, y: nat)
    requires x <= y
    ensures Fourth(x) <= Fourth(y)
  {
    SquareMono(x, y);
    SquareMono(Square(x), Square(y));
  }

  lemma SquareMono(x: nat, y: nat)
    requires x <= y
    ensures Square(x) <= Square(y)
  {
    MulMono(x, y, x);
    MulMono(x, y, y);
  }

  lemma FourthTimes(x: nat, y: nat)
    ensures Fourth(x * y) == Fourth(x) * Fourth(y)
  {
    SquareTimes(x, y);
    SquareTimes(Square(x), Square(y));
  }

  lemma SquareTimes(x: nat, y: nat)
    ensures Square(x * y) == Square(x) * Square(y)
  {
    assert x * y * (x * y) == x * x * (y * y);
  }

  /** The powers on both sides of a step. */
  lemma StepParts(r: nat, k: nat, m: nat, t: nat, c: nat, m': nat, t': nat)
    ensures Pow(r, 4 * k + c) == Pow(r, c) * Fourth(Pow(r, k))
    ensures Pow(r, c) * Fourth(m * Pow(W, t)) == Pow(r, c) * Fourth(m) * Pow(W, 4 * t)
    ensures m' * Pow(W, 4 * t + t') == m' * Pow(W, t') * Pow(W, 4 * t)
  {
    hide Pow;
    hide Fourth;
    FourthPow(r, k, c);
    FourthTimes(m, Pow(W, t));
    FourthPow(W, t, 0);
    PowAdd(W, t', 4 * t);
    assert Pow(W, 0) == 1 by { PowNone(W); }
    Assoc(Pow(r, c), Fourth(m), Pow(W, 4 * t));
    Assoc(m', Pow(W, t'), Pow(W, 4 * t));
  }

  lemma PowNone(b: nat)
    ensures Pow(b, 0) == 1
  {
  }

  lemma Assoc(x: nat, y: nat, z: nat)
    ensures x * (y * z) == x * y * z
  {
  }

  lemma StepBelow(r: nat, k: nat, m: nat, t: nat, c: nat, m': nat, t': nat)
    requires Pow(r, k) <= m * Pow(W, t) && Pow(r, c) * Fourth(m) <= m' * Pow(W, t')
    ensures Pow(r, 4 * k + c) <= m' * Pow(W, 4 * t + t')
  {
    hide Pow;
    hide Fourth;
    StepParts(r, k, m, t, c, m', t');
    FourthMono(Pow(r, k), m * Pow(W, t));
    MulMono(Fourth(Pow(r, k)), Fourth(m * Pow(W, t)), Pow(r, c));
    MulMono(Pow(r, c) * Fourth(m), m' * Pow(W, t'), Pow(W, 4 * t));
  }

  lemma StepAbove(r: nat, k: nat, m: nat, t: nat, c: nat, m': nat, t': nat)
    requires m * Pow(W, t) <= Pow(r, k) && m' * Pow(W, t') <= Pow(r, c) * Fourth(m)
    ensures m' * Pow(W, 4 * t + t') <= Pow(r, 4 * k + c)
  {
    hide Pow;
    hide Fourth;
    StepParts(r, k, m, t, c, m', t');
    FourthMono(m * Pow(W, t), Pow(r, k));
    MulMono(Fourth(m * Pow(W, t)), Fourth(Pow(r, k)), Pow(r, c));
    MulMono(m' * Pow(W, t'), Pow(r, c) * Fourth(m), Pow(W, 4 * t));
  }

  /** What the last significand is compared with. */
  lemma LastPower(t: nat, d: nat)
    ensures 0x1_0000 * Power(16, d / 4) * Power(2, d % 4) * Pow(W, t) == Pow(2, 16 * t + 16 + d)
  {
    hide Pow;
    hide Power;
    PowerIs(16, d / 4);
    PowerIs(2, d % 4);
    assert Pow(2, 4) == 16 && Pow(2, 16) == W by { SmallTwos(); }
    PowPow(2, 4, d / 4);
    PowPow(2, 16, t);
    PowAdd(2, 4 * (d / 4), d % 4);
    PowAdd(2, 16, d);
    PowAdd(2, 16 + d, 16 * t);
    Assoc(W, Pow(16, d / 4), Pow(2, d % 4));
  }

  lemma SmallTwos()
    ensures Pow(2, 4) == 16 && Pow(2, 16) == W
  {
    assert Pow(2, 2) == 4;
    PowAdd(2, 2, 2);
    PowAdd(2, 4, 4);
    PowAdd(2, 8, 8);
  }

  lemma PowBelow(r: nat, k: nat, m: nat, t: nat, k1: nat, m1: nat, t1: nat, k2: nat, m2: nat, t2: nat,
      k3: nat, m3: nat, t3: nat, d: nat)
    requires ChainBelow(r, k, m, t, k1, m1, t1, k2, m2, t2, k3, m3, t3, d)
    ensures Pow(r, 4 * (4 * (4 * k + k1) + k2) + k3) < Pow(2, 16 * (4 * (4 * (4 * t + t1) + t2) + t3) + 16 + d)
  {
    hide Pow;
    hide Power;
    hide Fourth;
    forall b: nat, n: nat ensures Power(b, n) == Pow(b, n) { PowerIs(b, n); }
    StepBelow(r, k, m, t, k1, m1, t1);
    StepBelow(r, 4 * k + k1, m1, 4 * t + t1, k2, m2, t2);
    StepBelow(r, 4 * (4 * k + k1) + k2, m2, 4 * (4 * t + t1) + t2, k3, m3, t3);
    var s := 4 * (4 * (4 * t + t1) + t2) + t3;
    LastPower(s, d);
    MulStrict(m3, 0x1_0000 * Power(16, d / 4) * Power(2, d % 4), Pow(W, s));
  }

  lemma PowAbove(r: nat, k: nat, m: nat, t: nat, k1: nat, m1: nat, t1: nat, k2: nat, m2: nat, t2: nat,
      k3: nat, m3: nat, t3: nat, d: nat)
    requires ChainAbove(r, k, m, t, k1, m1, t1, k2, m2, t2, k3, m3, t3, d)
    ensures Pow(2, 16 * (4 * (4 * (4 * t + t1) + t2) + t3) + 16 + d) < Pow(r, 4 * (4 * (4 * k + k1) + k2) + k3)
  {
    hide Pow;
    hide Power;
    hide Fourth;
    forall b: nat, n: nat ensures Power(b, n) == Pow(b, n) { PowerIs(b, n); }
    StepAbove(r, k, m, t, k1, m1, t1);
    StepAbove(r, 4 * k + k1, m1, 4 * t + t1, k2, m2, t2);
    StepAbove(r, 4 * (4 * k + k1) + k2, m2, 4 * (4 * t + t1) + t2, k3, m3, t3);
    var s := 4 * (4 * (4 * t + t1) + t2) + t3;
    LastPower(s, d);
    MulStrict(0x1_0000 * Power(16, d / 4) * Power(2, d % 4), m3, Pow(W, s));
  }

  lemma Below3() ensures Pow(3, 971) < Pow(2, 1539)
  { hide Pow; PowBelow(3, 15, 14348907, 0, 0, 2298029295, 4, 2, 3167999969, 6, 3, 523776, 7, 3); }
  lemma Above3() ensures Pow(2, 1054) < Pow(3, 665)
  { hide Pow; PowAbove(3, 10, 59049, 0, 1, 129578, 3, 2, 9014212, 3, 1, 1073773306, 4, 14); }
  lemma Below5() ensures Pow(5, 643) < Pow(2, 1493)
  { hide Pow; PowBelow(5, 10, 9765625, 0, 0, 493038066, 4, 0, 745835, 6, 3, 2096821, 4, 5); }
  lemma Above5() ensures Pow(2, 1832) < Pow(5, 789)
  { hide Pow; PowAbove(5, 12, 244140625, 0, 1, 224207, 6, 1, 44887651, 3, 1, 16791050, 5, 8); }
  lemma Below6() ensures Pow(6, 306) < Pow(2, 791)
  { hide Pow; PowBelow(6, 4, 1296, 0, 3, 141878, 2, 0, 1439530, 3, 2, 8380418, 4, 7); }
  lemma Above6() ensures Pow(2, 1719) < Pow(6, 665)
  { hide Pow; PowAbove(6, 10, 60466176, 0, 1, 66343993, 5, 2, 576911603, 5, 1, 8388972, 6, 7); }
  lemma Below7() ensures Pow(7, 571) < Pow(2, 1603)
  { hide Pow; PowBelow(7, 8, 5764801, 0, 3, 313352, 5, 2, 1678364064, 3, 3, 524179, 7, 3); }
  lemma Above7() ensures Pow(2, 1909) < Pow(7, 680)
  { hide Pow; PowAbove(7, 10, 282475249, 0, 2, 3937658, 6, 2, 638599142, 4, 0, 2099102, 6, 5); }
  lemma Below9() ensures Pow(9, 153) < Pow(2, 485)
  { hide Pow; PowBelow(9, 2, 81, 0, 1, 387420489, 0, 2, 23032219, 6, 1, 2095010, 5, 5); }
  lemma Above9() ensures Pow(2, 1623) < Pow(9, 512)
  { hide Pow; PowAbove(9, 8, 43046721, 0, 0, 2840276, 5, 0, 3527950, 4, 0, 8397885, 4, 7); }
  lemma Below10() ensures Pow(10, 497) < Pow(2, 1651)
  { hide Pow; PowBelow(10, 7, 10000000, 0, 3, 8271807, 5, 0, 253794292, 4, 1, 523659, 6, 3); }
  lemma Above10() ensures Pow(2, 485) < Pow(10, 146)
  { hide Pow; PowAbove(10, 2, 100, 0, 1, 1000000000, 0, 0, 12621774, 6, 2, 2099335, 5, 5); }
  lemma Below11() ensures Pow(11, 37) < Pow(2, 128)
  { hide Pow; PowBelow(11, 0, 1, 0, 2, 121, 0, 1, 2357947691, 0, 1, 65490, 7, 0); }
  lemma Above11() ensures Pow(2, 2003) < Pow(11, 579)
  { hide Pow; PowAbove(11, 9, 2357947691, 0, 0, 390172882, 6, 0, 292515, 6, 3, 528263, 4, 3); }
  lemma Below12() ensures Pow(12, 306) < Pow(2, 1097)
  { hide Pow; PowBelow(12, 4, 20736, 0, 3, 1135021, 3, 0, 89970, 4, 2, 33520739, 3, 9); }
  lemma Above12() ensures Pow(2, 1287) < Pow(12, 359)
  { hide Pow; PowAbove(12, 5, 248832, 0, 2, 1961316225, 3, 1, 2241259516, 6, 3, 8397554, 7, 7); }
  lemma Below13() ensures Pow(13, 227) < Pow(2, 840)
  { hide Pow; PowBelow(13, 3, 2197, 0, 2, 916742, 2, 0, 2509277678, 3, 3, 16775113, 7, 8); }
  lemma Above13() ensures Pow(2, 1717) < Pow(13, 464)
  { hide Pow; PowAbove(13, 7, 62748517, 0, 1, 166708430, 5, 0, 638896623, 5, 0, 2103017, 6, 5); }
  lemma Below14() ensures Pow(14, 462) < Pow(2, 1759)
  { hide Pow; PowBelow(14, 7, 105413504, 0, 0, 102137529, 5, 3, 3769172, 6, 2, 2144470982, 4, 15); }
  lemma Above14() ensures Pow(2, 415) < Pow(14, 109)
  { hide Pow; PowAbove(14, 1, 14, 0, 2, 7529536, 0, 3, 7295537, 5, 1, 2149994607, 4, 15); }
  lemma Below15() ensures Pow(15, 290) < Pow(2, 1133)
  { hide Pow; PowBelow(15, 4, 50625, 0, 2, 5250527, 3, 0, 41199493, 4, 2, 536229067, 5, 13); }
  lemma Above15() ensures Pow(2, 965) < Pow(15, 247)
  { hide Pow; PowAbove(15, 3, 3375, 0, 3, 101955116, 2, 1, 1340687926, 5, 3, 2100027, 7, 5); }
  lemma Below17() ensures Pow(17, 343) < Pow(2, 1402)
  { hide Pow; PowBelow(17, 5, 1419857, 0, 1, 3745482, 4, 1, 181367747, 4, 3, 67097666, 6, 10); }
  lemma Above17() ensures Pow(2, 1075) < Pow(17, 263)
  { hide Pow; PowAbove(17, 4, 83521, 0, 0, 172879, 3, 1, 53948341, 3, 3, 525266, 6, 3); }
  lemma Below18() ensures Pow(18, 153) < Pow(2, 638)
  { hide Pow; PowBelow(18, 2, 324, 0, 1, 3026723, 1, 2, 1474062832, 4, 1, 1072647203, 6, 14); }
  lemma Above18() ensures Pow(2, 1497) < Pow(18, 359)
  { hide Pow; PowAbove(18, 5, 1889568, 0, 2, 223910979, 4, 1, 571076, 6, 3, 33625862, 4, 9); }
  lemma Below19() ensures Pow(19, 121) < Pow(2, 514)
  { hide Pow; PowBelow(19, 1, 19, 0, 3, 893871739, 0, 2, 2908897678, 6, 1, 262004, 7, 2); }
  lemma Above19() ensures Pow(2, 2039) < Pow(19, 480)
  { hide Pow; PowAbove(19, 7, 893871739, 0, 2, 2908897677, 6, 0, 903720628, 6, 0, 8418935, 6, 7); }
  lemma Below20() ensures Pow(20, 351) < Pow(2, 1517)
  { hide Pow; PowBelow(20, 5, 3200000, 0, 1, 113686838, 4, 3, 16867517, 6, 3, 535667084, 5, 13); }
  lemma Above20() ensures Pow(2, 631) < Pow(20, 146)
  { hide Pow; PowAbove(20, 2, 400, 0, 1, 7812500, 1, 0, 201948391, 4, 2, 8397345, 6, 7); }
  lemma Below21() ensures Pow(21, 339) < Pow(2, 1489)
  { hide Pow; PowBelow(21, 5, 4084101, 0, 1, 316727277, 4, 0, 127018, 6, 3, 130678, 4, 1); }
  lemma Above21() ensures Pow(2, 571) < Pow(21, 130)
  { hide Pow; PowAbove(21, 2, 441, 0, 0, 577131, 1, 0, 394146630, 3, 2, 134335339, 6, 11); }
  lemma Below22() ensures Pow(22, 37) < Pow(2, 165)
  { hide Pow; PowBelow(22, 0, 1, 0, 2, 484, 0, 1, 18421467, 1, 1, 2095656, 5, 5); }
  lemma Above22() ensures Pow(2, 1922) < Pow(22, 431)
  { hide Pow; PowAbove(22, 6, 113379904, 0, 2, 1009508, 6, 3, 599497504, 4, 3, 264885, 7, 2); }
  lemma Below23() ensures Pow(23, 403) < Pow(2, 1823)
  { hide Pow; PowBelow(23, 6, 148035889, 0, 1, 139418, 6, 0, 1342257, 3, 3, 2140949857, 4, 15); }
  lemma Above23() ensures Pow(2, 864) < Pow(23, 191)
  { hide Pow; PowAbove(23, 2, 529, 0, 3, 221843, 2, 3, 1597521, 4, 3, 65549, 5, 0); }
  lemma Below24() ensures Pow(24, 306) < Pow(2, 1403)
  { hide Pow; PowBelow(24, 4, 331776, 0, 3, 9080168, 4, 0, 368515546, 4, 2, 134080665, 6, 11); }
  lemma Above24() ensures Pow(2, 1646) < Pow(24, 359)
  { hide Pow; PowAbove(24, 5, 7962624, 0, 2, 1915347, 5, 1, 17509807, 4, 3, 1074878827, 5, 14); }
  lemma Below25() ensures Pow(25, 424) < Pow(2, 1969)
  { hide Pow; PowBelow(25, 6, 244140625, 0, 2, 28025970, 6, 2, 318950271, 5, 0, 130621, 6, 1); }
  lemma Above25() ensures Pow(2, 339) < Pow(25, 73)
  { hide Pow; PowAbove(25, 1, 25, 0, 0, 390625, 0, 2, 788860, 4, 1, 524831, 4, 3); }
  lemma Below26() ensures Pow(26, 227) < Pow(2, 1067)
  { hide Pow; PowBelow(26, 3, 17576, 0, 2, 229186, 3, 0, 9801952, 3, 3, 134205612, 5, 11); }
  lemma Above26() ensures Pow(2, 1114) < Pow(26, 237)
  { hide Pow; PowAbove(26, 3, 17576, 0, 2, 229185, 3, 3, 2628724, 4, 1, 67302870, 4, 10); }
  lemma Below27() ensures Pow(27, 102) < Pow(2, 485)
  { hide Pow; PowBelow(27, 1, 27, 0, 2, 387420489, 0, 1, 7677407, 6, 2, 2095011, 5, 5); }
  lemma Above27() ensures Pow(2, 1707) < Pow(27, 359)
  { hide Pow; PowAbove(27, 5, 14348907, 0, 2, 25562490, 5, 1, 9536230, 5, 3, 134647566, 5, 11); }
  lemma Below28() ensures Pow(28, 353) < Pow(2, 1697)
  { hide Pow; PowBelow(28, 5, 17210368, 0, 2, 56895385, 5, 0, 8667793, 5, 1, 130736, 5, 1); }
  lemma Above28() ensures Pow(2, 524) < Pow(28, 109)
  { hide Pow; PowAbove(28, 1, 28, 0, 2, 481890304, 0, 3, 227985, 7, 1, 268746820, 3, 12); }
  lemma Below29() ensures Pow(29, 169) < Pow(2, 821)
  { hide Pow; PowBelow(29, 2, 841, 0, 2, 97954, 2, 2, 275071063, 3, 1, 2095551, 6, 5); }
  lemma Above29() ensures Pow(2, 1676) < Pow(29, 345)
  { hide Pow; PowAbove(29, 5, 20511149, 0, 1, 4245787, 5, 2, 226062, 5, 1, 269071976, 3, 12); }
  lemma Below30() ensures Pow(30, 290) < Pow(2, 1423)
  { hide Pow; PowBelow(30, 4, 810000, 0, 2, 21002107, 4, 0, 160936, 5, 2, 2144941882, 3, 15); }
  lemma Above30() ensures Pow(2, 1212) < Pow(30, 247)
  { hide Pow; PowAbove(30, 3, 27000, 0, 3, 50977558, 3, 1, 167585990, 5, 3, 268803560, 6, 12); }
  lemma Below31() ensures Pow(31, 131) < Pow(2, 649)
  { hide Pow; PowBelow(31, 2, 961, 0, 0, 13014085, 1, 0, 1555015898, 4, 3, 33547867, 7, 9); }
  lemma Above31() ensures Pow(2, 1838) < Pow(31, 371)
  { hide Pow; PowAbove(31, 5, 28629151, 0, 3, 252603, 6, 0, 14464859, 3, 3, 1078803251, 5, 14); }
  lemma Below33() ensures Pow(33, 45) < Pow(2, 227)
  { hide Pow; PowBelow(33, 0, 1, 0, 2, 1089, 0, 3, 11767752, 2, 1, 523466, 5, 3); }
  lemma Above33() ensures Pow(2, 1932) < Pow(33, 383)
  { hide Pow; PowAbove(33, 5, 39135393, 0, 3, 1063998, 6, 3, 2496809129, 4, 3, 268982285, 7, 12); }
  lemma Below34() ensures Pow(34, 343) < Pow(2, 1745)
  { hide Pow; PowBelow(34, 5, 45435424, 0, 1, 119855400, 5, 1, 88559, 6, 3, 131054, 4, 1); }
  lemma Above34() ensures Pow(2, 1338) < Pow(34, 263)
  { hide Pow; PowAbove(34, 4, 1336336, 0, 0, 172879, 4, 1, 107896682, 3, 3, 67234089, 6, 10); }
  lemma Below35() ensures Pow(35, 379) < Pow(2, 1944)
  { hide Pow; PowBelow(35, 5, 52521875, 0, 3, 4117992, 6, 2, 291393, 5, 3, 16757178, 4, 8); }
  lemma Above35() ensures Pow(2, 1349) < Pow(35, 263)
  { hide Pow; PowAbove(35, 4, 1500625, 0, 0, 274896, 4, 1, 710071259, 3, 3, 2099192, 7, 5); }
  lemma Below36() ensures Pow(36, 153) < Pow(2, 791)
  { hide Pow; PowBelow(36, 2, 1296, 0, 1, 1549681956, 1, 2, 1439514, 7, 1, 8380045, 4, 7); }
  lemma Above36() ensures Pow(2, 1856) < Pow(36, 359)
  { hide Pow; PowAbove(36, 5, 60466176, 0, 2, 218663, 6, 1, 292390944, 3, 3, 65675, 7, 0); }
  /** Two fractions on either side of 1 / log2(radix), neighbours among those with
      denominators up to 2048. */
  datatype Approx = Approx(p: nat, q: nat, p': nat, q': nat)

  /** The entries of a column that is no power of two, seen from the fractions: the
      multiplier lies between them, and the limits are on their side of them. */
  ghost predicate Fitting(c: Column, s: Approx) {
    && s.p > 0 && s.p' * s.q - s.p * s.q' == 1 && s.q + s.q' > 2048
    && s.p * LOG_BASE < c.mulLog2 * s.q && c.mulLog2 * s.q' < s.p' * LOG_BASE
    && 1024 * s.p' <= c.maxExp * s.q' && 1075 * s.p' <= -c.minExp * s.q'
    && (c.maxExp - 1) * s.q <= 1024 * s.p && (-c.minExp - 1) * s.q <= 1075 * s.p
    && -c.minExp * s.q <= 1084 * s.p
    && c.atodDigits * s.q <= 128 * s.p && 128 * s.p' <= (c.atodDigits + 1) * s.q'
    && 53 * s.p' <= (c.dtoaDigits - 1) * s.q' && (c.dtoaDigits - 2) * s.q <= 53 * s.p
    && c.dtoaDigits * s.q <= 63 * s.p
  }

  /** A full limb holds as many digits as the table says. */
  predicate FillsLimb(radix: nat, c: Column) {
    && 0 < c.perLimb && c.base < 0x1_0000_0000 && (c.base == 0 || c.base * radix > 0x1_0000_0000)
    && Power(radix, c.perLimb % 4) * Fourth(Power(radix, c.perLimb / 4))
       == if c.base == 0 then 0x1_0000_0000 else c.base
  }

  lemma Full2()
    ensures FillsLimb(2, Table(2))
    ensures FillsLimb(3, Table(3))
    ensures FillsLimb(4, Table(4))
    ensures FillsLimb(5, Table(5))
    ensures FillsLimb(6, Table(6))
  {
  }

  lemma Full7()
    ensures FillsLimb(7, Table(7))
    ensures FillsLimb(8, Table(8))
    ensures FillsLimb(9, Table(9))
    ensures FillsLimb(10, Table(10))
    ensures FillsLimb(11, Table(11))
  {
  }

  lemma Full12()
    ensures FillsLimb(12, Table(12))
    ensures FillsLimb(13, Table(13))
    ensures FillsLimb(14, Table(14))
    ensures FillsLimb(15, Table(15))
    ensures FillsLimb(16, Table(16))
  {
  }

  lemma Full17()
    ensures FillsLimb(17, Table(17))
    ensures FillsLimb(18, Table(18))
    ensures FillsLimb(19, Table(19))
    ensures FillsLimb(20, Table(20))
    ensures FillsLimb(21, Table(21))
  {
  }

  lemma Full22()
    ensures FillsLimb(22, Table(22))
    ensures FillsLimb(23, Table(23))
    ensures FillsLimb(24, Table(24))
    ensures FillsLimb(25, Table(25))
    ensures FillsLimb(26, Table(26))
  {
  }

  lemma Full27()
    ensures FillsLimb(27, Table(27))
    ensures FillsLimb(28, Table(28))
    ensures FillsLimb(29, Table(29))
    ensures FillsLimb(30, Table(30))
    ensures FillsLimb(31, Table(31))
  {
  }

  lemma Full32()
    ensures FillsLimb(32, Table(32))
    ensures FillsLimb(33, Table(33))
    ensures FillsLimb(34, Table(34))
    ensures FillsLimb(35, Table(35))
    ensures FillsLimb(36, Table(36))
  {
  }

  lemma Fits3() ensures Fitting(Table(3), Approx(971, 1539, 665, 1054)) {}
  lemma Fits5() ensures Fitting(Table(5), Approx(643, 1493, 789, 1832)) {}
  lemma Fits6() ensures Fitting(Table(6), Approx(306, 791, 665, 1719)) {}
  lemma Fits7() ensures Fitting(Table(7), Approx(571, 1603, 680, 1909)) {}
  lemma Fits9() ensures Fitting(Table(9), Approx(153, 485, 512, 1623)) {}
  lemma Fits10() ensures Fitting(Table(10), Approx(497, 1651, 146, 485)) {}
  lemma Fits11() ensures Fitting(Table(11), Approx(37, 128, 579, 2003)) {}
  lemma Fits12() ensures Fitting(Table(12), Approx(306, 1097, 359, 1287)) {}
  lemma Fits13() ensures Fitting(Table(13), Approx(227, 840, 464, 1717)) {}
  lemma Fits14() ensures Fitting(Table(14), Approx(462, 1759, 109, 415)) {}
  lemma Fits15() ensures Fitting(Table(15), Approx(290, 1133, 247, 965)) {}
  lemma Fits17() ensures Fitting(Table(17), Approx(343, 1402, 263, 1075)) {}
  lemma Fits18() ensures Fitting(Table(18), Approx(153, 638, 359, 1497)) {}
  lemma Fits19() ensures Fitting(Table(19), Approx(121, 514, 480, 2039)) {}
  lemma Fits20() ensures Fitting(Table(20), Approx(351, 1517, 146, 631)) {}
  lemma Fits21() ensures Fitting(Table(21), Approx(339, 1489, 130, 571)) {}
  lemma Fits22() ensures Fitting(Table(22), Approx(37, 165, 431, 1922)) {}
  lemma Fits23() ensures Fitting(Table(23), Approx(403, 1823, 191, 864)) {}
  lemma Fits24() ensures Fitting(Table(24), Approx(306, 1403, 359, 1646)) {}
  lemma Fits25() ensures Fitting(Table(25), Approx(424, 1969, 73, 339)) {}
  lemma Fits26() ensures Fitting(Table(26), Approx(227, 1067, 237, 1114)) {}
  lemma Fits27() ensures Fitting(Table(27), Approx(102, 485, 359, 1707)) {}
  lemma Fits28() ensures Fitting(Table(28), Approx(353, 1697, 109, 524)) {}
  lemma Fits29() ensures Fitting(Table(29), Approx(169, 821, 345, 1676)) {}
  lemma Fits30() ensures Fitting(Table(30), Approx(290, 1423, 247, 1212)) {}
  lemma Fits31() ensures Fitting(Table(31), Approx(131, 649, 371, 1838)) {}
  lemma Fits33() ensures Fitting(Table(33), Approx(45, 227, 383, 1932)) {}
  lemma Fits34() ensures Fitting(Table(34), Approx(343, 1745, 263, 1338)) {}
  lemma Fits35() ensures Fitting(Table(35), Approx(379, 1944, 263, 1349)) {}
  lemma Fits36() ensures Fitting(Table(36), Approx(153, 791, 359, 1856)) {}
  lemma LogBounds(radix: Radix) returns (s: Approx)
    requires radix !in {2, 4, 8, 16, 32}
    ensures Pow(radix, s.p) < Pow(2, s.q) && Pow(2, s.q') < Pow(radix, s.p') && Fitting(Table(radix), s)
  {
    hide *;
    match radix {
      case 3 => Below3(); Above3(); Fits3(); s := Approx(971, 1539, 665, 1054);
      case 5 => Below5(); Above5(); Fits5(); s := Approx(643, 1493, 789, 1832);
      case 6 => Below6(); Above6(); Fits6(); s := Approx(306, 791, 665, 1719);
      case 7 => Below7(); Above7(); Fits7(); s := Approx(571, 1603, 680, 1909);
      case 9 => Below9(); Above9(); Fits9(); s := Approx(153, 485, 512, 1623);
      case 10 => Below10(); Above10(); Fits10(); s := Approx(497, 1651, 146, 485);
      case 11 => Below11(); Above11(); Fits11(); s := Approx(37, 128, 579, 2003);
      case 12 => Below12(); Above12(); Fits12(); s := Approx(306, 1097, 359, 1287);
      case 13 => Below13(); Above13(); Fits13(); s := Approx(227, 840, 464, 1717);
      case 14 => Below14(); Above14(); Fits14(); s := Approx(462, 1759, 109, 415);
      case 15 => Below15(); Above15(); Fits15(); s := Approx(290, 1133, 247, 965);
      case 17 => Below17(); Above17(); Fits17(); s := Approx(343, 1402, 263, 1075);
      case 18 => Below18(); Above18(); Fits18(); s := Approx(153, 638, 359, 1497);
      case 19 => Below19(); Above19(); Fits19(); s := Approx(121, 514, 480, 2039);
      case 20 => Below20(); Above20(); Fits20(); s := Approx(351, 1517, 146, 631);
      case 21 => Below21(); Above21(); Fits21(); s := Approx(339, 1489, 130, 571);
      case 22 => Below22(); Above22(); Fits22(); s := Approx(37, 165, 431, 1922);
      case 23 => Below23(); Above23(); Fits23(); s := Approx(403, 1823, 191, 864);
      case 24 => Below24(); Above24(); Fits24(); s := Approx(306, 1403, 359, 1646);
      case 25 => Below25(); Above25(); Fits25(); s := Approx(424, 1969, 73, 339);
      case 26 => Below26(); Above26(); Fits26(); s := Approx(227, 1067, 237, 1114);
      case 27 => Below27(); Above27(); Fits27(); s := Approx(102, 485, 359, 1707);
      case 28 => Below28(); Above28(); Fits28(); s := Approx(353, 1697, 109, 524);
      case 29 => Below29(); Above29(); Fits29(); s := Approx(169, 821, 345, 1676);
      case 30 => Below30(); Above30(); Fits30(); s := Approx(290, 1423, 247, 1212);
      case 31 => Below31(); Above31(); Fits31(); s := Approx(131, 649, 371, 1838);
      case 33 => Below33(); Above33(); Fits33(); s := Approx(45, 227, 383, 1932);
      case 34 => Below34(); Above34(); Fits34(); s := Approx(343, 1745, 263, 1338);
      case 35 => Below35(); Above35(); Fits35(); s := Approx(379, 1944, 263, 1349);
      case 36 => Below36(); Above36(); Fits36(); s := Approx(153, 791, 359, 1856);
    }
  }

  lemma FullLimb(radix: Radix)
    ensures FillsLimb(radix, Table(radix))
  {
    hide *;
    Full2();
    Full7();
    Full12();
    Full17();
    Full22();
    Full27();
    Full32();
  }

  /** The base is the greatest power of the radix that is not above 2^32. */
  lemma LimbPower(radix: Radix)
    ensures Pow(radix, DigitsPerLimb(radix)) == if RadixBase(radix) == 0 then 0x1_0000_0000 else RadixBase(radix)
    ensures RadixBase(radix) < 0x1_0000_0000 < Pow(radix, DigitsPerLimb(radix) + 1)
  {
    PowNext(radix, DigitsPerLimb(radix));
    hide Pow;
    hide Table;
    var c := Table(radix);
    FullLimb(radix);
    PowerIs(radix, c.perLimb % 4);
    PowerIs(radix, c.perLimb / 4);
    FourthPow(radix, c.perLimb / 4, c.perLimb % 4);
  }

  lemma PowNext(b: nat, n: nat)
    ensures Pow(b, n + 1) == b * Pow(b, n)
  {
  }

  lemma {:induction false} OddPower(b: nat, n: nat)
    requires b % 2 == 1
    ensures Pow(b, n) % 2 == 1
    decreases n
  {
    if n > 0 {
      OddPower(b, n - 1);
      OddProduct(b, Pow(b, n - 1));
    }
  }

  lemma OddProduct(x: nat, y: nat)
    requires x % 2 == 1 && y % 2 == 1
    ensures x * y % 2 == 1
  {
    assert x * y == 2 * (x / 2 * y) + y;
  }

  lemma {:induction false} OddPartOdd(radix: nat)
    requires radix > 0
    ensures OddPart(radix) % 2 == 1
    decreases radix
  {
    if radix % 2 == 0 { OddPartOdd(radix / 2); }
  }

  /** The powers of the odd part are taken limb by limb. */
  lemma OddFits(radix: Radix)
    requires RadixBits(radix) == 0
    ensures OddPart(radix) > 1 && OddPart(radix) * Pow(2, TwosIn(radix)) == radix
    ensures Pow(OddPart(radix), OddPerLimb(radix)) < 0x1_0000_0000
  {
    hide Pow;
    hide Table;
    OddTimesTwos(radix);
    OddPartOdd(radix);
    LimbPower(OddPart(radix));
    OddPower(OddPart(radix), OddPerLimb(radix));
  }
}
