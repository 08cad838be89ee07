/** The conversion of `js_atod` is correctly rounded: the digits that are kept, scaled by a
    power of the radix, become the nearest binary64 number, as long as the exponent
    arithmetic fits a 32-bit int. */
module DtoaRead {
  import opened DtoaArith
  import opened DtoaRound
  import opened DtoaDouble
  import opened DtoaScale
  import opened DtoaLog
  import opened DtoaTables
  import opened DtoaScan
  import opened DtoaNumeral
  import opened DtoaDigits

  // ----- the value of a numeral -----

  /** What positions are counted in: digits or bits. */
  function Unit(radix: Radix): nat {
    if RadixBits(radix) == 0 then 1 else RadixBits(radix)
  }

  /** The exponent of the last digit: of the radix, or of two. */
  function LastExp(n: Numeral, radix: Radix): int {
    if RadixBits(radix) == 0 then ExpValue(n.exp) - |n.fp|
    else (if IsBinary(n.exp) then ExpValue(n.exp) else ExpValue(n.exp) * RadixBits(radix)) - |n.fp| * RadixBits(radix)
  }

  function Base(radix: Radix): (b: nat)
    ensures b > 0
  {
    if RadixBits(radix) == 0 then radix else 2
  }

  function Times(x: nat, y: nat): nat { x * y }

  /** The value of a numeral in units of 2^-1074, as a fraction. */
  function ValueNum(n: Numeral, radix: Radix): nat {
    Times(Times(DigitsValue(AllOf(n), radix), UpPow(Base(radix), LastExp(n, radix))), Pow(2, 1074))
  }

  function ValueDen(n: Numeral, radix: Radix): (d: nat)
    ensures d > 0
  {
    UpPow(Base(radix), -LastExp(n, radix))
  }

  /** `m * b^e`, rounded. */
  function Rounded(m: nat, b: nat, e: int): nat
    requires b > 0
  {
    RoundBits(Times(Times(m, UpPow(b, e)), Pow(2, 1074)), UpPow(b, -e))
  }

  // ----- far too big, far too small -----

  lemma HugeIsInfinity(x: nat, d: nat)
    requires d > 0 && Pow(2, 2098) * d <= x
    ensures RoundBits(x, d) == INFINITY
  {
    hide Pow;
    hide Quantum;
    hide RoundDiv;
    var k := Quantum(x, d);
    HugeQuantum(x, d);
    QuantumBounds(x, d);
    MulStrict(0, d, Pow(2, k));
    RoundDivRange(x, d * Pow(2, k), RNDN, P52, P53);
    MulMono(2046, k, P52);
  }

  lemma HugeQuantum(x: nat, d: nat)
    requires d > 0 && Pow(2, 2098) * d <= x
    ensures Quantum(x, d) >= 2046
  {
    hide Pow;
    DivAtLeast(x, d, Pow(2, 2098));
    FloorLog2Bounds(x / d);
    PowOrder(2, 2098, FloorLog2(x / d) + 1);
  }

  lemma TinyIsZero(x: nat, d: nat)
    requires 2 * x < d
    ensures RoundBits(x, d) == 0
  {
    DivIs(x, d, 0, x);
    assert Pow(2, 0) == 1;
  }

  // ----- radices with an odd factor -----

  /** The limits on the exponent only cut off what rounds to infinity or zero. */
  lemma TableLimits(radix: Radix, m: nat, c: nat, e: int)
    requires RadixBits(radix) == 0 && Pow(radix, c) > m && c > 0 && Pow(radix, c - 1) <= m
    ensures e + c >= MaxExponent(radix) + 1 ==> Rounded(m, radix, e) == INFINITY
    ensures e + c <= MinExponent(radix) ==> Rounded(m, radix, e) == 0
  {
    hide Pow;
    hide UpPow;
    hide RoundBits;
    hide MaxExponent;
    hide MinExponent;
    RadixLimits(radix);
    if e + c >= MaxExponent(radix) + 1 {
      AboveLimit(radix, m, c, e, MaxExponent(radix));
      HugeIsInfinity(m * UpPow(radix, e) * Pow(2, 1074), UpPow(radix, -e));
    }
    if e + c <= MinExponent(radix) {
      BelowLimit(radix, m, c, e, -MinExponent(radix));
      TinyIsZero(m * UpPow(radix, e) * Pow(2, 1074), UpPow(radix, -e));
    }
  }

  lemma AboveLimit(radix: Radix, m: nat, c: nat, e: int, top: nat)
    requires c > 0 && Pow(radix, c - 1) <= m && e + c >= top + 1 && Pow(2, 1024) <= Pow(radix, top)
    ensures Pow(2, 2098) * UpPow(radix, -e) <= m * UpPow(radix, e) * Pow(2, 1074)
  {
    hide Pow;
    hide UpPow;
    PowAdd(2, 1024, 1074);
    PowMono(radix, top, c - 1 + e);
    UpPowSum(radix, c - 1, e);
    PlainUp(radix, c - 1);
    PlainUp(radix, c - 1 + e);
    ScaleUp(Pow(2, 1024), Pow(radix, c - 1 + e), Pow(radix, c - 1), m, UpPow(radix, e), UpPow(radix, -e),
      Pow(2, 1074));
  }

  lemma BelowLimit(radix: Radix, m: nat, c: nat, e: int, low: nat)
    requires m < Pow(radix, c) && e + c <= 0 - low && Pow(2, 1075) < Pow(radix, low)
    ensures 2 * (m * UpPow(radix, e) * Pow(2, 1074)) < UpPow(radix, -e)
  {
    hide Pow;
    var w := Pow(2, 1074);
    assert Pow(2, 1075) == 2 * w by { PowSteps(1074); }
    assert UpPow(radix, e) == 1 && UpPow(radix, -e) == Pow(radix, -e) by { PowZero(radix); }
    PowMono(radix, c + low, -e);
    PowAdd(radix, c, low);
    MulStrict(m, Pow(radix, c), 2 * w);
    MulMono(2 * w, Pow(radix, low), Pow(radix, c));
    assert 2 * (m * 1 * w) == m * (2 * w);
  }

  /** Scaling and rounding inside the limits. */
  lemma TableScaled(radix: Radix, m: nat, e: int)
    requires m > 0
    ensures var s := RadixScaled(m, radix, e, false, 55);
            FloatBits(RoundToD(s.value, s.offset)) == Rounded(m, radix, e)
  {
    hide Pow;
    hide UpPow;
    hide StandsFor;
    hide RoundToD;
    hide PackBits;
    hide RoundBits;
    hide RadixScaled;
    var nn, dd := RadixStands(m, radix, e);
    var s := RadixScaled(m, radix, e, false, 55);
    RoundToDNearest(s.value, s.offset, Num(m, 0, radix, e), Den(0, radix, e), nn, dd);
    assert UpPow(2, 0) == 1 && UpPow(2, -0) == 1 by { SmallUpPow(0); }
  }

  /** Additions that wrap around once are undone by a wrap-around. */
  lemma WrapTwice(x: int, y: int)
    requires -2 * INT32_LIMIT <= x <= 2 * INT32_LIMIT && 0 <= y < INT32_LIMIT
    ensures Wrap32(Wrap32(x) + y) == Wrap32(x + y)
    ensures -INT32_LIMIT <= x < INT32_LIMIT ==> Wrap32(x) == x
    ensures INT32_LIMIT <= x ==> Wrap32(x) == x - 2 * INT32_LIMIT || x == 2 * INT32_LIMIT
    ensures x < -INT32_LIMIT ==> Wrap32(x) == x + 2 * INT32_LIMIT
  {
  }

  /** The conversion is correct exactly when the exponent above the first digit is an int:
      otherwise the wrap-around takes infinity for zero, and zero for infinity. */
  lemma ConvertTableExactly(radix: Radix, acc: Acc, x: int, offset: int)
    requires RadixBits(radix) == 0 && acc.mant > 0 && 0 < acc.count <= AtodDigits(radix)
    requires Pow(radix, acc.count - 1) <= acc.mant < Pow(radix, acc.count)
    requires Abs(x - offset) <= 3_500_000_000
    ensures ConvertTable(acc, radix, x, offset) == Rounded(acc.mant, radix, x - offset)
       <==> -INT32_LIMIT <= x - offset + acc.count < INT32_LIMIT
  {
    hide Pow;
    hide UpPow;
    hide RoundToD;
    hide RoundBits;
    hide RadixScaled;
    hide Rounded;
    hide PackBits;
    hide Wrap32;
    hide RadixBits;
    hide MaxExponent;
    hide MinExponent;
    hide AtodDigits;
    var e := x - offset;
    WrapTwice(e, acc.count);
    WrapTwice(e + acc.count, 0);
    TableLimits(radix, acc.mant, acc.count, e);
    TableScaled(radix, acc.mant, e);
  }

  // ----- powers of two -----

  /** The kept digits are the sticky quotient of all of them. */
  lemma KeptIsQuotient(t: string, radix: Radix)
    requires AllDigits(t, radix)
    ensures var c := Kept(|t|, radix);
            var dd := Pow(radix, |t| - c);
            dd > 0 && KeptAcc(t, radix).mant == DigitsValue(t, radix) / dd
            && KeptAcc(t, radix).extra == (DigitsValue(t, radix) % dd != 0)
  {
    hide Pow;
    var c := Kept(|t|, radix);
    assert t == t[..c] + t[c..];
    DigitsConcat(t[..c], t[c..], radix);
    DigitsBelow(t[c..], radix);
    DivIs(DigitsValue(t, radix), Pow(radix, |t| - c), DigitsValue(t[..c], radix), DigitsValue(t[c..], radix));
  }

  /** When digits are dropped, the kept ones have at least 56 bits. */
  lemma KeptBits(t: string, radix: Radix)
    requires AllDigits(t, radix) && RadixBits(radix) != 0 && t != "" && ToDigit(t[0]) > 0
    requires Kept(|t|, radix) < |t|
    ensures Pow(2, 55) <= KeptAcc(t, radix).mant
  {
    hide Pow;
    hide ToDigit;
    hide RadixBits;
    hide AtodDigits;
    hide DigitsValue;
    var c := Kept(|t|, radix);
    EnoughBinary(radix);
    DigitsAbove(t[..c], radix);
    RadixIsPower(radix, c - 1);
    PowMono(2, 55, (c - 1) * RadixBits(radix));
  }

  lemma EnoughBinary(radix: Radix)
    requires RadixBits(radix) != 0
    ensures (AtodDigits(radix) - 1) * RadixBits(radix) >= 55
  {
    PowersOfTwo(radix);
    FewBits();
  }

  lemma KeptCount(t: string, radix: Radix)
    ensures KeptAcc(t, radix).count == Kept(|t|, radix) <= |t|
    ensures Kept(|t|, radix) == |t| ==> KeptAcc(t, radix).mant == DigitsValue(t, radix) && !KeptAcc(t, radix).extra
  {
    assert t[..|t|] == t && t[|t|..] == "";
  }

  lemma BinStands(t: string, radix: Radix, y: int)
    requires AllDigits(t, radix) && RadixBits(radix) != 0 && t != "" && ToDigit(t[0]) > 0
    ensures var acc := KeptAcc(t, radix);
            acc.count <= |t|
            && Sticky(acc.mant, acc.extra) > 0
            && StandsFor(Sticky(acc.mant, acc.extra), -(y + (|t| - acc.count) * RadixBits(radix)),
              Times(DigitsValue(t, radix), UpPow(2, y)), UpPow(2, -y), DigitsValue(t, radix),
              Pow(radix, |t| - acc.count))
  {
    hide Pow;
    hide UpPow;
    hide Sticky;
    hide KeptAcc;
    hide Kept;
    hide AllDigits;
    var acc := KeptAcc(t, radix);
    KeptCount(t, radix);
    var n, k := DigitsValue(t, radix), |t| - acc.count;
    KeptIsQuotient(t, radix);
    RadixIsPower(radix, k);
    if k > 0 {
      KeptBits(t, radix);
    } else {
      PowZero(radix);
      DigitsAbove(t, radix);
    }
    StickyNonZero(acc.mant, acc.extra);
    BinFraction(n, y, k * RadixBits(radix));
    SmallUpPow(-y);
  }

  lemma StickyNonZero(q: nat, inexact: bool)
    requires q > 0
    ensures Sticky(q, inexact) > 0
  {
  }

  lemma BinFraction(n: nat, y: int, b: nat)
    ensures n * UpPow(2, -y) * UpPow(2, y + b) == n * UpPow(2, y) * Pow(2, b) * UpPow(2, -(y + b))
  {
    hide Pow;
    hide UpPow;
    UpPowSum(2, y, b);
    PlainUp(2, b);
    Fraction3(n, UpPow(2, y), UpPow(2, -y), UpPow(2, y + b), UpPow(2, -(y + b)), Pow(2, b));
  }

  lemma Fraction3(n: nat, u: nat, u': nat, v: nat, v': nat, b: nat)
    requires u * b * v' == v * u'
    ensures n * u' * v == n * u * b * v'
  {
    assert n * u' * v == n * (v * u') && n * u * b * v' == n * (u * b * v');
  }

  lemma BinLimits(n: nat, k: nat, b: nat, y: int)
    requires n < Pow(2, k) && b <= k && Pow(2, k - b) <= n
    ensures y + k >= 1024 + b ==> Rounded(n, 2, y) == INFINITY
    ensures y + k <= -1075 ==> Rounded(n, 2, y) == 0
  {
    hide Pow;
    hide UpPow;
    hide RoundBits;
    if y + k >= 1024 + b {
      BinAbove(n, k - b, y);
      HugeIsInfinity(n * UpPow(2, y) * Pow(2, 1074), UpPow(2, -y));
    }
    if y + k <= -1075 {
      BinBelow(n, k, y);
      TinyIsZero(n * UpPow(2, y) * Pow(2, 1074), UpPow(2, -y));
    }
  }

  lemma BinAbove(n: nat, j: nat, y: int)
    requires Pow(2, j) <= n && y + j >= 1024
    ensures Pow(2, 2098) * UpPow(2, -y) <= n * UpPow(2, y) * Pow(2, 1074)
  {
    hide Pow;
    hide UpPow;
    PowAdd(2, 1024, 1074);
    PowMono(2, 1024, j + y);
    UpPowSum(2, j, y);
    PlainUp(2, j);
    PlainUp(2, j + y);
    ScaleUp(Pow(2, 1024), Pow(2, j + y), Pow(2, j), n, UpPow(2, y), UpPow(2, -y), Pow(2, 1074));
  }

  lemma ScaleUp(g: nat, p: nat, q: nat, n: nat, u: nat, u': nat, w: nat)
    requires g <= p && q <= n && q * u == p * u'
    ensures g * w * u' <= n * u * w
  {
    MulMono(q, n, u);
    MulMono(g, p, u');
    MulMono(g * u', n * u, w);
    assert g * u' * w == g * w * u';
  }

  lemma BinBelow(n: nat, k: nat, y: int)
    requires n < Pow(2, k) && y + k <= -1075
    ensures 2 * (n * UpPow(2, y) * Pow(2, 1074)) < UpPow(2, -y)
  {
    hide Pow;
    var w := Pow(2, 1074);
    assert Pow(2, 1075) == 2 * w by { PowSteps(1074); }
    assert UpPow(2, y) == 1;
    PowMono(2, k + 1075, -y);
    PowAdd(2, k, 1075);
    MulStrict(n, Pow(2, k), 2 * w);
    assert 2 * (n * 1 * w) == n * (2 * w);
  }

  /** Wrapping around early does not matter, only that the last result does. */
  lemma WrapSums(x: int, y: int)
    ensures Wrap32(Wrap32(x) + y) == Wrap32(x + y)
    ensures -INT32_LIMIT <= Wrap32(x) < INT32_LIMIT
    ensures -INT32_LIMIT <= x < INT32_LIMIT ==> Wrap32(x) == x
  {
  }

  lemma WrapBack(x: int, y: int)
    requires -INT32_LIMIT <= Wrap32(x + y) - y < INT32_LIMIT
    ensures Wrap32(x) == Wrap32(x + y) - y
  {
    WrapSums(x + y, -y);
  }

  /** The exponents that are computed: the one above the first digit wraps around, and the
      one of the last digit follows it. */
  lemma ConvertBinIs(acc: Acc, bits: nat, x: int, binary: bool, offset: int, w: int)
    requires w == Wrap32((if binary then x else x * bits) - offset * bits + acc.count * bits)
    requires acc.count * bits <= 1_000_000_000 && bits <= 5
    ensures ConvertBin(acc, bits, x, binary, offset)
         == if w >= 1024 + bits then INFINITY else if w <= -1075 then 0
            else FloatBits(RoundToD(Sticky(acc.mant, acc.extra), -(w - acc.count * bits)))
  {
    hide RoundToD;
    hide PackBits;
    hide Sticky;
    hide Wrap32;
    var a := (if binary then x else x * bits) - offset * bits;
    WrapSums(x * bits, -(offset * bits));
    WrapSums(a, acc.count * bits);
    if -1075 < w < 1024 + bits {
      WrapBack(a, acc.count * bits);
    }
  }

  /** In a power-of-two radix the number that is rounded has the exponent that was computed,
      right or wrong. */
  lemma ConvertBinNearest(t: string, radix: Radix, x: int, binary: bool, offset: int, w: int)
    requires AllDigits(t, radix) && RadixBits(radix) != 0 && t != "" && ToDigit(t[0]) > 0
    requires var b := RadixBits(radix);
             w == Wrap32((if binary then x else x * b) - offset * b + KeptAcc(t, radix).count * b)
    requires |t| * RadixBits(radix) <= 1_000_000_000
    ensures ConvertBin(KeptAcc(t, radix), RadixBits(radix), x, binary, offset)
         == Rounded(DigitsValue(t, radix), 2, w - |t| * RadixBits(radix))
  {
    hide Pow;
    hide UpPow;
    hide RoundToD;
    hide RoundBits;
    hide PackBits;
    hide StandsFor;
    hide Sticky;
    hide KeptAcc;
    hide DigitsValue;
    hide AllDigits;
    hide ConvertBin;
    hide Wrap32;
    hide Kept;
    var bits, acc := RadixBits(radix), KeptAcc(t, radix);
    var y := w - |t| * bits;
    KeptCount(t, radix);
    MulMono(acc.count, |t|, bits);
    PowersOfTwo(radix);
    ConvertBinIs(acc, bits, x, binary, offset, w);
    BinDigitsRange(t, radix);
    BinLimits(DigitsValue(t, radix), |t| * bits, bits, y);
    BinStands(t, radix, y);
    BitCounts(|t|, acc.count, bits, y);
    RoundToDNearest(Sticky(acc.mant, acc.extra), -(w - acc.count * bits), DigitsValue(t, radix) * UpPow(2, y),
      UpPow(2, -y), DigitsValue(t, radix), Pow(radix, |t| - acc.count));
  }

  lemma BitCounts(n: nat, c: nat, bits: nat, y: int)
    ensures y + (n - c) * bits + c * bits == y + n * bits && (n - 1) * bits == n * bits - bits
    ensures n > 0 ==> bits <= n * bits
  {
    if n > 0 { MulMono(1, n, bits); }
  }

  lemma BinDigitsRange(t: string, radix: Radix)
    requires AllDigits(t, radix) && RadixBits(radix) != 0 && t != "" && ToDigit(t[0]) > 0
    ensures var bits := RadixBits(radix);
            bits <= |t| * bits && Pow(2, |t| * bits - bits) <= DigitsValue(t, radix) < Pow(2, |t| * bits)
  {
    hide Pow;
    BitCounts(|t|, 0, RadixBits(radix), 0);
    DigitsAbove(t, radix);
    DigitsBelow(t, radix);
    RadixIsPower(radix, |t|);
    RadixIsPower(radix, |t| - 1);
  }
}