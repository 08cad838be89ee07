/** The bound of `js_dtoa_max_len` on what `js_dtoa` writes. */
module DtoaLength {
  import opened DtoaArith
  import opened DtoaRound
  import opened DtoaDouble
  import opened DtoaLog
  import opened DtoaScale
  import opened DtoaTables
  import opened DtoaShortest
  import opened DtoaCloser
  import opened DtoaMinimal
  import opened DtoaScan
  import opened DtoaPrint
  import opened DtoaFixed

  /** The exponent field of the number. */
  function ExpField(v: Number): nat {
    if v.NaN? then 0x7FF else v.magnitude / P52
  }

  /** `js_dtoa_max_len`. */
  function MaxLen(v: Number, radix: Radix, format: Format, mode: ExpMode): int {
    var special := ExpField(v) == 0x7FF;
    var e := ExpField(v) - 1023;
    var n := match format
      case Frac(k) =>
        if special then 0 else (if e < 0 then 1 else 2 + MulLog2Radix(e - 1, radix)) + 3 + k
      case _ =>
        var k := if format.Fixed? then format.digits else PrintDigits(radix);
        if mode != Disabled then k + 8
        else if special then 0 else k + 10 + Abs(MulLog2Radix(e - 1, radix));
    Max(n, 9)
  }

  function SignLength(negative: bool): nat { if negative then 1 else 0 }

  /** What does not keep to the bound: a zero that is given fractional digits and an exponent,
      and subnormal numbers with a fixed number of digits and without an exponent. */
  predicate Overlong(v: Number, radix: Radix, format: Format, mode: ExpMode, minusZero: bool)
    requires v.Bits? ==> v.magnitude <= INFINITY
  {
    v.Bits?
    && ((format.Frac? && mode == Enabled && v.magnitude == 0
         && SignLength(v.negative && minusZero) + format.places > 4)
        || (format.Fixed? && mode == Disabled && 0 < v.magnitude < P52
            && SignLength(v.negative) - FixedDecimal(radix, v.magnitude, format.digits).exp
               > 8 + Abs(MulLog2Radix(-1024, radix))))
  }

  // ----- logarithms of neighbours -----

  lemma LogSteps(radix: Radix, a: int)
    requires -2048 <= a < 2047
    ensures MulLog2Radix(a, radix) <= MulLog2Radix(a + 1, radix) <= MulLog2Radix(a, radix) + 1
    ensures a < 0 <==> MulLog2Radix(a, radix) < 0
  {
    hide RadixBits;
    hide LogMultiplier;
    var b := RadixBits(radix);
    if b != 0 {
      var k, l := MulLog2Radix(a, radix), MulLog2Radix(a + 1, radix);
      FloorParts(a, b, k);
      FloorParts(a + 1, b, l);
      FloorNext(a, b, k, l);
      FloorSign(a, b, k);
    } else {
      TableLogSteps(a, LogMultiplier(radix));
      LogMultiplierPositive(radix);
      TableLogSign(a, LogMultiplier(radix));
    }
  }

  lemma LogMultiplierPositive(radix: Radix)
    requires RadixBits(radix) == 0
    ensures LogMultiplier(radix) > 3_000_000
  {
  }

  lemma TableLogSteps(a: int, m: nat)
    requires m < LOG_BASE
    ensures a * m / LOG_BASE <= (a + 1) * m / LOG_BASE <= a * m / LOG_BASE + 1
  {
    assert (a + 1) * m == a * m + m;
  }

  lemma TableLogSign(a: int, m: nat)
    requires 8192 < m < LOG_BASE && -2048 <= a < 2048
    ensures a < 0 <==> a * m / LOG_BASE < 0
  {
    if a < 0 { MulStrictInt(a, 0, m); } else { MulMonoInt(0, a, m); }
  }

  lemma FloorNext(a: int, b: nat, k: int, l: int)
    requires b > 0 && k * b <= a < (k + 1) * b && l * b <= a + 1 < (l + 1) * b
    ensures k <= l <= k + 1
  {
    if l < k { MulMonoInt(l + 1, k, b); }
    if l > k + 1 {
      assert (k + 2) * b == (k + 1) * b + b;
      MulMonoInt(k + 2, l, b);
    }
  }

  lemma FloorSign(a: int, b: nat, k: int)
    requires b > 0 && k * b <= a < (k + 1) * b
    ensures a < 0 <==> k < 0
  {
    if k < 0 { MulMonoInt(k + 1, 0, b); } else { MulMonoInt(0, k, b); }
  }

  // ----- lengths of layouts -----

  lemma LayoutLength(radix: Radix, c: Decimal, mode: ExpMode, max: nat)
    requires c.digits >= 1
    ensures |Layout(radix, c, mode, max)|
         == if Exponential(c, mode, max) then
              c.digits + (if c.digits == 1 then 0 else 1) + 2 + |Numerals(10, Abs((c.exp - 1) * ExpScale(radix)))|
            else if c.exp <= 0 then 2 - c.exp + c.digits
            else if c.exp < c.digits then c.digits + 1
            else c.exp
  {
    hide DigitChars;
    hide Numerals;
    hide Exponential;
    hide ExpChar;
    hide ExpScale;
  }

  lemma ExponentLength(radix: Radix, e: int)
    requires Abs(e) <= 2400
    ensures |Numerals(10, Abs(e * ExpScale(radix)))| <= 4
  {
    hide Numerals;
    hide RadixBits;
    ScaledExponent(e, ExpScale(radix));
    TenThousand();
    NumeralsLength(10, Abs(e * ExpScale(radix)), 4);
  }

  lemma ScaledExponent(e: int, k: nat)
    requires Abs(e) <= 2400 && k <= 4
    ensures Abs(e * k) < 10000
  {
  }

  lemma TenThousand()
    ensures Pow(10, 4) == 10000
  {
  }

  // ----- decimals that are printed -----

  /** A layout with an exponent, or one that is chosen automatically. */
  lemma ShortLayout(radix: Radix, c: Decimal, mode: ExpMode, max: nat)
    requires mode != Disabled && c.digits >= 1 && Abs(c.exp) <= 2300
    ensures |Layout(radix, c, mode, max)| <= Max(c.digits + 7, max + 1)
  {
    hide Layout;
    hide Numerals;
    hide ExpScale;
    LayoutLength(radix, c, mode, max);
    ExponentLength(radix, c.exp - 1);
  }

  /** Without an exponent, of a normal number. */
  lemma PlainLayout(radix: Radix, f: Float, c: Decimal, max: nat)
    requires c.digits >= 1 && -1022 <= f.exp - 1 <= 1023
    requires FirstExp(radix, f) <= c.exp <= FirstExp(radix, f) + 1
    ensures |Layout(radix, c, Disabled, max)| <= c.digits + 9 + Abs(MulLog2Radix(f.exp - 2, radix))
  {
    hide Layout;
    hide Numerals;
    hide MulLog2Radix;
    LayoutLength(radix, c, Disabled, max);
    LogSteps(radix, f.exp - 2);
    LogSteps(radix, f.exp - 1);
  }

  lemma ExpOfAttempt(radix: Radix, a: nat, n: nat, mode: Mode)
    requires 0 < a < INFINITY
    ensures var f, c := Normalize(a), Attempt(radix, Normalize(a), n, mode);
            FirstExp(radix, f) <= c.exp <= FirstExp(radix, f) + 1 && c.digits == n && Abs(c.exp) <= 2300
  {
    hide MulLog2Radix;
    hide RadixRounded;
    hide Pow;
    hide Normalize;
    NormalizeValue(a);
    AttemptExp(radix, a, n, mode);
    LogSize(Normalize(a).exp - 1, radix);
  }

  lemma {:induction false} ShortenFirst(radix: Radix, f: Float, p: nat, best: Decimal)
    requires P52 <= f.mant < P53 && -1074 < f.exp <= 1024
    requires FirstExp(radix, f) <= best.exp <= FirstExp(radix, f) + 1
    ensures FirstExp(radix, f) <= Shorten(radix, f, p, best).exp <= FirstExp(radix, f) + 1
    decreases p
  {
    hide ReadsBack;
    hide Strip;
    hide FirstExp;
    hide RadixRounded;
    hide Pow;
    if p > 0 {
      AttemptFull(radix, f, p, RNDN);
      var c := Attempt(radix, f, p, RNDN);
      StripExp(radix, c);
      if ReadsBack(radix, Strip(radix, c), f) {
        ShortenFirst(radix, f, Strip(radix, c).digits - 1, Strip(radix, c));
      }
    }
  }

  lemma PrintedFirst(radix: Radix, a: nat)
    requires 0 < a < INFINITY && P52 <= Normalize(a).mant < P53 && -1074 < Normalize(a).exp <= 1024
    ensures FirstExp(radix, Normalize(a)) <= Shortest(radix, Normalize(a)).exp <= FirstExp(radix, Normalize(a)) + 1
  {
    hide Strip;
    hide FirstExp;
    hide Shorten;
    hide Normalize;
    hide Attempt;
    hide PrintDigits;
    hide Full;
    var f, n := Normalize(a), PrintDigits(radix);
    AttemptFull(radix, f, n, RNDN);
    ExpOfAttempt(radix, a, n, RNDN);
    var c := Strip(radix, Attempt(radix, f, n, RNDN));
    StripExp(radix, Attempt(radix, f, n, RNDN));
    FullDigitsOf(radix, c);
    ShortenFirst(radix, f, c.digits - 1, c);
  }

  /** The exponent of the printed digits is the first guess or the next. */
  lemma PrintedExp(radix: Radix, a: nat)
    requires 0 < a < INFINITY
    ensures var f, c := Normalize(a), Printed(radix, a);
            FirstExp(radix, f) <= c.exp <= FirstExp(radix, f) + 1 && 1 <= c.digits <= PrintDigits(radix)
            && Abs(c.exp) <= 2300
  {
    hide FirstExp;
    hide Shortest;
    hide Normalize;
    hide Full;
    hide Attempt;
    hide Nearest;
    hide DecNum;
    hide DecDen;
    NormalizeValue(a);
    PrintedFirst(radix, a);
    GuessSize(radix, Normalize(a));
    ShortestNearest(radix, a);
    FullDigitsOf(radix, Printed(radix, a));
  }

  lemma GuessSize(radix: Radix, f: Float)
    requires -1074 < f.exp <= 1024
    ensures Abs(FirstExp(radix, f)) <= 2200
  {
    hide MulLog2Radix;
    LogSize(f.exp - 1, radix);
  }

  // ----- subnormal numbers -----

  /** A unit in the last digit below 2^-1074 separates the subnormal numbers. */
  lemma SmallUnitStands(radix: Radix, a: nat, n: nat)
    requires 0 < a < P52 && n >= 1
    requires var g := Attempt(radix, Normalize(a), n, RNDN).exp - n; g < 0 && Pow(2, 1074) < Pow(radix, -g)
    ensures Stands(radix, Attempt(radix, Normalize(a), n, RNDN), a)
  {
    hide Pow;
    hide Units;
    hide Nearest;
    hide Normalize;
    hide RoundDiv;
    hide RadixRounded;
    hide FirstExp;
    NormalizeValue(a);
    var f := Normalize(a);
    AttemptFull(radix, f, n, RNDN);
    var c := Attempt(radix, f, n, RNDN);
    var g := c.exp - n;
    AttemptExp(radix, a, n, RNDN);
    assert c.mant == RadixRounded(f.mant, f.exp - 53, radix, -g, RNDN);
    hide Attempt;
    hide Full;
    RadixRound(f.mant, f.exp - 53, radix, -g, RNDN);
    RoundingError(radix, a, c.mant, g);
    UnitsOf(0, a - 1);
    UnitsOf(0, a);
    UnitsOf(0, a + 1);
    PowZero(2);
    CloseIsNearest(a, DecNum(radix, c), DecDen(radix, c), UpPow(radix, g) * Pow(2, 1074));
  }

  /** Two logarithms fifty binary places apart. */
  lemma LogsApart(radix: Radix)
    ensures MulLog2Radix(-1074, radix) + PrintDigits(radix) - 1 >= MulLog2Radix(-1024, radix)
    ensures MulLog2Radix(-1074, radix) < 0 && Pow(2, 1074) <= Pow(radix, -MulLog2Radix(-1074, radix))
  {
    hide Pow;
    hide MulLog2Radix;
    hide PrintDigits;
    var k, l, d := MulLog2Radix(-1024, radix), MulLog2Radix(-1074, radix), PrintDigits(radix) - 1;
    MulLog2RadixExact(-1024, radix);
    MulLog2RadixExact(-1074, radix);
    LogSteps(radix, -1024);
    LogSteps(radix, -1074);
    ManyDigits(radix);
    PowAdd(2, 1024, 50);
    PowAdd(radix, -k, d);
    MulMono(Pow(2, 1024), Pow(radix, -k), Pow(2, 50));
    MulMono(Pow(2, 50), Pow(radix, d), Pow(radix, -k));
    if -l - 1 >= -k + d { PowMono(radix, -k + d, -l - 1); }
    if l == -1 { PowZero(radix); }
  }

  lemma ManyDigits(radix: Radix)
    ensures Pow(2, 50) <= Pow(radix, PrintDigits(radix) - 1)
  {
    hide Pow;
    hide PrintDigits;
    hide RadixBits;
    PowMono(2, 50, 53);
    if RadixBits(radix) == 0 {
      DigitLimits(radix);
    } else {
      BinaryDigits(radix);
      RadixIsPower(radix, PrintDigits(radix) - 1);
      PowMono(2, 53, (PrintDigits(radix) - 1) * RadixBits(radix));
    }
  }

  /** The last printed digit of a subnormal number is not far behind the point. */
  lemma SubnormalPlaces(radix: Radix, a: nat)
    requires 0 < a < P52
    ensures Printed(radix, a).digits - Printed(radix, a).exp <= PrintDigits(radix) + 1 + Abs(MulLog2Radix(-1024, radix))
  {
    hide Pow;
    hide MulLog2Radix;
    hide PrintDigits;
    hide Normalize;
    hide Printed;
    hide Attempt;
    hide Stands;
    NormalizeValue(a);
    var f := Normalize(a);
    var l := MulLog2Radix(-1074, radix);
    PrintedExp(radix, a);
    LogsApart(radix);
    LogSteps(radix, -1024);
    LogMono(radix, -1074, f.exp - 1);
    SubnormalExp(a);
    var n := FirstExp(radix, f) - l + 2;
    ExpOfAttempt(radix, a, n, RNDN);
    var g := Attempt(radix, f, n, RNDN).exp - n;
    PowStrict(radix, -l, -g);
    SmallUnitStands(radix, a, n);
    MinimalUnlessPower(radix, a);
    AttemptFull(radix, f, n, RNDN);
  }

  lemma SubnormalExp(a: nat)
    requires 0 < a < P52
    ensures Normalize(a).exp <= -1021
  {
    hide Pow;
    P52Is();
    FloorLog2Bounds(a);
    if FloorLog2(a) >= 52 { PowMono(2, 52, FloorLog2(a)); }
  }

  lemma {:induction false} LogMono(radix: Radix, a: int, b: int)
    requires -2048 <= a <= b <= 2047
    ensures MulLog2Radix(a, radix) <= MulLog2Radix(b, radix)
    decreases b - a
  {
    hide MulLog2Radix;
    if a < b {
      LogSteps(radix, a);
      LogMono(radix, a + 1, b);
    }
  }

  // ----- the bound -----

  lemma FreeLength(radix: Radix, a: nat, mode: ExpMode)
    requires 0 < a < INFINITY
    ensures 1 + |PrintFinite(radix, a, mode)| <= MaxLen(Bits(false, a), radix, Free, mode)
  {
    hide Layout;
    hide MulLog2Radix;
    hide PrintDigits;
    hide Normalize;
    hide Printed;
    hide PrintFinite;
    hide FastInt;
    hide FirstExp;
    PrintedExp(radix, a);
    var c := Printed(radix, a);
    if FastInt(Normalize(a), mode) {
      FastLength(radix, a, mode);
    } else {
      SlowText(radix, a, mode);
      if mode != Disabled {
        ShortLayout(radix, c, mode, ExpMax(radix));
      } else if a < P52 {
        SubnormalPlaces(radix, a);
        SubnormalLayout(radix, a, c, ExpMax(radix));
      } else {
        NormalExp(a);
        PlainLayout(radix, Normalize(a), c, ExpMax(radix));
      }
    }
  }

  lemma FastLength(radix: Radix, a: nat, mode: ExpMode)
    requires 0 < a < INFINITY && FastInt(Normalize(a), mode)
    ensures |PrintFinite(radix, a, mode)| <= PrintDigits(radix)
  {
    hide Layout;
    hide Numerals;
    hide Shortest;
    hide PrintDigits;
    hide Normalize;
    hide Pow;
    NormalizeValue(a);
    FastIntValue(a, mode);
    IntegerLength(radix, Normalize(a).mant / Pow(2, 53 - Normalize(a).exp));
  }

  lemma SlowText(radix: Radix, a: nat, mode: ExpMode)
    requires 0 < a < INFINITY && !FastInt(Normalize(a), mode)
    ensures Printed(radix, a).digits >= 1
    ensures PrintFinite(radix, a, mode) == Layout(radix, Printed(radix, a), mode, ExpMax(radix))
  {
    hide Layout;
    hide Numerals;
    hide Shortest;
    hide Normalize;
    hide FastInt;
    hide Full;
    hide PrintDigits;
    NormalizeValue(a);
    ShortestNearest(radix, a);
    FullDigitsOf(radix, Printed(radix, a));
  }

  lemma NormalExp(a: nat)
    requires P52 <= a < INFINITY
    ensures Normalize(a).exp == a / P52 - 1022 && -1021 <= Normalize(a).exp <= 1024
  {
    DivParts(a, P52);
  }

  /** The layout of a subnormal number without an exponent. */
  lemma SubnormalLayout(radix: Radix, a: nat, c: Decimal, max: nat)
    requires 0 < a < P52 && c.digits >= 1
    requires FirstExp(radix, Normalize(a)) <= c.exp <= FirstExp(radix, Normalize(a)) + 1
    ensures |Layout(radix, c, Disabled, max)| == 2 - c.exp + c.digits && c.exp < 0
  {
    hide Layout;
    hide Numerals;
    hide MulLog2Radix;
    hide Normalize;
    LayoutLength(radix, c, Disabled, max);
    SubnormalExp(a);
    NormalizeValue(a);
    LogMono(radix, Normalize(a).exp - 1, -200);
    FarLog(radix);
  }

  lemma FarLog(radix: Radix)
    ensures MulLog2Radix(-200, radix) < -2
  {
    hide RadixBits;
    hide LogMultiplier;
    var b := RadixBits(radix);
    if b != 0 {
      PowersOfTwo(radix);
      FloorParts(-200, b, MulLog2Radix(-200, radix));
      if MulLog2Radix(-200, radix) >= -2 { MulMonoInt(-2, MulLog2Radix(-200, radix), b); }
    } else {
      LogMultiplierPositive(radix);
    }
  }

  /** With a fixed number of digits, without an exponent, a subnormal number may be too long. */
  lemma FixedLength(radix: Radix, a: nat, n: nat, mode: ExpMode, s: nat)
    requires 0 < a < INFINITY && 1 <= n && s <= 1
    ensures FixedDecimal(radix, a, n).digits >= 1
    ensures s + |Layout(radix, FixedDecimal(radix, a, n), mode, n)| <= MaxLen(Bits(false, a), radix, Fixed(n), mode)
       <==> !(mode == Disabled && a < P52
              && s - FixedDecimal(radix, a, n).exp > 8 + Abs(MulLog2Radix(-1024, radix)))
  {
    hide Layout;
    hide MulLog2Radix;
    hide PrintDigits;
    hide Normalize;
    hide Attempt;
    hide FirstExp;
    ExpOfAttempt(radix, a, n, RNDNA);
    var c := FixedDecimal(radix, a, n);
    if mode != Disabled {
      ShortLayout(radix, c, mode, n);
    } else if a < P52 {
      SubnormalLayout(radix, a, c, n);
    } else {
      NormalExp(a);
      PlainLayout(radix, Normalize(a), c, n);
    }
  }

  /** The digits before the dot, the extra one included. */
  lemma PlacesBound(radix: Radix, a: nat, k: nat)
    requires 0 < a < INFINITY
    ensures FracPlaces(radix, Normalize(a)) + 2 + k <= MaxLen(Bits(false, a), radix, Frac(k), Auto)
  {
    hide MulLog2Radix;
    hide Normalize;
    if a < P52 {
      SubnormalExp(a);
      NormalizeValue(a);
      LogSteps(radix, Normalize(a).exp - 1);
    } else {
      NormalExp(a);
      LogSteps(radix, Normalize(a).exp - 1);
      LogSteps(radix, Normalize(a).exp - 2);
    }
  }

  /** The fractional format keeps to the bound even before its extra digit is removed. */
  lemma FracBufferLength(radix: Radix, a: nat, k: nat, mode: ExpMode, negative: bool)
    requires 0 < a < INFINITY
    ensures var f, w := Normalize(a), FracPlaces(radix, Normalize(a));
            var s := OutputDigits(radix, RadixRounded(f.mant, f.exp - 53, radix, k, RNDNA), w + k, w);
            |FracOutput(radix, f, k)| <= |s|
            && |Sign(negative) + s| <= MaxLen(Bits(negative, a), radix, Frac(k), mode)
  {
    hide DigitChars;
    hide RadixRounded;
    hide MulLog2Radix;
    hide Normalize;
    PlacesBound(radix, a, k);
  }

  lemma ZeroLength(radix: Radix, format: Format, mode: ExpMode, s: nat)
    requires Allowed(format) && s <= 1
    ensures ZeroDigits(format) >= 1
    ensures s + |Layout(radix, Decimal(0, ZeroDigits(format), 1), mode, FormatMax(radix, format))|
              <= MaxLen(Bits(false, 0), radix, format, mode)
       <==> !(format.Frac? && mode == Enabled && s + format.places > 4)
  {
    hide Layout;
    hide MulLog2Radix;
    hide PrintDigits;
    LayoutLength(radix, Decimal(0, ZeroDigits(format), 1), mode, FormatMax(radix, format));
    assert Numerals(10, 0) == [DigitChar(0)];
    assert 0 * ExpScale(radix) == 0;
  }

  /** No text is longer than `js_dtoa_max_len` says, but in the two cases of `Overlong`. */
  lemma LengthBound(v: Number, radix: Radix, format: Format, mode: ExpMode, minusZero: bool)
    requires (v.Bits? ==> v.magnitude <= INFINITY) && Allowed(format)
    ensures |DtoaAs(v, radix, format, mode, minusZero)| <= MaxLen(v, radix, format, mode)
       <==> !Overlong(v, radix, format, mode, minusZero)
  {
    hide Layout;
    hide MulLog2Radix;
    hide PrintDigits;
    hide FixedDecimal;
    hide PrintFinite;
    hide FracText;
    hide RoundedTo;
    hide Normalize;
    if v.Bits? {
      var a := v.magnitude;
      if a == 0 {
        ZeroLength(radix, format, mode, SignLength(v.negative && minusZero));
      } else if a < INFINITY {
        match format
        case Free => FreeLength(radix, a, mode);
        case Frac(k) =>
          FracExact(radix, a, k);
          FracBufferLength(radix, a, k, mode, v.negative);
        case Fixed(n) =>
          AttemptExact(radix, a, n, RNDNA);
          FixedLength(radix, a, n, mode, SignLength(v.negative));
      }
    }
  }

  /** As the engine calls it, the bound always holds: the fixed format is not combined with
      disabled exponents, nor the fractional one with forced ones. */
  lemma EngineLengths(v: Number, radix: Radix, format: Format, mode: ExpMode, minusZero: bool)
    requires (v.Bits? ==> v.magnitude <= INFINITY) && Allowed(format)
    requires (format.Fixed? ==> mode != Disabled) && (format.Frac? ==> mode != Enabled)
    ensures |DtoaAs(v, radix, format, mode, minusZero)| <= MaxLen(v, radix, format, mode)
  {
    hide DtoaAs;
    hide MaxLen;
    LengthBound(v, radix, format, mode, minusZero);
  }

  /** Five fractional digits of zero with an exponent, and the least number with one digit and
      without an exponent. */
  lemma OverlongTexts()
    ensures |DtoaAs(Bits(false, 0), 10, Frac(5), Enabled, false)| > MaxLen(Bits(false, 0), 10, Frac(5), Enabled)
    ensures |DtoaAs(Bits(false, 1), 10, Fixed(1), Disabled, false)| > MaxLen(Bits(false, 1), 10, Fixed(1), Disabled)
  {
    hide RadixRounded;
    hide Pow;
    hide DtoaAs;
    hide MaxLen;
    LengthBound(Bits(false, 0), 10, Frac(5), Enabled, false);
    LengthBound(Bits(false, 1), 10, Fixed(1), Disabled, false);
    ExpOfAttempt(10, 1, 1, RNDNA);
    LeastNormal();
    TenLogs();
  }

  lemma LeastNormal()
    ensures Normalize(1) == Float(P52, -1073)
  {
    P52Is();
  }

  lemma TenLogs()
    ensures MulLog2Radix(-1074, 10) == -324 && MulLog2Radix(-1024, 10) == -309
  {
    TenBits();
  }
}
