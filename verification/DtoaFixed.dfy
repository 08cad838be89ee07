/** The fixed and the fractional format of `js_dtoa`: what is printed is the exact value,
    rounded once. */
module DtoaFixed {
  import opened DtoaArith
  import opened DtoaDigits
  import opened DtoaRound
  import opened DtoaDouble
  import opened DtoaLog
  import opened DtoaScale
  import opened DtoaTables
  import opened DtoaShortest
  import opened DtoaCloser
  import opened DtoaScan
  import opened DtoaNumeral
  import opened DtoaRead
  import opened DtoaPrint
  import opened DtoaLimbs
  import opened DtoaBig
  import opened DtoaConvert
  import opened DtoaReader
  import opened DtoaWriter

  // ----- the fractional format -----

  /** `k` units of radix^-n, with all their digits and no others. */
  function FracText(radix: Radix, k: nat, n: nat): string {
    assert Pow(radix, n) > 0;
    Numerals(radix, k / Pow(radix, n)) + if n == 0 then "" else "." + DigitChars(radix, k, n)
  }

  /** The digits before the dot, one of them at least: one more than the first guess. */
  function FracPlaces(radix: Radix, f: Float): nat {
    Max(FirstExp(radix, f) + 1, 1)
  }

  /** The digits as they are computed: a leading zero is removed unless a dot follows. */
  function FracOutput(radix: Radix, f: Float, n: nat): string {
    var w := FracPlaces(radix, f);
    var s := OutputDigits(radix, RadixRounded(f.mant, f.exp - 53, radix, n, RNDNA), w + n, w);
    if |s| >= 2 && s[0] == '0' && s[1] != '.' then s[1..] else s
  }

  /** A number below the unit of the last place is rounded to two of them at most, and in a
      power-of-two radix to one. */
  lemma FracTiny(radix: Radix, f: Float, n: nat)
    requires P52 <= f.mant < P53 && -1074 < f.exp <= 1024 && FirstExp(radix, f) + n <= 0
    ensures RadixRounded(f.mant, f.exp - 53, radix, n, RNDNA) < radix
  {
    hide RadixBits;
    if RadixBits(radix) != 0 {
      FracTinyBinary(radix, f, n);
    } else {
      assert radix != 2 by { PowersOfTwo(radix); }
      FracTinyOdd(radix, f, n);
    }
  }

  lemma FracTinyBinary(radix: Radix, f: Float, n: nat)
    requires P52 <= f.mant < P53 && -1074 < f.exp <= 1024 && FirstExp(radix, f) + n <= 0 && RadixBits(radix) != 0
    ensures RadixRounded(f.mant, f.exp - 53, radix, n, RNDNA) <= 1
  {
    hide Pow;
    hide UpPow;
    hide FirstExp;
    hide RoundDiv;
    hide RadixRounded;
    hide RadixBits;
    var h: nat := -FirstExp(radix, f);
    var p, d := UpPow(2, f.exp - 53), UpPow(2, -(f.exp - 53));
    BinaryRange(radix, f, 0);
    PowZero(radix);
    PlainUp(radix, n);
    PlainUp(radix, h);
    PowMono(radix, n, h);
    MulMono(Pow(radix, n), Pow(radix, h), p);
    MulMono(p * Pow(radix, n), p * Pow(radix, h), f.mant);
    RadixRound(f.mant, f.exp - 53, radix, n, RNDNA);
    RoundDivRange(Num(f.mant, f.exp - 53, radix, n), Den(f.exp - 53, radix, n), RNDNA, 0, 1);
  }

  lemma FracTinyOdd(radix: Radix, f: Float, n: nat)
    requires P52 <= f.mant < P53 && -1074 < f.exp <= 1024 && FirstExp(radix, f) + n <= 0
    ensures RadixRounded(f.mant, f.exp - 53, radix, n, RNDNA) <= 2
  {
    hide Pow;
    hide MulLog2Radix;
    hide RoundDiv;
    hide RadixRounded;
    var e, e0 := f.exp, FirstExp(radix, f);
    MulLog2RadixExact(e - 1, radix);
    RadixRound(f.mant, e - 53, radix, n, RNDNA);
    PlainUp(radix, n);
    PlainUp(radix, -e0);
    PowMono(radix, n, -e0);
    MulMono(Pow(radix, n), Pow(radix, -e0), UpPow(2, e - 1));
    hide UpPow;
    UpPowSum(2, e - 53, 52);
    PlainUp(2, 52);
    P52Is();
    SmallUpPow(e - 1);
    SmallUpPow(1 - e);
    SmallUpPow(53 - e);
    HighAlgebra(1, UpPow(2, -(e - 53)), Pow(radix, n), 1, 1, Pow(radix, n), UpPow(2, e - 1), UpPow(2, -(e - 1)),
      UpPow(2, e - 53), f.mant, P52);
    RoundDivRange(Num(f.mant, e - 53, radix, n), Den(e - 53, radix, n), RNDNA, 0, 2);
  }

  /** The places before the dot are enough, and one too many at most. */
  lemma FracRange(radix: Radix, f: Float, n: nat)
    requires P52 <= f.mant < P53 && -1074 < f.exp <= 1024
    ensures var k, w := RadixRounded(f.mant, f.exp - 53, radix, n, RNDNA), FracPlaces(radix, f);
            k < Pow(radix, w + n) && (w >= 2 ==> Pow(radix, w - 2 + n) <= k)
  {
    hide Pow;
    hide RoundDiv;
    hide RadixRounded;
    hide FirstExp;
    hide Num;
    hide Den;
    var e0, w := FirstExp(radix, f), FracPlaces(radix, f);
    RadixRound(f.mant, f.exp - 53, radix, n, RNDNA);
    if e0 + n >= 1 {
      var p: nat := e0 + n;
      ScaledRange(radix, f, p);
      FracBelow(radix, f, p);
      PowMono(radix, p + 1, w + n);
    } else {
      FracTiny(radix, f, n);
      RadixOnce(radix);
      PowMono(radix, 1, w + n);
    }
  }

  /** The scaled number has one digit more than guessed at most. */
  lemma FracBelow(radix: Radix, f: Float, p: nat)
    requires P52 <= f.mant < P53 && -1074 < f.exp <= 1024 && p >= 1
    ensures var h := p - FirstExp(radix, f);
            Pow(radix, p - 1) <= RadixRounded(f.mant, f.exp - 53, radix, h, RNDNA) < Pow(radix, p + 1)
  {
    hide Pow;
    hide RoundDiv;
    hide RadixRounded;
    hide FirstExp;
    hide Num;
    hide Den;
    hide RadixBits;
    var x, h := f.exp - 53, p - FirstExp(radix, f);
    RadixRound(f.mant, x, radix, h, RNDNA);
    ScaledRange(radix, f, p);
    RadixStep(radix, p + 1);
    if RadixBits(radix) != 0 {
      BinaryRange(radix, f, p);
      RoundDivRange(Num(f.mant, x, radix, h), Den(x, radix, h), RNDNA, Pow(radix, p - 1), Pow(radix, p));
      MulMono(2, radix, Pow(radix, p));
    } else {
      assert radix != 2 by { PowersOfTwo(radix); }
      RoundDivRange(Num(f.mant, x, radix, h), Den(x, radix, h), RNDNA, Pow(radix, p - 1), 2 * Pow(radix, p));
      MulMono(3, radix, Pow(radix, p));
    }
  }

  /** Digits in front of a dot and behind it. */
  lemma DotBetween(radix: Radix, k: nat, w: nat, n: nat)
    requires w >= 1
    ensures Pow(radix, n) > 0
    ensures OutputDigits(radix, k, w + n, w)
         == DigitChars(radix, k / Pow(radix, n), w) + if n == 0 then "" else "." + DigitChars(radix, k, n)
  {
    hide DigitChars;
    hide Pow;
    DigitsInTwo(radix, k, w, n);
    var a, b := DigitChars(radix, k / Pow(radix, n), w), DigitChars(radix, k, n);
    assert (a + b)[..w] == a && (a + b)[w..] == b;
    if n == 0 { assert b == "" && a + "" == a; }
    assert a + "." + b == a + ("." + b);
  }

  /** With a digit too many, the first one is a zero. */
  lemma LeadingZero(radix: Radix, q: nat, w: nat)
    requires w >= 2 && q < Pow(radix, w) && Pow(radix, w - 2) <= q
    ensures var s := DigitChars(radix, q, w);
            if s[0] == '0' then s[1..] == Numerals(radix, q) && s[1] != '.' else s == Numerals(radix, q)
  {
    hide DigitChars;
    hide Numerals;
    hide Pow;
    RadixOnce(radix);
    if q >= Pow(radix, w - 1) {
      NumeralsAre(radix, q, w);
      FirstDigit(radix, Decimal(q, w, 0));
    } else {
      NumeralsAre(radix, q, w - 1);
      DigitsInTwo(radix, q, 1, w - 1);
      DivIs(q, Pow(radix, w - 1), 0, q);
      ZeroDigit(radix);
      var s, t := DigitChars(radix, q, w), DigitChars(radix, q, w - 1);
      assert s == "0" + t && s[1..] == t;
      DigitCharsValue(radix, q, w - 1);
      assert ToDigit(t[0]) < radix;
    }
  }

  lemma ZeroDigit(radix: Radix)
    ensures DigitChars(radix, 0, 1) == "0"
  {
    assert DigitChars(radix, 0, 0) == "";
  }

  /** The fractional format prints the number of units of radix^-n nearest to the exact value,
      the greater one of two, without superfluous digits. */
  lemma FracExact(radix: Radix, a: nat, n: nat)
    requires 0 < a < INFINITY
    ensures FracOutput(radix, Normalize(a), n) == FracText(radix, RoundedTo(radix, a, n, RNDNA), n)
  {
    hide DigitChars;
    hide Numerals;
    hide Pow;
    hide Normalize;
    hide RadixRounded;
    hide RoundedTo;
    hide OutputDigits;
    hide FirstExp;
    NormalizeValue(a);
    var f, k := Normalize(a), RoundedTo(radix, a, n, RNDNA);
    var w := FracPlaces(radix, f);
    PlacesScaled(radix, a, n, RNDNA);
    FracRange(radix, f, n);
    DotBetween(radix, k, w, n);
    var q := k / Pow(radix, n);
    PowAdd(radix, w, n);
    DivParts(k, Pow(radix, n));
    MulCancelStrict(q, Pow(radix, w), Pow(radix, n));
    if w >= 2 {
      PowAdd(radix, w - 2, n);
      DivAtLeast(k, Pow(radix, n), Pow(radix, w - 2));
      LeadingZero(radix, q, w);
    } else {
      NumeralsAre(radix, q, 1);
    }
  }

  /** The text is the numeral of that many units. */
  lemma FracNumeral(radix: Radix, k: nat, n: nat)
    ensures Pow(radix, n) > 0
    ensures var num := Numeral("", Numerals(radix, k / Pow(radix, n)), n > 0, DigitChars(radix, k, n), NoExp);
            Text(num) == FracText(radix, k, n) && WellFormed(num, radix)
            && DigitsValue(AllOf(num), radix) == k && LastExp(num, radix) + n * Unit(radix) == 0
  {
    hide DigitChars;
    hide Numerals;
    hide DigitsValue;
    hide Pow;
    var q, p := k / Pow(radix, n), Pow(radix, n);
    assert p > 0 by { PowPositive(radix, n); }
    NumeralsValue(radix, q);
    DigitCharsValue(radix, k, n);
    LowDigits(radix, k, n, n);
    DivParts(k, p);
    DigitCharsValue(radix, k % p, n);
    DigitsConcat(Numerals(radix, q), DigitChars(radix, k, n), radix);
    TenBits();
    var a, b := Numerals(radix, q), DigitChars(radix, k, n);
    if n == 0 { assert b == ""; }
    assert "" + (a + (if n > 0 then "." else "") + b) + "" == a + if n == 0 then "" else "." + b;
  }

  lemma PowPositive(b: nat, n: nat)
    requires b > 0
    ensures Pow(b, n) > 0
  {
  }

  // ----- the fixed format -----

  /** `n` significant digits, halves rounded away from zero. */
  function FixedDecimal(radix: Radix, a: nat, n: nat): Decimal {
    Attempt(radix, Normalize(a), n, RNDNA)
  }

  /** All `n` digits are there, the first is not zero, and the mantissa is the exact value,
      rounded once at its last place. No decimal with as many digits is closer to the number,
      as ECMA-262 asks of `toPrecision` and `toExponential`. */
  lemma FixedExact(radix: Radix, a: nat, n: nat, c': Decimal)
    requires 0 < a < INFINITY && n >= 1
    ensures var c := FixedDecimal(radix, a, n);
            Full(radix, c) && c.digits == n && c.mant == RoundedTo(radix, a, n - c.exp, RNDNA)
            && (Full(radix, c') && c'.digits == n ==>
              Abs(Units(a) * DecDen(radix, c) - DecNum(radix, c)) * DecDen(radix, c')
              <= Abs(Units(a) * DecDen(radix, c') - DecNum(radix, c')) * DecDen(radix, c))
  {
    hide Attempt;
    hide Full;
    hide DecNum;
    hide DecDen;
    hide RoundedTo;
    AttemptExact(radix, a, n, RNDNA);
    if Full(radix, c') && c'.digits == n { AttemptNearest(radix, a, n, RNDNA, c'); }
  }

  /** A layout is a numeral with exactly the value of the decimal. */
  lemma LayoutNumeralIs(radix: Radix, c: Decimal, mode: ExpMode, max: nat, negative: bool)
    requires Written(radix, c)
    ensures var num := LayoutNumeral(radix, c, mode, max, negative);
            Text(num) == Sign(negative) + Layout(radix, c, mode, max) && WellFormed(num, radix)
            && ValueNum(num, radix) * DecDen(radix, c) == DecNum(radix, c) * ValueDen(num, radix)
  {
    hide Pow;
    hide UpPow;
    hide LayoutNumeral;
    hide Layout;
    hide LastExp;
    hide Text;
    hide WellFormed;
    hide DigitsValue;
    hide AllOf;
    hide Padding;
    var num := LayoutNumeral(radix, c, mode, max, negative);
    LayoutText(radix, c, mode, max, negative);
    LayoutWellFormed(radix, c, mode, max, negative);
    LayoutDigits(radix, c, mode, max, negative);
    var g, k := c.exp - c.digits, Padding(c, num);
    NumeralRatio(num, radix, g - k);
    UpPowSum(radix, g - k, k);
    PlainUp(radix, k);
    PaddingAlgebra(c.mant, Pow(radix, k), UpPow(radix, g - k), UpPow(radix, k - g), UpPow(radix, g), UpPow(radix, -g),
                   Pow(2, 1074));
  }

  lemma FixedNumeral(radix: Radix, a: nat, n: nat, mode: ExpMode, negative: bool)
    requires 0 < a < INFINITY && n >= 1
    ensures var c := FixedDecimal(radix, a, n);
            c.digits >= 1
            && var num := LayoutNumeral(radix, c, mode, n, negative);
               Text(num) == Sign(negative) + Layout(radix, c, mode, n) && WellFormed(num, radix)
               && ValueNum(num, radix) * DecDen(radix, c) == DecNum(radix, c) * ValueDen(num, radix)
  {
    hide Attempt;
    hide LayoutNumeral;
    hide Layout;
    hide Text;
    hide WellFormed;
    hide DecNum;
    hide DecDen;
    hide ValueNum;
    hide ValueDen;
    NormalizeValue(a);
    AttemptFull(radix, Normalize(a), n, RNDNA);
    LayoutNumeralIs(radix, FixedDecimal(radix, a, n), mode, n, negative);
  }

  /** The value of a numeral is that of its digits at the exponent of the last one, in bits or
      in digits. */
  lemma NumeralRatio(n: Numeral, radix: Radix, k: int)
    requires LastExp(n, radix) == k * Unit(radix)
    ensures ValueNum(n, radix) == DigitsValue(AllOf(n), radix) * UpPow(radix, k) * Pow(2, 1074)
    ensures ValueDen(n, radix) == UpPow(radix, -k)
  {
    hide Pow;
    hide UpPow;
    hide LastExp;
    hide DigitsValue;
    hide AllOf;
    if RadixBits(radix) != 0 { RadixUpPow(radix, k); }
  }

  lemma PaddingAlgebra(m: nat, p: nat, u: nat, u': nat, v: nat, v': nat, w: nat)
    requires u * p * v' == v * u'
    ensures m * p * u * w * v' == m * v * w * u'
  {
    assert m * p * u * w * v' == m * w * (u * p * v');
    assert m * v * w * u' == m * w * (v * u');
  }

  // ----- the same in limbs -----

  const MANT_LEN_MAX: nat := 18

  lemma Shorter(s: seq<Limb>, t: seq<Limb>)
    requires |s| < |t| && t[|t| - 1] != 0
    ensures Val(s) < Val(t)
  {
    hide Val;
    hide Pow;
    var n := |t| - 1;
    assert t == t[..n] + [t[n]];
    ValAppend(t[..n], t[n]);
    ValBelow(s);
    PowMono(B, |s|, n);
    MulMono(1, t[n], Pow(B, n));
  }

  lemma HigherLimb(s: seq<Limb>, x: Limb, t: seq<Limb>, y: Limb)
    requires |s| == |t| && x < y
    ensures Val(s + [x]) < Val(t + [y])
  {
    hide Val;
    hide Pow;
    ValAppend(s, x);
    ValAppend(t, y);
    ValBelow(s);
    var p := Pow(B, |s|);
    MulMono(x as int + 1, y, p);
    assert (x as int + 1) * p == x as int * p + p;
  }

  /** `mpb_cmp`. */
  method MpbCmp(a: Mpb, b: Mpb) returns (c: int)
    requires a.Valid() && b.Valid()
    ensures c == if a.Value() < b.Value() then -1 else if a.Value() > b.Value() then 1 else 0
  {
    hide Val;
    hide Pow;
    ghost var s, t := a.tab[..a.len], b.tab[..b.len];
    if a.len < b.len {
      Shorter(s, t);
      return -1;
    } else if a.len > b.len {
      Shorter(t, s);
      return 1;
    }
    assert s[..a.len] == s && t[..a.len] == t;
    for i := a.len downto 0
      invariant Val(s) - Val(s[..i]) == Val(t) - Val(t[..i])
    {
      assert s[..i + 1] == s[..i] + [a.tab[i]] && t[..i + 1] == t[..i] + [b.tab[i]];
      if a.tab[i] != b.tab[i] {
        if a.tab[i] < b.tab[i] {
          HigherLimb(s[..i], a.tab[i], t[..i], b.tab[i]);
          return -1;
        } else {
          HigherLimb(t[..i], b.tab[i], s[..i], a.tab[i]);
          return 1;
        }
      }
      ValAppend(s[..i], a.tab[i]);
      ValAppend(t[..i], b.tab[i]);
    }
    assert s[..0] == t[..0];
    return 0;
  }

  /** A power of the radix. */
  method SetPower(r: Mpb, radix: Radix, n: nat)
    requires n <= DTOA_MAX_DIGITS && r.tab.Length == MANT_LEN_MAX
    modifies r, r.tab
    ensures r.Valid() && r.Value() == Pow(radix, n)
  {
    hide Val;
    hide Pow;
    hide OddPart;
    hide TwosIn;
    hide OddPerLimb;
    OddBelow(radix);
    RadixSplit(radix, n);
    PowerRoom(radix, n);
    MulMono(0, TwosIn(radix), n);
    r.SetU64(1);
    var shift := MulPowBig(r, OddPart(radix), TwosIn(radix), n, false, 0, OddPerLimb(radix));
    OnePow(n);
    PlainUp(OddPart(radix), n);
    OffsetSign(n, TwosIn(radix));
    assert shift == -(n * TwosIn(radix)) && r.Value() == Pow(OddPart(radix), n);
    RoomToShift(r.tab[..r.len], n * TwosIn(radix), MANT_LEN_MAX - 1);
    r.ShrRounded(shift, RNDZ);
  }

  lemma PowerRoom(radix: Radix, n: nat)
    requires n <= DTOA_MAX_DIGITS
    ensures Pow(radix, n) < Pow(2, 32 * (MANT_LEN_MAX - 1))
    ensures 0 < Pow(OddPart(radix), n) < Pow(B, MANT_LEN_MAX)
  {
    hide Pow;
    hide OddPart;
    hide TwosIn;
    MantissaTop(radix, n);
    PowStrict(2, 526, 32 * (MANT_LEN_MAX - 1));
    PowMono(2, 32 * (MANT_LEN_MAX - 1), 32 * MANT_LEN_MAX);
    DtoaBits.LimbPower(MANT_LEN_MAX);
    RadixSplit(radix, n);
    MulMono(1, Pow(2, n * TwosIn(radix)), Pow(OddPart(radix), n));
  }

  /** The mantissa of `n` digits, with at most one correction of the exponent. */
  method FixedBig(t: Mpb, mantMax: Mpb, radix: Radix, m: nat, exp: int, n: nat) returns (e: int)
    requires P52 <= m < P53 && -1074 < exp <= 1024 && 1 <= n <= DTOA_MAX_DIGITS
    requires t.tab.Length == DBIGNUM_LEN_MAX && mantMax.tab.Length == MANT_LEN_MAX && t != mantMax
    modifies t, t.tab, mantMax, mantMax.tab
    ensures t.Valid() && Attempt(radix, Float(m, exp), n, RNDNA) == Decimal(t.Value(), n, e)
  {
    hide Pow;
    hide Val;
    hide MulPowRounded;
    hide MulLog2Radix;
    hide OddPart;
    hide TwosIn;
    hide OddPerLimb;
    hide ShiftFits;
    hide Fits;
    ghost var f := Float(m, exp);
    OddBelow(radix);
    SetPower(mantMax, radix, n);
    e := 1 + MulLog2Radix(exp - 1, radix);
    while true
      invariant mantMax.Valid() && mantMax.Value() == Pow(radix, n)
      invariant e == FirstExp(radix, f)
        || (e == FirstExp(radix, f) + 1 && ScaledMant(radix, f, n, FirstExp(radix, f), RNDNA) >= Pow(radix, n))
      decreases FirstExp(radix, f) + 1 - e
    {
      AttemptFits(radix, m, exp, n, e);
      MulPowRoundBig(t, m, exp - 53, OddPart(radix), TwosIn(radix), n - e, OddPerLimb(radix), RNDNA);
      if e != FirstExp(radix, f) { OneCorrection(radix, f, n, e); }
      var c := MpbCmp(t, mantMax);
      if c < 0 { break; }
      e := e + 1;
    }
  }

  lemma OneCorrection(radix: Radix, f: Float, n: nat, e: int)
    requires P52 <= f.mant < P53 && -1074 < f.exp <= 1024 && n >= 1
    requires e == FirstExp(radix, f) + 1 && ScaledMant(radix, f, n, FirstExp(radix, f), RNDNA) >= Pow(radix, n)
    ensures ScaledMant(radix, f, n, e, RNDNA) < Pow(radix, n)
  {
    hide Pow;
    hide RadixRounded;
    hide FirstExp;
    AttemptFull(radix, f, n, RNDNA);
  }

  /** The limbs that the fractional format needs. */
  lemma FracFits(radix: Radix, m: nat, exp: int, n: nat)
    requires P52 <= m < P53 && -1074 < exp <= 1024 && n <= DTOA_MAX_DIGITS
    ensures PrintRoom(radix, m, exp - 53, n)
  {
    hide Pow;
    hide UpPow;
    hide OddPart;
    hide TwosIn;
    hide OddPerLimb;
    hide ShiftFits;
    hide Fits;
    var x, r := exp - 53, Pow(radix, n);
    MantissaTop(radix, n);
    P52Is();
    PlainUp(OddPart(radix), n);
    RadixSplit(radix, n);
    MulMono(1, Pow(2, n * TwosIn(radix)), Pow(OddPart(radix), n));
    SmallUpPow(-x);
    UpToTop(x);
    FracProduct(m, UpPow(2, x), r, UpPow(2, -x));
    RoomAbove(radix, m, n, x, 1550);
    MulMono(Pow(OddPart(radix), n), Pow(2, 526), m);
    MulMono(m, Pow(2, 53), Pow(2, 526));
    PowAdd(2, 53, 526);
    PowStrict(2, 579, 1664);
    LimbPower52();
  }

  lemma UpToTop(x: int)
    requires x <= 971
    ensures 1 <= UpPow(2, x) <= Pow(2, 971)
  {
    hide Pow;
    PowZero(2);
    if x > 0 { PowMono(2, x, 971); } else { PowMono(2, 0, 971); }
  }

  lemma FracProduct(m: nat, p: nat, r: nat, q: nat)
    requires m < P53 && p <= Pow(2, 971) && r <= Pow(2, 526) && q >= 1 && p >= 1 && r >= 1
    ensures m * (p * r) < Pow(2, 1550) * q
  {
    hide Pow;
    P52Is();
    MulMono(p, Pow(2, 971), r);
    MulMono(r, Pow(2, 526), Pow(2, 971));
    PowAdd(2, 971, 526);
    MulStrict(0, p, r);
    MulStrict(m, Pow(2, 53), p * r);
    MulMono(p * r, Pow(2, 1497), Pow(2, 53));
    PowAdd(2, 53, 1497);
    MulMono(1, q, Pow(2, 1550));
  }

  /** The fractional format: one digit more on the left, removed unless it is needed. */
  method FracBig(t: Mpb, radix: Radix, m: nat, exp: int, n: nat) returns (q: string)
    requires P52 <= m < P53 && -1074 < exp <= 1024 && n <= DTOA_MAX_DIGITS && t.tab.Length == DBIGNUM_LEN_MAX
    modifies t, t.tab
    ensures q == FracOutput(radix, Float(m, exp), n)
  {
    hide Pow;
    hide Val;
    hide DigitChars;
    hide MulPowRounded;
    hide MulLog2Radix;
    hide OddPart;
    hide TwosIn;
    hide OddPerLimb;
    hide ShiftFits;
    hide Fits;
    OddBelow(radix);
    FracFits(radix, m, exp, n);
    MulPowRoundBig(t, m, exp - 53, OddPart(radix), TwosIn(radix), n, OddPerLimb(radix), RNDNA);
    var e := 1 + MulLog2Radix(exp - 1, radix);
    var w := Max(e + 1, 1);
    q := OutputDigitsBig(t, radix, w + n, w);
    if q[0] == '0' && |q| >= 2 && q[1] != '.' {
      q := q[1..];
    }
  }

  // ----- the three formats -----

  datatype Format = Free | Frac(places: nat) | Fixed(digits: nat)

  /** What the assertions of `js_dtoa` ask for. */
  predicate Allowed(format: Format) {
    match format
    case Free => true
    case Frac(n) => n <= DTOA_MAX_DIGITS
    case Fixed(n) => 1 <= n <= DTOA_MAX_DIGITS
  }

  function ZeroDigits(format: Format): nat {
    match format
    case Free => 1
    case Frac(n) => n + 1
    case Fixed(n) => n
  }

  function FormatMax(radix: Radix, format: Format): nat {
    match format
    case Fixed(n) => n
    case _ => ExpMax(radix)
  }

  function PrintAs(radix: Radix, a: nat, format: Format, mode: ExpMode): string
    requires 0 < a < INFINITY && Allowed(format)
  {
    match format
    case Free => PrintFinite(radix, a, mode)
    case Frac(n) => FracText(radix, RoundedTo(radix, a, n, RNDNA), n)
    case Fixed(n) => AttemptExact(radix, a, n, RNDNA); Layout(radix, FixedDecimal(radix, a, n), mode, n)
  }

  /** `js_dtoa`. */
  function DtoaAs(v: Number, radix: Radix, format: Format, mode: ExpMode, minusZero: bool): string
    requires (v.Bits? ==> v.magnitude <= INFINITY) && Allowed(format)
  {
    if v.NaN? then "NaN"
    else if v.magnitude == 0 then
      Sign(v.negative && minusZero)
      + Layout(radix, Decimal(0, ZeroDigits(format), 1), mode, FormatMax(radix, format))
    else Sign(v.negative) + if v.magnitude == INFINITY then "Infinity" else PrintAs(radix, v.magnitude, format, mode)
  }

  /** The free format is the one that is read back. */
  lemma FreeIsDtoa(v: Number, radix: Radix, mode: ExpMode, minusZero: bool)
    requires v.Bits? ==> v.magnitude <= INFINITY
    ensures DtoaAs(v, radix, Free, mode, minusZero) == Dtoa(v, radix, mode, minusZero)
  {
    hide Layout;
    hide PrintFinite;
  }

  /** Zero has the fractional format too, with the exponent zero after it if one is forced. */
  lemma ZeroFrac(radix: Radix, n: nat, mode: ExpMode)
    ensures Layout(radix, Decimal(0, n + 1, 1), mode, ExpMax(radix))
         == FracText(radix, 0, n) + if mode == Enabled then [ExpChar(radix)] + "+0" else ""
  {
    hide DigitChars;
    hide Numerals;
    hide Pow;
    hide PrintDigits;
    DotBetween(radix, 0, 1, n);
    PowPositive(radix, n);
    DivIs(0, Pow(radix, n), 0, 0);
    RadixOnce(radix);
    NumeralsAre(radix, 0, 1);
    RadixOnce(10);
    NumeralsAre(10, 0, 1);
    OneDigit(10, 0, 1);
    NoDigitsLeft(10, 0);
    assert Numerals(10, 0) == "0";
  }

  /** The finite, non-zero case. */
  method PrintFiniteBig(t: Mpb, mantMax: Mpb, radix: Radix, a: nat, format: Format, mode: ExpMode)
    returns (text: string)
    requires 0 < a < INFINITY && Allowed(format)
    requires t.tab.Length == DBIGNUM_LEN_MAX && mantMax.tab.Length == MANT_LEN_MAX && t != mantMax
    modifies t, t.tab, mantMax, mantMax.tab
    ensures text == PrintAs(radix, a, format, mode)
  {
    hide Layout;
    hide Numerals;
    hide Shortest;
    hide Attempt;
    hide Val;
    hide Full;
    hide Pow;
    hide PrintDigits;
    hide FracText;
    hide RoundedTo;
    hide FracOutput;
    NormalizeValue(a);
    var e: int, m := a / P52, a % P52;
    if e == 0 {
      // clz64(m) - 11
      SubnormalBits(m);
      var l := 52 - FloorLog2(m);
      e := e - (l - 1);
      m := m * Pow(2, l);
    } else {
      m := m + P52;
    }
    e := e - 1022;
    assert Float(m, e) == Normalize(a);
    hide Normalize;
    if format == Free && mode != Enabled && 1 <= e <= 53 && m % Pow(2, 53 - e) == 0 {
      QuotientSmall(m, Pow(2, 53 - e));
      text := U64ToARadix(radix, m / Pow(2, 53 - e));
    } else {
      match format
      case Free =>
        var c := ShortestBig(t, radix, m, e);
        ShortestNearest(radix, a);
        FullSmall(radix, c);
        t.SetU64(c.mant);
        text := LayoutBig(t, radix, c.digits, c.exp, mode, ExpMax(radix));
      case Frac(n) =>
        text := FracBig(t, radix, m, e, n);
        FracExact(radix, a, n);
      case Fixed(n) =>
        var exp := FixedBig(t, mantMax, radix, m, e, n);
        AttemptExact(radix, a, n, RNDNA);
        text := LayoutBig(t, radix, n, exp, mode, n);
    }
  }

  /** `js_dtoa`. */
  method JsDtoa(negative: bool, a: nat, radix: Radix, format: Format, mode: ExpMode, minusZero: bool)
    returns (q: string)
    requires a < 2048 * P52 && Allowed(format)
    ensures q == DtoaAs(if a > INFINITY then NaN else Bits(negative, a), radix, format, mode, minusZero)
  {
    hide Layout;
    hide PrintAs;
    hide Val;
    var tmp1 := new Mpb(DBIGNUM_LEN_MAX);
    var mantMax := new Mpb(MANT_LEN_MAX);
    var e: int, m := a / P52, a % P52;
    q := "";
    if e == 0x7FF {
      if m != 0 { return "NaN"; }
      if negative { q := q + "-"; }
      return q + "Infinity";
    }
    if e == 0 && m == 0 {
      if negative && minusZero { q := q + "-"; }
      var text := LayoutBig(tmp1, radix, ZeroDigits(format), 1, mode, FormatMax(radix, format));
      return q + text;
    }
    if negative { q := q + "-"; }
    var text := PrintFiniteBig(tmp1, mantMax, radix, a, format, mode);
    q := q + text;
  }
}
