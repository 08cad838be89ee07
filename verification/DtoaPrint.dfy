/** The text that `js_dtoa` prints in the free format of any radix, and the round trip
    through `js_atod`. */
module DtoaPrint {
  import opened DtoaArith
  import opened DtoaRound
  import opened DtoaDouble
  import opened DtoaLog
  import opened DtoaScale
  import opened DtoaTables
  import opened DtoaShortest
  import opened DtoaScan
  import opened DtoaNumeral
  import opened DtoaDigits
  import opened DtoaRead
  import opened DtoaAtod

  datatype ExpMode = Auto | Enabled | Disabled

  /** The greatest exponent that the free format prints without one. */
  function ExpMax(radix: Radix): nat { PrintDigits(radix) + 4 }

  function DigitChar(d: nat): char
    requires d < 36
  {
    if d < 10 then '0' + d as char else 'a' + (d - 10) as char
  }

  /** Exactly `len` digits, as `output_digits` writes them. */
  function DigitChars(radix: Radix, n: nat, len: nat): (s: string)
    ensures |s| == len
  {
    if len == 0 then "" else DigitChars(radix, n / radix, len - 1) + [DigitChar(n % radix)]
  }

  /** As many digits as needed, as `u32toa`, `u64toa` and `u64toa_radix` write them. */
  function Numerals(radix: Radix, n: nat): (s: string)
    ensures s != ""
  {
    if n < radix then [DigitChar(n)] else Numerals(radix, n / radix) + [DigitChar(n % radix)]
  }

  function Repeat(c: char, n: nat): (s: string)
    ensures |s| == n
  {
    if n == 0 then "" else Repeat(c, n - 1) + [c]
  }

  /** `output_digits`: a dot after `dotPos` digits, unless that is all of them. */
  function OutputDigits(radix: Radix, mant: nat, digits: nat, dotPos: nat): string
    requires dotPos <= digits
  {
    var s := DigitChars(radix, mant, digits);
    if dotPos == digits then s else s[..dotPos] + "." + s[dotPos..]
  }

  /** The mark of an exponent; after `p` it counts bits. */
  function ExpChar(radix: Radix): char {
    if radix == 10 then 'e' else if 1 <= RadixBits(radix) <= 4 then 'p' else '@'
  }

  function ExpScale(radix: Radix): nat {
    if 1 <= RadixBits(radix) <= 4 then RadixBits(radix) else 1
  }

  predicate Exponential(c: Decimal, mode: ExpMode, max: nat) {
    mode == Enabled || (mode == Auto && (c.exp <= -6 || c.exp > max))
  }

  /** The three layouts. */
  function Layout(radix: Radix, c: Decimal, mode: ExpMode, max: nat): string
    requires c.digits >= 1
  {
    if Exponential(c, mode, max) then
      OutputDigits(radix, c.mant, c.digits, 1) + [ExpChar(radix)] + (if c.exp - 1 < 0 then "-" else "+")
      + Numerals(10, Abs((c.exp - 1) * ExpScale(radix)))
    else if c.exp <= 0 then "0." + Repeat('0', -c.exp) + OutputDigits(radix, c.mant, c.digits, c.digits)
    else if c.exp <= c.digits then OutputDigits(radix, c.mant, c.digits, c.exp)
    else OutputDigits(radix, c.mant, c.digits, c.digits) + Repeat('0', c.exp - c.digits)
  }

  /** Integers below 2^53 are printed as such. */
  predicate FastInt(f: Float, mode: ExpMode) {
    mode != Enabled && 1 <= f.exp <= 53 && f.mant % Pow(2, 53 - f.exp) == 0
  }

  function PrintFinite(radix: Radix, a: nat, mode: ExpMode): string
    requires 0 < a < INFINITY
  {
    NormalizeValue(a);
    var f := Normalize(a);
    if FastInt(f, mode) then Numerals(radix, f.mant / Pow(2, 53 - f.exp))
    else ShortestNearest(radix, a); Layout(radix, Shortest(radix, f), mode, ExpMax(radix))
  }

  /** `js_dtoa` in the free format. */
  function Dtoa(v: Number, radix: Radix, mode: ExpMode, minusZero: bool): string
    requires v.Bits? ==> v.magnitude <= INFINITY
  {
    if v.NaN? then "NaN"
    else if v.magnitude == 0 then Sign(v.negative && minusZero) + Layout(radix, Decimal(0, 1, 1), mode, ExpMax(radix))
    else Sign(v.negative) + if v.magnitude == INFINITY then "Infinity" else PrintFinite(radix, v.magnitude, mode)
  }

  function Sign(negative: bool): string { if negative then "-" else "" }

  // ----- digits -----

  lemma CharIsDigit(d: nat)
    requires d < 36
    ensures ToDigit(DigitChar(d)) == d && DigitChar(d) != 'I' && DigitChar(d) != '.'
  {
  }

  lemma OneDigit(radix: Radix, n: nat, i: nat)
    requires i > 0
    ensures DigitChars(radix, n, i) == DigitChars(radix, n / radix, i - 1) + [DigitChar(n % radix)]
  {
  }

  lemma NoDigitsLeft(radix: Radix, n: nat)
    ensures DigitChars(radix, n, 0) == ""
  {
  }

  lemma {:induction false} DigitCharsValue(radix: Radix, n: nat, len: nat)
    ensures AllDigits(DigitChars(radix, n, len), radix)
    ensures n < Pow(radix, len) ==> DigitsValue(DigitChars(radix, n, len), radix) == n
    decreases len
  {
    hide ToDigit;
    hide DigitChar;
    hide DigitsValue;
    if len > 0 {
      var s, c := DigitChars(radix, n / radix, len - 1), DigitChar(n % radix);
      CharIsDigit(n % radix);
      DivParts(n, radix);
      DigitCharsValue(radix, n / radix, len - 1);
      if n < Pow(radix, len) { MulCancelStrict(n / radix, Pow(radix, len - 1), radix); }
      DigitsAppend(s, c, radix);
      assert DigitChars(radix, n, len) == s + [c];
    } else {
      NoDigitsValue(radix);
    }
  }

  lemma NoDigitsValue(radix: Radix)
    ensures DigitsValue("", radix) == 0
  {
  }

  lemma {:induction false} NumeralsValue(radix: Radix, n: nat)
    ensures AllDigits(Numerals(radix, n), radix) && DigitsValue(Numerals(radix, n), radix) == n
    decreases n
  {
    hide ToDigit;
    hide DigitChar;
    CharIsDigit(n % radix);
    if n >= radix {
      DivParts(n, radix);
      QuotientBelow(n, radix);
      NumeralsValue(radix, n / radix);
      DigitsAppend(Numerals(radix, n / radix), DigitChar(n % radix), radix);
    } else {
      DivIs(n, radix, 0, n);
      assert [DigitChar(n)][..0] == "";
    }
  }

  lemma QuotientBelow(n: nat, radix: Radix)
    requires n > 0
    ensures n / radix < n
  {
  }

  lemma {:induction false} NumeralsLength(radix: Radix, n: nat, k: nat)
    requires n < Pow(radix, k) && k >= 1
    ensures |Numerals(radix, n)| <= k
    decreases k
  {
    hide DigitChar;
    if n >= radix {
      RadixOnce(radix);
      DivParts(n, radix);
      MulCancelStrict(n / radix, Pow(radix, k - 1), radix);
      NumeralsLength(radix, n / radix, k - 1);
    }
  }

  lemma {:induction false} RepeatZeros(n: nat)
    ensures forall i :: 0 <= i < n ==> Repeat('0', n)[i] == '0'
    decreases n
  {
    if n > 0 { RepeatZeros(n - 1); }
  }

  // ----- the layouts are numerals -----

  function LayoutNumeral(radix: Radix, c: Decimal, mode: ExpMode, max: nat, negative: bool): Numeral
    requires c.digits >= 1
  {
    var s := DigitChars(radix, c.mant, c.digits);
    if Exponential(c, mode, max) then
      Numeral(Sign(negative), s[..1], c.digits > 1, s[1..],
        Exp(ExpChar(radix), if c.exp - 1 < 0 then "-" else "+", Numerals(10, Abs((c.exp - 1) * ExpScale(radix)))))
    else if c.exp <= 0 then Numeral(Sign(negative), "0", true, Repeat('0', -c.exp) + s, NoExp)
    else if c.exp < c.digits then Numeral(Sign(negative), s[..c.exp], true, s[c.exp..], NoExp)
    else Numeral(Sign(negative), s + Repeat('0', c.exp - c.digits), false, "", NoExp)
  }

  lemma LayoutText(radix: Radix, c: Decimal, mode: ExpMode, max: nat, negative: bool)
    requires c.digits >= 1
    ensures Text(LayoutNumeral(radix, c, mode, max, negative)) == Sign(negative) + Layout(radix, c, mode, max)
  {
    hide Sign;
    hide Abs;
    hide DigitChars;
    hide Numerals;
    hide Repeat;
    hide Exponential;
    hide ExpChar;
    hide ExpScale;
    var s := DigitChars(radix, c.mant, c.digits);
    var n := LayoutNumeral(radix, c, mode, max, negative);
    if n.exp.Exp? {
      if c.digits == 1 { assert s[..1] + s[1..] == s; }
      assert BodyText(n) == OutputDigits(radix, c.mant, c.digits, 1);
      var b, e, sg, d := BodyText(n), [ExpChar(radix)], n.exp.sign, n.exp.digits;
      assert Sign(negative) + b + (e + sg + d) == Sign(negative) + (b + e + sg + d);
    } else if c.exp <= 0 {
      assert "0" + "." + (Repeat('0', -c.exp) + s) == "0." + Repeat('0', -c.exp) + s;
      assert Sign(negative) + BodyText(n) + "" == Sign(negative) + BodyText(n);
    } else {
      if c.exp == c.digits { assert Repeat('0', 0) == "" by { EmptyRepeat(); } assert s + "" == s; }
      assert n.fp == "" ==> n.ip + "" + "" == n.ip;
      assert Sign(negative) + BodyText(n) + "" == Sign(negative) + BodyText(n);
    }
  }

  lemma EmptyRepeat()
    ensures Repeat('0', 0) == ""
  {
  }

  lemma {:induction false} ZerosAtLeast(u: string, v: string)
    requires forall i :: 0 <= i < |u| ==> u[i] == '0'
    ensures Zeros(u + v) >= |u|
    decreases |u|
  {
    if u != "" {
      assert (u + v)[1..] == u[1..] + v;
      ZerosAtLeast(u[1..], v);
    }
  }

  /** The first of all digits used is not zero. */
  lemma FirstDigit(radix: Radix, c: Decimal)
    requires Full(radix, c)
    ensures ToDigit(DigitChars(radix, c.mant, c.digits)[0]) > 0
  {
    hide ToDigit;
    hide DigitChars;
    var s := DigitChars(radix, c.mant, c.digits);
    DigitCharsValue(radix, c.mant, c.digits);
    if ToDigit(s[0]) == 0 {
      assert s == s[..1] + s[1..] && s[..1][..0] == "";
      DigitsConcat(s[..1], s[1..], radix);
      assert DigitsValue(s[..1], radix) == 0;
      DigitsBelow(s[1..], radix);
    }
  }

  /** The mantissa has no more digits than are written. */
  predicate Written(radix: Radix, c: Decimal) {
    c.digits >= 1 && c.mant < Pow(radix, c.digits)
  }

  lemma WrittenDigits(radix: Radix, c: Decimal)
    requires Written(radix, c)
    ensures AllDigits(DigitChars(radix, c.mant, c.digits), radix)
    ensures DigitsValue(DigitChars(radix, c.mant, c.digits), radix) == c.mant
  {
    hide DigitChars;
    hide DigitsValue;
    DigitCharsValue(radix, c.mant, c.digits);
  }

  /** The layout is a numeral. */
  lemma LayoutWellFormed(radix: Radix, c: Decimal, mode: ExpMode, max: nat, negative: bool)
    requires Written(radix, c)
    ensures WellFormed(LayoutNumeral(radix, c, mode, max, negative), radix)
  {
    hide DigitChars;
    hide Numerals;
    hide DigitsValue;
    hide Repeat;
    hide Exponential;
    hide ExpScale;
    hide RadixBits;
    WrittenDigits(radix, c);
    NumeralsValue(10, Abs((c.exp - 1) * ExpScale(radix)));
    if c.exp <= 0 { RepeatZeros(-c.exp); }
    if c.exp > c.digits { RepeatZeros(c.exp - c.digits); }
    if c.exp == c.digits { EmptyRepeat(); }
    assert ToDigit('0') == 0;
    TenBits();
  }

  lemma TenBits()
    ensures RadixBits(10) == 0
  {
    PowersOfTwo(10);
  }

  const EXP_LIMIT: int := 1100

  /** What the free format prints. */
  predicate Printable(radix: Radix, c: Decimal) {
    (Full(radix, c) && c.digits <= PrintDigits(radix) && -EXP_LIMIT <= c.exp <= EXP_LIMIT) || c == Decimal(0, 1, 1)
  }

  lemma PrintableDigits(radix: Radix, c: Decimal)
    requires Printable(radix, c)
    ensures 1 <= c.digits <= PrintDigits(radix) && -EXP_LIMIT <= c.exp <= EXP_LIMIT && Written(radix, c)
    ensures AllDigits(DigitChars(radix, c.mant, c.digits), radix)
    ensures DigitsValue(DigitChars(radix, c.mant, c.digits), radix) == c.mant
  {
    hide DigitChars;
    hide DigitsValue;
    RadixOnce(radix);
    WrittenDigits(radix, c);
  }

  lemma LayoutSize(radix: Radix, c: Decimal, mode: ExpMode, max: nat, negative: bool)
    requires Printable(radix, c)
    ensures var n := LayoutNumeral(radix, c, mode, max, negative);
            |n.ip| <= 2000 && |AllOf(n)| <= 2000 && Abs(ExpValue(n.exp)) <= 10000 && n.sign == Sign(negative)
  {
    hide DigitChars;
    hide Numerals;
    hide DigitsValue;
    hide Repeat;
    hide Full;
    hide Exponential;
    hide RadixBits;
    PrintableDigits(radix, c);
    NumeralsValue(10, Abs((c.exp - 1) * ExpScale(radix)));
    SmallExponent(c.exp - 1, ExpScale(radix));
  }

  lemma SmallExponent(e: int, k: nat)
    requires Abs(e) <= EXP_LIMIT + 1 && k <= 4
    ensures Abs(e * k) <= 10000
  {
  }

  lemma SmallFits(n: Numeral, radix: Radix)
    requires |n.ip| <= 2000 && |AllOf(n)| <= 2000 && Abs(ExpValue(n.exp)) <= 10000
    ensures Short(n, radix) && ExponentFits(n, radix)
  {
    hide RadixBits;
    hide ExpValue;
    hide Zeros;
    hide LastExp;
    PowersOfTwo(radix);
    var b, all, t := RadixBits(radix), |AllOf(n)|, |Significant(AllOf(n))|;
    SmallLast(n, radix);
    SmallProducts(all, all, t, 0, b);
  }

  lemma SmallLast(n: Numeral, radix: Radix)
    requires |AllOf(n)| <= 2000 && Abs(ExpValue(n.exp)) <= 10000
    ensures Abs(LastExp(n, radix)) <= 60000
  {
    hide RadixBits;
    hide ExpValue;
    PowersOfTwo(radix);
    SmallProducts(|AllOf(n)|, |n.fp|, 0, ExpValue(n.exp), RadixBits(radix));
  }

  lemma SmallProducts(all: nat, f: nat, t: nat, x: int, b: nat)
    requires all <= 2000 && f <= all && t <= all && Abs(x) <= 10000 && b <= 5
    ensures all * b <= 10000 && f * b <= 10000 && t * b <= 10000 && Abs(x * b) <= 50000
  {
    MulMono(b, 5, all);
    MulMono(b, 5, f);
    MulMono(b, 5, t);
    AbsTimes(x, b);
    MulMono(b, 5, Abs(x));
  }

  lemma LayoutExact(radix: Radix, c: Decimal, mode: ExpMode, max: nat, negative: bool)
    requires Printable(radix, c) && PrintDigits(radix) <= AtodDigits(radix)
    ensures Exact(LayoutNumeral(radix, c, mode, max, negative), radix)
  {
    hide DigitChars;
    hide Numerals;
    hide DigitsValue;
    hide Repeat;
    hide Exact;
    hide KeptAcc;
    hide Exponential;
    hide ExpChar;
    hide ExpScale;
    hide PrintDigits;
    hide AtodDigits;
    hide Full;
    PrintableDigits(radix, c);
    var n := LayoutNumeral(radix, c, mode, max, negative);
    var s := DigitChars(radix, c.mant, c.digits);
    if n.exp.Exp? {
      assert AllOf(n) == s;
      FewDigitsExact(n, radix);
    } else if c.exp <= 0 {
      RepeatZeros(-c.exp);
      var u := "0" + Repeat('0', -c.exp);
      assert AllOf(n) == u + s;
      ZerosAtLeast(u, s);
      FewDigitsExact(n, radix);
    } else if c.exp <= c.digits {
      assert AllOf(n) == s by { if c.exp == c.digits { EmptyRepeat(); } }
      FewDigitsExact(n, radix);
    } else {
      assert AllOf(n) == s + Repeat('0', c.exp - c.digits);
      assert c.exp > 1;
      FirstDigit(radix, c);
      PaddedExact(radix, n, s, c.exp - c.digits);
    }
  }

  lemma PaddedExact(radix: Radix, n: Numeral, s: string, k: nat)
    requires AllOf(n) == s + Repeat('0', k) && 0 < |s| <= AtodDigits(radix) && ToDigit(s[0]) > 0
    ensures Exact(n, radix)
  {
    hide AtodDigits;
    var t := AllOf(n);
    RepeatZeros(k);
    assert t[0] == s[0];
    assert Zeros(t) == 0;
    assert Significant(t) == t;
    var c := Kept(|t|, radix);
    if c < |t| {
      forall i | 0 <= i < |t[c..]| ensures t[c..][i] == '0' { assert t[c..][i] == Repeat('0', k)[i + c - |s|]; }
      ZerosValue(t[c..], radix);
    } else {
      assert t[c..] == "";
    }
  }

  lemma EnoughKept(radix: Radix)
    ensures PrintDigits(radix) <= AtodDigits(radix) || RadixBits(radix) != 0
  {
    hide RadixBits;
    PowersOfTwo(radix);
  }

  /** A power-of-two radix scales by a power of two. */
  lemma RoundedBinary(m: nat, radix: Radix, k: int)
    requires RadixBits(radix) != 0
    ensures Rounded(m, radix, k) == Rounded(m, 2, k * RadixBits(radix))
  {
    RadixUpPow(radix, k);
  }

  /** The value of a numeral, from the exponent of its last digit. */
  lemma ValueIs(n: Numeral, radix: Radix, k: int)
    requires LastExp(n, radix) == k * Unit(radix)
    ensures RoundBits(ValueNum(n, radix), ValueDen(n, radix)) == Rounded(DigitsValue(AllOf(n), radix), radix, k)
  {
    hide Pow;
    hide UpPow;
    hide RoundBits;
    hide LastExp;
    hide DigitsValue;
    hide AllOf;
    if RadixBits(radix) != 0 { RoundedBinary(DigitsValue(AllOf(n), radix), radix, k); }
  }

  lemma LastWithout(n: Numeral, radix: Radix)
    requires n.exp.NoExp?
    ensures LastExp(n, radix) == -|n.fp| * Unit(radix)
  {
    hide RadixBits;
  }

  lemma LastWith(n: Numeral, radix: Radix, e: int)
    requires n.exp.Exp? && n.exp.mark == ExpChar(radix) && ExpValue(n.exp) == e * ExpScale(radix)
    ensures LastExp(n, radix) == (e - |n.fp|) * Unit(radix)
  {
    hide RadixBits;
    var b := RadixBits(radix);
    TenBits();
    assert (e - |n.fp|) * b == e * b - |n.fp| * b;
  }

  /** The exponent of the last digit of a layout. */
  lemma LayoutLast(radix: Radix, c: Decimal, mode: ExpMode, max: nat, negative: bool)
    requires Written(radix, c)
    ensures var n := LayoutNumeral(radix, c, mode, max, negative);
            LastExp(n, radix) == (if n.exp.NoExp? then -|n.fp| else c.exp - c.digits) * Unit(radix)
  {
    hide DigitChars;
    hide DigitsValue;
    hide Repeat;
    hide Exponential;
    hide Numerals;
    hide LastExp;
    hide Unit;
    hide ExpScale;
    hide ExpChar;
    var n := LayoutNumeral(radix, c, mode, max, negative);
    var e, k := c.exp - 1, ExpScale(radix);
    if n.exp.NoExp? {
      LastWithout(n, radix);
    } else {
      NumeralsValue(10, Abs(e * k));
      assert k > 0 by { ScalePositive(radix); }
      SignedProduct(e, k);
      assert |n.fp| == c.digits - 1;
      LastWith(n, radix, e);
    }
  }

  lemma ScalePositive(radix: Radix)
    ensures 0 < ExpScale(radix) <= 4
  {
    hide RadixBits;
  }

  lemma SignedProduct(e: int, k: nat)
    requires k > 0
    ensures e * k == if e < 0 then 0 - Abs(e * k) else Abs(e * k) as int
  {
    if e < 0 { MulStrictInt(e, 0, k); } else { MulMonoInt(0, e, k); }
  }

  /** The zeros that a layout appends. */
  function Padding(c: Decimal, n: Numeral): nat {
    if n.exp.NoExp? && c.exp > c.digits then c.exp - c.digits else 0
  }

  /** The digits of a layout: those of the mantissa, zeros in front of them or behind. */
  lemma LayoutDigits(radix: Radix, c: Decimal, mode: ExpMode, max: nat, negative: bool)
    requires Written(radix, c)
    ensures var n := LayoutNumeral(radix, c, mode, max, negative);
            DigitsValue(AllOf(n), radix) == c.mant * Pow(radix, Padding(c, n))
            && LastExp(n, radix) == (c.exp - c.digits - Padding(c, n)) * Unit(radix)
  {
    hide DigitChars;
    hide Numerals;
    hide DigitsValue;
    hide Repeat;
    hide Pow;
    hide Exponential;
    hide ExpChar;
    hide ExpScale;
    hide LastExp;
    hide Unit;
    WrittenDigits(radix, c);
    LayoutLast(radix, c, mode, max, negative);
    RadixOnce(radix);
    var n := LayoutNumeral(radix, c, mode, max, negative);
    var s := DigitChars(radix, c.mant, c.digits);
    if n.exp.Exp? {
      assert AllOf(n) == s;
    } else if c.exp <= 0 {
      RepeatZeros(-c.exp);
      var u := "0" + Repeat('0', -c.exp);
      assert AllOf(n) == u + s;
      DigitsConcat(u, s, radix);
      ZerosValue(u, radix);
    } else if c.exp < c.digits {
      assert AllOf(n) == s;
    } else {
      var k: nat := c.exp - c.digits;
      RepeatZeros(k);
      assert AllOf(n) == s + Repeat('0', k);
      DigitsConcat(s, Repeat('0', k), radix);
      ZerosValue(Repeat('0', k), radix);
    }
  }

  /** The layout has the value of the decimal. */
  lemma LayoutValue(radix: Radix, c: Decimal, mode: ExpMode, max: nat, negative: bool)
    requires Written(radix, c)
    ensures var n := LayoutNumeral(radix, c, mode, max, negative);
            RoundBits(ValueNum(n, radix), ValueDen(n, radix)) == Rounded(c.mant, radix, c.exp - c.digits)
  {
    hide DigitsValue;
    hide RoundBits;
    hide Pow;
    hide LastExp;
    hide Unit;
    hide ValueNum;
    hide ValueDen;
    hide Rounded;
    hide AllOf;
    hide LayoutNumeral;
    var n := LayoutNumeral(radix, c, mode, max, negative);
    LayoutDigits(radix, c, mode, max, negative);
    ValueIs(n, radix, c.exp - c.digits - Padding(c, n));
    RoundedShift(c.mant, radix, Padding(c, n), c.exp - c.digits - Padding(c, n));
  }

  // ----- printed numbers do not look like infinity -----

  lemma {:induction false} NoCapital(radix: Radix, n: nat, len: nat)
    ensures 'I' !in DigitChars(radix, n, len)
    decreases len
  {
    hide DigitChar;
    hide DigitChars;
    if len > 0 {
      OneDigit(radix, n, len);
      CharIsDigit(n % radix);
      NoCapital(radix, n / radix, len - 1);
    } else {
      NoDigitsLeft(radix, n);
    }
  }

  lemma {:induction false} NoCapitals(radix: Radix, n: nat)
    ensures 'I' !in Numerals(radix, n)
    decreases n
  {
    hide DigitChar;
    CharIsDigit(n % radix);
    if n >= radix {
      QuotientBelow(n, radix);
      NoCapitals(radix, n / radix);
    } else {
      DivIs(n, radix, 0, n);
    }
  }

  lemma FirstOfInfinity(s: string, p: nat)
    requires IsInfinity(s, p)
    ensures Ch(s, p) == 'I'
  {
    assert s[p] == s[p..p + 8][0];
  }

  lemma NotInfinity(n: Numeral, radix: Radix, fl: Flags)
    requires WellFormed(n, radix) && 'I' !in n.ip && n.ip != ""
    ensures !LooksInfinite(n, fl)
  {
    var s, a := Text(n), |n.sign|;
    TextParts(n);
    assert s[a] == s[a..a + |BodyText(n)|][0] == BodyText(n)[0] == n.ip[0];
    if IsInfinity(s, a) { FirstOfInfinity(s, a); }
  }

  lemma LayoutNotInfinity(radix: Radix, c: Decimal, mode: ExpMode, max: nat, negative: bool, fl: Flags)
    requires Printable(radix, c)
    ensures !LooksInfinite(LayoutNumeral(radix, c, mode, max, negative), fl)
  {
    hide DigitChars;
    hide Numerals;
    hide Repeat;
    hide Full;
    hide Written;
    hide Exponential;
    hide ExpChar;
    hide ExpScale;
    hide LooksInfinite;
    hide WellFormed;
    hide PrintDigits;
    PrintableDigits(radix, c);
    LayoutWellFormed(radix, c, mode, max, negative);
    NoCapital(radix, c.mant, c.digits);
    if c.exp > c.digits { RepeatZeros(c.exp - c.digits); }
    if c.exp == c.digits { EmptyRepeat(); }
    NotInfinity(LayoutNumeral(radix, c, mode, max, negative), radix, fl);
  }

  // ----- the round trip -----

  lemma ExpRange(radix: Radix, f: Float, p: nat)
    requires P52 <= f.mant < P53 && -1074 < f.exp <= 1024 && p >= 1
    ensures -EXP_LIMIT < Attempt(radix, f, p, RNDN).exp < EXP_LIMIT
  {
    hide RadixRounded;
    hide Pow;
    hide MulLog2Radix;
    LogSize(f.exp - 1, radix);
  }

  lemma {:induction false} StripExp(radix: Radix, c: Decimal)
    requires Full(radix, c)
    ensures Strip(radix, c).exp == c.exp
    decreases c.digits
  {
    hide Full;
    if c.mant % radix == 0 {
      StripOnce(radix, c);
      StripExp(radix, Decimal(c.mant / radix, c.digits - 1, c.exp));
    }
  }

  lemma {:induction false} ShortenExp(radix: Radix, f: Float, p: nat, best: Decimal)
    requires P52 <= f.mant < P53 && -1074 < f.exp <= 1024 && -EXP_LIMIT < best.exp < EXP_LIMIT
    ensures -EXP_LIMIT < Shorten(radix, f, p, best).exp < EXP_LIMIT
    decreases p
  {
    hide ReadsBack;
    hide Attempt;
    hide Strip;
    if p > 0 {
      AttemptFull(radix, f, p, RNDN);
      ExpRange(radix, f, p);
      StripExp(radix, Attempt(radix, f, p, RNDN));
      var c := Strip(radix, Attempt(radix, f, p, RNDN));
      if ReadsBack(radix, c, f) { ShortenExp(radix, f, c.digits - 1, c); }
    }
  }

  lemma ShortestPrintable(radix: Radix, a: nat)
    requires 0 < a < INFINITY && P52 <= Normalize(a).mant < P53 && -1074 < Normalize(a).exp <= 1024
    ensures Printable(radix, Shortest(radix, Normalize(a))) && Full(radix, Shortest(radix, Normalize(a)))
  {
    hide Attempt;
    hide Strip;
    hide Shorten;
    hide Nearest;
    hide Normalize;
    hide PrintDigits;
    var f := Normalize(a);
    ShortestNearest(radix, a);
    AttemptFull(radix, f, PrintDigits(radix), RNDN);
    ExpRange(radix, f, PrintDigits(radix));
    StripExp(radix, Attempt(radix, f, PrintDigits(radix), RNDN));
    var c := Strip(radix, Attempt(radix, f, PrintDigits(radix), RNDN));
    ShortenExp(radix, f, c.digits - 1, c);
  }

  /** The shortest digits round to the number they were made from. */
  lemma ShortestRounds(radix: Radix, a: nat)
    requires 0 < a < INFINITY && P52 <= Normalize(a).mant < P53 && -1074 < Normalize(a).exp <= 1024
    ensures var c := Shortest(radix, Normalize(a)); Rounded(c.mant, radix, c.exp - c.digits) == a
  {
    hide Shortest;
    hide Nearest;
    hide Normalize;
    hide RoundBits;
    hide Pow;
    hide UpPow;
    ShortestNearest(radix, a);
    var c := Shortest(radix, Normalize(a));
    RoundBitsNearest(DecNum(radix, c), DecDen(radix, c));
    NearestUnique(DecNum(radix, c), DecDen(radix, c), RoundBits(DecNum(radix, c), DecDen(radix, c)), a);
  }

  /** After the first character there is no dot and no sign: no fraction, no exponent. */
  predicate Plain(s: string) {
    forall i :: 0 < i < |s| ==> s[i] !in ['.', '+', '-']
  }

  lemma DotInText(n: Numeral)
    requires n.dot && n.ip != ""
    ensures !Plain(Text(n))
  {
    TextParts(n);
    var s, a, b := Text(n), |n.sign|, |n.sign| + |BodyText(n)|;
    assert s[a + |n.ip|] == s[a..b][|n.ip|] == BodyText(n)[|n.ip|] == '.';
  }

  lemma SignInText(n: Numeral)
    requires n.exp.Exp? && n.exp.sign in {"+", "-"}
    ensures !Plain(Text(n))
  {
    TextParts(n);
    var s, b := Text(n), |n.sign| + |BodyText(n)|;
    assert s[b + 1] == s[b..][1] == ExpText(n.exp)[1] == n.exp.sign[0];
  }

  lemma PlainInteger(n: Numeral)
    requires Plain(Text(n)) && (n.exp.Exp? ==> n.exp.sign in {"+", "-"}) && n.ip != ""
    ensures IsInteger(n)
  {
    hide Plain;
    if n.dot { DotInText(n); }
    if n.exp.Exp? { SignInText(n); }
  }

  lemma LayoutReadsBack(radix: Radix, c: Decimal, mode: ExpMode, max: nat, negative: bool, fl: Flags)
    requires Printable(radix, c) && c.digits >= 1
    requires fl.intOnly ==> Plain(Sign(negative) + Layout(radix, c, mode, max))
    ensures var s := Sign(negative) + Layout(radix, c, mode, max);
            Atod(s, radix, fl) == Result(Bits(negative, Rounded(c.mant, radix, c.exp - c.digits)), |s|)
  {
    hide Atod;
    hide RoundBits;
    hide Rounded;
    hide WellFormed;
    hide ExponentFits;
    hide Exact;
    hide Text;
    hide Layout;
    hide Short;
    hide Printable;
    hide Written;
    PrintableDigits(radix, c);
    hide LooksInfinite;
    hide Plain;
    hide IsInteger;
    hide SameSide;
    var n := LayoutNumeral(radix, c, mode, max, negative);
    LayoutText(radix, c, mode, max, negative);
    LayoutWellFormed(radix, c, mode, max, negative);
    LayoutSize(radix, c, mode, max, negative);
    SmallFits(n, radix);
    EnoughKept(radix);
    if RadixBits(radix) == 0 { LayoutExact(radix, c, mode, max, negative); } else { BinaryExact(n, radix); }
    LayoutValue(radix, c, mode, max, negative);
    LayoutNotInfinity(radix, c, mode, max, negative, fl);
    if fl.intOnly { LayoutInteger(radix, c, mode, max, negative); }
    ExactKept(n, radix);
    AtodNumeral(n, radix, fl);
  }

  lemma BinaryExact(n: Numeral, radix: Radix)
    requires RadixBits(radix) != 0
    ensures Exact(n, radix)
  {
  }

  lemma LayoutInteger(radix: Radix, c: Decimal, mode: ExpMode, max: nat, negative: bool)
    requires Printable(radix, c) && Plain(Text(LayoutNumeral(radix, c, mode, max, negative)))
    ensures IsInteger(LayoutNumeral(radix, c, mode, max, negative))
  {
    hide Plain;
    hide Text;
    hide Full;
    hide PrintDigits;
    hide DigitChars;
    hide Repeat;
    hide Numerals;
    hide Exponential;
    PrintableDigits(radix, c);
    PlainInteger(LayoutNumeral(radix, c, mode, max, negative));
  }

  /** An integer below 2^53 is its own nearest number. */
  lemma FastIntValue(a: nat, mode: ExpMode)
    requires 0 < a < INFINITY && P52 <= Normalize(a).mant < P53 && FastInt(Normalize(a), mode)
    ensures var k := Normalize(a).mant / Pow(2, 53 - Normalize(a).exp);
            0 < k < P53 && Units(a) == k * Pow(2, 1074)
  {
    hide Pow;
    hide Units;
    hide Normalize;
    var f := Normalize(a);
    var j: nat := 53 - f.exp;
    var k := f.mant / Pow(2, j);
    NormalizeValue(a);
    DivParts(f.mant, Pow(2, j));
    P52Is();
    PowZero(2);
    PowMono(2, 0, j);
    MulMono(1, Pow(2, j), k);
    PowMono(2, j, 52);
    assert k > 0;
    PlainUp(2, f.exp + 1021);
    PowAdd(2, j, f.exp + 1021);
    assert k * Pow(2, j) * Pow(2, f.exp + 1021) == k * (Pow(2, j) * Pow(2, f.exp + 1021));
  }

  lemma OwnNearest(a: nat)
    requires 0 < a < INFINITY
    ensures RoundBits(Units(a), 1) == a
  {
    hide Units;
    hide Nearest;
    hide RoundBits;
    UnitsMono(a - 1, a);
    UnitsMono(a, a + 1);
    NearestBetween(Units(a), 1, a);
    RoundBitsNearest(Units(a), 1);
    NearestUnique(Units(a), 1, a, RoundBits(Units(a), 1));
  }

  function IntegerNumeral(radix: Radix, k: nat, negative: bool): Numeral {
    Numeral(Sign(negative), Numerals(radix, k), false, "", NoExp)
  }

  /** Digits for every integer below 2^53: as many as `js_dtoa` tries first. */
  lemma IntegerLength(radix: Radix, k: nat)
    requires k < P53
    ensures |Numerals(radix, k)| <= PrintDigits(radix)
  {
    hide Pow;
    hide PrintDigits;
    hide Numerals;
    P52Is();
    if RadixBits(radix) == 0 {
      EnoughDigits(radix);
    } else {
      BinaryDigits(radix);
      RadixIsPower(radix, PrintDigits(radix) - 1);
      PowMono(2, 53, (PrintDigits(radix) - 1) * RadixBits(radix));
    }
    NumeralsLength(radix, k, PrintDigits(radix) - 1);
  }

  lemma IntegerNumeralIs(radix: Radix, k: nat, negative: bool)
    requires k < P53
    ensures var n := IntegerNumeral(radix, k, negative);
            WellFormed(n, radix) && |n.ip| <= PrintDigits(radix) && AllOf(n) == Numerals(radix, k)
            && Text(n) == Sign(negative) + Numerals(radix, k) && n.sign == Sign(negative) && ExpValue(n.exp) == 0
            && IsInteger(n)
  {
    hide Numerals;
    hide Pow;
    hide PrintDigits;
    NumeralsValue(radix, k);
    IntegerLength(radix, k);
    assert Numerals(radix, k) + "" == Numerals(radix, k);
    assert Sign(negative) + Numerals(radix, k) + "" == Sign(negative) + Numerals(radix, k);
  }

  lemma IntegerNumeralValue(radix: Radix, k: nat, negative: bool)
    requires AllOf(IntegerNumeral(radix, k, negative)) == Numerals(radix, k)
    ensures var n := IntegerNumeral(radix, k, negative);
            RoundBits(ValueNum(n, radix), ValueDen(n, radix)) == Rounded(k, radix, 0)
  {
    hide Numerals;
    hide DigitsValue;
    hide RoundBits;
    hide ValueNum;
    hide ValueDen;
    hide Rounded;
    NumeralsValue(radix, k);
    ValueIs(IntegerNumeral(radix, k, negative), radix, 0);
  }

  lemma RoundedOnce(k: nat, radix: Radix)
    ensures Rounded(k, radix, 0) == RoundBits(k * Pow(2, 1074), 1)
  {
    hide Pow;
    PlainUp(radix, 0);
    PowZero(radix);
  }

  lemma IntegerReadsBack(radix: Radix, k: nat, negative: bool, fl: Flags)
    requires 0 < k < P53
    ensures var s := Sign(negative) + Numerals(radix, k);
            Atod(s, radix, fl) == Result(Bits(negative, Rounded(k, radix, 0)), |s|)
  {
    hide Atod;
    hide RoundBits;
    hide Rounded;
    hide Numerals;
    hide Exact;
    hide WellFormed;
    hide Short;
    hide ExponentFits;
    hide ValueNum;
    hide ValueDen;
    hide Text;
    hide AllOf;
    hide LooksInfinite;
    hide IsInteger;
    hide Significant;
    hide PrintDigits;
    hide AtodDigits;
    var n := IntegerNumeral(radix, k, negative);
    IntegerNumeralIs(radix, k, negative);
    IntegerNumeralValue(radix, k, negative);
    SmallFits(n, radix);
    EnoughKept(radix);
    if RadixBits(radix) == 0 { ShortExact(n, radix); } else { BinaryExact(n, radix); }
    NoCapitals(radix, k);
    NotInfinity(n, radix, fl);
    ExactKept(n, radix);
    AtodInteger(n, radix, fl);
  }

  lemma ShortExact(n: Numeral, radix: Radix)
    requires |AllOf(n)| <= AtodDigits(radix)
    ensures Exact(n, radix)
  {
    FewDigitsExact(n, radix);
  }

  lemma FiniteReadsBack(radix: Radix, a: nat, mode: ExpMode, negative: bool, fl: Flags)
    requires 0 < a < INFINITY
    requires fl.intOnly ==> Plain(Sign(negative) + PrintFinite(radix, a, mode))
    ensures var s := Sign(negative) + PrintFinite(radix, a, mode);
            Atod(s, radix, fl) == Result(Bits(negative, a), |s|)
  {
    hide Atod;
    hide RoundBits;
    hide Rounded;
    hide Layout;
    hide Shortest;
    hide Normalize;
    hide Printable;
    hide Numerals;
    hide Units;
    hide Pow;
    hide Plain;
    hide PrintDigits;
    NormalizeValue(a);
    var f := Normalize(a);
    if FastInt(f, mode) {
      FastIntValue(a, mode);
      OwnNearest(a);
      RoundedOnce(f.mant / Pow(2, 53 - f.exp), radix);
      IntegerReadsBack(radix, f.mant / Pow(2, 53 - f.exp), negative, fl);
    } else {
      ShortestPrintable(radix, a);
      ShortestRounds(radix, a);
      PrintableDigits(radix, Shortest(radix, f));
      LayoutReadsBack(radix, Shortest(radix, f), mode, ExpMax(radix), negative, fl);
    }
  }

  lemma ZeroReadsBack(radix: Radix, mode: ExpMode, negative: bool, fl: Flags)
    requires fl.intOnly ==> Plain(Sign(negative) + Layout(radix, Decimal(0, 1, 1), mode, ExpMax(radix)))
    ensures var s := Sign(negative) + Layout(radix, Decimal(0, 1, 1), mode, ExpMax(radix));
            Atod(s, radix, fl) == Result(Bits(negative, 0), |s|)
  {
    hide Atod;
    hide Layout;
    hide Rounded;
    hide Plain;
    LayoutReadsBack(radix, Decimal(0, 1, 1), mode, ExpMax(radix), negative, fl);
    RoundedZero(radix);
  }

  lemma RoundedZero(radix: Radix)
    ensures Rounded(0, radix, 0) == 0
  {
    hide Pow;
    hide RoundBits;
    RoundedOnce(0, radix);
    TinyIsZero(0, 1);
  }

  lemma InfinityReadsBack(radix: Radix, negative: bool, fl: Flags)
    requires !fl.intOnly
    ensures var s := Sign(negative) + "Infinity"; Atod(s, radix, fl) == Result(Bits(negative, INFINITY), |s|)
  {
    var s := Sign(negative) + "Infinity";
    assert s[|Sign(negative)|..|Sign(negative)| + 8] == "Infinity";
    assert s[|Sign(negative)|] == 'I';
  }

  // ----- integers only -----

  /** A character that integer-only mode passes: a digit, or a separator. */
  predicate Passes(c: char) {
    ToDigit(c) < 36 || c == '_'
  }

  lemma SepPasses(s: string, h: How, st: Scan, follows: bool)
    requires h.intOnly && st.p <= |s|
    ensures AfterDot(s, h, st) == st && !DotHere(s, h, st.p)
    ensures var v := AfterSep(s, h, st, follows);
            st.p <= v.p <= |s| && (forall i :: st.p <= i < v.p ==> Passes(s[i])) && v.pos == st.pos && v.dot == st.dot
  {
  }

  lemma ZeroPasses(c: char, radix: Radix)
    ensures c == '0' || ToDigit(c) < radix ==> Passes(c)
  {
  }

  lemma {:induction false} SkipPasses(s: string, h: How, st: Scan)
    requires h.intOnly && st.p <= |s|
    ensures var z := SkipZeros(s, h, st);
            st.p <= z.p <= |s| && forall i :: st.p <= i < z.p ==> Passes(s[i])
    decreases |s| - st.p
  {
    hide DotHere;
    hide AfterDot;
    hide AfterSep;
    hide Passes;
    hide ToDigit;
    var follows := Ch(s, st.p + 1) == '0';
    SepPasses(s, h, st, follows);
    var v := AfterSep(s, h, st, follows);
    if Ch(s, v.p) == '0' {
      ZeroPasses('0', h.radix);
      SkipPasses(s, h, Scan(v.p + 1, v.pos + 1, v.dot));
    }
  }

  lemma {:induction false} ReadPasses(s: string, h: How, st: Scan, acc: Acc)
    requires h.intOnly && st.p <= |s|
    ensures var d := ReadDigits(s, h, st, acc).0;
            st.p <= d.p <= |s| && forall i :: st.p <= i < d.p ==> Passes(s[i])
    decreases |s| - st.p
  {
    hide Take;
    hide DotHere;
    hide AfterDot;
    hide AfterSep;
    hide Passes;
    hide ToDigit;
    var follows := ToDigit(Ch(s, st.p + 1)) < h.radix;
    SepPasses(s, h, st, follows);
    var v := AfterSep(s, h, st, follows);
    var c := ToDigit(Ch(s, v.p));
    if c < h.radix && v.p < |s| {
      ZeroPasses(s[v.p], h.radix);
      ReadPasses(s, h, Scan(v.p + 1, v.pos + 1, v.dot), Take(acc, c, h.radix));
    }
  }

  /** Read to its end with integers only, a text has neither a dot nor an exponent. */
  lemma IntegerOnlyStops(s: string, radix: Radix, fl: Flags)
    requires fl.intOnly && Atod(s, radix, fl).next == |s|
    ensures Plain(s)
  {
    hide SkipZeros;
    hide ReadDigits;
    hide Magnitude;
    hide IsInfinity;
    var p0 := Start(s);
    match ReadPrefix(s, p0, radix, fl)
    case Goes(p, radix', sep) =>
      if p <= |s| {
        var h := How(p0, radix', sep, true);
        SkipPasses(s, h, Scan(p, 0, -1));
        var z := SkipZeros(s, h, Scan(p, 0, -1));
        ReadPasses(s, h, z, Acc(0, 0, false));
        assert !Passes('.') && !Passes('+') && !Passes('-');
      }
    case _ =>
  }

  /** `NaN` is no number in the radices up to 23, and a number in those above. */
  lemma NaNReadsBack(radix: Radix, fl: Flags)
    ensures Atod("NaN", radix, fl).value == NaN <==> radix <= 23
  {
    hide Magnitude;
    hide ReadDigits;
    hide SkipZeros;
    hide ReadExp;
    hide RadixBits;
    var s, h := "NaN", How(0, radix, fl.underscores, fl.intOnly);
    assert ToDigit('N') == 23 && ToDigit('a') == 10;
    var z := Scan(0, 0, -1);
    NaNScan(s, h, z);
    if radix > 23 { NaNDigits(s, h, z); }
    NaNExp(s, h, ReadDigits(s, h, z, Acc(0, 0, false)).0.p);
  }

  lemma NaNScan(s: string, h: How, z: Scan)
    requires s == "NaN" && h.start == 0 && z == Scan(0, 0, -1)
    ensures SkipZeros(s, h, z) == z
    ensures h.radix <= 23 ==> ReadDigits(s, h, z, Acc(0, 0, false)).0.p == 0
  {
    hide Take;
    assert ToDigit('N') == 23;
  }

  lemma NaNExp(s: string, h: How, p: nat)
    requires s == "NaN" && h.start == 0 && (p == 0 || p == 3)
    ensures ReadExp(s, h, p).Expn? && ReadExp(s, h, p).at == p
  {
    hide ReadExpDigits;
    hide RadixBits;
  }

  lemma NaNDigits(s: string, h: How, z: Scan)
    requires s == "NaN" && h.start == 0 && h.radix > 23 && z.p == 0
    ensures ReadDigits(s, h, z, Acc(0, 0, false)).0.p == 3
  {
    hide Take;
    assert ToDigit('N') == 23 && ToDigit('a') == 10;
    var a := Take(Acc(0, 0, false), 23, h.radix);
    var b := Take(a, 10, h.radix);
    var c := Take(b, 23, h.radix);
    assert ReadDigits(s, h, Scan(3, z.pos + 3, z.dot), c).0.p == 3;
    assert ReadDigits(s, h, Scan(2, z.pos + 2, z.dot), b).0.p == 3;
    assert ReadDigits(s, h, Scan(1, z.pos + 1, z.dot), a).0.p == 3;
  }

  /** Every binary64 value, printed in the free format of any radix in any exponent mode, is
      read back as the same value, to the end of the text; only the sign of a zero depends
      on the flag. With integers only this is so for a text without a dot and an exponent,
      and no other text is read to its end. */
  lemma RoundTrip(v: Number, radix: Radix, mode: ExpMode, minusZero: bool, fl: Flags)
    requires v.Bits? ==> v.magnitude <= INFINITY
    ensures var s := Dtoa(v, radix, mode, minusZero);
            var r := Atod(s, radix, fl);
            if v.NaN? then r.value == NaN <==> radix <= 23
            else
              ((fl.intOnly ==> v.magnitude < INFINITY && Plain(s)) ==>
                r == Result(if v.magnitude == 0 && !minusZero then Bits(false, 0) else v, |s|))
              && (fl.intOnly && !Plain(s) ==> r.next != |s|)
  {
    hide Atod;
    hide Layout;
    hide PrintFinite;
    hide Plain;
    var s := Dtoa(v, radix, mode, minusZero);
    if v.NaN? {
      NaNReadsBack(radix, fl);
    } else if fl.intOnly && !Plain(s) {
      if Atod(s, radix, fl).next == |s| { IntegerOnlyStops(s, radix, fl); }
    } else if v.magnitude == 0 {
      ZeroReadsBack(radix, mode, v.negative && minusZero, fl);
    } else if v.magnitude == INFINITY {
      if !fl.intOnly { InfinityReadsBack(radix, v.negative, fl); }
    } else {
      FiniteReadsBack(radix, v.magnitude, mode, v.negative, fl);
    }
  }
}
