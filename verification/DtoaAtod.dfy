/** The whole of `js_atod` on the text of a numeral. */
module DtoaAtod {
  import opened DtoaArith
  import opened DtoaRound
  import opened DtoaDouble
  import opened DtoaLog
  import opened DtoaScale
  import opened DtoaTables
  import opened DtoaScan
  import opened DtoaNumeral
  import opened DtoaDigits
  import opened DtoaRead

  function TheHow(n: Numeral, radix: Radix, fl: Flags): How {
    How(|n.sign|, radix, fl.underscores, fl.intOnly)
  }

  predicate GivenUp(n: Numeral) {
    Abs(ExpValue(n.exp)) >= 10 * (EXPN_GUARD + 1)
  }

  /** The text is short enough for its positions, counted in bits, to be C ints. */
  predicate Short(n: Numeral, radix: Radix) {
    |AllOf(n)| * Unit(radix) <= 1_000_000_000
  }

  /** The exponent just above the first significant digit, counted in digits or in bits. */
  function FirstEnd(n: Numeral, radix: Radix): int {
    if RadixBits(radix) == 0 then ExpValue(n.exp) + |n.ip| - Zeros(AllOf(n))
    else LastExp(n, radix) + |Significant(AllOf(n))| * RadixBits(radix)
  }

  /** The exponent is so large that it is given up, or that of the first significant digit
      fits an int. */
  predicate ExponentFits(n: Numeral, radix: Radix) {
    GivenUp(n) || -INT32_LIMIT <= FirstEnd(n, radix) < INT32_LIMIT
  }

  /** The exponent of the last digit, in bits, that a wrapped exponent stands for. */
  function WrappedLast(n: Numeral, radix: Radix): int {
    LastExp(n, radix) + Wrap32(FirstEnd(n, radix)) - FirstEnd(n, radix)
  }

  /** In a power-of-two radix, the digits at the wrapped exponent are again at or above the
      midpoint to 2^1024, or again at or below half of the least unit. */
  ghost predicate SameSide(n: Numeral, radix: Radix) {
    RadixBits(radix) != 0
    && var y := WrappedLast(n, radix);
       var x, d := Times(Times(DigitsValue(Significant(AllOf(n)), radix), UpPow(2, y)), Pow(2, 1074)), UpPow(2, -y);
       if FirstEnd(n, radix) < 0 then 2 * x <= d else TwiceTop() * d <= 2 * x
  }

  /** In a radix with an odd factor, no digit after those that are kept is other than zero. */
  predicate Exact(n: Numeral, radix: Radix) {
    RadixBits(radix) != 0 || !KeptAcc(Significant(AllOf(n)), radix).extra
  }

  /** Zeros in place of the digits from `c` on. */
  function ZerosFrom(s: string, c: int): (z: string)
    ensures |z| == |s|
  {
    seq(|s|, i requires 0 <= i < |s| => if i < c then s[i] else '0')
  }

  /** The numeral as it is read: in a radix with an odd factor, zeros stand for the digits
      after those that are kept. */
  function KeptNumeral(n: Numeral, radix: Radix): Numeral {
    if RadixBits(radix) != 0 then n
    else
      var c := Zeros(AllOf(n)) + AtodDigits(radix);
      n.(ip := ZerosFrom(n.ip, c), fp := ZerosFrom(n.fp, c - |n.ip|))
  }

  /** Up to the number of digits that are kept, nothing is dropped. */
  lemma FewDigitsExact(n: Numeral, radix: Radix)
    requires |Significant(AllOf(n))| <= AtodDigits(radix)
    ensures Exact(n, radix)
  {
    KeptCount(Significant(AllOf(n)), radix);
  }

  /** A numeral without a dot and an exponent. */
  predicate IsInteger(n: Numeral) {
    !n.dot && n.exp.NoExp?
  }

  /** The text is taken for infinity. */
  predicate LooksInfinite(n: Numeral, fl: Flags) {
    !fl.intOnly && IsInfinity(Text(n), |n.sign|)
  }

  // ----- the parts of the text -----

  lemma TextParts(n: Numeral)
    ensures var s := Text(n); var a := |n.sign|; var b := a + |BodyText(n)|;
            b <= |s| && s[..a] == n.sign && s[a..b] == BodyText(n) && s[b..] == ExpText(n.exp)
  {
    var s := n.sign + BodyText(n);
    assert Text(n)[..|s|] == s;
  }

  lemma BodyFirst(n: Numeral, radix: Radix)
    requires WellFormed(n, radix)
    ensures BodyText(n) != "" && (BodyText(n)[0] == '.' || ToDigit(BodyText(n)[0]) < radix)
    ensures |BodyText(n)| > 1 ==> BodyText(n)[1] == '.' || ToDigit(BodyText(n)[1]) < radix
  {
  }

  lemma MarkNoDigit(c: char, radix: Radix)
    requires MarkFits(c, radix)
    ensures ToDigit(c) >= radix && c != '.' && c != '_'
  {
    hide RadixBits;
    hide Pow;
    PowersOfTwo(radix);
    if 1 <= RadixBits(radix) <= 4 {
      PowMono(2, RadixBits(radix), 4);
      SmallPowers();
    }
  }

  lemma FollowChar(n: Numeral, radix: Radix)
    requires WellFormed(n, radix)
    ensures var c := Ch(Text(n), |n.sign| + |BodyText(n)|);
            (if n.exp.NoExp? then c == '\0' else c == n.exp.mark) && ToDigit(c) >= radix && c != '.' && c != '_'
  {
    TextParts(n);
    if n.exp.Exp? {
      assert ExpText(n.exp)[0] == n.exp.mark;
      assert Text(n)[|n.sign| + |BodyText(n)|..][0] == n.exp.mark;
      MarkNoDigit(n.exp.mark, radix);
    }
  }

  lemma TextReads(n: Numeral, radix: Radix, fl: Flags)
    requires WellFormed(n, radix) && (fl.intOnly ==> IsInteger(n))
    ensures Reads(Text(n), TheHow(n, radix, fl), n)
  {
    hide WellFormed;
    TextParts(n);
    FollowChar(n, radix);
  }

  lemma StartIs(n: Numeral, radix: Radix)
    requires WellFormed(n, radix)
    ensures Start(Text(n)) == |n.sign| && (Ch(Text(n), 0) == '-' <==> n.sign == "-")
  {
    TextParts(n);
    BodyFirst(n, radix);
    var s := Text(n);
    if n.sign == "" {
      assert s[0] == s[0..|BodyText(n)|][0] == BodyText(n)[0];
    } else {
      assert s[0] == s[..1][0] == n.sign[0];
    }
  }

  /** No numeral starts like a radix prefix. */
  lemma PrefixIs(n: Numeral, radix: Radix, fl: Flags)
    requires WellFormed(n, radix)
    ensures ReadPrefix(Text(n), |n.sign|, radix, fl)
         == if LooksInfinite(n, fl) then Infinite(|n.sign| + 8) else Goes(|n.sign|, radix, fl.underscores)
  {
    hide Text;
    var s, a, b := Text(n), |n.sign|, BodyText(n);
    TextParts(n);
    BodyFirst(n, radix);
    FollowChar(n, radix);
    assert s[a] == s[a..a + |b|][0] == b[0];
    if |b| > 1 { assert s[a + 1] == s[a..a + |b|][1] == b[1]; }
    if IsInfinity(s, a) { assert s[a] == s[a..a + 8][0] == 'I'; }
  }

  /** Only where all letters of `Infinity` are digits does a numeral look like it. */
  lemma InfinityRadix(n: Numeral, radix: Radix)
    requires WellFormed(n, radix) && IsInfinity(Text(n), |n.sign|)
    ensures radix >= 35
  {
    if radix < 35 {
      var s, a := Text(n), |n.sign|;
      assert s[a + 7] == s[a..a + 8][7] == 'y';
      NoY(n, radix, 7);
    }
  }

  lemma NoYInDigits(s: string, radix: Radix)
    requires AllDigits(s, radix) && radix < 35
    ensures 'y' !in s
  {
  }

  lemma NoY(n: Numeral, radix: Radix, i: nat)
    requires WellFormed(n, radix) && radix < 35 && |n.sign| + i < |Text(n)|
    ensures Text(n)[|n.sign| + i] != 'y'
  {
    hide AllDigits;
    hide RadixBits;
    NoYInDigits(n.ip, radix);
    NoYInDigits(n.fp, radix);
    if n.exp.Exp? { NoYInDigits(n.exp.digits, 10); }
    assert 'y' !in n.sign && 'y' !in BodyText(n) && 'y' !in ExpText(n.exp);
  }

  lemma ExpChars(s: string, p: nat, x: Exponent)
    requires x.Exp? && p <= |s| && s[p..] == ExpText(x) && x.sign in {"", "+", "-"} && |x.digits| > 0
    ensures var q := p + 1 + |x.sign|;
            q < |s| && Ch(s, p) == x.mark && Ch(s, p + 1) == (if x.sign == "" then x.digits[0] else x.sign[0])
              && s[q..] == x.digits
  {
    var e := ExpText(x);
    var q := p + 1 + |x.sign|;
    assert e[0] == x.mark && e[1 + |x.sign|..] == x.digits;
    assert s[p] == s[p..][0] && s[p + 1] == s[p..][1];
    assert s[q..] == s[p..][1 + |x.sign|..];
    assert e[1] == if x.sign == "" then x.digits[0] else x.sign[0];
  }

  lemma ExpDigitsRead(s: string, h: How, q: nat, ed: string)
    requires AllDigits(ed, 10) && ed != "" && q < |s| && s[q..] == ed
    ensures Ch(s, q) == ed[0] && ToDigit(ed[0]) < 10
    ensures var r := ReadExpDigits(s, h, q + 1, ToDigit(ed[0]), false);
            r.0 == |s| && r.2 == Saturates(ed) && (if r.2 then r.1 > 0 else r.1 == DigitsValue(ed, 10))
  {
    assert s[q] == s[q..][0];
    assert s[q + 1..] == s[q..][1..] == ed[1..];
    assert ed[..1][..0] == "" && ed[..1][0] == ed[0];
    assert DigitsValue(ed[..1], 10) == ToDigit(ed[0]);
    assert ExpState(ed, 1, ToDigit(ed[0]), false);
    ReadExpReads(s, h, q + 1, ed, 1, ToDigit(ed[0]), false);
    assert ed[..|ed|] == ed;
  }

  /** The exponent part is read to its end. */
  lemma ExpIs(n: Numeral, radix: Radix, fl: Flags)
    requires WellFormed(n, radix) && (fl.intOnly ==> IsInteger(n))
    ensures var r := ReadExp(Text(n), TheHow(n, radix, fl), |n.sign| + |BodyText(n)|);
            r.Expn? && r.at == |Text(n)| && r.binary == IsBinary(n.exp)
            && r.overflow == (n.exp.Exp? && Saturates(n.exp.digits))
            && (!r.overflow ==> r.value == ExpValue(n.exp))
            && (r.overflow ==> (r.value < 0 <==> n.exp.sign == "-"))
  {
    hide Ch;
    hide RadixBits;
    hide Text;
    hide ReadExpDigits;
    hide Saturates;
    hide AllDigits;
    hide DigitsValue;
    var s, p := Text(n), |n.sign| + |BodyText(n)|;
    TextParts(n);
    FollowChar(n, radix);
    assert BodyText(n) != "" by { BodyFirst(n, radix); }
    hide BodyText;
    if n.exp.Exp? {
      ExpChars(s, p, n.exp);
      hide ExpText;
      ExpDigitsRead(s, TheHow(n, radix, fl), p + 1 + |n.exp.sign|, n.exp.digits);
    }
  }

  // ----- the conversion -----

  /** The digits after the leading zeros, as the conversion sees them. */
  lemma SignificantParts(n: Numeral, radix: Radix)
    requires WellFormed(n, radix)
    ensures var t := Significant(AllOf(n));
            AllDigits(t, radix) && DigitsValue(t, radix) == DigitsValue(AllOf(n), radix)
              && |t| == |AllOf(n)| - Zeros(AllOf(n))
            && (t != "" ==> ToDigit(t[0]) > 0)
  {
    AllDigitsBody(n, radix);
    SignificantValue(AllOf(n), radix);
  }

  lemma AllDigitsBody(n: Numeral, radix: Radix)
    requires WellFormed(n, radix)
    ensures AllDigits(AllOf(n), radix)
  {
  }

  /** The offset of the exponent that `js_atod` computes. */
  function OffsetOf(n: Numeral, radix: Radix): int {
    Zeros(AllOf(n)) + Kept(|Significant(AllOf(n))|, radix) - |n.ip|
  }

  lemma ZeroNumeral(d: nat)
    requires d > 0
    ensures RoundBits(0, d) == 0
  {
    TinyIsZero(0, d);
  }

  /** A fraction in other terms is rounded alike. */
  lemma RoundBitsRatio(x: nat, d: nat, x': nat, d': nat)
    requires d > 0 && d' > 0 && x * d' == x' * d
    ensures RoundBits(x, d) == RoundBits(x', d')
  {
    hide RoundBits;
    hide Nearest;
    RoundBitsNearest(x, d);
    RoundBitsNearest(x', d');
    NearestRatio(x, d, x', d', RoundBits(x, d));
    NearestUnique(x', d', RoundBits(x, d), RoundBits(x', d'));
  }

  /** Zeros at the end move into the exponent. */
  lemma RoundedShift(m: nat, radix: Radix, k: nat, e: int)
    ensures Rounded(m, radix, e + k) == Rounded(m * Pow(radix, k), radix, e)
  {
    hide Pow;
    hide UpPow;
    hide RoundBits;
    UpPowSum(radix, e, k);
    PlainUp(radix, k);
    var w := Pow(2, 1074);
    ShiftAlgebra(m, Pow(radix, k), UpPow(radix, e), UpPow(radix, -e), UpPow(radix, e + k), UpPow(radix, -(e + k)), w);
    RoundBitsRatio(m * UpPow(radix, e + k) * w, UpPow(radix, -(e + k)), m * Pow(radix, k) * UpPow(radix, e) * w,
      UpPow(radix, -e));
  }

  lemma ShiftAlgebra(m: nat, p: nat, u: nat, u': nat, v: nat, v': nat, w: nat)
    requires u * p * v' == v * u'
    ensures m * v * w * u' == m * p * u * w * v'
  {
    assert m * v * w * u' == m * w * (v * u');
    assert m * p * u * w * v' == m * w * (u * p * v');
  }

  lemma KeptRange(t: string, radix: Radix)
    requires AllDigits(t, radix) && t != "" && ToDigit(t[0]) > 0
    ensures var acc := KeptAcc(t, radix);
            acc.count > 0 && Pow(radix, acc.count - 1) <= acc.mant < Pow(radix, acc.count) && acc.mant > 0
  {
    var c := Kept(|t|, radix);
    DigitsAbove(t[..c], radix);
    DigitsBelow(t[..c], radix);
  }

  lemma KeptTimes(t: string, radix: Radix)
    requires AllDigits(t, radix) && !KeptAcc(t, radix).extra
    ensures var acc := KeptAcc(t, radix);
            acc.count <= |t| && DigitsValue(t, radix) == acc.mant * Pow(radix, |t| - acc.count)
  {
    hide DigitsValue;
    hide Pow;
    var c := Kept(|t|, radix);
    assert t == t[..c] + t[c..];
    DigitsConcat(t[..c], t[c..], radix);
  }

  lemma TableCorrect(n: Numeral, radix: Radix)
    requires WellFormed(n, radix) && RadixBits(radix) == 0 && 0 < |Significant(AllOf(n))| && Exact(n, radix)
    requires !GivenUp(n) && Short(n, radix)
    ensures ConvertTable(KeptAcc(Significant(AllOf(n)), radix), radix, ExpValue(n.exp), OffsetOf(n, radix))
              == RoundBits(ValueNum(n, radix), ValueDen(n, radix))
       <==> ExponentFits(n, radix)
  {
    hide Pow;
    hide UpPow;
    hide RoundBits;
    hide ConvertTable;
    hide KeptAcc;
    hide DigitsValue;
    hide AllDigits;
    hide AtodDigits;
    var t := Significant(AllOf(n));
    var acc := KeptAcc(t, radix);
    SignificantParts(n, radix);
    KeptCount(t, radix);
    KeptRange(t, radix);
    KeptTimes(t, radix);
    ConvertTableExactly(radix, acc, ExpValue(n.exp), OffsetOf(n, radix));
    RoundedShift(acc.mant, radix, |t| - acc.count, LastExp(n, radix));
  }

  /** `x - offset` in bits is the exponent of the last kept digit. */
  lemma BinExponents(n: Numeral, radix: Radix, x: int)
    requires WellFormed(n, radix) && RadixBits(radix) != 0 && x == ExpValue(n.exp)
    ensures var b := RadixBits(radix); var t := |Significant(AllOf(n))|; var c := Kept(t, radix);
            (if IsBinary(n.exp) then x else x * b) - OffsetOf(n, radix) * b == LastExp(n, radix) + (t - c) * b
            && LastExp(n, radix) + (t - c) * b + c * b == LastExp(n, radix) + t * b
  {
    hide RadixBits;
    hide AtodDigits;
    hide DigitsValue;
    var b, z, t := RadixBits(radix), Zeros(AllOf(n)), |Significant(AllOf(n))|;
    var c := Kept(t, radix);
    assert z + t == |n.ip| + |n.fp|;
    KeptBitsSum(|n.fp|, t, c, b);
  }

  lemma KeptBitsSum(f: nat, t: nat, c: nat, b: nat)
    ensures (f - (t - c)) * b == f * b - (t - c) * b && (t - c) * b + c * b == t * b
  {
  }

  lemma BinWrapped(n: Numeral, radix: Radix)
    requires WellFormed(n, radix) && RadixBits(radix) != 0 && 0 < |Significant(AllOf(n))| && Short(n, radix)
    ensures ConvertBin(KeptAcc(Significant(AllOf(n)), radix), RadixBits(radix), ExpValue(n.exp), IsBinary(n.exp),
      OffsetOf(n, radix))
         == Rounded(DigitsValue(Significant(AllOf(n)), radix), 2, WrappedLast(n, radix))
  {
    hide WellFormed;
    hide Significant;
    hide AllOf;
    hide OffsetOf;
    hide Rounded;
    hide Kept;
    hide Pow;
    hide UpPow;
    hide RoundBits;
    hide ConvertBin;
    hide KeptAcc;
    hide DigitsValue;
    hide AllDigits;
    hide Wrap32;
    var t, b, x := Significant(AllOf(n)), RadixBits(radix), ExpValue(n.exp);
    SignificantParts(n, radix);
    KeptCount(t, radix);
    BinExponents(n, radix, x);
    MulMono(|t|, |AllOf(n)|, b);
    ConvertBinNearest(t, radix, x, IsBinary(n.exp), OffsetOf(n, radix), Wrap32(FirstEnd(n, radix)));
  }

  /** Out of the range of an int the value rounds to infinity or to zero. */
  lemma BinFar(n: Numeral, radix: Radix)
    requires WellFormed(n, radix) && RadixBits(radix) != 0 && 0 < |Significant(AllOf(n))|
    ensures FirstEnd(n, radix) >= INT32_LIMIT ==> RoundBits(ValueNum(n, radix), ValueDen(n, radix)) == INFINITY
    ensures FirstEnd(n, radix) < -INT32_LIMIT ==> RoundBits(ValueNum(n, radix), ValueDen(n, radix)) == 0
  {
    hide Pow;
    hide UpPow;
    hide RoundBits;
    hide DigitsValue;
    hide AllDigits;
    var t, b := Significant(AllOf(n)), RadixBits(radix);
    SignificantParts(n, radix);
    PowersOfTwo(radix);
    BinDigitsRange(t, radix);
    BinLimits(DigitsValue(t, radix), |t| * b, b, LastExp(n, radix));
  }

  /** What a wrapped exponent gives is right exactly when it is on the same side. */
  lemma WrappedSide(n: Numeral, radix: Radix)
    requires RadixBits(radix) != 0
    ensures var r := Rounded(DigitsValue(Significant(AllOf(n)), radix), 2, WrappedLast(n, radix));
            SameSide(n, radix) <==> r == if FirstEnd(n, radix) < 0 then 0 else INFINITY
  {
    hide Pow;
    hide UpPow;
    hide RoundBits;
    hide TwiceTop;
    hide DigitsValue;
    hide WrappedLast;
    hide FirstEnd;
    var y := WrappedLast(n, radix);
    var x, d := Times(Times(DigitsValue(Significant(AllOf(n)), radix), UpPow(2, y)), Pow(2, 1074)), UpPow(2, -y);
    assert d > 0 by { SmallUpPow(-y); }
    RoundsToInfinity(x, d);
    RoundsToZero(x, d);
  }

  lemma BinCorrect(n: Numeral, radix: Radix)
    requires WellFormed(n, radix) && RadixBits(radix) != 0 && 0 < |Significant(AllOf(n))| && Short(n, radix)
    requires !GivenUp(n)
    ensures ConvertBin(KeptAcc(Significant(AllOf(n)), radix), RadixBits(radix), ExpValue(n.exp), IsBinary(n.exp),
      OffsetOf(n, radix))
         == RoundBits(ValueNum(n, radix), ValueDen(n, radix))
       <==> ExponentFits(n, radix) || SameSide(n, radix)
  {
    hide Pow;
    hide UpPow;
    hide RoundBits;
    hide ConvertBin;
    hide KeptAcc;
    hide DigitsValue;
    hide AllDigits;
    hide Wrap32;
    hide SameSide;
    SignificantParts(n, radix);
    BinWrapped(n, radix);
    WrappedSide(n, radix);
    BinFar(n, radix);
    WrapSums(FirstEnd(n, radix), 0);
  }

  // ----- exponents that are given up -----

  lemma TableSaturated(n: Numeral, radix: Radix)
    requires WellFormed(n, radix) && RadixBits(radix) == 0 && 0 < |Significant(AllOf(n))|
    requires GivenUp(n) && Short(n, radix)
    ensures RoundBits(ValueNum(n, radix), ValueDen(n, radix)) == if ExpValue(n.exp) < 0 then 0 else INFINITY
  {
    hide Pow;
    hide UpPow;
    hide RoundBits;
    hide DigitsValue;
    hide AllDigits;
    hide MaxExponent;
    hide MinExponent;
    var t := Significant(AllOf(n));
    SignificantParts(n, radix);
    DigitsAbove(t, radix);
    DigitsBelow(t, radix);
    TableLimits(radix, DigitsValue(t, radix), |t|, LastExp(n, radix));
  }

  /** An exponent that is given up is out of range whatever the digits are. */
  lemma FarExponent(x: int, f: nat, t: nat, all: nat, b: nat, last: int)
    requires Abs(x) >= 2_147_483_630 && all * b <= 1_000_000_000 && t <= all && f <= all && 1 <= b <= 5
    requires last == x - f * b || last == x * b - f * b
    ensures if x < 0 then last + t * b <= -1075 else last + t * b >= 1024 + b
  {
    MulMono(t, all, b);
    MulMono(f, all, b);
    SignTimes(x, b);
  }

  lemma BinSaturated(n: Numeral, radix: Radix)
    requires WellFormed(n, radix) && RadixBits(radix) != 0 && 0 < |Significant(AllOf(n))|
    requires GivenUp(n) && Short(n, radix)
    ensures RoundBits(ValueNum(n, radix), ValueDen(n, radix)) == if ExpValue(n.exp) < 0 then 0 else INFINITY
  {
    hide Pow;
    hide UpPow;
    hide RoundBits;
    hide DigitsValue;
    hide AllDigits;
    hide RadixBits;
    hide WellFormed;
    hide Zeros;
    PowersOfTwo(radix);
    var t, b := Significant(AllOf(n)), RadixBits(radix);
    SignificantParts(n, radix);
    BinDigitsRange(t, radix);
    BinLimits(DigitsValue(t, radix), |t| * b, b, LastExp(n, radix));
    FarExponent(ExpValue(n.exp), |n.fp|, |t|, |AllOf(n)|, b, LastExp(n, radix));
  }

  lemma SignTimes(x: int, b: nat)
    requires b >= 1
    ensures if x < 0 then x * b <= x else x <= x * b
  {
    if x < 0 { MulMonoInt(x, 0, b - 1); } else { MulMonoInt(0, x, b - 1); }
    assert x * b == x * (b - 1) + x;
  }

  // ----- digits that are dropped -----

  lemma KeptAll(n: Numeral, radix: Radix)
    requires RadixBits(radix) == 0
    ensures var k := KeptNumeral(n, radix);
            AllOf(k) == ZerosFrom(AllOf(n), Zeros(AllOf(n)) + AtodDigits(radix))
            && Zeros(AllOf(k)) == Zeros(AllOf(n))
            && Significant(AllOf(k)) == ZerosFrom(Significant(AllOf(n)), AtodDigits(radix))
  {
    hide AtodDigits;
    hide RadixBits;
    hide ZerosFrom;
    hide Zeros;
    var s, k := AllOf(n), Zeros(AllOf(n));
    ZerosFromParts(n.ip, n.fp, k + AtodDigits(radix));
    var t := ZerosFrom(s, k + AtodDigits(radix));
    assert AllOf(KeptNumeral(n, radix)) == t;
    KeptZeros(s, k, AtodDigits(radix));
  }

  lemma ZerosFromParts(a: string, b: string, c: int)
    ensures ZerosFrom(a, c) + ZerosFrom(b, c - |a|) == ZerosFrom(a + b, c)
  {
  }

  lemma KeptZeros(s: string, k: nat, m: nat)
    requires k == Zeros(s) && m > 0
    ensures var t := ZerosFrom(s, k + m); Zeros(t) == k && t[k..] == ZerosFrom(s[k..], m)
  {
    var t := ZerosFrom(s, k + m);
    assert t[k..] == ZerosFrom(s[k..], m);
    ZerosAre(t, k);
  }

  lemma {:induction false} ZerosAre(s: string, k: nat)
    requires k <= |s| && (forall i :: 0 <= i < k ==> s[i] == '0') && (k < |s| ==> s[k] != '0')
    ensures Zeros(s) == k
  {
    if k > 0 {
      assert s[0] == '0';
      ZerosAre(s[1..], k - 1);
    }
  }

  /** The digits that are kept are those of the numeral as it is read. */
  lemma KeptSame(t: string, radix: Radix)
    ensures var u := ZerosFrom(t, AtodDigits(radix));
            KeptAcc(u, radix).mant == KeptAcc(t, radix).mant && KeptAcc(u, radix).count == KeptAcc(t, radix).count
            && !KeptAcc(u, radix).extra
  {
    hide AtodDigits;
    hide DigitsValue;
    var u, c := ZerosFrom(t, AtodDigits(radix)), Kept(|t|, radix);
    assert u[..c] == t[..c];
    ZerosValue(u[c..], radix);
  }

  lemma KeptMagnitude(n: Numeral, radix: Radix, h: How, sc: Scan, x: Expn)
    requires x.Expn? && h.radix == radix
    ensures var k := KeptNumeral(n, radix);
            Magnitude(h, sc, KeptAcc(Significant(AllOf(n)), radix), Zeros(AllOf(n)), x)
            == Magnitude(h, sc, KeptAcc(Significant(AllOf(k)), radix), Zeros(AllOf(k)), x)
  {
    hide KeptNumeral;
    hide KeptAcc;
    hide ConvertBin;
    hide RadixScaled;
    hide RoundToD;
    hide PackBits;
    hide Wrap32;
    hide MaxExponent;
    hide MinExponent;
    hide AllOf;
    hide Zeros;
    hide Significant;
    hide RadixBits;
    if RadixBits(radix) == 0 {
      KeptAll(n, radix);
      KeptSame(Significant(AllOf(n)), radix);
    } else {
      KeptWhole(n, radix);
    }
  }

  lemma KeptWhole(n: Numeral, radix: Radix)
    requires RadixBits(radix) != 0
    ensures KeptNumeral(n, radix) == n
  {
  }

  /** Where nothing but zeros is dropped, the numeral is read as it is. */
  lemma ExactKept(n: Numeral, radix: Radix)
    requires WellFormed(n, radix) && Exact(n, radix)
    ensures KeptNumeral(n, radix) == n
  {
    hide RadixBits;
    hide AtodDigits;
    hide Zeros;
    hide WellFormed;
    hide Exact;
    hide AllOf;
    if RadixBits(radix) == 0 {
      var c := Zeros(AllOf(n)) + AtodDigits(radix);
      ZerosDropped(n, radix);
      AllSplit(n);
      assert ZerosFrom(n.ip, c) == n.ip;
      assert ZerosFrom(n.fp, c - |n.ip|) == n.fp;
    }
  }

  lemma AllSplit(n: Numeral)
    ensures forall i :: 0 <= i < |n.ip| ==> AllOf(n)[i] == n.ip[i]
    ensures forall i :: 0 <= i < |n.fp| ==> AllOf(n)[i + |n.ip|] == n.fp[i]
    ensures |AllOf(n)| == |n.ip| + |n.fp|
  {
  }

  lemma ZerosDropped(n: Numeral, radix: Radix)
    requires WellFormed(n, radix) && Exact(n, radix) && RadixBits(radix) == 0
    ensures forall i :: Zeros(AllOf(n)) + AtodDigits(radix) <= i < |AllOf(n)| ==> AllOf(n)[i] == '0'
  {
    hide RadixBits;
    hide AtodDigits;
    hide AllOf;
    hide AllDigits;
    hide DigitsValue;
    var s, z := AllOf(n), Zeros(AllOf(n));
    var t := s[z..];
    var c := Kept(|t|, radix);
    AllDigitsBody(n, radix);
    DigitsFrom(s, z + c, radix);
    assert t[c..] == s[z + c..];
    OnlyZeros(t[c..], radix);
    forall i | z + AtodDigits(radix) <= i < |s| ensures s[i] == '0' {
      assert s[i] == t[c..][i - z - c];
    }
  }

  lemma DigitsFrom(s: string, k: nat, radix: Radix)
    requires AllDigits(s, radix) && k <= |s|
    ensures AllDigits(s[k..], radix)
  {
  }

  lemma NothingAdded(v: nat, radix: Radix, d: nat)
    requires v * radix + d == 0
    ensures v == 0 && d == 0
  {
    if v > 0 { MulMono(1, v, radix); }
  }

  lemma ZeroDigit(c: char)
    requires ToDigit(c) == 0
    ensures c == '0'
  {
  }

  lemma {:induction false} OnlyZeros(s: string, radix: Radix)
    requires AllDigits(s, radix) && DigitsValue(s, radix) == 0
    ensures forall i :: 0 <= i < |s| ==> s[i] == '0'
    decreases |s|
  {
    hide ToDigit;
    if s != "" {
      var u, last := s[..|s| - 1], s[|s| - 1];
      NothingAdded(DigitsValue(u, radix), radix, ToDigit(last));
      ZeroDigit(last);
      OnlyZeros(u, radix);
      forall i | 0 <= i < |s| ensures s[i] == '0' {
        if i < |u| { assert s[i] == u[i]; }
      }
    }
  }

  /** The numeral as it is read has the form and the exponents of the one that is written. */
  lemma KeptForm(n: Numeral, radix: Radix)
    requires WellFormed(n, radix)
    ensures var k := KeptNumeral(n, radix);
            WellFormed(k, radix) && Exact(k, radix) && |AllOf(k)| == |AllOf(n)| && Zeros(AllOf(k)) == Zeros(AllOf(n))
            && |k.ip| == |n.ip| && |k.fp| == |n.fp| && k.exp == n.exp
  {
    hide RadixBits;
    hide AtodDigits;
    hide KeptAcc;
    hide MarkFits;
    if RadixBits(radix) == 0 {
      KeptAll(n, radix);
      KeptSame(Significant(AllOf(n)), radix);
      assert ToDigit('0') == 0;
    }
  }

  lemma KeptConditions(n: Numeral, radix: Radix)
    requires WellFormed(n, radix)
    ensures var k := KeptNumeral(n, radix);
            (Significant(AllOf(k)) == "" || ExponentFits(k, radix) || SameSide(k, radix)
             <==> Significant(AllOf(n)) == "" || ExponentFits(n, radix) || SameSide(n, radix))
            && (Short(k, radix) <==> Short(n, radix))
  {
    hide RadixBits;
    hide KeptNumeral;
    hide WellFormed;
    hide Zeros;
    hide AllOf;
    hide Unit;
    KeptForm(n, radix);
    if RadixBits(radix) != 0 { KeptWhole(n, radix); }
  }

  // ----- the theorem -----

  lemma MagnitudeCorrect(n: Numeral, radix: Radix, h: How, sc: Scan, x: Expn)
    requires WellFormed(n, radix) && Exact(n, radix) && Short(n, radix) && h.radix == radix
    requires x.Expn? && x.binary == IsBinary(n.exp) && x.overflow == (n.exp.Exp? && Saturates(n.exp.digits))
    requires (!x.overflow ==> x.value == ExpValue(n.exp)) && (x.overflow ==> (x.value < 0 <==> n.exp.sign == "-"))
    requires (if sc.dot < 0 then sc.pos else sc.dot) == |n.ip|
    ensures var m := Magnitude(h, sc, KeptAcc(Significant(AllOf(n)), radix), Zeros(AllOf(n)), x);
            m == RoundBits(ValueNum(n, radix), ValueDen(n, radix))
            <==> Significant(AllOf(n)) == "" || ExponentFits(n, radix) || SameSide(n, radix)
  {
    hide Pow;
    hide UpPow;
    hide RoundBits;
    hide ConvertTable;
    hide ConvertBin;
    hide RadixBits;
    hide SameSide;
    hide KeptAcc;
    hide DigitsValue;
    hide Saturates;
    hide LastExp;
    var t := Significant(AllOf(n));
    SignificantParts(n, radix);
    KeptCount(t, radix);
    if t == "" {
      NothingIsZero(n, radix);
    } else if x.overflow {
      SaturatedValue(n);
      if RadixBits(radix) == 0 { TableSaturated(n, radix); } else { BinSaturated(n, radix); }
    } else {
      NotSaturated(n);
      if RadixBits(radix) == 0 { TableCorrect(n, radix); NoSide(n, radix); } else { BinCorrect(n, radix); }
    }
  }

  lemma NoSide(n: Numeral, radix: Radix)
    requires RadixBits(radix) == 0
    ensures !SameSide(n, radix)
  {
  }

  lemma NothingIsZero(n: Numeral, radix: Radix)
    requires DigitsValue(AllOf(n), radix) == DigitsValue("", radix)
    ensures RoundBits(ValueNum(n, radix), ValueDen(n, radix)) == 0
  {
    hide RoundBits;
    hide LastExp;
    hide Pow;
    ZeroNumeral(ValueDen(n, radix));
  }

  lemma SaturatedValue(n: Numeral)
    requires n.exp.Exp? && n.exp.digits != "" && AllDigits(n.exp.digits, 10) && Saturates(n.exp.digits)
    ensures Abs(ExpValue(n.exp)) >= 10 * (EXPN_GUARD + 1) && (ExpValue(n.exp) < 0 <==> n.exp.sign == "-")
  {
    SaturatesWhen(n.exp.digits);
  }

  lemma NotSaturated(n: Numeral)
    requires n.exp.Exp? ==> n.exp.digits != "" && AllDigits(n.exp.digits, 10) && !Saturates(n.exp.digits)
    ensures Abs(ExpValue(n.exp)) < 10 * (EXPN_GUARD + 1)
  {
    if n.exp.Exp? { SaturatesWhen(n.exp.digits); }
  }

  /** `js_atod` reads the whole text of a numeral, and rounds it, with zeros for the digits
      that are dropped, correctly exactly when the exponent of its first significant digit
      fits an int, or wraps around to the same side. With integers only, this is for numerals
      without a dot and an exponent. A numeral that looks like `Infinity` is infinite, where
      that is allowed. */
  lemma AtodNumeral(n: Numeral, radix: Radix, fl: Flags)
    requires WellFormed(n, radix) && Short(n, radix) && (fl.intOnly ==> IsInteger(n))
    ensures var r, k := Atod(Text(n), radix, fl), KeptNumeral(n, radix);
            if LooksInfinite(n, fl) then r == Result(Bits(n.sign == "-", INFINITY), |n.sign| + 8)
            else
              r.next == |Text(n)| && r.value.Bits? && r.value.negative == (n.sign == "-")
              && (r.value.magnitude == RoundBits(ValueNum(k, radix), ValueDen(k, radix))
                  <==> Significant(AllOf(n)) == "" || ExponentFits(n, radix) || SameSide(n, radix))
  {
    hide Text;
    hide ReadPrefix;
    hide SkipZeros;
    hide ReadDigits;
    hide ReadExp;
    hide Magnitude;
    hide RoundBits;
    hide Start;
    hide ExponentFits;
    hide SameSide;
    hide WellFormed;
    hide KeptAcc;
    hide Reads;
    hide ValueNum;
    hide ValueDen;
    hide BodyText;
    hide LooksInfinite;
    var s, h := Text(n), TheHow(n, radix, fl);
    StartIs(n, radix);
    PrefixIs(n, radix, fl);
    if !LooksInfinite(n, fl) {
      TextReads(n, radix, fl);
      var first := Scan(|n.sign|, 0, -1);
      SkipZerosReads(s, h, n, first);
      var z := SkipZeros(s, h, first);
      assert AllOf(n)[0..] == AllOf(n);
      ReadDigitsReads(s, h, n, z, Acc(0, 0, false));
      var d := ReadDigits(s, h, z, Acc(0, 0, false));
      TakesAll(Significant(AllOf(n)), radix);
      ExpIs(n, radix, fl);
      NotEmpty(n, radix);
      DotFound(n, radix, d.0);
      KeptForm(n, radix);
      KeptConditions(n, radix);
      KeptMagnitude(n, radix, h, d.0, ReadExp(s, h, d.0.p));
      MagnitudeCorrect(KeptNumeral(n, radix), radix, h, d.0, ReadExp(s, h, d.0.p));
    }
  }

  lemma NotEmpty(n: Numeral, radix: Radix)
    requires WellFormed(n, radix)
    ensures |Text(n)| > |n.sign|
  {
    BodyFirst(n, radix);
  }

  lemma DotFound(n: Numeral, radix: Radix, sc: Scan)
    requires WellFormed(n, radix) && Inside(n, |n.sign|, sc) && sc.pos == |AllOf(n)|
    ensures (if sc.dot < 0 then sc.pos else sc.dot) == |n.ip|
  {
  }

  /** `js_atod` returns the nearest binary64 number, ties to even, exactly under that
      condition. */
  lemma AtodNearest(n: Numeral, radix: Radix, fl: Flags)
    requires WellFormed(n, radix) && Short(n, radix) && (fl.intOnly ==> IsInteger(n))
    ensures var r, k := Atod(Text(n), radix, fl), KeptNumeral(n, radix);
            r.value.Bits? && r.value.negative == (n.sign == "-")
            && (!LooksInfinite(n, fl) ==>
                (Nearest(ValueNum(k, radix), ValueDen(k, radix), r.value.magnitude)
                 <==> Significant(AllOf(n)) == "" || ExponentFits(n, radix) || SameSide(n, radix)))
  {
    hide Nearest;
    hide RoundBits;
    hide ValueNum;
    hide ValueDen;
    hide WellFormed;
    hide ExponentFits;
    hide SameSide;
    hide Atod;
    hide LooksInfinite;
    hide KeptNumeral;
    AtodNumeral(n, radix, fl);
    var k := KeptNumeral(n, radix);
    RoundBitsNearest(ValueNum(k, radix), ValueDen(k, radix));
    var m := Atod(Text(n), radix, fl).value.magnitude;
    if Nearest(ValueNum(k, radix), ValueDen(k, radix), m) {
      NearestUnique(ValueNum(k, radix), ValueDen(k, radix), m, RoundBits(ValueNum(k, radix), ValueDen(k, radix)));
    }
  }

  /** In radix 10, numerals of up to 38 significant digits are rounded correctly as they stand,
      under the same condition on the exponent. */
  lemma DecimalNearest(n: Numeral, fl: Flags)
    requires WellFormed(n, 10) && Short(n, 10) && (fl.intOnly ==> IsInteger(n))
    requires |Significant(AllOf(n))| <= 38
    requires Significant(AllOf(n)) == "" || ExponentFits(n, 10)
    ensures var r := Atod(Text(n), 10, fl);
            r.next == |Text(n)| && r.value.Bits? && r.value.negative == (n.sign == "-")
            && Nearest(ValueNum(n, 10), ValueDen(n, 10), r.value.magnitude)
  {
    hide Nearest;
    hide RoundBits;
    hide ValueNum;
    hide ValueDen;
    hide WellFormed;
    hide ExponentFits;
    hide SameSide;
    hide Atod;
    hide KeptNumeral;
    FewDigitsExact(n, 10);
    ExactKept(n, 10);
    NotInfinite(n, 10);
    AtodNumeral(n, 10, fl);
    AtodNearest(n, 10, fl);
  }

  /** A numeral without a dot and an exponent is always rounded correctly, in both modes and
      in every radix, unless it looks like `Infinity`. */
  lemma AtodInteger(n: Numeral, radix: Radix, fl: Flags)
    requires WellFormed(n, radix) && Short(n, radix) && IsInteger(n) && !LooksInfinite(n, fl)
    ensures var k := KeptNumeral(n, radix);
            var m := RoundBits(ValueNum(k, radix), ValueDen(k, radix));
            Nearest(ValueNum(k, radix), ValueDen(k, radix), m)
            && Atod(Text(n), radix, fl) == Result(Bits(n.sign == "-", m), |Text(n)|)
  {
    hide Nearest;
    hide RoundBits;
    hide ValueNum;
    hide ValueDen;
    hide WellFormed;
    hide ExponentFits;
    hide SameSide;
    hide Atod;
    hide LooksInfinite;
    hide KeptNumeral;
    AtodNumeral(n, radix, fl);
    var k := KeptNumeral(n, radix);
    RoundBitsNearest(ValueNum(k, radix), ValueDen(k, radix));
    IntegerFits(n, radix);
  }

  lemma IntegerFits(n: Numeral, radix: Radix)
    requires IsInteger(n) && WellFormed(n, radix) && Short(n, radix)
    ensures ExponentFits(n, radix)
  {
    var b, t, all := RadixBits(radix), |Significant(AllOf(n))|, |AllOf(n)|;
    if b != 0 {
      MulMono(t, all, b);
      assert LastExp(n, radix) == 0;
    }
  }

  // ----- inputs that fail -----

  /** `12345678901e2147483639`: the exponent is below the guard, the exponent of the first
      digit is not an int, and infinity is taken for zero. */
  lemma HugeExponentFails(fl: Flags)
    requires !fl.intOnly
    ensures var n := Numeral("", "12345678901", false, "", Exp('e', "", "2147483639"));
            Nearest(ValueNum(n, 10), ValueDen(n, 10), INFINITY) && Atod(Text(n), 10, fl).value != Bits(false, INFINITY)
  {
    hide Text;
    hide Significant;
    hide DigitsValue;
    hide Times;
    hide RadixBits;
    hide Nearest;
    hide RoundBits;
    hide Atod;
    hide Pow;
    hide UpPow;
    var n := Numeral("", "12345678901", false, "", Exp('e', "", "2147483639"));
    assert AllOf(n) == "12345678901";
    assert n.fp == "" && AllDigits(n.fp, 10);
    PowersOfTwo(10);
    HugeExponentValue();
    HugeIsExact(n);
    FewDigitsExact(n, 10);
    NotInfinite(n, 10);
    ExactKept(n, 10);
    AtodNumeral(n, 10, fl);
    var t := Significant(AllOf(n));
    SignificantParts(n, 10);
    DigitsAbove(t, 10);
    DigitsBelow(t, 10);
    TableLimits(10, DigitsValue(t, 10), |t|, LastExp(n, 10));
    RoundBitsNearest(ValueNum(n, 10), ValueDen(n, 10));
  }

  lemma NotInfinite(n: Numeral, radix: Radix)
    requires WellFormed(n, radix) && radix < 35
    ensures !IsInfinity(Text(n), |n.sign|)
  {
    if IsInfinity(Text(n), |n.sign|) { InfinityRadix(n, radix); }
  }

  /** `1@2147483639` in radix 16: the exponent in bits wraps around to -32. */
  lemma HexExponentFails(fl: Flags)
    requires !fl.intOnly
    ensures var n := Numeral("", "1", false, "", Exp('@', "", "2147483639"));
            Nearest(ValueNum(n, 16), ValueDen(n, 16), INFINITY) && Atod(Text(n), 16, fl).value != Bits(false, INFINITY)
  {
    hide Nearest;
    hide RoundBits;
    hide Atod;
    hide Pow;
    hide UpPow;
    hide SameSide;
    hide DigitsValue;
    var n := Numeral("", "1", false, "", Exp('@', "", "2147483639"));
    SixteenBits();
    HexParts(n);
    HugeExponentValue();
    NotInfinite(n, 16);
    ExactKept(n, 16);
    AtodNumeral(n, 16, fl);
    assert FirstEnd(n, 16) == 8589934560;
    BinFar(n, 16);
    HexWrapped(n);
    RoundBitsNearest(ValueNum(n, 16), ValueDen(n, 16));
  }

  lemma SixteenBits()
    ensures RadixBits(16) == 4
  {
  }

  /** At the wrapped exponent the digit 1 stands for 2^-36. */
  lemma HexWrapped(n: Numeral)
    requires RadixBits(16) == 4 && FirstEnd(n, 16) == 8589934560 && Significant(AllOf(n)) == "1"
    requires LastExp(n, 16) == FirstEnd(n, 16) - 4
    ensures !SameSide(n, 16)
  {
    hide Pow;
    hide UpPow;
    assert WrappedLast(n, 16) == -36;
    assert DigitsValue("1", 16) == 1;
    assert UpPow(2, -36) == 1 && UpPow(2, 36) == Pow(2, 36) by { PlainUp(2, 36); }
    PowMono(2, 1074, 2045);
    PowMono(2, 0, 36);
    PowZero(2);
    MulMono(1, Pow(2, 36), TwiceTop());
    MulStrict(1, 2 * P53 - 1, Pow(2, 2045));
  }

  lemma HexParts(n: Numeral)
    requires n == Numeral("", "1", false, "", Exp('@', "", "2147483639"))
    ensures AllOf(n) == "1" && Zeros(AllOf(n)) == 0 && Significant(AllOf(n)) == "1" && AllDigits("1", 16)
      && AllDigits(n.fp, 16)
  {
    assert AllOf(n) == "1";
  }

  /** `Infinity` in radix 36 is a number, and is taken for infinity all the same. */
  lemma InfinityFails(fl: Flags)
    requires !fl.intOnly
    ensures var n := Numeral("", "Infinity", false, "", NoExp);
            WellFormed(n, 36) && !Nearest(ValueNum(n, 36), ValueDen(n, 36), INFINITY)
            && Atod(Text(n), 36, fl).value == Bits(false, INFINITY)
  {
    hide Nearest;
    hide RoundBits;
    hide Atod;
    hide Pow;
    hide UpPow;
    hide DigitsValue;
    var n := Numeral("", "Infinity", false, "", NoExp);
    InfinityText(n);
    hide Zeros;
    hide AllDigits;
    hide WellFormed;
    hide Text;
    hide IsInfinity;
    FewDigitsExact(n, 36);
    ExactKept(n, 36);
    AtodNumeral(n, 36, fl);
    DigitsBelow("Infinity", 36);
    EightDigits();
    PlainUp(36, 0);
    PowZero(36);
    PowersOfTwo(36);
    InfinityValue(DigitsValue("Infinity", 36));
    var x := DigitsValue("Infinity", 36) * 1 * Pow(2, 1074);
    assert ValueNum(n, 36) == x && ValueDen(n, 36) == 1;
    RoundBitsNearest(x, 1);
    if Nearest(x, 1, INFINITY) { NearestUnique(x, 1, INFINITY, RoundBits(x, 1)); }
  }

  lemma InfinityText(n: Numeral)
    requires n == Numeral("", "Infinity", false, "", NoExp)
    ensures AllOf(n) == "Infinity" && Text(n) == "Infinity" && AllDigits("Infinity", 36) && Zeros("Infinity") == 0
    ensures WellFormed(n, 36) && IsInfinity(Text(n), 0)
  {
    assert Text(n)[0..8] == "Infinity";
  }

  lemma EightDigits()
    ensures Pow(36, 8) == 2821109907456
  {
    assert Pow(36, 2) == 1296;
    PowAdd(36, 2, 2);
    PowAdd(36, 4, 4);
  }

  lemma InfinityValue(v: nat)
    requires v < 2821109907456
    ensures RoundBits(v * 1 * Pow(2, 1074), 1) != INFINITY
  {
    hide Pow;
    hide RoundBits;
    PowMono(2, 1074, 2045);
    PowZero(2);
    PowMono(2, 0, 1074);
    MulStrict(2 * v, 2 * P53 - 1, Pow(2, 1074));
    MulMono(Pow(2, 1074), Pow(2, 2045), 2 * P53 - 1);
    RoundsToInfinity(v * 1 * Pow(2, 1074), 1);
  }

  lemma HugeIsExact(n: Numeral)
    requires AllOf(n) == "12345678901"
    ensures Zeros(AllOf(n)) == 0 && Significant(AllOf(n)) == AllOf(n)
  {
  }

  lemma HugeExponentValue()
    ensures AllDigits("2147483639", 10) && DigitsValue("2147483639", 10) == 2147483639
  {
    hide DigitsValue;
    EmptyValue();
    DigitsAppend("", '2', 10);
    assert "" + ['2'] == "2";
    DigitsAppend("2", '1', 10);
    assert "2" + ['1'] == "21";
    DigitsAppend("21", '4', 10);
    assert "21" + ['4'] == "214";
    DigitsAppend("214", '7', 10);
    assert "214" + ['7'] == "2147";
    DigitsAppend("2147", '4', 10);
    assert "2147" + ['4'] == "21474";
    DigitsAppend("21474", '8', 10);
    assert "21474" + ['8'] == "214748";
    DigitsAppend("214748", '3', 10);
    assert "214748" + ['3'] == "2147483";
    DigitsAppend("2147483", '6', 10);
    assert "2147483" + ['6'] == "21474836";
    DigitsAppend("21474836", '3', 10);
    assert "21474836" + ['3'] == "214748363";
    DigitsAppend("214748363", '9', 10);
    assert "214748363" + ['9'] == "2147483639";
  }

  lemma EmptyValue()
    ensures DigitsValue("", 10) == 0
  {
  }
}