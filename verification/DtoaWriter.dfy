/** `js_dtoa` in its own form, for the free format. */
module DtoaWriter {
  import opened DtoaArith
  import opened DtoaRound
  import opened DtoaDouble
  import opened DtoaLog
  import opened DtoaScale
  import opened DtoaTables
  import opened DtoaShortest
  import opened DtoaPrint
  import opened DtoaLimbs
  import opened DtoaBig
  import opened DtoaConvert
  import opened DtoaReader

  const TEN9: nat := 1000000000

  lemma Ten9Is()
    ensures Pow(10, 9) == TEN9 && Pow(10, 0) == 1
  {
    assert Pow(10, 1) == 10 && Pow(10, 2) == 100 && Pow(10, 4) == 10000;
    PowAdd(10, 4, 4);
    PowAdd(10, 8, 1);
  }

  // ----- digits -----

  /** The low digits of a number are those of its remainder. */
  /** Dropping the lowest digit of what a power leaves. */
  lemma LowStep(n: nat, b: nat, k: nat)
    requires b > 0 && k > 0
    ensures n % Pow(b, k) / b == n / b % Pow(b, k - 1) && n % Pow(b, k) % b == n % b
  {
    DivChain(n, b, Pow(b, k - 1));
    DivIs(n % Pow(b, k), b, n / b % Pow(b, k - 1), n % b);
  }

  lemma {:induction false} LowDigits(radix: Radix, n: nat, len: nat, k: nat)
    requires len <= k
    ensures Pow(radix, k) > 0 && DigitChars(radix, n % Pow(radix, k), len) == DigitChars(radix, n, len)
    decreases len
  {
    hide Pow;
    hide DigitChar;
    hide DigitChars;
    var low := n % Pow(radix, k);
    if len > 0 {
      LowStep(n, radix, k);
      LowDigits(radix, n / radix, len - 1, k - 1);
      OneDigit(radix, low, len);
      OneDigit(radix, n, len);
    } else {
      NoDigitsLeft(radix, low);
      NoDigitsLeft(radix, n);
    }
  }

  /** The digits of a number in two pieces. */
  lemma {:induction false} DigitsInTwo(radix: Radix, n: nat, i: nat, j: nat)
    ensures Pow(radix, j) > 0
    ensures DigitChars(radix, n, i + j) == DigitChars(radix, n / Pow(radix, j), i) + DigitChars(radix, n, j)
    decreases j
  {
    hide DigitChars;
    hide Pow;
    hide DigitChar;
    if j == 0 {
      RadixOnce(radix);
      assert n / 1 == n;
      NoDigitsLeft(radix, n);
      assert DigitChars(radix, n, i) + "" == DigitChars(radix, n, i);
    } else {
      DigitsInTwo(radix, n / radix, i, j - 1);
      DivChain(n, radix, Pow(radix, j - 1));
      RadixStep(radix, j);
      OneDigit(radix, n, i + j);
      OneDigit(radix, n, j);
      var a, b := DigitChars(radix, n / Pow(radix, j), i), DigitChars(radix, n / radix, j - 1);
      var c := [DigitChar(n % radix)];
      assert a + b + c == a + (b + c);
    }
  }

  lemma {:induction false} NumeralsInTwo(radix: Radix, n: nat, j: nat)
    requires n >= Pow(radix, j)
    ensures Pow(radix, j) > 0 && Numerals(radix, n) == Numerals(radix, n / Pow(radix, j)) + DigitChars(radix, n, j)
    decreases j
  {
    hide Pow;
    hide DigitChar;
    RadixOnce(radix);
    if j == 0 {
      assert n / 1 == n;
      assert Numerals(radix, n) + "" == Numerals(radix, n);
    } else {
      var p := Pow(radix, j - 1);
      RadixStep(radix, j);
      DivAtLeast(n, radix, p);
      NumeralsInTwo(radix, n / radix, j - 1);
      DivChain(n, radix, p);
      MulMono(1, p, radix);
      var a, b, c := Numerals(radix, n / Pow(radix, j)), DigitChars(radix, n / radix, j - 1), [DigitChar(n % radix)];
      assert a + b + c == a + (b + c);
    }
  }

  /** A number is written with as many digits as it has. */
  lemma {:induction false} NumeralsAre(radix: Radix, n: nat, len: nat)
    requires len > 0 && n < Pow(radix, len) && (len > 1 ==> Pow(radix, len - 1) <= n)
    ensures Numerals(radix, n) == DigitChars(radix, n, len)
    decreases len
  {
    hide Pow;
    hide DigitChar;
    RadixOnce(radix);
    if len == 1 {
      DivIs(n, radix, 0, n);
      assert "" + [DigitChar(n)] == [DigitChar(n)];
    } else {
      RadixStep(radix, len);
      RadixStep(radix, len - 1);
      MulMono(1, Pow(radix, len - 2), radix);
      DivParts(n, radix);
      MulCancelStrict(n / radix, Pow(radix, len - 1), radix);
      DivAtLeast(n, radix, Pow(radix, len - 2));
      NumeralsAre(radix, n / radix, len - 1);
    }
  }

  /** `limb_to_a`, of which `u32toa_len` is the case of radix 10, and `u64toa_bin_len` for the
      radices that are powers of two, whose digits are masked and shifted out: digits from
      the last one up. */
  method LimbToA(radix: Radix, n0: nat, len: nat) returns (buf: string)
    ensures buf == DigitChars(radix, n0, len)
  {
    hide DigitChars;
    hide DigitChar;
    var n: nat, i: nat := n0, len;
    buf := "";
    assert DigitChars(radix, n0, len) + "" == DigitChars(radix, n0, len);
    while i > 0
      invariant i <= len && DigitChars(radix, n0, len) == DigitChars(radix, n, i) + buf
    {
      OneDigit(radix, n, i);
      ghost var a, b, c := DigitChars(radix, n / radix, i - 1), [DigitChar(n % radix)], buf;
      assert a + b + c == a + (b + c);
      buf := [DigitChar(n % radix)] + buf;
      n := n / radix;
      i := i - 1;
    }
    NoDigitsLeft(radix, n);
    assert "" + buf == buf;
  }

  /** `u32toa`, and the loop of `u64toa_radix`. */
  method U32ToA(radix: Radix, n0: nat) returns (buf: string)
    ensures buf == Numerals(radix, n0)
  {
    hide DigitChar;
    var n: nat := n0;
    buf := [];
    while n >= radix
      invariant Numerals(radix, n0) == Numerals(radix, n) + buf
      decreases n
    {
      ghost var a, b, c := Numerals(radix, n / radix), [DigitChar(n % radix)], buf;
      assert a + b + c == a + (b + c);
      DtoaPrint.QuotientBelow(n, radix);
      buf := [DigitChar(n % radix)] + buf;
      n := n / radix;
    }
    DivIs(n, radix, 0, n);
    buf := [DigitChar(n % radix)] + buf;
  }

  /** `u64toa`: pieces of nine digits. */
  method U64ToA(n: nat) returns (buf: string)
    requires n < P64
    ensures buf == Numerals(10, n)
  {
    hide Numerals;
    hide DigitChars;
    hide Pow;
    Ten9Is();
    if n < B {
      buf := U32ToA(10, n);
    } else {
      var n1, low := n / TEN9, n % TEN9;
      NumeralsInTwo(10, n, 9);
      LowDigits(10, n, 9, 9);
      var q: string;
      if n1 >= B {
        var n2 := n1 / TEN9;
        NumeralsInTwo(10, n1, 9);
        LowDigits(10, n1, 9, 9);
        // at most two digits
        var head := U32ToA(10, n2);
        var middle := LimbToA(10, n1 % TEN9, 9);
        q := head + middle;
      } else {
        q := U32ToA(10, n1);
      }
      var tail := LimbToA(10, low, 9);
      buf := q + tail;
    }
  }

  /** `u64toa_radix`: in a power-of-two radix the number of digits comes from the number of
      bits. */
  method U64ToARadix(radix: Radix, n: nat) returns (buf: string)
    requires n < P64
    ensures buf == Numerals(radix, n)
  {
    hide Numerals;
    hide DigitChars;
    hide Pow;
    hide RadixBits;
    var bits := RadixBits(radix);
    if radix == 10 {
      buf := U64ToA(n);
    } else if bits != 0 {
      // clz64
      var l := if n == 0 then 1 else (FloorLog2(n) + bits) / bits;
      BitLength(radix, n, l);
      NumeralsAre(radix, n, l);
      buf := LimbToA(radix, n, l);
    } else {
      buf := U32ToA(radix, n);
    }
  }

  lemma BitLength(radix: Radix, n: nat, l: nat)
    requires RadixBits(radix) != 0 && l == if n == 0 then 1 else (FloorLog2(n) + RadixBits(radix)) / RadixBits(radix)
    ensures l > 0 && n < Pow(radix, l) && (l > 1 ==> Pow(radix, l - 1) <= n)
  {
    hide Pow;
    hide RadixBits;
    var b := RadixBits(radix);
    if n == 0 {
      RadixOnce(radix);
    } else {
      var k := FloorLog2(n);
      FloorLog2Bounds(n);
      DigitsForBits(k, b, l);
      RadixIsPower(radix, l);
      RadixIsPower(radix, l - 1);
      PowMono(2, k + 1, l * b);
      PowMono(2, (l - 1) * b, k);
    }
  }

  lemma DigitsForBits(k: nat, b: nat, l: nat)
    requires b > 0 && l == (k + b) / b
    ensures l > 0 && k + 1 <= l * b && 0 <= (l - 1) * b <= k
  {
    DivParts(k + b, b);
    DivAtLeast(k + b, b, 1);
    assert (l - 1) * b == l * b - b;
    MulMono(0, l - 1, b);
  }

  /** In a power-of-two radix the digits of a limb are digits of the number. */
  lemma LimbDigits(radix: Radix, v: nat, n: nat)
    requires RadixBits(radix) != 0 && n <= DigitsPerLimb(radix)
    ensures DigitChars(radix, v % B, n) == DigitChars(radix, v, n)
  {
    hide DigitChars;
    hide Pow;
    hide RadixBits;
    hide DigitsPerLimb;
    var b, p := RadixBits(radix), Pow(radix, n);
    LimbBits(radix);
    MulMono(n, DigitsPerLimb(radix), b);
    RadixIsPower(radix, n);
    BIsPower();
    PowAdd(2, n * b, 32 - n * b);
    LowDigits(radix, v, n, n);
    LowDigits(radix, v % B, n, n);
    NestedRemainder(v, p, Pow(2, 32 - n * b));
  }

  lemma LimbBits(radix: Radix)
    requires RadixBits(radix) != 0
    ensures DigitsPerLimb(radix) * RadixBits(radix) <= 32
  {
    PowersOfTwo(radix);
    FewBits();
  }

  lemma NestedRemainder(v: nat, p: nat, q: nat)
    requires p > 0 && q > 0
    ensures p * q > 0 && v % (p * q) % p == v % p
  {
    DivChain(v, p, q);
    DivIs(v % (p * q), p, v / p % q, v % p);
  }

  /** `output_digits`: the digits of one limb after the other, from the last one up. */
  method OutputDigitsBig(a: Mpb, radix: Radix, digits: nat, dotPos: nat) returns (buf: string)
    requires a.Valid() && dotPos <= digits
    modifies a, a.tab
    ensures buf == OutputDigits(radix, old(a.Value()), digits, dotPos)
  {
    hide DigitChars;
    hide Pow;
    hide Val;
    hide DigitsPerLimb;
    hide RadixBase;
    hide RadixBits;
    var left: nat, perLimb, bits := digits, DigitsPerLimb(radix), RadixBits(radix);
    buf := "";
    ghost var v := a.Value();
    LimbPower(radix);
    RadixOnce(radix);
    NoDigitsLeft(radix, v);
    assert v / 1 == v;
    while left != 0
      invariant left <= digits && a.Valid() && buf == DigitChars(radix, v, digits - left)
      invariant left != 0 ==> Pow(radix, digits - left) > 0 && a.Value() == v / Pow(radix, digits - left)
      decreases left
    {
      var n := if left < perLimb then left else perLimb;
      ghost var w, k := a.Value(), digits - left;
      left := left - n;
      var r: Limb;
      if bits != 0 {
        LowLimb(a.tab[..a.len]);
        assert a.tab[..a.len][0] == a.tab[0];
        r := a.tab[0];
        LimbDigits(radix, w, n);
        if left != 0 {
          RadixIsPower(radix, perLimb);
          CountPositive(perLimb, bits);
          a.ShrRounded(perLimb * bits, RNDZ);
        }
      } else {
        BasePositive(radix);
        r := a.DivPlain(RadixBase(radix));
        LowDigits(radix, w, n, perLimb);
      }
      var chunk := LimbToA(radix, r, n);
      DigitsInTwo(radix, v, n, k);
      buf := chunk + buf;
      if left != 0 {
        DivChain(v, Pow(radix, k), Pow(radix, perLimb));
        PowAdd(radix, k, perLimb);
      }
    }
    if dotPos != digits {
      buf := buf[..dotPos] + "." + buf[dotPos..];
    }
  }

  lemma CountPositive(x: nat, y: nat)
    requires x > 0 && y > 0
    ensures x * y > 0
  {
  }

  lemma LowLimb(s: seq<Limb>)
    requires |s| >= 1
    ensures Val(s) % B == s[0]
  {
    DivIs(Val(s), B, Val(s[1..]), s[0]);
  }

  lemma BasePositive(radix: Radix)
    requires RadixBits(radix) == 0
    ensures 0 < RadixBase(radix) < B && Pow(radix, DigitsPerLimb(radix)) == RadixBase(radix)
  {
    LimbPower(radix);
    PowersOfTwo(radix);
  }

  // ----- the free format -----

  /** The first guess of the exponent stays within the limits of the tables. */
  lemma FirstExpRange(radix: Radix, f: Float)
    requires RadixBits(radix) == 0 && -1074 < f.exp <= 1024
    ensures MinExponent(radix) < FirstExp(radix, f) <= MaxExponent(radix)
  {
    hide Pow;
    hide MulLog2Radix;
    hide RadixBits;
    hide MinExponent;
    hide MaxExponent;
    var a, k := f.exp - 1, FirstExp(radix, f) - 1;
    MulLog2RadixExact(a, radix);
    RadixLimits(radix);
    LogAtMost(radix, a, k, MaxExponent(radix));
    LogAtLeast(radix, a, k + 1, -MinExponent(radix));
  }

  lemma LogAtMost(radix: Radix, a: int, k: int, top: nat)
    requires UpPow(radix, k) * UpPow(2, -a) <= UpPow(2, a) * UpPow(radix, -k)
    requires a < 1024 && Pow(2, 1024) < Pow(radix, top) && top > 0
    ensures k < top
  {
    hide Pow;
    if k >= top {
      PowMono(radix, top, k);
      PowZero(2);
      if a > 0 {
        PowMono(2, a, 1024);
      } else {
        PowMono(2, 0, 1024);
        PowMono(2, 0, -a);
        MulMono(1, UpPow(2, -a), Pow(radix, k));
      }
    }
  }

  lemma LogAtLeast(radix: Radix, a: int, j: int, low: nat)
    requires UpPow(2, a) * UpPow(radix, -j) < UpPow(radix, j) * UpPow(2, -a)
    requires -1075 <= a && Pow(2, 1075) < Pow(radix, low) && low > 0
    ensures j > -(low as int)
  {
    hide Pow;
    if j <= -(low as int) {
      PowMono(radix, low, -j);
      PowZero(2);
      if a < 0 {
        PowMono(2, -a, 1075);
      } else {
        PowMono(2, 0, 1075);
        PowZero(radix);
        PowMono(2, 0, a);
        MulMono(1, UpPow(2, a), Pow(radix, -j));
      }
    }
  }

  /** An exponent of a number of binary64: with it every scaling fits. */
  predicate NearExp(radix: Radix, e: int) {
    if RadixBits(radix) == 0 then MinExponent(radix) < e <= MaxExponent(radix) + 1
    else -1074 < e * RadixBits(radix)
  }

  /** An exponent that `AttemptBig` tries. */
  predicate Tried(radix: Radix, exp: int, e: int) {
    var e0 := 1 + MulLog2Radix(exp - 1, radix);
    e == e0 || e == e0 + 1
  }

  lemma TriedNear(radix: Radix, exp: int, e: int)
    requires -1074 < exp <= 1024 && Tried(radix, exp, e)
    ensures NearExp(radix, e)
  {
    hide MulLog2Radix;
    hide RadixBits;
    hide MinExponent;
    hide MaxExponent;
    var e0 := 1 + MulLog2Radix(exp - 1, radix);
    if RadixBits(radix) == 0 {
      FirstExpRange(radix, Float(0, exp));
    } else {
      BinaryExponent(radix, exp - 1);
      MulMonoInt(e0, e, RadixBits(radix));
    }
  }

  const DTOA_MAX_DIGITS: nat := 101

  /** The greatest mantissas. */
  lemma MantissaTop(radix: Radix, p: nat)
    requires p <= DTOA_MAX_DIGITS
    ensures Pow(radix, p) <= Pow(2, 526)
  {
    hide Pow;
    BaseMono(radix, 36, p);
    PowMono(36, p, 101);
    PowAdd(36, 100, 1);
    PowPow(36, 10, 10);
    TenDigitsOf36();
    BaseMono(Pow(36, 10), Pow(2, 52), 10);
    PowPow(2, 52, 10);
    PowAdd(2, 520, 6);
    MulMono(Pow(36, 100), Pow(2, 520), 36);
    MulMono(36, Pow(2, 6), Pow(2, 520));
  }

  lemma TenDigitsOf36()
    ensures Pow(36, 10) <= Pow(2, 52) && Pow(36, 1) == 36 <= Pow(2, 6)
  {
    P52Is();
    SmallPowers();
    assert Pow(36, 1) == 36 && Pow(36, 2) == 1296;
    PowAdd(36, 2, 2);
    PowAdd(36, 4, 4);
    PowAdd(36, 8, 2);
  }

  /** A scaled significand that fits the limbs fits them at every step: multiplied by the odd
      part it is not too long, and it can be shifted to its place. */
  lemma RoomAbove(radix: Radix, m: nat, f: nat, x: int, k: nat)
    requires m * (UpPow(2, x) * Pow(radix, f)) < Pow(2, k) * UpPow(2, -x) && k <= 1600
    ensures ShiftFits(DBIGNUM_LEN_MAX, m * Pow(OddPart(radix), f), -(f * TwosIn(radix)) - x)
  {
    hide Pow;
    hide UpPow;
    hide ShiftFits;
    hide OddPart;
    hide TwosIn;
    var o, w: nat := Pow(OddPart(radix), f), f * TwosIn(radix);
    RadixSplit(radix, f);
    FourFactors(m, UpPow(2, x), o, Pow(2, w));
    if x >= 0 {
      RoomLeft(m * o, w, x, k);
    } else {
      RoomBoth(m * o, w, -x, k);
    }
  }

  lemma FourFactors(m: nat, p: nat, o: nat, q: nat)
    ensures m * (p * (o * q)) == m * o * q * p
  {
  }

  lemma RoomLeft(v: nat, w: nat, x: nat, k: nat)
    requires v * Pow(2, w) * UpPow(2, x) < Pow(2, k) * UpPow(2, 0 - x) && k <= 1600
    ensures ShiftFits(DBIGNUM_LEN_MAX, v, 0 - w - x)
  {
    hide Pow;
    hide UpPow;
    PlainUp(2, x);
    PowAdd(2, w, x);
    Group3(v, Pow(2, w), Pow(2, x));
    PowMono(2, k, 1632);
  }

  lemma RoomBoth(v: nat, w: nat, y: nat, k: nat)
    requires v * Pow(2, w) * UpPow(2, 0 - y) < Pow(2, k) * UpPow(2, y) && k <= 1600
    ensures ShiftFits(DBIGNUM_LEN_MAX, v, y - w)
  {
    hide Pow;
    hide UpPow;
    PlainUp(2, y);
    if y <= w {
      PowAdd(2, w - y, y);
      Group3(v, Pow(2, w - y), Pow(2, y));
      MulCancelStrict(v * Pow(2, w - y), Pow(2, k), Pow(2, y));
      PowMono(2, k, 1632);
    } else if y - w < 32 {
      PowAdd(2, y - w, w);
      Group3(Pow(2, k), Pow(2, y - w), Pow(2, w));
      MulCancelStrict(v, Pow(2, k) * Pow(2, y - w), Pow(2, w));
      PowAdd(2, k, y - w);
      PowMono(2, k + y - w, 1632);
    }
  }

  lemma RadixSplit(radix: Radix, f: nat)
    ensures Pow(radix, f) == Pow(OddPart(radix), f) * Pow(2, f * TwosIn(radix))
  {
    hide Pow;
    OddTimesTwos(radix);
    PowMulBase(OddPart(radix), Pow(2, TwosIn(radix)), f);
    PowPow(2, TwosIn(radix), f);
  }

  /** The value of an attempt is below twice the power of the radix. */
  lemma AttemptBelow(radix: Radix, f: Float, p: nat, e: int)
    requires P52 <= f.mant < P53 && -1074 < f.exp <= 1024 && 1 <= p <= DTOA_MAX_DIGITS
    requires Tried(radix, f.exp, e) && p >= e
    ensures f.mant * (UpPow(2, f.exp - 53) * Pow(radix, p - e)) < Pow(2, 527) * UpPow(2, -(f.exp - 53))
  {
    hide Pow;
    hide UpPow;
    hide MulLog2Radix;
    var x, h := f.exp - 53, p - FirstExp(radix, f);
    ScaledRange(radix, f, p);
    MantissaTop(radix, p);
    PowSteps(526);
    PlainUp(radix, h);
    PlainUp(radix, p - e);
    if e != FirstExp(radix, f) {
      RadixStep(radix, h);
      MulMono(1, radix, Pow(radix, h - 1));
      MulMono(Pow(radix, h - 1), Pow(radix, h), UpPow(2, x));
      MulMono(UpPow(2, x) * Pow(radix, h - 1), UpPow(2, x) * Pow(radix, h), f.mant);
    }
    MulMono(2 * Pow(radix, p), Pow(2, 527), UpPow(2, -x));
  }

  /** What a division asks of the limbs. */
  predicate DivideRoom(m: nat, x: int, f: int, d: nat, twos: nat)
    requires f < 0 < d
  {
    var shift := 32 * LimbsFor(-f, d);
    Fits(DBIGNUM_LEN_MAX, 2, f, d, shift + ExtraBits(m, true, x, -f * twos + shift))
  }

  /** What the printer asks of the limbs, wherever it scales. */
  ghost predicate PrintRoom(radix: Radix, m: nat, x: int, f: int) {
    var odd, twos := OddPart(radix), TwosIn(radix);
    if odd == 1 || f >= 0 then
      var v := m * UpPow(odd, f);
      v < Pow(B, DBIGNUM_LEN_MAX) && ShiftFits(DBIGNUM_LEN_MAX, v, -x - f * twos)
    else
      DivideRoom(m, x, f, OddPerLimb(radix), twos)
  }

  /** The ranges within which every scaling of `js_dtoa` stays. */
  lemma AttemptFits(radix: Radix, m: nat, exp: int, p: nat, e: int)
    requires P52 <= m < P53 && -1074 < exp <= 1024 && 1 <= p <= DTOA_MAX_DIGITS && Tried(radix, exp, e)
    ensures PrintRoom(radix, m, exp - 53, p - e)
  {
    hide MulLog2Radix;
    hide OddPerLimb;
    hide LimbsFor;
    hide OddPart;
    hide TwosIn;
    hide Pow;
    hide UpPow;
    hide ShiftFits;
    hide Fits;
    var f, x: int := p - e, exp - 53;
    if f >= 0 {
      PlainUp(OddPart(radix), f);
      AttemptBelow(radix, Float(m, exp), p, e);
      RoomAbove(radix, m, f, x, 527);
      ProductRoom(radix, m, f, x);
    } else if OddPart(radix) == 1 {
      OnePow(f);
      OnePart(radix);
      PlainRoom(m, x, f * TwosIn(radix));
    } else {
      NotBinary(radix);
      ScaleDownFits(radix, m, exp, p, e);
    }
  }

  lemma NotBinary(radix: Radix)
    requires OddPart(radix) != 1
    ensures RadixBits(radix) == 0
  {
    PowersOfTwo(radix);
  }

  /** The product before it is shifted. */
  lemma ProductRoom(radix: Radix, m: nat, f: nat, x: int)
    requires m * (UpPow(2, x) * Pow(radix, f)) < Pow(2, 527) * UpPow(2, -x) && x >= -1126
    ensures m * Pow(OddPart(radix), f) < Pow(B, DBIGNUM_LEN_MAX)
  {
    hide Pow;
    hide UpPow;
    var v: nat := m * Pow(OddPart(radix), f);
    RadixSplit(radix, f);
    MulMono(1, UpPow(2, x), Pow(radix, f));
    MulMono(1, Pow(2, f * TwosIn(radix)), Pow(OddPart(radix), f));
    MulMono(Pow(OddPart(radix), f), UpPow(2, x) * Pow(radix, f), m);
    SmallUpPow(-x);
    if x < 0 {
      PlainUp(2, -x);
      PowAdd(2, 527, -x);
      PowMono(2, 527 - x, 1664);
    } else {
      PowMono(2, 527, 1664);
    }
    LimbPower52();
  }

  lemma LimbPower52()
    ensures Pow(B, 52) == Pow(2, 1664)
  {
    DtoaBits.LimbPower(52);
  }

  /** A significand that is only shifted. */
  lemma PlainRoom(m: nat, x: int, y: int)
    requires m < P53 && y <= 0 && x <= 971
    ensures m < Pow(B, DBIGNUM_LEN_MAX) && ShiftFits(DBIGNUM_LEN_MAX, m, -x - y)
  {
    hide Pow;
    P52Is();
    LimbPower52();
    PowMono(2, 53, 1632);
    PowMono(2, 1632, 1664);
    if x + y > 0 {
      PowAdd(2, 53, x + y);
      MulMono(m, Pow(2, 53), Pow(2, x + y));
      PowStrict(2, 53 + x + y, 1632);
    } else {
      PowZero(2);
    }
  }

  lemma OnePart(radix: Radix)
    requires OddPart(radix) == 1
    ensures RadixBits(radix) == TwosIn(radix) > 0
  {
  }

  lemma MostDigits(radix: Radix)
    requires RadixBits(radix) != 0
    ensures PrintDigits(radix) * RadixBits(radix) <= 60
  {
    PowersOfTwo(radix);
    FewBits();
  }

  lemma ScaleDownFits(radix: Radix, m: nat, exp: int, p: nat, e: int)
    requires RadixBits(radix) == 0 && -1074 < exp <= 1024 && Tried(radix, exp, e) && p < e && p >= 1 && m > 0
    ensures var f, d := p - e, OddPerLimb(radix);
            Fits(DBIGNUM_LEN_MAX, 2, f, d,
              32 * LimbsFor(-f, d) + ExtraBits(m, true, exp - 53, -f * TwosIn(radix) + 32 * LimbsFor(-f, d)))
  {
    hide MulLog2Radix;
    hide RadixBits;
    hide MinExponent;
    hide MaxExponent;
    hide OddPerLimb;
    hide TwosIn;
    hide LimbsFor;
    TriedNear(radix, exp, e);
    HasRoom(radix);
    LimbsMono(e - p, MaxExponent(radix) + 1, OddPerLimb(radix));
    MulMono(0, TwosIn(radix), e - p);
    assert -(p - e) * TwosIn(radix) == (e - p) * TwosIn(radix);
  }

  /** The scaled mantissa fits 64 bits. */
  lemma ScaledSmall(radix: Radix, f: Float, p: nat, e: int)
    requires P52 <= f.mant < P53 && -1074 < f.exp <= 1024 && 1 <= p <= PrintDigits(radix)
    requires e == FirstExp(radix, f)
      || (e == FirstExp(radix, f) + 1 && ScaledMant(radix, f, p, FirstExp(radix, f), RNDN) >= Pow(radix, p))
    ensures ScaledMant(radix, f, p, e, RNDN) < P64
    ensures e == FirstExp(radix, f) + 1 ==> ScaledMant(radix, f, p, e, RNDN) < Pow(radix, p)
  {
    hide Pow;
    hide RoundDiv;
    hide Num;
    hide Den;
    hide RadixRounded;
    hide FirstExp;
    hide PrintDigits;
    MantissaSmall(radix, p);
    AttemptFull(radix, f, p, RNDN);
    RadixRound(f.mant, f.exp - 53, radix, p - e, RNDN);
    if e == FirstExp(radix, f) {
      ScaledRange(radix, f, p);
      RoundDivRange(Num(f.mant, f.exp - 53, radix, p - e), Den(f.exp - 53, radix, p - e), RNDN, 0, 2 * Pow(radix, p));
    }
  }

  /** Mantissas, and their doubles, fit 64 bits. */
  lemma MantissaSmall(radix: Radix, p: nat)
    requires p <= PrintDigits(radix)
    ensures 0 < 2 * Pow(radix, p) < P64
  {
    hide Pow;
    hide PrintDigits;
    BIsPower();
    PowAdd(2, 32, 32);
    PowSteps(63);
    PowMono(radix, p, PrintDigits(radix));
    if RadixBits(radix) == 0 {
      DigitLimits(radix);
    } else {
      MostDigits(radix);
      RadixIsPower(radix, PrintDigits(radix));
      PowStrict(2, PrintDigits(radix) * RadixBits(radix), 63);
    }
  }

  /** One attempt: the mantissa of `p` digits, with at most one correction of the exponent. */
  method AttemptBig(t: Mpb, radix: Radix, m: nat, exp: int, p: nat) returns (mant: nat, e: int)
    requires P52 <= m < P53 && -1074 < exp <= 1024 && 1 <= p <= PrintDigits(radix) && t.tab.Length == DBIGNUM_LEN_MAX
    modifies t, t.tab
    ensures Attempt(radix, Float(m, exp), p, RNDN) == Decimal(mant, p, e)
    ensures Tried(radix, exp, e)
  {
    hide Pow;
    hide Val;
    hide MulPowRounded;
    hide MulLog2Radix;
    hide PrintDigits;
    hide OddPart;
    hide TwosIn;
    hide OddPerLimb;
    hide Fits;
    ghost var f := Float(m, exp);
    MantissaSmall(radix, p);
    OddBelow(radix);
    var mantMax := PowUi(radix, p);
    e := 1 + MulLog2Radix(exp - 1, radix);
    while true
      invariant e == FirstExp(radix, f)
        || (e == FirstExp(radix, f) + 1 && ScaledMant(radix, f, p, FirstExp(radix, f), RNDN) >= Pow(radix, p))
      decreases FirstExp(radix, f) + 1 - e
    {
      AttemptFits(radix, m, exp, p, e);
      MulPowRoundBig(t, m, exp - 53, OddPart(radix), TwosIn(radix), p - e, OddPerLimb(radix), RNDN);
      ScaledSmall(radix, f, p, e);
      ShortNumber(t.tab[..t.len]);
      mant := t.GetU64();
      if mant < mantMax { break; }
      e := e + 1;
    }
  }

  lemma OddBelow(radix: Radix)
    ensures 0 < Pow(OddPart(radix), OddPerLimb(radix)) < B
  {
    hide Pow;
    if OddPart(radix) == 1 { PowOne(1); } else { OddFits(radix); }
  }

  /** Remove the trailing zeros. */
  method StripZeros(radix: Radix, mant0: nat, p0: nat, ghost e: int) returns (mant: nat, p: nat)
    requires Full(radix, Decimal(mant0, p0, e))
    ensures Strip(radix, Decimal(mant0, p0, e)) == Decimal(mant, p, e)
  {
    hide Full;
    mant, p := mant0, p0;
    while mant % radix == 0
      invariant Full(radix, Decimal(mant, p, e))
      invariant Strip(radix, Decimal(mant0, p0, e)) == Strip(radix, Decimal(mant, p, e))
      decreases p
    {
      StripOnce(radix, Decimal(mant, p, e));
      mant := mant / radix;
      p := p - 1;
    }
  }

  /** The conversion back to base 2, and the comparison. */
  method ReadsBackBig(t: Mpb, radix: Radix, c: Decimal, m: nat, exp: int) returns (same: bool)
    requires Full(radix, c) && c.digits <= PrintDigits(radix) && NearExp(radix, c.exp)
    requires t.tab.Length == DBIGNUM_LEN_MAX
    modifies t, t.tab
    ensures same == ReadsBack(radix, c, Float(m, exp))
  {
    hide Pow;
    hide Val;
    hide MulPow;
    hide RoundToD;
    hide PrintDigits;
    hide OddPart;
    hide TwosIn;
    hide OddPerLimb;
    hide Fits;
    hide NearExp;
    hide RadixBits;
    MantissaSmall(radix, c.digits);
    FullPositive(radix, c);
    t.SetU64(c.mant);
    OddBelow(radix);
    ShortNumber(t.tab[..t.len]);
    DecimalFits(radix, c, t.tab[..t.len]);
    var m1, e1 := MulPowRoundToDBig(t, OddPart(radix), TwosIn(radix), c.exp - c.digits, OddPerLimb(radix));
    same := m1 == m && e1 == exp;
  }

  /** The room and the range that reading a decimal back needs. */
  lemma DecimalFits(radix: Radix, c: Decimal, s: seq<Limb>)
    requires Full(radix, c) && c.digits <= PrintDigits(radix) && NearExp(radix, c.exp)
    requires 1 <= |s| <= 2 && (|s| > 1 ==> s[|s| - 1] != 0) && Val(s) == c.mant
    ensures var f, d, odd, twos := c.exp - c.digits, OddPerLimb(radix), OddPart(radix), TwosIn(radix);
            odd != 1 ==> Fits(DBIGNUM_LEN_MAX - 3, |s|, f, d, if f >= 0 then 0
              else 32 * LimbsFor(-f, d) + ExtraBits(c.mant, false, 55, -f * twos + 32 * LimbsFor(-f, d)))
    ensures var r := RadixScaled(c.mant, radix, c.exp - c.digits, false, 55);
            r.value > 0 ==> FloorLog2(r.value) + 1 - r.offset >= -1084
  {
    hide Pow;
    hide Val;
    hide PrintDigits;
    hide AtodDigits;
    hide OddPart;
    hide TwosIn;
    hide OddPerLimb;
    hide Fits;
    hide RadixScaled;
    hide MinExponent;
    hide MaxExponent;
    if RadixBits(radix) != 0 {
      BinaryNotTiny(radix, c);
    } else {
      hide RadixBits;
      TableNotTiny(radix, c.mant, c.exp - c.digits, c.digits);
      EnoughKept(radix);
      OneLimbSmall(s);
      TableFits(radix, c.mant, |s|, c.exp - c.digits, c.digits);
    }
  }

  lemma OneLimbSmall(s: seq<Limb>)
    requires 1 <= |s| <= 2 && (|s| > 1 ==> s[|s| - 1] != 0)
    ensures Val(s) < B ==> |s| == 1
  {
    if |s| == 2 {
      assert s == [s[0], s[1]];
      TwoLimbs(s[0], s[1]);
    }
  }

  lemma BinaryNotTiny(radix: Radix, c: Decimal)
    requires RadixBits(radix) != 0 && Full(radix, c) && -1074 < c.exp * RadixBits(radix)
    ensures var r := RadixScaled(c.mant, radix, c.exp - c.digits, false, 55);
            r.value > 0 ==> FloorLog2(r.value) + 1 - r.offset >= -1084
  {
    hide Pow;
    hide RadixBits;
    hide RadixScaled;
    PowersOfTwo(radix);
    var b, g := RadixBits(radix), c.exp - c.digits;
    BinaryScaled(radix, c.mant, g);
    RadixIsPower(radix, c.digits - 1);
    FullPositive(radix, c);
    FloorLog2Bounds(c.mant);
    PowOrder(2, (c.digits - 1) * b, FloorLog2(c.mant) + 1);
    DigitBits(c.exp, c.digits, b);
  }

  lemma DigitBits(e: int, n: nat, b: nat)
    ensures (n - 1) * b == n * b - b && -(e - n) * b == n * b - e * b
  {
  }

  lemma BinaryScaled(radix: Radix, m: nat, g: int)
    requires RadixBits(radix) != 0
    ensures RadixScaled(m, radix, g, false, 55) == Scaled(m, -g * RadixBits(radix))
  {
  }

  /** The loop over the number of digits. */
  method ShortestBig(t: Mpb, radix: Radix, m: nat, exp: int) returns (c: Decimal)
    requires P52 <= m < P53 && -1074 < exp <= 1024 && t.tab.Length == DBIGNUM_LEN_MAX
    modifies t, t.tab
    ensures c == Shortest(radix, Float(m, exp)) && Full(radix, c)
  {
    hide Attempt;
    hide Strip;
    hide ReadsBack;
    hide Full;
    hide PrintDigits;
    hide NearExp;
    hide Tried;
    ghost var f := Float(m, exp);
    var p: nat, found := PrintDigits(radix), false;
    c := Decimal(0, 1, 1);
    while true
      invariant 1 <= p <= PrintDigits(radix)
      invariant if found then Full(radix, c) && Shorten(radix, f, p, c) == Shortest(radix, f)
                else p == PrintDigits(radix)
      decreases p
    {
      AttemptFull(radix, f, p, RNDN);
      var mant, e := AttemptBig(t, radix, m, exp, p);
      TriedNear(radix, exp, e);
      StripExp(radix, Attempt(radix, f, p, RNDN));
      var q: nat;
      mant, q := StripZeros(radix, mant, p, e);
      var d := Decimal(mant, q, e);
      FullDigits(radix, d);
      if found {
        var same := ReadsBackBig(t, radix, d, m, exp);
        if !same { break; }
      }
      found := true;
      c := d;
      if q == 1 { break; }
      p := q - 1;
    }
  }

  lemma FullDigits(radix: Radix, c: Decimal)
    requires Full(radix, c)
    ensures c.digits >= 1
  {
  }

  /** The three layouts. */
  method LayoutBig(t: Mpb, radix: Radix, digits: nat, exp: int, mode: ExpMode, max: nat) returns (q: string)
    requires digits >= 1 && t.Valid()
    modifies t, t.tab
    ensures q == Layout(radix, Decimal(old(t.Value()), digits, exp), mode, max)
  {
    hide DigitChars;
    hide Numerals;
    hide Val;
    hide PrintDigits;
    hide RadixBits;
    var e := exp;
    if mode == Enabled || (mode == Auto && (e <= -6 || e > max)) {
      q := OutputDigitsBig(t, radix, digits, 1);
      e := e - 1;
      if radix == 10 {
        TenBits();
        q := q + "e";
      } else if 1 <= RadixBits(radix) <= 4 {
        e := e * RadixBits(radix);
        q := q + "p";
      } else {
        q := q + "@";
      }
      SignedProduct(exp - 1, ExpScale(radix));
      SameSign(exp - 1, ExpScale(radix));
      if e < 0 {
        q := q + "-";
        e := -e;
      } else {
        q := q + "+";
      }
      var number := U32ToA(10, e);
      q := q + number;
    } else if e <= 0 {
      q := "0.";
      var i := 0;
      while i < -e
        invariant 0 <= i <= -e && q == "0." + Repeat('0', i)
      {
        q := q + "0";
        i := i + 1;
      }
      var number := OutputDigitsBig(t, radix, digits, digits);
      q := q + number;
    } else {
      q := OutputDigitsBig(t, radix, digits, if digits < e then digits else e);
      ghost var s := q;
      var i := 0;
      EmptyRepeat();
      assert s + Repeat('0', 0) == s;
      while i < e - digits
        invariant 0 <= i && (i <= e - digits || i == 0) && q == s + Repeat('0', i)
      {
        assert s + Repeat('0', i) + "0" == s + Repeat('0', i + 1);
        q := q + "0";
        i := i + 1;
      }
    }
  }

  lemma SameSign(e: int, k: nat)
    requires k > 0
    ensures e * k < 0 <==> e < 0
  {
    if e < 0 { MulStrictInt(e, 0, k); } else { MulMonoInt(0, e, k); }
  }

  lemma SubnormalBits(m: nat)
    requires 0 < m < P52
    ensures FloorLog2(m) < 52
  {
    P52Is();
    FloorLog2Bounds(m);
    PowOrder(2, FloorLog2(m), 52);
  }

  lemma QuotientSmall(m: nat, d: nat)
    requires m < P53 && d > 0
    ensures m / d < P64
  {
    DivParts(m, d);
    MulMono(1, d, m / d);
  }

  lemma FullSmall(radix: Radix, c: Decimal)
    requires Full(radix, c) && c.digits <= PrintDigits(radix)
    ensures c.mant < P64 && c.digits >= 1
  {
    MantissaSmall(radix, c.digits);
  }
}
