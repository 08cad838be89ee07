/** Which layout the texts of `js_dtoa` have, by the value that is printed: when there is an
    exponent, where the dot stands, and that the fast path for integers makes no difference. */
module DtoaLayout {
  import opened DtoaArith
  import opened DtoaRound
  import opened DtoaDouble
  import opened DtoaLog
  import opened DtoaScale
  import opened DtoaTables
  import opened DtoaShortest
  import opened DtoaCloser
  import opened DtoaMinimal
  import opened DtoaScan
  import opened DtoaNumeral
  import opened DtoaRead
  import opened DtoaPrint
  import opened DtoaWriter
  import opened DtoaFixed
  import opened DtoaLength

  // ----- the fast path for integers -----

  /** One, in units. */
  function Unity(): (t: nat)
    ensures t > 0
  {
    Pow(2, 1074)
  }

  lemma UnityIs()
    ensures Unity() == Pow(2, 1074)
  {
  }

  lemma UnitsOfInteger(a: nat, k: nat)
    requires 0 < a < INFINITY && k < P53 && Units(a) == k * Unity()
    ensures Units(a) <= Units(a + 1) <= Units(a) + Unity() && Units(a) - Unity() <= Units(a - 1) <= Units(a)
  {
    hide Units;
    hide Pow;
    UnitsMono(a, a + 1);
    UnitsMono(a - 1, a);
    PowSteps(1074);
    PowMono(2, 0, 1074);
    if a >= P52 { GapAbove(a, k); } else { SmallUnits(a); UnitsOf(0, a + 1); SmallUnits(a - 1); PowSteps(0); }
  }

  lemma ExponentBelow(e: nat, m: nat, k: nat)
    requires P52 <= m && k < P53 && m * Pow(2, e) == k * Unity()
    ensures e <= 1074
  {
    hide Pow;
    TwiceP52(Unity());
    MulStrict(k, P53, Unity());
    if e > 1074 {
      PowMono(2, 1075, e);
      PowSteps(1074);
      MulMono(Pow(2, 1075), Pow(2, e), P52);
      MulMono(P52, m, Pow(2, e));
    }
  }

  lemma GapAbove(a: nat, k: nat)
    requires P52 <= a < INFINITY && k < P53 && Units(a) == k * Unity()
    ensures Units(a + 1) <= Units(a) + Unity() && Units(a) <= Units(a - 1) + Unity()
  {
    hide Units;
    hide Pow;
    var e, m := a / P52 - 1, P52 + a % P52;
    DivParts(a, P52);
    UnitsOf(e, m);
    UnitsOf(e, m + 1);
    ExponentBelow(e, m, k);
    PowMono(2, e, 1074);
    assert (m + 1) * Pow(2, e) == m * Pow(2, e) + Pow(2, e);
    if m > P52 {
      UnitsOf(e, m - 1);
      assert (m - 1) * Pow(2, e) == m * Pow(2, e) - Pow(2, e);
    } else if e > 0 {
      assert a - 1 == (e - 1) * P52 + (P53 - 1);
      UnitsOf(e - 1, P53 - 1);
      PowSteps(e - 1);
      assert (P53 - 1) * Pow(2, e - 1) == P53 * Pow(2, e - 1) - Pow(2, e - 1);
      assert P52 * (2 * Pow(2, e - 1)) == P53 * Pow(2, e - 1);
    } else {
      UnitsOf(0, P52 - 1);
      PowSteps(0);
    }
  }

  /** What is rounded to an integer differs from it by less than one. */
  lemma NearInteger(a: nat, k: nat, x: nat, d: nat)
    requires 0 < a < INFINITY && k < P53 && Units(a) == k * Unity() && d > 0 && Nearest(x, d, a)
    ensures (k - 1) * (Unity() * d) < x < (k + 1) * (Unity() * d)
  {
    hide Units;
    hide Pow;
    hide Nearest;
    hide Unity;
    UnitsOfInteger(a, k);
    NearestIff(x, d, a);
    WithinOne(Units(a - 1), Units(a), Units(a + 1), Unity(), x, d);
    assert k * Unity() * d == k * (Unity() * d);
    NextMultiples(k, Unity() * d);
  }

  lemma NextMultiples(k: nat, u: nat)
    ensures (k - 1) * u == k * u - u && (k + 1) * u == k * u + u
  {
  }

  lemma WithinOne(w: nat, u: nat, v: nat, t: nat, x: nat, d: nat)
    requires d > 0 && t > 0 && v <= u + t && u <= w + t
    requires 2 * x <= (u + v) * d && (w + u) * d <= 2 * x
    ensures u * d - t * d < x < u * d + t * d
  {
    MulMono(u + v, 2 * u + t, d);
    MulMono(2 * u, w + u + t, d);
    assert (2 * u + t) * d == 2 * (u * d) + t * d && (w + u + t) * d == (w + u) * d + t * d;
    assert 2 * u * d == 2 * (u * d);
    MulStrict(0, t, d);
  }

  /** The decimal is the integer `k`. */
  predicate IsInt(radix: Radix, c: Decimal, k: nat) {
    DecNum(radix, c) == k * (Unity() * DecDen(radix, c))
  }

  lemma WholeDecimal(radix: Radix, c: Decimal)
    requires c.exp >= c.digits
    ensures DecNum(radix, c) == c.mant * Pow(radix, c.exp - c.digits) * (Unity() * DecDen(radix, c))
  {
    hide Pow;
    PlainUp(radix, c.exp - c.digits);
  }

  lemma FractionalDecimal(radix: Radix, c: Decimal)
    requires c.exp < c.digits
    ensures DecNum(radix, c) == c.mant * Unity() && DecDen(radix, c) == Pow(radix, c.digits - c.exp)
  {
    hide Pow;
    PlainUp(radix, c.digits - c.exp);
  }

  lemma BetweenNeighbours(j: int, k: int, u: nat)
    requires u > 0 && (k - 1) * u < j * u < (k + 1) * u
    ensures j == k
  {
    if j <= k - 1 { MulMonoInt(j, k - 1, u); }
    if j >= k + 1 { MulMonoInt(k + 1, j, u); }
  }

  /** A candidate that is rounded to an integer is that integer. */
  lemma CandidateIsInt(radix: Radix, a: nat, k: nat, p: nat)
    requires 0 < a < INFINITY && 0 < k < P53 && Units(a) == k * Unity() && p >= 1
    requires var c := Attempt(radix, Normalize(a), p, RNDN);
             Full(radix, c) && c.digits == p && Nearest(DecNum(radix, c), DecDen(radix, c), a)
    ensures IsInt(radix, Attempt(radix, Normalize(a), p, RNDN), k)
  {
    hide Units;
    hide Pow;
    hide Nearest;
    hide Unity;
    hide Normalize;
    hide Attempt;
    hide DecNum;
    hide DecDen;
    hide Full;
    var c := Attempt(radix, Normalize(a), p, RNDN);
    var n, u := DecNum(radix, c), Unity() * DecDen(radix, c);
    NearInteger(a, k, n, DecDen(radix, c));
    MulStrict(0, Unity(), DecDen(radix, c));
    if c.exp >= p {
      WholeDecimal(radix, c);
      BetweenNeighbours(c.mant * Pow(radix, c.exp - p), k, u);
    } else {
      SmallerPower(radix, c, k);
      FewEnough(radix, a, k, p);
    }
  }

  /** The integer has no more digits than a candidate with digits behind the point. */
  lemma SmallerPower(radix: Radix, c: Decimal, k: nat)
    requires Full(radix, c) && c.exp < c.digits && k > 0
    requires (k - 1) * (Unity() * DecDen(radix, c)) < DecNum(radix, c)
    ensures k <= Pow(radix, c.digits)
  {
    hide Pow;
    hide Unity;
    hide DecNum;
    hide DecDen;
    var g: nat, t := c.digits - c.exp, Unity();
    PowPositive(radix, g);
    var p := Pow(radix, g);
    FractionalDecimal(radix, c);
    assert (k - 1) * (t * p) == (k - 1) * p * t;
    MulCancelStrict((k - 1) * p, c.mant, t);
    MulMono(1, p, k - 1);
  }

  lemma FewEnough(radix: Radix, a: nat, k: nat, p: nat)
    requires 0 < a < INFINITY && 0 < k <= Pow(radix, p) && Units(a) == k * Unity() && p >= 1
    requires var c := Attempt(radix, Normalize(a), p, RNDN); Full(radix, c) && c.digits == p
    ensures IsInt(radix, Attempt(radix, Normalize(a), p, RNDN), k)
  {
    hide Units;
    hide Pow;
    hide Unity;
    hide Normalize;
    hide Attempt;
    hide DecNum;
    hide DecDen;
    hide Full;
    var c := Attempt(radix, Normalize(a), p, RNDN);
    var e := IntegerDecimal(radix, k, p);
    AttemptCloser(radix, a, p, e);
    assert Units(a) * DecDen(radix, e) == DecNum(radix, e) by {
      assert k * Unity() * DecDen(radix, e) == k * (Unity() * DecDen(radix, e));
    }
    SameDistance(Units(a), DecNum(radix, c), DecDen(radix, c), DecDen(radix, e));
    assert k * Unity() * DecDen(radix, c) == k * (Unity() * DecDen(radix, c));
  }

  lemma SameDistance(u: nat, x: nat, d: nat, e: nat)
    requires e > 0 && Abs(u * d - x) * e <= 0
    ensures u * d == x
  {
    if Abs(u * d - x) >= 1 { MulMono(1, Abs(u * d - x), e); }
  }

  /** An integer with a given number of digits. */
  lemma IntegerDecimal(radix: Radix, k: nat, p: nat) returns (e: Decimal)
    requires 0 < k <= Pow(radix, p) && p >= 1
    ensures Full(radix, e) && e.digits == p && IsInt(radix, e, k)
  {
    hide Pow;
    hide IsInt;
    RadixStep(radix, p);
    PowPositive(radix, p - 1);
    MulMono(2, radix, Pow(radix, p - 1));
    if k == Pow(radix, p) {
      e := Decimal(Pow(radix, p - 1), p, p + 1);
      RadixOnce(radix);
      WholeIsInt(radix, e, k);
    } else {
      var l := DigitCount(radix, k, p);
      e := Decimal(k * Pow(radix, p - l), p, l);
      PaddedInteger(radix, k, p, l);
    }
  }

  lemma WholeIsInt(radix: Radix, c: Decimal, k: nat)
    requires c.exp >= c.digits && c.mant * Pow(radix, c.exp - c.digits) == k
    ensures IsInt(radix, c, k)
  {
    hide Pow;
    hide Unity;
    WholeDecimal(radix, c);
  }

  lemma PaddedInteger(radix: Radix, k: nat, p: nat, l: nat)
    requires 1 <= l <= p && Pow(radix, l - 1) <= k < Pow(radix, l)
    ensures var e := Decimal(k * Pow(radix, p - l), p, l); Full(radix, e) && IsInt(radix, e, k)
  {
    hide Pow;
    hide Unity;
    hide DecNum;
    hide DecDen;
    var w := Pow(radix, p - l);
    PowPositive(radix, p - l);
    PowAdd(radix, l - 1, p - l);
    PowAdd(radix, l, p - l);
    MulMono(Pow(radix, l - 1), k, w);
    MulStrict(k, Pow(radix, l), w);
    var e := Decimal(k * w, p, l);
    if l < p {
      FractionalDecimal(radix, e);
      assert k * w * Unity() == k * (Unity() * w);
    } else {
      PowNone(radix);
      WholeIsInt(radix, e, k);
    }
  }

  lemma {:induction false} DigitCount(radix: Radix, k: nat, p: nat) returns (l: nat)
    requires 0 < k < Pow(radix, p)
    ensures 1 <= l <= p && Pow(radix, l - 1) <= k < Pow(radix, l)
    decreases p
  {
    if p == 0 {
      assert false;
    } else if Pow(radix, p - 1) <= k {
      l := p;
    } else {
      l := DigitCount(radix, k, p - 1);
    }
  }

  lemma IntThrough(radix: Radix, c: Decimal, s: Decimal, k: nat)
    requires IsInt(radix, c, k)
    requires DecNum(radix, s) * DecDen(radix, c) == DecNum(radix, c) * DecDen(radix, s)
    ensures IsInt(radix, s, k)
  {
    hide Unity;
    hide DecNum;
    hide DecDen;
    var n, d, t := DecNum(radix, s), DecDen(radix, s), Unity();
    var d' := DecDen(radix, c);
    assert k * (t * d') * d == k * (t * d) * d';
    MulCancelEqual(n, k * (t * d), d');
  }

  lemma MulCancelEqual(x: nat, y: nat, z: nat)
    requires z > 0 && x * z == y * z
    ensures x == y
  {
    if x < y { MulStrict(x, y, z); }
    if y < x { MulStrict(y, x, z); }
  }

  lemma {:induction false} StripEnds(radix: Radix, c: Decimal)
    requires Full(radix, c)
    ensures Strip(radix, c).mant % radix != 0
    decreases c.digits
  {
    hide Full;
    if c.mant % radix == 0 {
      StripOnce(radix, c);
      StripEnds(radix, Decimal(c.mant / radix, c.digits - 1, c.exp));
    }
  }

  /** The loop keeps the integer, without trailing zeros. */
  lemma {:induction false} ShortenInt(radix: Radix, a: nat, k: nat, p: nat, best: Decimal)
    requires 0 < a < INFINITY && P52 <= Normalize(a).mant < P53 && -1074 < Normalize(a).exp <= 1024
    requires 0 < k < P53 && Units(a) == k * Unity() && IsInt(radix, best, k) && best.mant % radix != 0
    ensures var c := Shorten(radix, Normalize(a), p, best); IsInt(radix, c, k) && c.mant % radix != 0
    decreases p
  {
    hide Units;
    hide Unity;
    hide IsInt;
    hide Normalize;
    hide Attempt;
    hide Strip;
    hide ReadsBack;
    hide DecNum;
    hide DecDen;
    hide Full;
    hide Nearest;
    if p > 0 {
      AttemptFull(radix, Normalize(a), p, RNDN);
      var t := Attempt(radix, Normalize(a), p, RNDN);
      var c := Strip(radix, t);
      if ReadsBack(radix, c, Normalize(a)) {
        StripReads(radix, t, a);
        CandidateIsInt(radix, a, k, p);
        StripValue(radix, t);
        IntThrough(radix, t, c, k);
        StripEnds(radix, t);
        FullDigitsOf(radix, c);
        ShortenInt(radix, a, k, c.digits - 1, c);
      }
    }
  }

  lemma PrintedInt(radix: Radix, a: nat, k: nat)
    requires 0 < a < INFINITY && 0 < k < P53 && Units(a) == k * Unity()
    ensures var c := Printed(radix, a); Full(radix, c) && IsInt(radix, c, k) && c.mant % radix != 0
  {
    hide Units;
    hide Unity;
    hide IsInt;
    hide Normalize;
    hide Attempt;
    hide Strip;
    hide Shorten;
    hide DecNum;
    hide DecDen;
    hide Full;
    hide Nearest;
    NormalizeValue(a);
    var n := PrintDigits(radix);
    AttemptFull(radix, Normalize(a), n, RNDN);
    var t := Attempt(radix, Normalize(a), n, RNDN);
    MaxDigitsNearest(radix, a);
    CandidateIsInt(radix, a, k, n);
    StripValue(radix, t);
    IntThrough(radix, t, Strip(radix, t), k);
    StripEnds(radix, t);
    FullDigitsOf(radix, Strip(radix, t));
    ShortenInt(radix, a, k, Strip(radix, t).digits - 1, Strip(radix, t));
    ShortestNearest(radix, a);
  }

  lemma {:induction false} AllZeros(radix: Radix, n: nat)
    ensures DigitChars(radix, 0, n) == Repeat('0', n)
    decreases n
  {
    if n > 0 { AllZeros(radix, n - 1); }
  }

  /** Digits without trailing zeros, and the zeros. */
  lemma WholeDigits(radix: Radix, c: Decimal, k: nat)
    requires Full(radix, c) && IsInt(radix, c, k) && c.mant % radix != 0
    ensures c.exp >= c.digits && Pow(radix, c.exp - 1) <= k < Pow(radix, c.exp)
    ensures Numerals(radix, k) == DigitChars(radix, c.mant, c.digits) + Repeat('0', c.exp - c.digits)
  {
    hide Pow;
    hide Unity;
    hide DigitChars;
    hide Numerals;
    WholeExp(radix, c, k);
    var g: nat := c.exp - c.digits;
    var w := Pow(radix, g);
    PowPositive(radix, g);
    PowAdd(radix, c.digits - 1, g);
    PowAdd(radix, c.digits, g);
    MulMono(Pow(radix, c.digits - 1), c.mant, w);
    MulStrict(c.mant, Pow(radix, c.digits), w);
    NumeralsAre(radix, k, c.exp);
    DigitsInTwo(radix, k, c.digits, g);
    DivIs(k, w, c.mant, 0);
    LowDigits(radix, k, g, g);
    AllZeros(radix, g);
  }

  lemma WholeExp(radix: Radix, c: Decimal, k: nat)
    requires Full(radix, c) && IsInt(radix, c, k) && c.mant % radix != 0
    ensures c.exp >= c.digits && k == c.mant * Pow(radix, c.exp - c.digits)
  {
    hide Pow;
    hide Unity;
    hide DecNum;
    hide DecDen;
    var t := Unity();
    if c.exp >= c.digits {
      WholeDecimal(radix, c);
      MulStrict(0, t, DecDen(radix, c));
      MulCancelEqual(c.mant * Pow(radix, c.exp - c.digits), k, t * DecDen(radix, c));
    } else {
      var g: nat := c.digits - c.exp;
      RadixStep(radix, g);
      FractionalDecimal(radix, c);
      assert k * (t * Pow(radix, g)) == k * Pow(radix, g - 1) * radix * t;
      MulCancelEqual(c.mant, k * Pow(radix, g - 1) * radix, t);
      DivIs(c.mant, radix, k * Pow(radix, g - 1), 0);
    }
  }

  /** The fast path for integers prints what the digits found by the loop would give. */
  lemma FastPath(radix: Radix, a: nat, mode: ExpMode)
    requires 0 < a < INFINITY
    ensures Full(radix, Printed(radix, a)) && Printed(radix, a).digits >= 1
    ensures PrintFinite(radix, a, mode) == Layout(radix, Printed(radix, a), mode, ExpMax(radix))
  {
    hide Units;
    hide Unity;
    hide IsInt;
    hide Normalize;
    hide Shortest;
    hide Pow;
    hide Full;
    hide DigitChars;
    hide Numerals;
    hide PrintDigits;
    hide Nearest;
    hide DecNum;
    hide DecDen;
    NormalizeValue(a);
    ShortestNearest(radix, a);
    var c := Printed(radix, a);
    FullDigitsOf(radix, c);
    if FastInt(Normalize(a), mode) {
      FastIntValue(a, mode);
      var k := Normalize(a).mant / Pow(2, 53 - Normalize(a).exp);
      UnityIs();
      PrintedInt(radix, a, k);
      WholeDigits(radix, c, k);
      IntegerExp(radix, c, k);
      assert DigitChars(radix, c.mant, c.digits) + Repeat('0', 0) == DigitChars(radix, c.mant, c.digits);
    } else {
      SlowText(radix, a, mode);
    }
  }

  lemma IntegerExp(radix: Radix, c: Decimal, k: nat)
    requires 0 < k < P53 && c.exp >= 1 && Pow(radix, c.exp - 1) <= k
    ensures c.exp <= PrintDigits(radix)
  {
    hide Pow;
    hide PrintDigits;
    TableExact(radix);
    P52Is();
    if c.exp > PrintDigits(radix) { PowMono(radix, PrintDigits(radix) - 1, c.exp - 1); }
  }

  // ----- the size of a decimal -----

  /** The value of the decimal is below radix^k. */
  ghost predicate BelowPower(radix: Radix, c: Decimal, k: int) {
    DecNum(radix, c) * UpPow(radix, -k) < Unity() * DecDen(radix, c) * UpPow(radix, k)
  }

  lemma UpShift(b: nat, g: int, s: nat)
    requires b > 0 && s + g >= 0
    ensures UpPow(b, g) * Pow(b, s) == UpPow(b, -g) * Pow(b, s + g)
  {
    if g >= 0 { PowAdd(b, g, s); } else { PowAdd(b, -g, s + g); }
  }

  lemma CrossProducts(x: nat, a: nat, a': nat, k: nat, k': nat, s: nat, s': nat, r: nat, r': nat)
    requires a * s == a' * s' && k' * r == k * r'
    ensures x * a * k' * (s * r) == x * (s' * r') * (a' * k)
  {
    assert x * a * k' * (s * r) == x * (a * s) * (k' * r);
    assert x * (a' * s') * (k * r') == x * (s' * r') * (a' * k);
  }

  lemma SameOrder(u: nat, v: nat, z: nat, y: nat, w: nat)
    requires z > 0 && w > 0 && u * z == y * w && v == w
    ensures u < v <==> y < z
  {
    assert v * z == z * w;
    if u < v { MulStrict(u, v, z); MulCancelStrict(y, z, w); }
    if y < z { MulStrict(y, z, w); MulCancelStrict(u, v, z); }
  }

  lemma CrossCancel(x: nat, a: nat, a': nat, k: nat, k': nat, s: nat, s': nat, r: nat, r': nat)
    requires a' > 0 && k > 0 && s > 0 && r > 0 && a * s == a' * s' && k' * r == k * r'
    ensures x * a * k' < a' * k <==> x * (s' * r') < s * r
  {
    MulStrict(0, s, r);
    MulStrict(0, a', k);
    CrossProducts(x, a, a', k, k', s, s', r, r');
    SameOrder(x * a * k', a' * k, s * r, x * (s' * r'), a' * k);
  }

  lemma ScaledPower(b: nat, x: nat, d: nat, g: int, k: int)
    requires b >= 2 && d >= 1 && Pow(b, d - 1) <= x < Pow(b, d)
    ensures x * UpPow(b, g) * UpPow(b, -k) < UpPow(b, -g) * UpPow(b, k) <==> d + g <= k
  {
    hide Pow;
    hide UpPow;
    var s, r := Abs(g), Abs(k);
    UpShift(b, g, s);
    UpShift(b, -k, r);
    PowPositive(b, s);
    PowPositive(b, r);
    assert UpPow(b, -(-k)) == UpPow(b, k);
    CrossCancel(x, UpPow(b, g), UpPow(b, -g), UpPow(b, k), UpPow(b, -k), Pow(b, s), Pow(b, s + g),
                Pow(b, r), Pow(b, r - k));
    var i, j := s + g + (r - k), s + r;
    PowAdd(b, s + g, r - k);
    PowAdd(b, s, r);
    PowPositive(b, i);
    if d + g <= k {
      PowAdd(b, d, i);
      PowMono(b, d + i, j);
      MulStrict(x, Pow(b, d), Pow(b, i));
    } else {
      PowAdd(b, d - 1, i);
      PowMono(b, j, d - 1 + i);
      MulMono(Pow(b, d - 1), x, Pow(b, i));
    }
  }

  /** A decimal without a leading zero is below radix^k exactly if its point is at `k` at most. */
  lemma PointOfValue(radix: Radix, c: Decimal, k: int)
    requires Full(radix, c)
    ensures BelowPower(radix, c, k) <==> c.exp <= k
  {
    hide Pow;
    hide UpPow;
    hide Unity;
    var g, t := c.exp - c.digits, Unity();
    ScaledPower(radix, c.mant, c.digits, g, k);
    var x, y := c.mant * UpPow(radix, g) * UpPow(radix, -k), UpPow(radix, -g) * UpPow(radix, k);
    UnityIs();
    assert c.mant * UpPow(radix, g) * t * UpPow(radix, -k) == x * t;
    assert t * UpPow(radix, -g) * UpPow(radix, k) == y * t;
    if x < y { MulStrict(x, y, t); }
    if x * t < y * t { MulCancelStrict(x, y, t); }
  }

  // ----- the shape of a text -----

  /** The decimal that is printed. */
  function PrintedAs(radix: Radix, a: nat, format: Format): Decimal
    requires 0 < a < INFINITY
  {
    if format.Fixed? then FixedDecimal(radix, a, format.digits) else Printed(radix, a)
  }

  /** Whether the value is printed with an exponent. */
  ghost predicate Scientific(radix: Radix, c: Decimal, mode: ExpMode, max: int) {
    match mode
    case Enabled => true
    case Disabled => false
    case Auto => BelowPower(radix, c, -6) || !BelowPower(radix, c, max)
  }

  /** With an exponent, one digit before the dot, all others after it, the exponent with its
      sign; without, the digits before the dot are those of the integer part, and the others
      are written to the last one. */
  ghost predicate Shaped(n: Numeral, radix: Radix, c: Decimal, mode: ExpMode, max: int, negative: bool) {
    && n.sign == (if negative then "-" else "")
    && (n.exp.Exp? <==> Scientific(radix, c, mode, max))
    && (n.dot <==> n.fp != "")
    && if n.exp.Exp? then
         && n.exp.mark == ExpChar(radix) && n.exp.sign == (if BelowPower(radix, c, 0) then "-" else "+")
         && |n.ip| == 1 && |n.fp| == c.digits - 1
       else
         && |n.ip| >= 1 && BelowPower(radix, c, |n.ip|) && (|n.ip| == 1 || !BelowPower(radix, c, |n.ip| - 1))
         && |n.fp| == Max(c.digits - c.exp, 0)
  }

  lemma LayoutShaped(radix: Radix, c: Decimal, mode: ExpMode, max: nat, negative: bool)
    requires Full(radix, c)
    ensures c.digits >= 1 && Shaped(LayoutNumeral(radix, c, mode, max, negative), radix, c, mode, max, negative)
  {
    hide BelowPower;
    hide DigitChars;
    hide Numerals;
    hide Full;
    hide ExpChar;
    hide ExpScale;
    FullDigitsOf(radix, c);
    forall k: int ensures BelowPower(radix, c, k) <==> c.exp <= k { PointOfValue(radix, c, k); }
    if c.exp == c.digits { EmptyRepeat(); }
  }

  /** Every finite number but zero is printed, in the free and in the fixed format, as a numeral
      of that shape with the value of its decimal. */
  lemma FiniteShape(radix: Radix, a: nat, format: Format, mode: ExpMode, negative: bool) returns (n: Numeral)
    requires 0 < a < INFINITY && Allowed(format) && !format.Frac?
    ensures var c := PrintedAs(radix, a, format);
            && DtoaAs(Bits(negative, a), radix, format, mode, true) == Text(n) && WellFormed(n, radix)
            && Shaped(n, radix, c, mode, if format.Fixed? then format.digits else PrintDigits(radix) + 4, negative)
            && ValueNum(n, radix) * DecDen(radix, c) == DecNum(radix, c) * ValueDen(n, radix)
  {
    hide Normalize;
    hide Shortest;
    hide Attempt;
    hide RoundedTo;
    hide LayoutNumeral;
    hide Layout;
    hide Text;
    hide WellFormed;
    hide DecNum;
    hide DecDen;
    hide ValueNum;
    hide ValueDen;
    hide Shaped;
    hide PrintFinite;
    hide PrintDigits;
    var c := PrintedAs(radix, a, format);
    if format.Fixed? {
      AttemptExact(radix, a, format.digits, RNDNA);
    } else {
      FastPath(radix, a, mode);
    }
    FullWritten(radix, c);
    n := LayoutNumeral(radix, c, mode, FormatMax(radix, format), negative);
    LayoutNumeralIs(radix, c, mode, FormatMax(radix, format), negative);
    LayoutShaped(radix, c, mode, FormatMax(radix, format), negative);
  }

  lemma FullWritten(radix: Radix, c: Decimal)
    requires Full(radix, c)
    ensures Written(radix, c)
  {
  }

  // ----- the mark of the exponent in a text -----

  lemma MarkAway(radix: Radix)
    ensures ExpChar(radix) !in "." && ExpChar(radix) !in "-"
    ensures ExpChar(radix) !in "NaN" && ExpChar(radix) !in "Infinity"
  {
    hide RadixBits;
  }

  lemma NoMark(radix: Radix, s: string)
    requires AllDigits(s, radix) || AllDigits(s, 10)
    ensures ExpChar(radix) !in s
  {
    hide RadixBits;
    PowersOfTwo(radix);
    if 1 <= RadixBits(radix) <= 4 { SmallRadix(radix); }
  }

  lemma MarkInText(n: Numeral, radix: Radix)
    requires WellFormed(n, radix) && n.sign in {"", "-"}
    requires n.exp.Exp? ==> n.exp.mark == ExpChar(radix)
    ensures ExpChar(radix) in Text(n) <==> n.exp.Exp?
  {
    hide ExpChar;
    hide AllDigits;
    hide MarkFits;
    NoMark(radix, n.ip);
    NoMark(radix, n.fp);
    MarkAway(radix);
    assert ExpChar(radix) !in n.sign + BodyText(n);
    if n.exp.Exp? {
      assert Text(n)[|n.sign + BodyText(n)|] == n.exp.mark;
    } else {
      assert Text(n) == n.sign + BodyText(n);
    }
  }

  /** A text has an exponent exactly if that is forced and the format allows for it, or, in
      automatic mode, if the value printed is below radix^-6 or at least radix^n for `n` fixed
      digits, radix^(PrintDigits + 4) in the free format. */
  lemma ExponentExactly(v: Number, radix: Radix, format: Format, mode: ExpMode, minusZero: bool)
    requires (v.Bits? ==> v.magnitude <= INFINITY) && Allowed(format)
    ensures ExpChar(radix) in DtoaAs(v, radix, format, mode, minusZero)
       <==> v.Bits? && v.magnitude < INFINITY && mode != Disabled
            && if v.magnitude == 0 then mode == Enabled
               else !format.Frac?
                    && var c := PrintedAs(radix, v.magnitude, format);
                       mode == Enabled || BelowPower(radix, c, -6)
                       || !BelowPower(radix, c, if format.Fixed? then format.digits else PrintDigits(radix) + 4)
  {
    hide ExpChar;
    hide Layout;
    hide PrintFinite;
    hide FracText;
    hide FixedDecimal;
    hide RoundedTo;
    hide BelowPower;
    hide Printed;
    hide PrintDigits;
    hide WellFormed;
    hide Text;
    MarkAway(radix);
    if v.Bits? && v.magnitude < INFINITY {
      if v.magnitude == 0 {
        ZeroMark(radix, format, mode, v.negative && minusZero);
      } else if format.Frac? {
        FracMark(radix, RoundedTo(radix, v.magnitude, format.places, RNDNA), format.places);
      } else {
        var n := FiniteShape(radix, v.magnitude, format, mode, v.negative);
        MarkInText(n, radix);
      }
    }
  }

  lemma ZeroMark(radix: Radix, format: Format, mode: ExpMode, negative: bool)
    requires Allowed(format)
    ensures ExpChar(radix) in
            Sign(negative) + Layout(radix, Decimal(0, ZeroDigits(format), 1), mode, FormatMax(radix, format))
       <==> mode == Enabled
  {
    hide ExpChar;
    hide Layout;
    hide WellFormed;
    hide Text;
    hide PrintDigits;
    hide DigitChars;
    hide Numerals;
    var c := Decimal(0, ZeroDigits(format), 1);
    PowPositive(radix, c.digits);
    LayoutNumeralIs(radix, c, mode, FormatMax(radix, format), negative);
    MarkInText(LayoutNumeral(radix, c, mode, FormatMax(radix, format), negative), radix);
  }

  lemma FracMark(radix: Radix, k: nat, n: nat)
    ensures ExpChar(radix) !in FracText(radix, k, n)
  {
    hide ExpChar;
    hide Numerals;
    hide Pow;
    hide AllDigits;
    hide DigitChars;
    hide DigitsValue;
    NumeralsValue(radix, k / Pow(radix, n));
    DigitCharsValue(radix, k, n);
    NoMark(radix, Numerals(radix, k / Pow(radix, n)));
    NoMark(radix, DigitChars(radix, k, n));
    MarkAway(radix);
  }

  lemma NotANumber(radix: Radix, format: Format, mode: ExpMode, minusZero: bool)
    requires Allowed(format)
    ensures DtoaAs(NaN, radix, format, mode, minusZero) == "NaN"
  {
  }

  /** `Number::toString` of ECMA-262: in radix 10 the letter e stands in the text exactly if the
      value printed is below 10^-6 or at least 10^21. Not-a-number is printed as such. */
  lemma DecimalExponent(v: Number, minusZero: bool)
    requires v.Bits? ==> v.magnitude <= INFINITY
    ensures v.NaN? ==> DtoaAs(v, 10, Free, Auto, minusZero) == "NaN"
    ensures 'e' in DtoaAs(v, 10, Free, Auto, minusZero)
       <==> v.Bits? && 0 < v.magnitude < INFINITY
            && var c := Printed(10, v.magnitude);
               DecNum(10, c) * 1_000_000 < Pow(2, 1074) * DecDen(10, c)
               || DecNum(10, c) >= Pow(2, 1074) * DecDen(10, c) * 1_000_000_000_000_000_000_000
  {
    hide DtoaAs;
    hide Printed;
    hide DecNum;
    hide DecDen;
    hide Pow;
    hide UpPow;
    ExponentExactly(v, 10, Free, Auto, minusZero);
    TenPowers();
    if v.NaN? { NotANumber(10, Free, Auto, minusZero); }
  }

  lemma TenPowers()
    ensures ExpChar(10) == 'e' && PrintDigits(10) == 17
    ensures UpPow(10, 6) == 1_000_000 && UpPow(10, -6) == 1
    ensures UpPow(10, 21) == 1_000_000_000_000_000_000_000 && UpPow(10, -21) == 1
  {
    hide Pow;
    Power6();
    PowAdd(10, 6, 6);
    PowAdd(10, 12, 6);
    PowAdd(10, 18, 3);
    PowZero(10);
  }

  lemma Power6()
    ensures Pow(10, 3) == 1000 && Pow(10, 6) == 1_000_000
  {
    assert Pow(10, 3) == 1000;
    PowAdd(10, 3, 3);
  }
}
