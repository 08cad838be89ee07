/** Whether the free format prints as few digits as possible. It does, except for some powers
    of two, whose lower neighbour is closer than the upper one. */
module DtoaMinimal {
  import opened DtoaArith
  import opened DtoaRound
  import opened DtoaDouble
  import opened DtoaLog
  import opened DtoaScale
  import opened DtoaTables
  import opened DtoaShortest
  import opened DtoaConvert
  import opened DtoaCloser

  // ----- reading back is complete -----

  lemma SignificandAbove(v: nat, prec: nat)
    requires v > 0 && 1 <= prec <= 53
    ensures Pow(2, prec - 1) <= ShrRound(v, FloorLog2(v) + 1 - prec, RNDN)
  {
    hide Pow;
    hide RoundDiv;
    var l := FloorLog2(v);
    var s: int := l + 1 - prec;
    FloorLog2Bounds(v);
    if s <= 0 {
      PowAdd(2, l, -s);
      MulMono(Pow(2, l), v, Pow(2, -s));
    } else {
      PowAdd(2, prec - 1, s);
      PowAdd(2, prec, s);
      RoundDivRange(v, Pow(2, s), RNDN, Pow(2, prec - 1), Pow(2, prec));
    }
  }

  /** The significand that rounding leaves is the normalized one of the number it is packed to. */
  lemma RoundToDNormal(v: nat, offset: int, a: nat)
    requires v > 0 && 0 < a < INFINITY && PackBits(RoundToD(v, offset).mant, RoundToD(v, offset).exp) == a
    ensures RoundToD(v, offset) == Normalize(a)
  {
    hide Pow;
    hide ShrRound;
    hide PackBits;
    hide Normalize;
    var e := FloorLog2(v) + 1 - offset;
    var prec := if e < -1021 then 53 - (-1021 - e) else 53;
    SignificandBound(v, prec);
    var q := ShrRound(v, FloorLog2(v) + 1 - prec, RNDN);
    assert e + offset - prec == FloorLog2(v) + 1 - prec;
    if prec >= 1 {
      SignificandAbove(v, prec);
      if prec == 53 {
        WideNormal(q, e, a);
      } else {
        NarrowNormal(q, prec, e, a);
      }
    } else {
      PowZero(2);
      TinyNormal(q, prec, e, a);
    }
  }

  function Carried(m: nat, e: int): Float {
    if m >= P53 then Float(m / 2, e + 1) else Float(m, e)
  }

  lemma WideNormal(q: nat, e: int, a: nat)
    requires e >= -1021 && Pow(2, 52) <= q <= Pow(2, 53) && 0 < a < INFINITY
    requires var m := q * Pow(2, 0); var f := Carried(m, e); PackBits(f.mant, f.exp) == a
    ensures Carried(q * Pow(2, 0), e) == Normalize(a)
  {
    hide Pow;
    P52Is();
    PowZero(2);
    var f := Carried(q, e);
    DivIs(a, P52, f.exp + 1022, f.mant % P52);
  }

  lemma NarrowNormal(q: nat, prec: nat, e: int, a: nat)
    requires prec <= 52 && e == prec - 1074 && 0 < a < INFINITY
    requires q <= Pow(2, prec) && if prec == 0 then q == 1 else Pow(2, prec - 1) <= q
    requires var f := Carried(q * Pow(2, 53 - prec), e); PackBits(f.mant, f.exp) == a
    ensures Carried(q * Pow(2, 53 - prec), e) == Normalize(a)
  {
    hide Pow;
    P52Is();
    PowAdd(2, prec, 53 - prec);
    PowMono(2, prec, 52);
    PowZero(2);
    if q == Pow(2, prec) {
      TopNormal(prec, a);
    } else {
      MulStrict(q, Pow(2, prec), Pow(2, 53 - prec));
      FloorLog2Is(q, prec - 1);
      DivIs(q * Pow(2, 53 - prec), Pow(2, 53 - prec), q, 0);
    }
  }

  /** A power of two below the normal numbers, or the least of them. */
  lemma TopNormal(prec: nat, a: nat)
    requires prec <= 52 && 0 < a < INFINITY && PackBits(P52, prec - 1073) == a
    ensures Float(P52, prec - 1073) == Normalize(a)
  {
    hide Pow;
    P52Is();
    PowAdd(2, prec, 52 - prec);
    PowStrict(2, prec, prec + 1);
    FloorLog2Is(Pow(2, prec), prec);
    if prec < 52 {
      PowStrict(2, prec, 52);
      DivIs(P52, Pow(2, 52 - prec), Pow(2, prec), 0);
    } else {
      DivIs(P52, P52, 1, 0);
    }
  }

  /** Nothing, or the least unit, is left of a number this small. */
  lemma TinyNormal(q: nat, prec: int, e: int, a: nat)
    requires prec <= 0 && e == prec - 1074 && 0 < a < INFINITY && (if prec == 0 then q <= 1 else q == 0)
    requires var f := Carried(q * Pow(2, 53 - prec), e); PackBits(f.mant, f.exp) == a
    ensures Carried(q * Pow(2, 53 - prec), e) == Normalize(a)
  {
    hide Pow;
    PowZero(2);
    if q == 1 { NarrowNormal(q, 0, e, a); }
  }

  /** Digits that have the number as their nearest one are read back as it. */
  lemma NearestReadsBack(radix: Radix, c: Decimal, a: nat)
    requires 0 < a < INFINITY && c.mant > 0 && Nearest(DecNum(radix, c), DecDen(radix, c), a)
    ensures ReadsBack(radix, c, Normalize(a))
  {
    hide Pow;
    hide Nearest;
    hide Normalize;
    hide StandsFor;
    hide RoundToD;
    hide PackBits;
    hide RoundBits;
    hide UpPow;
    hide RadixScaled;
    var g := c.exp - c.digits;
    var nn, dd := RadixStands(c.mant, radix, g);
    var s := RadixScaled(c.mant, radix, g, false, 55);
    RoundToDNearest(s.value, s.offset, Num(c.mant, 0, radix, g), Den(0, radix, g), nn, dd);
    assert UpPow(2, 0) == 1 && UpPow(2, -0) == 1 by { SmallUpPow(0); }
    assert Num(c.mant, 0, radix, g) * Pow(2, 1074) == DecNum(radix, c) && Den(0, radix, g) == DecDen(radix, c);
    RoundBitsNearest(DecNum(radix, c), DecDen(radix, c));
    NearestUnique(DecNum(radix, c), DecDen(radix, c), a, RoundBits(DecNum(radix, c), DecDen(radix, c)));
    RoundToDNormal(s.value, s.offset, a);
  }

  // ----- what is rounded to a number -----

  /** Not past the midpoint to the next number, which belongs to the even one. */
  predicate Above(x: nat, d: nat, a: nat) {
    2 * x < (Units(a) + Units(a + 1)) * d || (2 * x == (Units(a) + Units(a + 1)) * d && a % 2 == 0)
  }

  predicate Below(x: nat, d: nat, a: nat)
    requires a > 0
  {
    (Units(a - 1) + Units(a)) * d < 2 * x || ((Units(a - 1) + Units(a)) * d == 2 * x && a % 2 == 0)
  }

  lemma NearestIff(x: nat, d: nat, a: nat)
    requires d > 0 && 0 < a < INFINITY
    ensures Nearest(x, d, a) <==> Below(x, d, a) && Above(x, d, a)
  {
    hide Units;
    if Below(x, d, a) && Above(x, d, a) { NearestBetween(x, d, a); }
    if Nearest(x, d, a) {
      assert Closer(x, d, a, a - 1) && Closer(x, d, a, a + 1);
      UnitsMono(a - 1, a);
      UnitsMono(a, a + 1);
      HalfWay(x, d, Units(a), Units(a + 1));
      HalfWay(x, d, Units(a), Units(a - 1));
    }
  }

  /** Which of two numbers is closer. */
  lemma HalfWay(x: nat, d: nat, u: nat, v: nat)
    requires d > 0
    ensures u < v ==> (Abs(x - u * d) <= Abs(x - v * d) <==> 2 * x <= (u + v) * d)
    ensures u < v ==> (Abs(x - u * d) == Abs(x - v * d) <==> 2 * x == (u + v) * d)
    ensures v < u ==> (Abs(x - u * d) <= Abs(x - v * d) <==> (v + u) * d <= 2 * x)
    ensures v < u ==> (Abs(x - u * d) == Abs(x - v * d) <==> (v + u) * d == 2 * x)
  {
    assert (u + v) * d == u * d + v * d && (v + u) * d == u * d + v * d;
    if u < v { MulStrict(u, v, d); }
    if v < u { MulStrict(v, u, d); }
  }

  /** The two neighbours are equally far. */
  predicate EvenGaps(a: nat)
    requires a > 0
  {
    Units(a + 1) - Units(a) == Units(a) - Units(a - 1)
  }

  /** Only the powers of two above the subnormals have a closer lower neighbour. */
  lemma GapsEven(a: nat)
    requires 0 < a < INFINITY && (a <= P52 || a % P52 != 0)
    ensures EvenGaps(a)
  {
    hide Units;
    hide Pow;
    if a <= P52 {
      UnitsOf(0, a - 1);
      UnitsOf(0, a);
      UnitsOf(0, a + 1);
    } else {
      var k, m := a / P52 - 1, P52 + a % P52;
      DivParts(a, P52);
      assert a == k * P52 + m;
      UnitsOf(k, m - 1);
      UnitsOf(k, m);
      UnitsOf(k, m + 1);
      assert (m + 1) * Pow(2, k) == m * Pow(2, k) + Pow(2, k) && (m - 1) * Pow(2, k) == m * Pow(2, k) - Pow(2, k);
    }
  }

  /** The lower gap is never the wider one. */
  lemma LowerGap(a: nat)
    requires 0 < a < INFINITY
    ensures 0 < Units(a) - Units(a - 1) <= Units(a + 1) - Units(a)
  {
    hide Units;
    hide Pow;
    UnitsMono(a - 1, a);
    if a <= P52 || a % P52 != 0 {
      GapsEven(a);
    } else {
      var k := a / P52 - 1;
      DivParts(a, P52);
      UnitsOf(k, P52);
      UnitsOf(k, P52 + 1);
      UnitsOf(k - 1, P53 - 1);
      PowSteps(k - 1);
      assert a - 1 == (k - 1) * P52 + (P53 - 1);
      assert (P53 - 1) * Pow(2, k - 1) == P53 * Pow(2, k - 1) - Pow(2, k - 1);
      assert P52 * (2 * Pow(2, k - 1)) == P53 * Pow(2, k - 1);
      assert (P52 + 1) * Pow(2, k) == P52 * Pow(2, k) + Pow(2, k);
    }
  }

  /** The first fraction is no farther from `u` than the second. */
  predicate NoFarther(u: nat, x: nat, d: nat, x': nat, d': nat) {
    Abs(u * d - x) * d' <= Abs(u * d' - x') * d
  }

  /** What is no farther from a number is rounded to it as well, unless it lies below and the
      other above, and the lower gap is narrower. */
  lemma CloserFits(a: nat, x: nat, d: nat, x': nat, d': nat)
    requires 0 < a < INFINITY && d > 0 && d' > 0 && NoFarther(Units(a), x, d, x', d') && Nearest(x', d', a)
    requires EvenGaps(a) || Units(a) * d <= x || x' <= Units(a) * d'
    ensures Nearest(x, d, a)
  {
    hide Units;
    hide Nearest;
    NearestIff(x, d, a);
    NearestIff(x', d', a);
    LowerGap(a);
    var u, g, w := Units(a), Units(a + 1) - Units(a), Units(a) - Units(a - 1);
    Sides(x, d, a);
    Sides(x', d', a);
    var e, e' := Abs(u * d - x), Abs(u * d' - x');
    var gap := if x' <= u * d' then w else g;
    FartherBound(e, d, e', d', gap);
    MulMono(w, g, d);
    if w < g { MulStrict(w, g, d); }
  }

  /** The midpoints, by the distance. */
  lemma Sides(x: nat, d: nat, a: nat)
    requires 0 < a < INFINITY && d > 0
    ensures var u, g, w := Units(a), Units(a + 1) - Units(a), Units(a) - Units(a - 1);
            var e := Abs(u * d - x);
            if u * d <= x then
              Below(x, d, a) && (Above(x, d, a) <==> 2 * e < g * d || (2 * e == g * d && a % 2 == 0))
            else
              Above(x, d, a) && (Below(x, d, a) <==> 2 * e < w * d || (2 * e == w * d && a % 2 == 0))
  {
    hide Units;
    LowerGap(a);
    var u, v, t := Units(a), Units(a + 1), Units(a - 1);
    assert (u + v) * d == u * d + v * d && (t + u) * d == t * d + u * d;
    assert (v - u) * d == v * d - u * d && (u - t) * d == u * d - t * d;
    MulStrict(t, u, d);
    MulStrict(u, v, d);
  }

  lemma FartherBound(e: nat, d: nat, e': nat, d': nat, g: nat)
    requires e * d' <= e' * d && d > 0 && d' > 0
    ensures 2 * e' < g * d' ==> 2 * e < g * d
    ensures 2 * e' == g * d' ==> 2 * e <= g * d
  {
    assert 2 * e * d' == 2 * (e * d') && 2 * (e' * d) == 2 * e' * d && g * d' * d == g * d * d';
    if 2 * e' < g * d' {
      MulStrict(2 * e', g * d', d);
      MulCancelStrict(2 * e, g * d, d');
    } else if 2 * e' == g * d' {
      MulCancel(2 * e, g * d, d');
    }
  }

  // ----- decimals with as many digits -----

  function PadTo(radix: Radix, c: Decimal, n: nat): Decimal
    requires c.digits <= n
  {
    Decimal(c.mant * Pow(radix, n - c.digits), n, c.exp)
  }

  /** Zeros at the end do not change the value. */
  lemma PadValue(radix: Radix, c: Decimal, n: nat)
    requires Full(radix, c) && c.digits <= n
    ensures var p := PadTo(radix, c, n);
            Full(radix, p) && DecNum(radix, p) * DecDen(radix, c) == DecNum(radix, c) * DecDen(radix, p)
  {
    hide Pow;
    hide UpPow;
    var k, g := n - c.digits, c.exp - c.digits;
    PowAdd(radix, c.digits - 1, k);
    PowAdd(radix, c.digits, k);
    MulMono(Pow(radix, c.digits - 1), c.mant, Pow(radix, k));
    MulStrict(c.mant, Pow(radix, c.digits), Pow(radix, k));
    CoarseScale(radix, c.mant, g - k, k);
  }

  /** The value of `m` units at `k` places more. */
  lemma CoarseScale(radix: Radix, m: nat, g: int, k: nat)
    ensures m * Pow(radix, k) * UpPow(radix, g) * Pow(2, 1074) * UpPow(radix, -(g + k))
         == m * UpPow(radix, g + k) * Pow(2, 1074) * UpPow(radix, -g)
  {
    hide Pow;
    hide UpPow;
    UpPowSum(radix, g, k);
    PlainUp(radix, k);
    var w, p, x, y, x', y' := Pow(2, 1074), Pow(radix, k), UpPow(radix, g), UpPow(radix, -g), UpPow(radix, g + k),
      UpPow(radix, -(g + k));
    assert m * p * x * w * y' == m * w * (x * p * y');
    assert m * x' * w * y == m * w * (x' * y);
  }

  /** One unit more in the last digit. */
  function NextUp(c: Decimal): Decimal {
    c.(mant := c.mant + 1)
  }

  /** There is no decimal with as many digits in between. */
  lemma NothingBetween(radix: Radix, c: Decimal, c': Decimal)
    requires Full(radix, c) && Full(radix, c') && c.digits == c'.digits
    requires DecNum(radix, c) * DecDen(radix, c') < DecNum(radix, c') * DecDen(radix, c)
    ensures DecNum(radix, NextUp(c)) * DecDen(radix, c') <= DecNum(radix, c') * DecDen(radix, NextUp(c))
  {
    hide Pow;
    hide UpPow;
    hide Full;
    var g, g' := c.exp - c.digits, c'.exp - c'.digits;
    if g <= g' {
      var k: nat := g' - g;
      CoarseScale(radix, c'.mant, g, k);
      OneMoreUnit(c.mant, c'.mant * Pow(radix, k), UpPow(radix, g), Pow(2, 1074), UpPow(radix, -g'));
    } else {
      var k: nat := g - g';
      CoarseScale(radix, c.mant, g', k);
      LessThanMore(radix, c, c', k);
      Grouped(c'.mant, UpPow(radix, g'), Pow(2, 1074), UpPow(radix, -g));
      Grouped(c.mant * Pow(radix, k), UpPow(radix, g'), Pow(2, 1074), UpPow(radix, -g));
      MulMono(c'.mant, c.mant * Pow(radix, k), UpPow(radix, g') * Pow(2, 1074) * UpPow(radix, -g));
    }
  }

  lemma Grouped(m: nat, x: nat, w: nat, y: nat)
    ensures m * x * w * y == m * (x * w * y)
  {
  }

  lemma OneMoreUnit(m: nat, m': nat, x: nat, w: nat, y: nat)
    requires m * x * w * y < m' * x * w * y
    ensures (m + 1) * x * w * y <= m' * x * w * y
  {
    Grouped(m, x, w, y);
    Grouped(m + 1, x, w, y);
    Grouped(m', x, w, y);
    MulCancelStrict(m, m', x * w * y);
    MulMono(m + 1, m', x * w * y);
  }

  /** With as many digits the greater exponent makes the greater number. */
  lemma LessThanMore(radix: Radix, c: Decimal, c': Decimal, k: nat)
    requires Full(radix, c) && Full(radix, c') && c.digits == c'.digits && k > 0
    ensures c'.mant <= c.mant * Pow(radix, k)
  {
    hide Pow;
    RadixOnce(radix);
    PowMono(radix, 1, k);
    RadixStep(radix, c.digits);
    MulMono(Pow(radix, c.digits - 1), c.mant, radix);
    MulMono(radix, Pow(radix, k), c.mant);
  }

  // ----- where the loop stops -----

  /** Stripped digits are read back exactly when the number is nearest to them. */
  lemma StripReads(radix: Radix, c: Decimal, a: nat)
    requires Full(radix, c) && 0 < a < INFINITY
    ensures ReadsBack(radix, Strip(radix, c), Normalize(a)) <==> Nearest(DecNum(radix, c), DecDen(radix, c), a)
  {
    hide Nearest;
    hide Normalize;
    hide ReadsBack;
    hide Strip;
    hide DecNum;
    hide DecDen;
    var t := Strip(radix, c);
    StripValue(radix, c);
    FullPositive(radix, t);
    if ReadsBack(radix, t, Normalize(a)) {
      ReadsBackNearest(radix, t, a);
      NearestRatio(DecNum(radix, t), DecDen(radix, t), DecNum(radix, c), DecDen(radix, c), a);
    }
    if Nearest(DecNum(radix, c), DecDen(radix, c), a) {
      NearestRatio(DecNum(radix, c), DecDen(radix, c), DecNum(radix, t), DecDen(radix, t), a);
      NearestReadsBack(radix, t, a);
    }
  }

  /** The loop ends with one digit, or because the attempt with one digit less is not read back. */
  lemma {:induction false} ShortenStops(radix: Radix, f: Float, p: nat, best: Decimal)
    requires P52 <= f.mant < P53 && -1074 < f.exp <= 1024 && best.digits == p + 1
    ensures var c := Shorten(radix, f, p, best);
            c.digits >= 1
            && (c.digits > 1 ==>
                  Full(radix, Attempt(radix, f, c.digits - 1, RNDN))
                  && !ReadsBack(radix, Strip(radix, Attempt(radix, f, c.digits - 1, RNDN)), f))
    decreases p
  {
    hide ReadsBack;
    hide Strip;
    hide Attempt;
    hide Full;
    if p > 0 {
      AttemptFull(radix, f, p, RNDN);
      var c := Strip(radix, Attempt(radix, f, p, RNDN));
      FullDigitsOf(radix, c);
      if ReadsBack(radix, c, f) { ShortenStops(radix, f, c.digits - 1, c); }
    }
  }

  lemma FullDigitsOf(radix: Radix, c: Decimal)
    requires Full(radix, c)
    ensures c.digits >= 1
  {
  }

  lemma ShortestStops(radix: Radix, a: nat)
    requires 0 < a < INFINITY && P52 <= Normalize(a).mant < P53 && -1074 < Normalize(a).exp <= 1024
    ensures var q := Shortest(radix, Normalize(a)).digits;
            q >= 1
            && (q > 1 ==>
                  var c := Attempt(radix, Normalize(a), q - 1, RNDN);
                  Full(radix, c) && c.digits == q - 1 && !Nearest(DecNum(radix, c), DecDen(radix, c), a))
  {
    hide Normalize;
    hide Nearest;
    hide Strip;
    hide Attempt;
    hide ReadsBack;
    hide Shorten;
    hide DecNum;
    hide DecDen;
    hide Full;
    var f := Normalize(a);
    AttemptFull(radix, f, PrintDigits(radix), RNDN);
    var c := Strip(radix, Attempt(radix, f, PrintDigits(radix), RNDN));
    FullDigitsOf(radix, c);
    ShortenStops(radix, f, c.digits - 1, c);
    var q := Shorten(radix, f, c.digits - 1, c).digits;
    if q > 1 {
      AttemptFull(radix, f, q - 1, RNDN);
      StripReads(radix, Attempt(radix, f, q - 1, RNDN), a);
    }
  }

  // ----- the theorem -----

  /** The number is nearest to a decimal. */
  ghost predicate Stands(radix: Radix, c: Decimal, a: nat) {
    Full(radix, c) && Nearest(DecNum(radix, c), DecDen(radix, c), a)
  }

  /** The digits of the free format. */
  function Printed(radix: Radix, a: nat): Decimal
    requires 0 < a < INFINITY
  {
    NormalizeValue(a);
    Shortest(radix, Normalize(a))
  }

  /** No decimal with fewer digits than those printed has the number as its nearest one. */
  ghost predicate Minimal(radix: Radix, a: nat)
    requires 0 < a < INFINITY
  {
    forall c :: Stands(radix, c, a) ==> Printed(radix, a).digits <= c.digits
  }

  /** A decimal is below the lower midpoint, and the next one above it is not past the upper one. */
  predicate LowerMissed(radix: Radix, a: nat, c: Decimal)
    requires a > 0
  {
    !Below(DecNum(radix, c), DecDen(radix, c), a) && Above(DecNum(radix, NextUp(c)), DecDen(radix, NextUp(c)), a)
  }

  /** So is the closest decimal with some number of digits below the greatest. */
  predicate HigherFits(radix: Radix, a: nat)
    requires a > 0
  {
    exists n :: 1 <= n < PrintDigits(radix) && LowerMissed(radix, a, Attempt(radix, Normalize(a), n, RNDN))
  }

  lemma AboveOrder(x: nat, d: nat, x': nat, d': nat, a: nat)
    requires d > 0 && d' > 0 && x * d' <= x' * d && Above(x', d', a)
    ensures Above(x, d, a)
  {
    hide Units;
    var s := Units(a) + Units(a + 1);
    assert 2 * x * d' == 2 * (x * d') && 2 * (x' * d) == 2 * x' * d && s * d' * d == s * d * d';
    if 2 * x' < s * d' {
      MulStrict(2 * x', s * d', d);
      MulCancelStrict(2 * x, s * d, d');
    } else {
      MulCancel(2 * x, s * d, d');
    }
  }

  lemma SidesOrder(x: nat, d: nat, x': nat, d': nat, u: nat)
    requires x < u * d && u * d' < x' && d > 0 && d' > 0
    ensures x * d' < x' * d
  {
    MulStrict(x, u * d, d');
    MulStrict(u * d', x', d);
    assert u * d * d' == u * d' * d;
  }

  /** If fewer digits would do where the attempt does not, those next above it would. */
  lemma NextAbove(radix: Radix, a: nat, c: Decimal, c': Decimal)
    requires 0 < a < INFINITY && Full(radix, c) && Stands(radix, c', a) && c'.digits == c.digits
    requires NoFarther(Units(a), DecNum(radix, c), DecDen(radix, c), DecNum(radix, c'), DecDen(radix, c'))
    requires !Nearest(DecNum(radix, c), DecDen(radix, c), a)
    ensures !EvenGaps(a) && LowerMissed(radix, a, c)
  {
    hide Units;
    hide Full;
    hide DecNum;
    hide DecDen;
    hide Nearest;
    hide Above;
    hide Below;
    hide EvenGaps;
    var x, d, x', d' := DecNum(radix, c), DecDen(radix, c), DecNum(radix, c'), DecDen(radix, c');
    if EvenGaps(a) || Units(a) * d <= x || x' <= Units(a) * d' {
      CloserFits(a, x, d, x', d');
    } else {
      SidesOrder(x, d, x', d', Units(a));
      Sides(x, d, a);
      NearestIff(x, d, a);
      NothingBetween(radix, c, c');
      NearestIff(x', d', a);
      AboveOrder(DecNum(radix, NextUp(c)), DecDen(radix, NextUp(c)), x', d', a);
    }
  }

  /** A carry out of the first digit. */
  function Rolled(radix: Radix, c: Decimal): Decimal {
    if c.digits == 0 || c.mant < Pow(radix, c.digits) then c
    else Decimal(Pow(radix, c.digits - 1), c.digits, c.exp + 1)
  }

  lemma RolledValue(radix: Radix, c: Decimal)
    requires Full(radix, c)
    ensures var t, r := NextUp(c), Rolled(radix, NextUp(c));
            Full(radix, r) && r.digits == c.digits
            && DecNum(radix, r) * DecDen(radix, t) == DecNum(radix, t) * DecDen(radix, r)
  {
    hide Pow;
    hide UpPow;
    var n := c.digits;
    RadixOnce(radix);
    RadixStep(radix, n);
    if c.mant + 1 == Pow(radix, n) {
      CoarseScale(radix, Pow(radix, n - 1), c.exp - n, 1);
    }
  }

  /** If the decimal next above the attempt is not too far, the number is nearest to it. */
  lemma NextNearest(radix: Radix, a: nat, c: Decimal)
    requires 0 < a < INFINITY && Full(radix, c)
    requires var r := Rolled(radix, NextUp(c));
             NoFarther(Units(a), DecNum(radix, c), DecDen(radix, c), DecNum(radix, r), DecDen(radix, r))
    requires Above(DecNum(radix, NextUp(c)), DecDen(radix, NextUp(c)), a)
    ensures Stands(radix, Rolled(radix, NextUp(c)), a)
  {
    hide Units;
    hide Full;
    hide DecNum;
    hide DecDen;
    hide Nearest;
    hide Above;
    hide Rolled;
    var t, r := NextUp(c), Rolled(radix, NextUp(c));
    var x, d, x', d' := DecNum(radix, c), DecDen(radix, c), DecNum(radix, r), DecDen(radix, r);
    RolledValue(radix, c);
    AboveOrder(x', d', DecNum(radix, t), DecDen(radix, t), a);
    NearestIff(x', d', a);
    NextIsMore(radix, c);
    if x' < Units(a) * d' {
      BothBelow(x, d, x', d', DecNum(radix, t), Units(a));
    }
    Sides(x', d', a);
  }

  lemma NextIsMore(radix: Radix, c: Decimal)
    ensures DecNum(radix, c) < DecNum(radix, NextUp(c)) && DecDen(radix, c) == DecDen(radix, NextUp(c))
  {
    hide Pow;
    hide UpPow;
    var x, w := UpPow(radix, c.exp - c.digits), Pow(2, 1074);
    Grouped(c.mant, x, w, 1);
    Grouped(c.mant + 1, x, w, 1);
    MulStrict(0, x, w);
    MulStrict(c.mant, c.mant + 1, x * w * 1);
  }

  /** Of two fractions below a number the greater one is closer. */
  lemma BothBelow(x: nat, d: nat, x': nat, d': nat, y: nat, u: nat)
    requires d > 0 && d' > 0 && x < y && x' * d == y * d' && x' < u * d'
    ensures !NoFarther(u, x, d, x', d')
  {
    MulStrict(x, y, d');
    MulStrict(x', u * d', d);
    assert u * d * d' == u * d' * d;
    MulCancelStrict(x, u * d, d');
    assert (u * d - x) * d' == u * d * d' - x * d' && (u * d' - x') * d == u * d' * d - x' * d;
  }

  // ----- every length from the printed one on is read back -----

  /** Numbers that are no farther, through a third one. */
  lemma NoFartherThrough(u: nat, x: nat, d: nat, y: nat, e: nat, z: nat, f: nat)
    requires d > 0 && e > 0 && f > 0 && NoFarther(u, x, d, y, e) && NoFarther(u, y, e, z, f)
    ensures NoFarther(u, x, d, z, f)
  {
    OrderThrough(Abs(u * d - x), d, Abs(u * e - y), e, Abs(u * f - z), f);
  }

  lemma OrderThrough(p: nat, d: nat, q: nat, e: nat, r: nat, f: nat)
    requires e > 0 && p * e <= q * d && q * f <= r * e
    ensures p * f <= r * d
  {
    MulMono(p * e, q * d, f);
    MulMono(q * f, r * e, d);
    assert p * e * f == p * f * e && q * d * f == q * f * d && r * e * d == r * d * e;
    MulCancel(p * f, r * d, e);
  }

  /** Equal fractions are equally far. */
  lemma EquallyFar(u: nat, x: nat, d: nat, y: nat, e: nat)
    requires x * e == y * d
    ensures NoFarther(u, x, d, y, e)
  {
    assert (u * d - x) * e == u * d * e - x * e && (u * e - y) * d == u * e * d - y * d;
    assert u * d * e == u * e * d;
    AbsTimes(u * d - x, e);
    AbsTimes(u * e - y, d);
  }

  /** Of two fractions above a number the lesser one is closer. */
  lemma BothAbove(x: nat, d: nat, y: nat, e: nat, u: nat)
    requires d > 0 && e > 0 && u * d < x && x * e < y * d
    ensures !NoFarther(u, y, e, x, d)
  {
    MulStrict(u * d, x, e);
    assert u * d * e == u * e * d;
    MulCancelStrict(u * e, y, d);
    assert (x - u * d) * e == x * e - u * d * e && (y - u * e) * d == y * d - u * e * d;
  }

  lemma BetweenIsCloser(u: nat, x: nat, d: nat, y: nat, e: nat, z: nat, f: nat)
    requires d > 0 && e > 0 && f > 0 && x * e < y * d && y * f < z * e && x < u * d && u * f < z
    requires NoFarther(u, x, d, z, f)
    ensures !NoFarther(u, z, f, y, e)
  {
    if NoFarther(u, z, f, y, e) {
      if u * e < y {
        BothAbove(y, e, z, f, u);
      } else {
        NoFartherThrough(u, x, d, z, f, y, e);
        NotBelow(x, d, y, e, u);
      }
    }
  }

  lemma NotBelow(x: nat, d: nat, y: nat, e: nat, u: nat)
    requires d > 0 && e > 0 && x * e < y * d && y <= u * e
    ensures !NoFarther(u, x, d, y, e)
  {
    MulMono(y, u * e, d);
    assert u * d * e == u * e * d;
    MulCancelStrict(x, u * d, e);
    assert (u * d - x) * e == u * d * e - x * e && (u * e - y) * d == u * e * d - y * d;
  }

  lemma PadRatio(radix: Radix, c: Decimal, n: nat)
    requires c.digits <= n
    ensures var p := PadTo(radix, c, n); DecNum(radix, p) * DecDen(radix, c) == DecNum(radix, c) * DecDen(radix, p)
  {
    hide Pow;
    hide UpPow;
    CoarseScale(radix, c.mant, c.exp - n, n - c.digits);
  }

  /** With a digit more there is a decimal between one and the next. */
  lemma FinerBetween(radix: Radix, c: Decimal, n: nat)
    requires Full(radix, c) && c.digits < n
    ensures var g := NextUp(PadTo(radix, c, n));
            Full(radix, g) && g.digits == n
            && DecNum(radix, c) * DecDen(radix, g) < DecNum(radix, g) * DecDen(radix, c)
            && DecNum(radix, g) * DecDen(radix, NextUp(c)) < DecNum(radix, NextUp(c)) * DecDen(radix, g)
  {
    hide DecNum;
    hide DecDen;
    hide Full;
    var p, t := PadTo(radix, c, n), PadTo(radix, NextUp(c), n);
    PadRatio(radix, c, n);
    PadRatio(radix, NextUp(c), n);
    RoomForOne(radix, c, n);
    NextIsMore(radix, p);
    UnitsLess(radix, NextUp(p), t);
    MulStrict(DecNum(radix, p), DecNum(radix, NextUp(p)), DecDen(radix, c));
    MulStrict(DecNum(radix, NextUp(p)), DecNum(radix, t), DecDen(radix, NextUp(c)));
  }

  lemma RoomForOne(radix: Radix, c: Decimal, n: nat)
    requires Full(radix, c) && c.digits < n
    ensures Full(radix, NextUp(PadTo(radix, c, n))) && NextUp(PadTo(radix, c, n)).mant < PadTo(radix, NextUp(c), n).mant
  {
    hide Pow;
    var k := n - c.digits;
    RadixOnce(radix);
    PowMono(radix, 1, k);
    PowAdd(radix, c.digits, k);
    PowAdd(radix, c.digits - 1, k);
    MulMono(c.mant + 1, Pow(radix, c.digits), Pow(radix, k));
    MulMono(Pow(radix, c.digits - 1), c.mant, Pow(radix, k));
    assert (c.mant + 1) * Pow(radix, k) == c.mant * Pow(radix, k) + Pow(radix, k);
  }

  lemma UnitsLess(radix: Radix, c: Decimal, t: Decimal)
    requires c.exp == t.exp && c.digits == t.digits && c.mant < t.mant
    ensures DecNum(radix, c) < DecNum(radix, t) && DecDen(radix, c) == DecDen(radix, t)
  {
    hide Pow;
    hide UpPow;
    var x, w := UpPow(radix, c.exp - c.digits), Pow(2, 1074);
    Grouped(c.mant, x, w, 1);
    Grouped(t.mant, x, w, 1);
    MulStrict(0, x, w);
    MulStrict(c.mant, t.mant, x * w * 1);
  }

  /** When an attempt is read back, so is the closest decimal of every length down to that of
      its digits without trailing zeros. */
  lemma LengthsBetween(radix: Radix, a: nat, p: nat, n: nat)
    requires 0 < a < INFINITY && 1 <= n <= p
    requires var c := Attempt(radix, Normalize(a), p, RNDN);
             Stands(radix, c, a) && Strip(radix, c).digits <= n
    ensures Stands(radix, Attempt(radix, Normalize(a), n, RNDN), a)
  {
    hide Normalize;
    hide Attempt;
    hide Nearest;
    hide DecNum;
    hide DecDen;
    hide Full;
    hide Units;
    hide EvenGaps;
    hide NoFarther;
    hide PadTo;
    hide NextUp;
    hide Strip;
    NormalizeValue(a);
    AttemptFull(radix, Normalize(a), n, RNDN);
    AttemptFull(radix, Normalize(a), p, RNDN);
    var c, d := Attempt(radix, Normalize(a), p, RNDN), Attempt(radix, Normalize(a), n, RNDN);
    if n < p {
      var e := PadTo(radix, Strip(radix, c), n);
      SameAsPadded(radix, c, n);
      NearestRatio(DecNum(radix, c), DecDen(radix, c), DecNum(radix, e), DecDen(radix, e), a);
      AttemptCloser(radix, a, n, e);
      if EvenGaps(a) || Units(a) * DecDen(radix, d) <= DecNum(radix, d)
        || DecNum(radix, e) <= Units(a) * DecDen(radix, e) {
        CloserFits(a, DecNum(radix, d), DecDen(radix, d), DecNum(radix, e), DecDen(radix, e));
      } else {
        var g, u := NextUp(PadTo(radix, d, p)), Units(a);
        FinerBetween(radix, d, p);
        SidesOrder(DecNum(radix, d), DecDen(radix, d), DecNum(radix, e), DecDen(radix, e), u);
        NothingBetween(radix, d, e);
        LessThrough(DecNum(radix, g), DecDen(radix, g), DecNum(radix, NextUp(d)), DecDen(radix, NextUp(d)),
                    DecNum(radix, e), DecDen(radix, e));
        AttemptCloser(radix, a, p, g);
        EquallyFar(u, DecNum(radix, e), DecDen(radix, e), DecNum(radix, c), DecDen(radix, c));
        NoFartherThrough(u, DecNum(radix, e), DecDen(radix, e), DecNum(radix, c), DecDen(radix, c), DecNum(radix, g),
                         DecDen(radix, g));
        BetweenIsCloser(u, DecNum(radix, d), DecDen(radix, d), DecNum(radix, g), DecDen(radix, g), DecNum(radix, e),
                        DecDen(radix, e));
      }
    }
  }

  lemma LessThrough(x: nat, d: nat, y: nat, e: nat, z: nat, f: nat)
    requires d > 0 && e > 0 && f > 0 && x * e < y * d && y * f <= z * e
    ensures x * f < z * d
  {
    MulStrict(x * e, y * d, f);
    MulMono(y * f, z * e, d);
    assert x * e * f == x * f * e && y * d * f == y * f * d && z * e * d == z * d * e;
    MulCancelStrict(x * f, z * d, e);
  }

  /** The digits without trailing zeros, padded to another length. */
  lemma SameAsPadded(radix: Radix, c: Decimal, n: nat)
    requires Full(radix, c) && Strip(radix, c).digits <= n
    ensures var e := PadTo(radix, Strip(radix, c), n);
            Full(radix, e) && e.digits == n
            && DecNum(radix, c) * DecDen(radix, e) == DecNum(radix, e) * DecDen(radix, c)
  {
    hide DecNum;
    hide DecDen;
    hide Full;
    hide Strip;
    var t := Strip(radix, c);
    var e := PadTo(radix, t, n);
    StripValue(radix, c);
    PadValue(radix, t, n);
    CrossThrough(DecNum(radix, e), DecDen(radix, e), DecNum(radix, t), DecDen(radix, t), DecNum(radix, c),
                 DecDen(radix, c));
  }

  lemma AttemptCloser(radix: Radix, a: nat, n: nat, e: Decimal)
    requires 0 < a < INFINITY && n >= 1 && Full(radix, e) && e.digits == n
    ensures var c := Attempt(radix, Normalize(a), n, RNDN);
            NoFarther(Units(a), DecNum(radix, c), DecDen(radix, c), DecNum(radix, e), DecDen(radix, e))
  {
    hide Normalize;
    hide Attempt;
    hide DecNum;
    hide DecDen;
    hide Full;
    hide Units;
    AttemptNearest(radix, a, n, RNDN, e);
  }

  /** From the length where the loop ends up to the greatest one, the closest decimals are all
      read back. */
  lemma {:induction false} ShortenReads(radix: Radix, a: nat, p: nat, best: Decimal, n: nat)
    requires 0 < a < INFINITY && P52 <= Normalize(a).mant < P53 && -1074 < Normalize(a).exp <= 1024
    requires best.digits == p + 1 && Shorten(radix, Normalize(a), p, best).digits <= n <= p
    ensures n >= 1 ==> Stands(radix, Attempt(radix, Normalize(a), n, RNDN), a)
    decreases p
  {
    hide Normalize;
    hide ReadsBack;
    hide Strip;
    hide Attempt;
    hide Stands;
    if p > 0 && n >= 1 {
      var f := Normalize(a);
      AttemptFull(radix, f, p, RNDN);
      var c := Strip(radix, Attempt(radix, f, p, RNDN));
      FullDigitsOf(radix, c);
      if ReadsBack(radix, c, f) {
        StripReads(radix, Attempt(radix, f, p, RNDN), a);
        ReadStands(radix, Attempt(radix, f, p, RNDN), a);
        if c.digits <= n {
          LengthsBetween(radix, a, p, n);
        } else {
          ShortenReads(radix, a, c.digits - 1, c, n);
        }
      }
    }
  }

  lemma ReadStands(radix: Radix, c: Decimal, a: nat)
    requires Full(radix, c) && Nearest(DecNum(radix, c), DecDen(radix, c), a)
    ensures Stands(radix, c, a)
  {
  }

  lemma PrintedReads(radix: Radix, a: nat, n: nat)
    requires 0 < a < INFINITY && Printed(radix, a).digits <= n <= PrintDigits(radix) && n >= 1
    ensures Stands(radix, Attempt(radix, Normalize(a), n, RNDN), a)
  {
    hide Normalize;
    hide Shorten;
    hide Strip;
    hide Attempt;
    hide Nearest;
    hide DecNum;
    hide DecDen;
    hide Full;
    NormalizeValue(a);
    var f, m := Normalize(a), PrintDigits(radix);
    AttemptFull(radix, f, m, RNDN);
    var c := Attempt(radix, f, m, RNDN);
    MaxDigitsNearest(radix, a);
    FullDigitsOf(radix, Strip(radix, c));
    if Strip(radix, c).digits <= n {
      LengthsBetween(radix, a, m, n);
    } else {
      ShortenReads(radix, a, Strip(radix, c).digits - 1, Strip(radix, c), n);
    }
  }

  // ----- the exact condition -----

  /** The free format prints as few digits as any decimal has that the number is nearest to,
      exactly if for no number of digits the closest decimal falls short where the next one
      above it would do. */
  lemma ShortestMinimal(radix: Radix, a: nat)
    requires 0 < a < INFINITY
    ensures Minimal(radix, a) <==> !HigherFits(radix, a)
    ensures EvenGaps(a) ==> Minimal(radix, a)
  {
    hide Normalize;
    hide Shortest;
    hide Attempt;
    hide Nearest;
    hide DecNum;
    hide DecDen;
    hide Full;
    hide Units;
    hide EvenGaps;
    hide LowerMissed;
    NormalizeValue(a);
    ShortestStops(radix, a);
    ShortestNearest(radix, a);
    var q := Printed(radix, a).digits;
    forall c | Stands(radix, c, a) && c.digits < q
      ensures HigherFits(radix, a) && !EvenGaps(a)
    {
      FullDigitsOf(radix, c);
      FewerDigits(radix, a, q, c);
    }
    if HigherFits(radix, a) {
      var n :| 1 <= n < PrintDigits(radix) && LowerMissed(radix, a, Attempt(radix, Normalize(a), n, RNDN));
      MissedStands(radix, a, n);
    }
  }

  /** Where the closest decimal falls short and the next one would do, fewer digits would do
      than are printed. */
  lemma MissedStands(radix: Radix, a: nat, n: nat)
    requires 0 < a < INFINITY && 1 <= n < PrintDigits(radix)
    requires LowerMissed(radix, a, Attempt(radix, Normalize(a), n, RNDN))
    ensures exists c :: Stands(radix, c, a) && c.digits < Printed(radix, a).digits
  {
    hide Normalize;
    hide Printed;
    hide Attempt;
    hide Nearest;
    hide DecNum;
    hide DecDen;
    hide Full;
    hide Units;
    hide Above;
    hide Below;
    hide NextUp;
    hide Rolled;
    NormalizeValue(a);
    AttemptFull(radix, Normalize(a), n, RNDN);
    var c := Attempt(radix, Normalize(a), n, RNDN);
    RolledValue(radix, c);
    AttemptCloser(radix, a, n, Rolled(radix, NextUp(c)));
    NextNearest(radix, a, c);
    if Printed(radix, a).digits <= n {
      PrintedReads(radix, a, n);
      NearestIff(DecNum(radix, c), DecDen(radix, c), a);
    }
  }

  lemma FewerDigits(radix: Radix, a: nat, q: nat, c: Decimal)
    requires 0 < a < INFINITY && Stands(radix, c, a) && c.digits < q && q > 1
    requires var t := Attempt(radix, Normalize(a), q - 1, RNDN);
             Full(radix, t) && t.digits == q - 1 && !Nearest(DecNum(radix, t), DecDen(radix, t), a)
    ensures !EvenGaps(a) && LowerMissed(radix, a, Attempt(radix, Normalize(a), q - 1, RNDN))
  {
    hide Normalize;
    hide Attempt;
    hide Nearest;
    hide DecNum;
    hide DecDen;
    hide Full;
    hide Units;
    hide LowerMissed;
    var t, p := Attempt(radix, Normalize(a), q - 1, RNDN), PadTo(radix, c, q - 1);
    PadValue(radix, c, q - 1);
    NearestRatio(DecNum(radix, c), DecDen(radix, c), DecNum(radix, p), DecDen(radix, p), a);
    AttemptNearest(radix, a, q - 1, RNDN, p);
    NextAbove(radix, a, t, p);
  }

  /** Only for powers of two above the subnormals a digit can be superfluous. */
  lemma MinimalUnlessPower(radix: Radix, a: nat)
    requires 0 < a < INFINITY && (a <= P52 || a % P52 != 0)
    ensures Minimal(radix, a)
  {
    hide Minimal;
    hide HigherFits;
    GapsEven(a);
    ShortestMinimal(radix, a);
  }

  // ----- a power of two with a digit too many -----

  const TEN29: nat := 100_000_000_000_000_000_000_000_000_000
  const TWO96: nat := 0x1_0000_0000_0000_0000_0000_0000

  /** The magnitude of 2^-44. */
  const MINUS44: nat := 979 * P52

  lemma WitnessPowers()
    ensures Pow(10, 29) == TEN29 && Pow(10, 30) == 10 * TEN29 && Pow(2, 96) == TWO96
    ensures Pow(10, 15) == 1_000_000_000_000_000 && Pow(10, 16) == 10_000_000_000_000_000
      && Pow(10, 17) == 100_000_000_000_000_000
  {
    hide Pow;
    SmallTens();
    PowAdd(10, 2, 2);
    PowAdd(10, 4, 4);
    PowAdd(10, 8, 4);
    PowAdd(10, 12, 2);
    PowAdd(10, 14, 1);
    PowAdd(10, 15, 1);
    PowAdd(10, 16, 1);
    PowAdd(10, 15, 14);
    PowAdd(10, 29, 1);
    SmallPowers();
    PowAdd(2, 6, 6);
    PowAdd(2, 12, 12);
    PowAdd(2, 24, 24);
    PowAdd(2, 48, 48);
  }

  lemma SmallTens()
    ensures Pow(10, 1) == 10 && Pow(10, 2) == 100
  {
  }

  lemma WitnessNormal()
    ensures Normalize(MINUS44) == Float(P52, -43)
  {
  }

  lemma WitnessExp(f: Float)
    requires f.exp == -43
    ensures FirstExp(10, f) == -13
  {
    assert RadixBits(10) == 0 by { PowersOfTwo(10); }
  }

  lemma WitnessScaled(h: int, n: nat, mant: nat)
    requires h > 0 && n == P52 * Pow(10, h) && n / TWO96 == mant && (2 * (n % TWO96) != TWO96)
    ensures RadixRounded(P52, -96, 10, h, RNDN) == if 2 * (n % TWO96) > TWO96 then mant + 1 else mant
  {
    hide RadixRounded;
    hide Pow;
    WitnessPowers();
    RadixRound(P52, -96, 10, h, RNDN);
  }

  /** Seventeen digits, and sixteen. */
  lemma WitnessAttempts()
    ensures var f := Float(P52, -43);
            Attempt(10, f, 17, RNDN) == Decimal(56843418860808015, 17, -13)
            && Attempt(10, f, 16, RNDN) == Decimal(5684341886080801, 16, -13)
  {
    hide RadixRounded;
    hide FirstExp;
    hide Pow;
    var f := Float(P52, -43);
    WitnessPowers();
    WitnessExp(f);
    WitnessScaled(30, P52 * (10 * TEN29), 56843418860808014);
    WitnessScaled(29, P52 * TEN29, 5684341886080801);
  }

  lemma WitnessUnits()
    ensures Units(MINUS44) == 2 * P52 * Pow(2, 977) && Units(MINUS44 + 1) == 2 * (P52 + 1) * Pow(2, 977)
      && Units(MINUS44 - 1) == (P53 - 1) * Pow(2, 977)
  {
    hide Units;
    hide Pow;
    UnitsOf(978, P52);
    UnitsOf(978, P52 + 1);
    UnitsOf(977, P53 - 1);
    PowSteps(977);
  }

  /** Which sixteen digits are rounded to it. */
  lemma WitnessSides(m: nat)
    ensures var c := Decimal(m, 16, -13);
            Nearest(DecNum(10, c), DecDen(10, c), MINUS44)
            <==> (2 * P53 - 1) * TEN29 <= 4 * TWO96 * m <= (2 * P53 + 2) * TEN29
  {
    hide Units;
    hide Pow;
    hide Nearest;
    var c, q := Decimal(m, 16, -13), Pow(2, 977);
    WitnessPowers();
    WitnessUnits();
    PlainUp(10, 29);
    PowAdd(2, 96, 977);
    PowSteps(1073);
    NearestIff(DecNum(10, c), DecDen(10, c), MINUS44);
    CommonFactor((2 * P53 - 1) * TEN29, 4 * TWO96 * m, q);
    CommonFactor(4 * TWO96 * m, (2 * P53 + 2) * TEN29, q);
    assert 2 * DecNum(10, c) == 4 * TWO96 * m * q;
    assert (Units(MINUS44 - 1) + Units(MINUS44)) * TEN29 == (2 * P53 - 1) * TEN29 * q;
    assert (Units(MINUS44) + Units(MINUS44 + 1)) * TEN29 == (2 * P53 + 2) * TEN29 * q;
  }

  lemma CommonFactor(x: nat, y: nat, q: nat)
    requires q > 0
    ensures x <= y <==> x * q <= y * q
    ensures x == y <==> x * q == y * q
  {
    if x < y { MulStrict(x, y, q); } else if y < x { MulStrict(y, x, q); }
  }

  /** 2^-44 is printed as `5.6843418860808015e-14`, although it is the number nearest to
      `5.684341886080802e-14`. */
  lemma SuperfluousDigit()
    ensures Printed(10, MINUS44) == Decimal(56843418860808015, 17, -13)
    ensures Stands(10, Decimal(5684341886080802, 16, -13), MINUS44) && !Minimal(10, MINUS44)
  {
    hide Nearest;
    hide ReadsBack;
    hide Attempt;
    hide Pow;
    hide DecNum;
    hide DecDen;
    hide Normalize;
    var f, c, d := Float(P52, -43), Decimal(56843418860808015, 17, -13), Decimal(5684341886080801, 16, -13);
    WitnessPowers();
    WitnessNormal();
    WitnessAttempts();
    WitnessSides(5684341886080801);
    WitnessSides(5684341886080802);
    StripReads(10, d, MINUS44);
    assert PrintDigits(10) == 17;
    assert Strip(10, c) == c && Strip(10, d) == d;
    assert Shorten(10, f, 16, c) == c;
  }
}
