/** The finite binary64 magnitudes, and correct rounding to them. A magnitude is its bit
    pattern without the sign; infinity stands where 2^1024 would be, which is how
    section 4.3.1 of IEEE 754-2019 rounds to it. */
module DtoaDouble {
  import opened DtoaArith
  import opened DtoaRound

  const P52: nat := 0x10_0000_0000_0000
  const P53: nat := 0x20_0000_0000_0000
  const INFINITY: nat := 0x7FF0_0000_0000_0000

  lemma P52Is()
    ensures Pow(2, 52) == P52 && Pow(2, 53) == P53
  {
    assert Pow(2, 10) == 1024;
    PowAdd(2, 10, 10);
    PowAdd(2, 20, 20);
    PowAdd(2, 40, 10);
    PowAdd(2, 50, 2);
    PowAdd(2, 52, 1);
    assert Pow(2, 2) == 4 && Pow(2, 1) == 2;
  }

  /** The value of a magnitude in units of 2^-1074. */
  function Units(a: nat): nat {
    if a < P52 then a else (P52 + a % P52) * Pow(2, a / P52 - 1)
  }

  /** Binary64 of IEEE 754: 2^e has the exponent field e + 1023 and no fraction bits, one bit of
      the fraction adds 2^(e - 52), and the numbers below 2^-1022 are multiples of 2^-1074. */
  lemma Binary64(e: int, f: nat)
    requires -1022 <= e <= 1023 && f < 0x10_0000_0000_0000
    ensures Units((e + 1023) * 0x10_0000_0000_0000 + f) == Pow(2, e + 1074) + f * Pow(2, e + 1022)
    ensures Units(f) == f
  {
    hide Pow;
    P52Is();
    PowAdd(2, 52, e + 1022);
    var a := (e + 1023) * P52 + f;
    DivIs(a, P52, e + 1023, f);
    assert (P52 + f) * Pow(2, e + 1022) == P52 * Pow(2, e + 1022) + f * Pow(2, e + 1022);
  }

  /** `a` is the binary64 magnitude nearest to `x / d` units, ties going to the even one. */
  ghost predicate Nearest(x: nat, d: nat, a: nat) {
    a <= INFINITY
    && (forall b: nat :: b <= INFINITY ==> Closer(x, d, a, b))
  }

  ghost predicate Closer(x: nat, d: nat, a: nat, b: nat) {
    Abs(x - Units(a) * d) <= Abs(x - Units(b) * d)
    && (b != a && Abs(x - Units(a) * d) == Abs(x - Units(b) * d) ==> a % 2 == 0)
  }

  /** A magnitude as a multiple of a power of two: every magnitude has one such form, and
      a mantissa of 2^53 belongs to the next exponent. */
  lemma UnitsOf(k: nat, m: nat)
    requires m <= P53 && (k == 0 || P52 <= m)
    ensures Units(k * P52 + m) == m * Pow(2, k)
  {
    hide Pow;
    hide Units;
    var a := k * P52 + m;
    if m < P52 {
      SmallUnits(m);
      PowSteps(k);
    } else if m < P53 {
      NormalUnits(a, k, m);
    } else {
      NormalUnits(a, k + 1, P52);
      PowSteps(k);
      TwiceP52(Pow(2, k));
    }
  }

  lemma SmallUnits(m: nat)
    requires m < P52
    ensures Units(m) == m
  {
  }

  lemma TwiceP52(p: nat)
    ensures P52 * (2 * p) == P53 * p
  {
  }

  lemma PowSteps(k: nat)
    ensures Pow(2, 0) == 1 && Pow(2, k + 1) == 2 * Pow(2, k)
  {
  }

  lemma NormalUnits(a: nat, k: nat, m: nat)
    requires P52 <= m < P53 && a == k * P52 + m
    ensures Units(a) == m * Pow(2, k)
  {
    assert a == (k + 1) * P52 + (m - P52);
    DivIs(a, P52, k + 1, m - P52);
  }

  lemma UnitsNext(a: nat)
    ensures Units(a) < Units(a + 1)
  {
    if a + 1 >= P52 {
      var k, m := (a + 1) / P52 - 1, (a + 1) % P52 + P52;
      DivParts(a + 1, P52);
      assert a + 1 == k * P52 + m by { assert (k + 1) * P52 == k * P52 + P52; }
      UnitsOf(k, m);
      MulStrict(m - 1, m, Pow(2, k));
      if m > P52 || k == 0 {
        UnitsOf(k, m - 1);
      } else {
        assert a == (k - 1) * P52 + (P53 - 1) by { assert (k - 1) * P52 == k * P52 - P52; }
        UnitsOf(k - 1, P53 - 1);
        assert Pow(2, k) == 2 * Pow(2, k - 1);
        assert P52 * Pow(2, k) == P53 * Pow(2, k - 1);
        MulStrict(P53 - 1, P53, Pow(2, k - 1));
      }
    }
  }

  lemma {:induction false} UnitsMono(a: nat, b: nat)
    requires a < b
    ensures Units(a) < Units(b)
    decreases b
  {
    UnitsNext(b - 1);
    if a < b - 1 { UnitsMono(a, b - 1); }
  }

  /** Between the midpoints to its two neighbours, a magnitude is the nearest one. */
  lemma NearestBetween(x: nat, d: nat, a: nat)
    requires d > 0 && a <= INFINITY
    requires a > 0 ==> (Units(a - 1) + Units(a)) * d <= 2 * x
    requires a > 0 && (Units(a - 1) + Units(a)) * d == 2 * x ==> a % 2 == 0
    requires a < INFINITY ==> 2 * x <= (Units(a) + Units(a + 1)) * d
    requires a < INFINITY && 2 * x == (Units(a) + Units(a + 1)) * d ==> a % 2 == 0
    ensures Nearest(x, d, a)
  {
    forall b: nat | b <= INFINITY ensures Closer(x, d, a, b) {
      if b < a {
        NearestAbove(x, d, a, b);
      } else if a < b {
        NearestBelow(x, d, a, b);
      }
    }
  }

  lemma NearestAbove(x: nat, d: nat, a: nat, b: nat)
    requires d > 0 && b < a
    requires (Units(a - 1) + Units(a)) * d <= 2 * x
    requires (Units(a - 1) + Units(a)) * d == 2 * x ==> a % 2 == 0
    ensures Closer(x, d, a, b)
  {
    hide Units;
    var u, v, w := Units(a) * d, Units(b) * d, Units(a - 1) * d;
    assert (Units(a - 1) + Units(a)) * d == w + u;
    UnitsMono(a - 1, a);
    MulStrict(Units(a - 1), Units(a), d);
    if b < a - 1 {
      UnitsMono(b, a - 1);
      MulStrict(Units(b), Units(a - 1), d);
    }
  }

  lemma NearestBelow(x: nat, d: nat, a: nat, b: nat)
    requires d > 0 && a < b
    requires 2 * x <= (Units(a) + Units(a + 1)) * d
    requires 2 * x == (Units(a) + Units(a + 1)) * d ==> a % 2 == 0
    ensures Closer(x, d, a, b)
  {
    hide Units;
    var u, v, w := Units(a) * d, Units(b) * d, Units(a + 1) * d;
    assert (Units(a) + Units(a + 1)) * d == u + w;
    UnitsMono(a, a + 1);
    MulStrict(Units(a), Units(a + 1), d);
    if a + 1 < b {
      UnitsMono(a + 1, b);
      MulStrict(Units(a + 1), Units(b), d);
    }
  }

  /** There is only one nearest magnitude. */
  lemma NearestUnique(x: nat, d: nat, a: nat, b: nat)
    requires d > 0 && Nearest(x, d, a) && Nearest(x, d, b)
    ensures a == b
  {
    hide Units;
    assert Closer(x, d, a, b) && Closer(x, d, b, a);
    assert a < b ==> Closer(x, d, a, a + 1);
    assert b < a ==> Closer(x, d, b, b + 1);
    if a < b { NotTied(x, d, a, b); }
    if b < a { NotTied(x, d, b, a); }
  }

  /** Two magnitudes can only tie as neighbours, and then one of them is odd. */
  lemma NotTied(x: nat, d: nat, a: nat, b: nat)
    requires d > 0 && a < b && Closer(x, d, a, a + 1) && Closer(x, d, a, b)
    ensures !Closer(x, d, b, a)
  {
    hide Units;
    UnitsMono(a, a + 1);
    MulStrict(Units(a), Units(a + 1), d);
    if a + 1 < b {
      UnitsMono(a + 1, b);
      MulStrict(Units(a + 1), Units(b), d);
    }
  }

  lemma CompareRatio(x: nat, y: nat, x': nat, y': nat, d: nat, d': nat)
    requires d > 0 && d' > 0 && x * d' == x' * d && y * d' == y' * d
    ensures x <= y <==> x' <= y'
    ensures x == y <==> x' == y'
  {
    if x <= y { MulMono(x, y, d'); MulCancel(x', y', d); }
    if x' <= y' { MulMono(x', y', d); MulCancel(x, y, d'); }
    if y <= x { MulMono(y, x, d'); MulCancel(y', x', d); }
    if y' <= x' { MulMono(y', x', d); MulCancel(y, x, d'); }
  }

  lemma DistanceRatio(n: nat, d: nat, n': nat, d': nat, u: nat)
    requires n * d' == n' * d
    ensures Abs(n - u * d) * d' == Abs(n' - u * d') * d
  {
    AbsTimes(n - u * d, d');
    AbsTimes(n' - u * d', d);
    assert (n - u * d) * d' == n * d' - u * d * d';
    assert (n' - u * d') * d == n' * d - u * d' * d;
    assert u * d * d' == u * d' * d;
  }

  lemma CloserRatio(n: nat, d: nat, n': nat, d': nat, a: nat, b: nat)
    requires d > 0 && d' > 0 && n * d' == n' * d && Closer(n, d, a, b)
    ensures Closer(n', d', a, b)
  {
    hide Units;
    DistanceRatio(n, d, n', d', Units(a));
    DistanceRatio(n, d, n', d', Units(b));
    var x, y, x', y' := Abs(n - Units(a) * d), Abs(n - Units(b) * d), Abs(n' - Units(a) * d'), Abs(n' - Units(b) * d');
    CompareRatio(x, y, x', y', d, d');
  }

  /** Equal fractions have the same nearest magnitudes. */
  lemma NearestRatio(n: nat, d: nat, n': nat, d': nat, a: nat)
    requires d > 0 && d' > 0 && n * d' == n' * d && Nearest(n, d, a)
    ensures Nearest(n', d', a)
  {
    hide Units;
    forall b: nat | b <= INFINITY ensures Closer(n', d', a, b) {
      assert Closer(n, d, a, b);
      CloserRatio(n, d, n', d', a, b);
    }
  }

  // ----- rounding by exponent -----

  /** The exponent of the quantum in which `x / d` units are rounded. */
  function Quantum(x: nat, d: nat): nat
    requires d > 0
  {
    if x / d == 0 then 0 else var l := FloorLog2(x / d); if l <= 52 then 0 else l - 52
  }

  /** `x / d` units rounded to 53 bits, or to a multiple of one unit. */
  function RoundBits(x: nat, d: nat): nat
    requires d > 0
  {
    var k := Quantum(x, d);
    assert d * Pow(2, k) > 0 by { MulStrict(0, d, Pow(2, k)); }
    var a := k * P52 + RoundDiv(x, d * Pow(2, k), RNDN);
    if a < INFINITY then a else INFINITY
  }

  lemma QuantumBounds(x: nat, d: nat)
    requires d > 0
    ensures var k := Quantum(x, d);
            x < P53 * (d * Pow(2, k)) && (k > 0 ==> P52 * (d * Pow(2, k)) <= x)
  {
    var k, q := Quantum(x, d), x / d;
    var p := Pow(2, k);
    DivParts(x, d);
    P52Is();
    assert (q + 1) * d == q * d + d;
    if q > 0 {
      FloorLog2Bounds(q);
      var l := FloorLog2(q);
      if k > 0 {
        PowAdd(2, 52, k);
        PowAdd(2, 53, k);
      } else {
        PowMono(2, l + 1, 53);
      }
      assert q + 1 <= P53 * p;
      assert k > 0 ==> P52 * p <= q;
    } else {
      assert q + 1 <= P53 * p;
    }
    MulMono(q + 1, P53 * p, d);
    assert P53 * p * d == P53 * (d * p) && P52 * p * d == P52 * (d * p);
    if k > 0 { MulMono(P52 * p, q, d); }
  }

  lemma RoundDivRange(n: nat, d: nat, mode: Mode, lo: nat, hi: nat)
    requires d > 0 && lo * d <= n <= hi * d
    ensures lo <= RoundDiv(n, d, mode) <= hi
  {
    var q, r := n / d, n % d;
    DivParts(n, d);
    assert (q + 1) * d == q * d + d;
    MulCancelStrict(lo, q + 1, d);
    MulCancel(q, hi, d);
    if q == hi { assert r == 0; }
  }

  /** Correct rounding of any fraction: `RoundBits` computes the nearest magnitude. */
  lemma RoundBitsNearest(x: nat, d: nat)
    requires d > 0
    ensures Nearest(x, d, RoundBits(x, d))
  {
    hide Nearest;
    hide Units;
    hide RoundDiv;
    hide Quantum;
    var k := Quantum(x, d);
    var p := Pow(2, k);
    var g := d * p;
    QuantumBounds(x, d);
    MulStrict(0, d, p);
    var m := RoundDiv(x, g, RNDN);
    RoundDivRange(x, g, RNDN, if k > 0 then P52 else 0, P53);
    var a := k * P52 + m;
    if a > INFINITY {
      PastInfinity(x, d, k, m);
    } else {
      RoundedNearest(x, d, k, m);
    }
  }

  lemma HalfBounds(n: nat, g: nat, mode: Mode)
    requires g > 0 && mode != RNDZ
    ensures var m := RoundDiv(n, g, mode);
            2 * n <= (2 * m + 1) * g && (2 * m - 1) * g <= 2 * n
            && (mode == RNDN && (2 * n == (2 * m + 1) * g || (2 * m - 1) * g == 2 * n) ==> m % 2 == 0)
  {
    var q, r := n / g, n % g;
    DivParts(n, g);
    var m := RoundDiv(n, g, mode);
    assert (2 * m + 1) * g == 2 * (m * g) + g && (2 * m - 1) * g == 2 * (m * g) - g;
    assert (q + 1) * g == q * g + g;
  }

  lemma SameParity(k: nat, m: nat)
    ensures (k * P52 + m) % 2 == m % 2
  {
    EvenSum(k * 0x8_0000_0000_0000, m);
  }

  lemma EvenSum(h: nat, m: nat)
    ensures (2 * h + m) % 2 == m % 2
  {
  }

  lemma RoundedNearest(x: nat, d: nat, k: nat, m: nat)
    requires d > 0 && d * Pow(2, k) > 0 && m == RoundDiv(x, d * Pow(2, k), RNDN)
    requires m <= P53 && (k > 0 ==> P52 <= m) && k * P52 + m <= INFINITY
    requires x <= P53 * (d * Pow(2, k)) && (k > 0 ==> P52 * (d * Pow(2, k)) <= x)
    ensures Nearest(x, d, k * P52 + m)
  {
    hide Nearest;
    hide Units;
    hide RoundDiv;
    hide Pow;
    var p := Pow(2, k);
    var g := d * p;
    var a := k * P52 + m;
    HalfBounds(x, g, RNDN);
    UnitsOf(k, m);
    SameParity(k, m);
    assert m * p * d == m * g;
    if a > 0 {
      LowerMidpoint(x, d, k, m);
    }
    if a < INFINITY {
      UpperMidpoint(x, d, k, m);
    }
    NearestBetween(x, d, a);
  }

  lemma SumTimes(u: nat, v: nat, w: nat, p: nat, d: nat)
    requires u + v == w
    ensures (u * p + v * p) * d == w * (d * p)
  {
    assert u * p + v * p == w * p;
    assert w * p * d == w * (d * p);
  }

  lemma LowerMidpoint(x: nat, d: nat, k: nat, m: nat)
    requires d > 0 && m <= P53 && (k > 0 ==> P52 <= m) && k * P52 + m > 0
    requires (2 * m - 1) * (d * Pow(2, k)) <= 2 * x && ((2 * m - 1) * (d * Pow(2, k)) == 2 * x ==> m % 2 == 0)
    requires k > 0 ==> P52 * (d * Pow(2, k)) <= x
    ensures var a := k * P52 + m;
            (Units(a - 1) + Units(a)) * d <= 2 * x && ((Units(a - 1) + Units(a)) * d == 2 * x ==> m % 2 == 0)
  {
    hide Units;
    hide Pow;
    var a := k * P52 + m;
    UnitsOf(k, m);
    if m > P52 || k == 0 {
      UnitsOf(k, m - 1);
      SumTimes(m - 1, m, 2 * m - 1, Pow(2, k), d);
    } else {
      UnitsMono(a - 1, a);
      MidpointBelow(Units(a - 1), P52, Pow(2, k), d, x);
    }
  }

  lemma MidpointBelow(u: nat, m: nat, p: nat, d: nat, x: nat)
    requires u < m * p && d > 0 && m * (d * p) <= x
    ensures (u + m * p) * d < 2 * x
  {
    MulStrict(u, m * p, d);
    assert (u + m * p) * d == u * d + m * p * d;
    assert m * p * d == m * (d * p);
  }

  lemma MidpointAbove(u: nat, m: nat, p: nat, d: nat, x: nat)
    requires m * p < u && d > 0 && x <= m * (d * p)
    ensures 2 * x < (m * p + u) * d
  {
    MulStrict(m * p, u, d);
    assert (m * p + u) * d == m * p * d + u * d;
    assert m * p * d == m * (d * p);
  }

  lemma UpperMidpoint(x: nat, d: nat, k: nat, m: nat)
    requires d > 0 && m <= P53 && (k > 0 ==> P52 <= m)
    requires 2 * x <= (2 * m + 1) * (d * Pow(2, k)) && (2 * x == (2 * m + 1) * (d * Pow(2, k)) ==> m % 2 == 0)
    requires x <= P53 * (d * Pow(2, k))
    ensures var a := k * P52 + m;
            2 * x <= (Units(a) + Units(a + 1)) * d && (2 * x == (Units(a) + Units(a + 1)) * d ==> m % 2 == 0)
  {
    hide Units;
    hide Pow;
    var a := k * P52 + m;
    UnitsOf(k, m);
    if m < P53 {
      UnitsOf(k, m + 1);
      SumTimes(m, m + 1, 2 * m + 1, Pow(2, k), d);
    } else {
      UnitsMono(a, a + 1);
      MidpointAbove(Units(a + 1), P53, Pow(2, k), d, x);
    }
  }

  lemma PastInfinity(x: nat, d: nat, k: nat, m: nat)
    requires d > 0 && d * Pow(2, k) > 0 && m <= P53 && k * P52 + m > INFINITY
    requires P52 * (d * Pow(2, k)) <= x || k == 0
    ensures Nearest(x, d, INFINITY)
  {
    hide Pow;
    hide Nearest;
    hide Units;
    assert k >= 2046;
    PowMono(2, 2046, k);
    UnitsOf(2046, P52);
    assert 2046 * P52 + P52 == INFINITY;
    MulMono(Pow(2, 2046), Pow(2, k), d);
    MulMono(d * Pow(2, 2046), d * Pow(2, k), P52);
    assert P52 * Pow(2, 2046) * d == P52 * (d * Pow(2, 2046));
    UnitsMono(INFINITY - 1, INFINITY);
    MulStrict(Units(INFINITY - 1), Units(INFINITY), d);
    assert (Units(INFINITY - 1) + Units(INFINITY)) * d == Units(INFINITY - 1) * d + Units(INFINITY) * d;
    NearestBetween(x, d, INFINITY);
  }

  // ----- where rounding ends at infinity, and at zero -----

  /** Twice the point half-way between the greatest finite magnitude and 2^1024, in units. */
  function TwiceTop(): nat {
    (2 * P53 - 1) * Pow(2, 2045)
  }

  lemma TopUnits()
    ensures Units(INFINITY - 1) + Units(INFINITY) == TwiceTop()
  {
    hide Pow;
    hide Units;
    UnitsOf(2045, P53 - 1);
    UnitsOf(2045, P53);
    assert (P53 - 1) * Pow(2, 2045) + P53 * Pow(2, 2045) == (2 * P53 - 1) * Pow(2, 2045);
  }

  lemma RoundsToInfinity(x: nat, d: nat)
    requires d > 0
    ensures RoundBits(x, d) == INFINITY <==> TwiceTop() * d <= 2 * x
  {
    hide Pow;
    hide Units;
    hide RoundBits;
    TopUnits();
    RoundBitsNearest(x, d);
    if TwiceTop() * d <= 2 * x {
      NearestBetween(x, d, INFINITY);
      NearestUnique(x, d, INFINITY, RoundBits(x, d));
    } else {
      UnitsNext(INFINITY - 1);
      FartherAbove(x, d, Units(INFINITY - 1), Units(INFINITY));
      assert !Closer(x, d, INFINITY, INFINITY - 1);
    }
  }

  /** Below the midpoint the upper point is farther. */
  lemma FartherAbove(x: nat, d: nat, u: nat, v: nat)
    requires 2 * x < (u + v) * d && u < v
    ensures Abs(x - u * d) < Abs(x - v * d)
  {
    assert (u + v) * d == u * d + v * d;
    MulMono(u, v, d);
  }

  lemma RoundsToZero(x: nat, d: nat)
    requires d > 0
    ensures RoundBits(x, d) == 0 <==> 2 * x <= d
  {
    hide RoundBits;
    RoundBitsNearest(x, d);
    if 2 * x <= d {
      NearestBetween(x, d, 0);
      NearestUnique(x, d, 0, RoundBits(x, d));
    } else {
      assert !Closer(x, d, 0, 1);
    }
  }
}
