/** An attempt of the printer is the best decimal with its number of digits. */
module DtoaCloser {
  import opened DtoaArith
  import opened DtoaRound
  import opened DtoaDouble
  import opened DtoaScale
  import opened DtoaTables
  import opened DtoaShortest

  /** The number in units of radix^-h, as a fraction. */
  function PlacesNum(radix: Radix, a: nat, h: int): nat {
    Units(a) * UpPow(radix, h)
  }

  function PlacesDen(radix: Radix, h: int): (d: nat)
    ensures d > 0
  {
    MulStrict(0, Pow(2, 1074), UpPow(radix, -h));
    Pow(2, 1074) * UpPow(radix, -h)
  }

  /** The number of units of radix^-h nearest to it. */
  function RoundedTo(radix: Radix, a: nat, h: int, mode: Mode): nat {
    RoundDiv(PlacesNum(radix, a, h), PlacesDen(radix, h), mode)
  }

  /** Scaling the significand is scaling the number. */
  lemma PlacesScaled(radix: Radix, a: nat, h: int, mode: Mode)
    requires 0 < a < INFINITY
    ensures var f := Normalize(a);
            Num(f.mant, f.exp - 53, radix, h) * PlacesDen(radix, h)
            == PlacesNum(radix, a, h) * Den(f.exp - 53, radix, h)
            && RadixRounded(f.mant, f.exp - 53, radix, h, mode) == RoundedTo(radix, a, h, mode)
  {
    hide Pow;
    hide UpPow;
    hide Units;
    hide Normalize;
    hide RoundDiv;
    hide RadixRounded;
    NormalizeValue(a);
    var f := Normalize(a);
    var e := f.exp - 53;
    RadixRound(f.mant, e, radix, h, mode);
    UnitsFraction(a, f.mant, e);
    PlacesAlgebra(Units(a), f.mant, UpPow(2, e), UpPow(2, -e), UpPow(radix, h), UpPow(radix, -h), Pow(2, 1074));
    RoundDivRatio(Num(f.mant, e, radix, h), Den(e, radix, h), PlacesNum(radix, a, h), PlacesDen(radix, h), mode);
  }

  lemma PlacesAlgebra(u: nat, m: nat, p: nat, q: nat, t: nat, t': nat, w: nat)
    requires u * q == m * p * w
    ensures m * (p * t) * (w * t') == u * t * (q * t')
  {
    assert m * (p * t) * (w * t') == m * p * w * (t * t');
    assert u * t * (q * t') == u * q * (t * t');
  }

  /** All `n` digits are there, the first is not zero, and the mantissa is the exact value,
      rounded once at its last place. */
  lemma AttemptExact(radix: Radix, a: nat, n: nat, mode: Mode)
    requires 0 < a < INFINITY && n >= 1 && mode != RNDZ
    ensures var c := Attempt(radix, Normalize(a), n, mode);
            Full(radix, c) && c.digits == n && c.mant == RoundedTo(radix, a, n - c.exp, mode)
  {
    hide Pow;
    hide Normalize;
    hide RoundedTo;
    hide RadixRounded;
    hide FirstExp;
    hide Full;
    NormalizeValue(a);
    AttemptFull(radix, Normalize(a), n, mode);
    PlacesScaled(radix, a, n - Attempt(radix, Normalize(a), n, mode).exp, mode);
  }

  lemma AttemptExp(radix: Radix, a: nat, n: nat, mode: Mode)
    ensures var f := Normalize(a);
            var e0 := FirstExp(radix, f);
            Attempt(radix, Normalize(a), n, mode).exp == e0
            || (Attempt(radix, Normalize(a), n, mode).exp == e0 + 1
                && Pow(radix, n) <= RadixRounded(f.mant, f.exp - 53, radix, n - e0, mode))
  {
    hide Normalize;
    hide FirstExp;
    hide RadixRounded;
    hide Pow;
  }

  /** The number is not below the least mantissa of `n` digits, or by half a unit at most in
      the place behind the last one. */
  lemma AttemptLower(radix: Radix, a: nat, n: nat, mode: Mode)
    requires 0 < a < INFINITY && n >= 1 && mode != RNDZ
    ensures var h := n - Attempt(radix, Normalize(a), n, mode).exp;
            Pow(radix, n - 1) * PlacesDen(radix, h) <= PlacesNum(radix, a, h)
            || (2 * Pow(radix, n) - 1) * PlacesDen(radix, h + 1) <= 2 * PlacesNum(radix, a, h + 1)
  {
    hide *;
    NormalizeValue(a);
    AttemptExp(radix, a, n, mode);
    var f := Normalize(a);
    var h: int := n - FirstExp(radix, f);
    PlacesScaled(radix, a, h, mode);
    if Attempt(radix, Normalize(a), n, mode).exp == FirstExp(radix, f) {
      ScaledRange(radix, f, n);
      FractionOrder(Pow(radix, n - 1), Num(f.mant, f.exp - 53, radix, h), Den(f.exp - 53, radix, h),
                    PlacesNum(radix, a, h), PlacesDen(radix, h));
    } else {
      RoundedUp(radix, a, h, Pow(radix, n), mode);
    }
  }

  lemma FractionOrder(k: nat, x: nat, d: nat, x': nat, d': nat)
    requires k * d <= x && x * d' == x' * d && d > 0
    ensures k * d' <= x'
  {
    MulMono(k * d, x, d');
    assert k * d * d' == k * d' * d;
    MulCancel(k * d', x', d);
  }

  lemma RoundedUp(radix: Radix, a: nat, h: int, k: nat, mode: Mode)
    requires k > 0 && mode != RNDZ && RoundedTo(radix, a, h, mode) >= k
    ensures (2 * k - 1) * PlacesDen(radix, h) <= 2 * PlacesNum(radix, a, h)
  {
    hide PlacesNum;
    hide PlacesDen;
    var x, d, q := PlacesNum(radix, a, h), PlacesDen(radix, h), RoundedTo(radix, a, h, mode);
    RoundDivNearest(x, d, mode, k - 1);
    assert (2 * k - 1) * d == 2 * (k * d) - d && (k - 1) * d == k * d - d;
    MulMono(k, q, d);
  }

  /** The number, and the unit of the last place, at `k` more places. */
  lemma MorePlaces(radix: Radix, a: nat, h: int, k: nat)
    ensures PlacesNum(radix, a, h) * UpPow(radix, h + k) == PlacesNum(radix, a, h + k) * UpPow(radix, h)
    ensures PlacesDen(radix, h) * UpPow(radix, h + k) == Pow(radix, k) * PlacesDen(radix, h + k) * UpPow(radix, h)
  {
    hide Pow;
    hide UpPow;
    hide Units;
    UpPowSum(radix, h, k);
    PlainUp(radix, k);
    var r, r', s, s' := UpPow(radix, h), UpPow(radix, h + k), UpPow(radix, -h), UpPow(radix, -(h + k));
    var u, w, t := Units(a), Pow(2, 1074), Pow(radix, k);
    UnitsRegrouped(u, w, r, r', s, s', t);
  }

  lemma UnitsRegrouped(u: nat, w: nat, r: nat, r': nat, s: nat, s': nat, t: nat)
    requires r * t * s' == r' * s
    ensures u * r * r' == u * r' * r && w * s * r' == t * (w * s') * r
  {
    assert w * s * r' == w * (r' * s);
    assert t * (w * s') * r == w * (r * t * s');
  }

  /** The distance from `m` units of radix^-h. */
  function Distance(radix: Radix, a: nat, m: nat, h: int): nat {
    Abs(PlacesNum(radix, a, h) - m * PlacesDen(radix, h))
  }

  lemma DistanceFiner(radix: Radix, a: nat, m: nat, h: int, k: nat)
    ensures Distance(radix, a, m, h) * UpPow(radix, h + k)
         == Distance(radix, a, m * Pow(radix, k), h + k) * UpPow(radix, h)
  {
    hide Pow;
    hide UpPow;
    hide PlacesNum;
    hide PlacesDen;
    MorePlaces(radix, a, h, k);
    var x, t := PlacesNum(radix, a, h), PlacesDen(radix, h);
    var x', t' := PlacesNum(radix, a, h + k), PlacesDen(radix, h + k);
    var r, r', p := UpPow(radix, h), UpPow(radix, h + k), Pow(radix, k);
    assert m * t * r' == m * (t * r') && m * p * t' * r == m * (p * t' * r);
    assert (x - m * t) * r' == x * r' - m * t * r' && (x' - m * p * t') * r == x' * r - m * p * t' * r;
    AbsTimes(x - m * t, r');
    AbsTimes(x' - m * p * t', r);
  }

  /** No decimal with as many digits is closer to the number. */
  lemma AttemptNearest(radix: Radix, a: nat, n: nat, mode: Mode, c': Decimal)
    requires 0 < a < INFINITY && n >= 1 && mode != RNDZ && Full(radix, c') && c'.digits == n
    ensures var c := Attempt(radix, Normalize(a), n, mode);
            Abs(Units(a) * DecDen(radix, c) - DecNum(radix, c)) * DecDen(radix, c')
            <= Abs(Units(a) * DecDen(radix, c') - DecNum(radix, c')) * DecDen(radix, c)
  {
    hide Pow;
    hide UpPow;
    hide Units;
    hide Attempt;
    hide Normalize;
    hide Distance;
    AttemptExact(radix, a, n, mode);
    var c := Attempt(radix, Normalize(a), n, mode);
    var h, h' := n - c.exp, n - c'.exp;
    DecimalDistance(radix, a, c);
    DecimalDistance(radix, a, c');
    if h' <= h {
      var k: nat := h - h';
      DistanceFiner(radix, a, c'.mant, h', k);
      NearestDistance(radix, a, h, mode, c'.mant * Pow(radix, k));
      MulMono(Distance(radix, a, c.mant, h), Distance(radix, a, c'.mant * Pow(radix, k), h), UpPow(radix, h'));
    } else {
      var k: nat := h' - h;
      DistanceFiner(radix, a, c.mant, h, k);
      DistanceFiner(radix, a, Pow(radix, n - 1), h, k);
      NearestDistance(radix, a, h, mode, Pow(radix, n - 1));
      MulMono(Distance(radix, a, c.mant, h), Distance(radix, a, Pow(radix, n - 1), h), UpPow(radix, h'));
      MulCancel(Distance(radix, a, c.mant * Pow(radix, k), h'),
                Distance(radix, a, Pow(radix, n - 1) * Pow(radix, k), h'), UpPow(radix, h));
      SmallerFarther(radix, a, n, mode, k, c'.mant);
      MulMono(Distance(radix, a, c.mant * Pow(radix, k), h'), Distance(radix, a, c'.mant, h'), UpPow(radix, h));
    }
  }

  lemma DecimalDistance(radix: Radix, a: nat, c: Decimal)
    ensures Abs(Units(a) * DecDen(radix, c) - DecNum(radix, c)) == Distance(radix, a, c.mant, c.digits - c.exp)
    ensures DecDen(radix, c) == UpPow(radix, c.digits - c.exp)
  {
    hide Pow;
    hide UpPow;
    hide Units;
    var g := c.exp - c.digits;
    assert -g == c.digits - c.exp && -(c.digits - c.exp) == g;
    assert c.mant * UpPow(radix, g) * Pow(2, 1074) == c.mant * (Pow(2, 1074) * UpPow(radix, g));
  }

  lemma NearestDistance(radix: Radix, a: nat, h: int, mode: Mode, k: nat)
    requires mode != RNDZ
    ensures Distance(radix, a, RoundedTo(radix, a, h, mode), h) <= Distance(radix, a, k, h)
  {
    RoundDivNearest(PlacesNum(radix, a, h), PlacesDen(radix, h), mode, k);
  }

  /** At a finer scale, a mantissa of `n` digits is on the far side of the least one. */
  lemma SmallerFarther(radix: Radix, a: nat, n: nat, mode: Mode, k: nat, m: nat)
    requires 0 < a < INFINITY && n >= 1 && mode != RNDZ && k >= 1 && m < Pow(radix, n)
    ensures var h := n - Attempt(radix, Normalize(a), n, mode).exp;
            Distance(radix, a, Pow(radix, n - 1) * Pow(radix, k), h + k) <= Distance(radix, a, m, h + k)
  {
    hide Pow;
    hide UpPow;
    hide Attempt;
    hide Normalize;
    hide PlacesNum;
    hide PlacesDen;
    var h := n - Attempt(radix, Normalize(a), n, mode).exp;
    var x, t, p, z := PlacesNum(radix, a, h + k), PlacesDen(radix, h + k), Pow(radix, n), Pow(radix, k - 1);
    RadixStep(radix, n);
    RadixStep(radix, k);
    var y := Pow(radix, n - 1) * Pow(radix, k);
    assert y == p * z;
    MulMono(1, z, p);
    AttemptLower(radix, a, n, mode);
    if Pow(radix, n - 1) * PlacesDen(radix, h) <= PlacesNum(radix, a, h) {
      MorePlaces(radix, a, h, k);
      SameOrder(1, Pow(radix, n - 1), PlacesNum(radix, a, h), PlacesDen(radix, h), x, t,
                Pow(radix, k), UpPow(radix, h), UpPow(radix, h + k));
      MulMono(m, y, t);
    } else {
      MorePlaces(radix, a, h + 1, k - 1);
      SameOrder(2, 2 * p - 1, PlacesNum(radix, a, h + 1), PlacesDen(radix, h + 1), x, t, z,
                UpPow(radix, h + 1), UpPow(radix, h + k));
      NearBelow(x, t, p, z, m);
    }
  }

  lemma SameOrder(c: nat, m: nat, x: nat, t: nat, x': nat, t': nat, p: nat, r: nat, r': nat)
    requires m * t <= c * x && x * r' == x' * r && t * r' == p * t' * r && r > 0
    ensures m * p * t' <= c * x'
  {
    MulMono(m * t, c * x, r');
    assert m * t * r' == m * (t * r') == m * (p * t' * r) == m * p * t' * r;
    assert c * x * r' == c * (x * r') == c * (x' * r) == c * x' * r;
    MulCancel(m * p * t', c * x', r);
  }

  lemma NearBelow(x: nat, t: nat, p: nat, z: nat, m: nat)
    requires (2 * p - 1) * z * t <= 2 * x && m < p && z >= 1
    ensures Abs(x - p * z * t) <= Abs(x - m * t)
  {
    MidpointBelow(t, p, z, m);
    PastMidpoint(x, p * z * t, m * t);
  }

  lemma MidpointBelow(t: nat, p: nat, z: nat, m: nat)
    requires m < p && z >= 1
    ensures p * z * t + m * t <= (2 * p - 1) * z * t && m * t <= p * z * t
  {
    TwiceLess(p, z);
    MulMono(1, z, p - 1);
    MulMono(1, z, p);
    MulMono(p * z + m, (2 * p - 1) * z, t);
    MulMono(m, p * z, t);
    Distribute(p * z, m, t);
  }

  lemma TwiceLess(p: nat, z: nat)
    requires p > 0
    ensures (2 * p - 1) * z == p * z + (p - 1) * z
  {
  }

  lemma Distribute(x: nat, y: nat, z: nat)
    ensures (x + y) * z == x * z + y * z
  {
  }

  lemma PastMidpoint(x: nat, y: nat, m: nat)
    requires y + m <= 2 * x && m <= y
    ensures Abs(x - y) <= Abs(x - m)
  {
  }
}
