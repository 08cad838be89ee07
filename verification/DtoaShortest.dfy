/** The free format: the digits that are printed are read back as the same number. The
    greatest number of digits is accepted without a check, fewer only after one. */
module DtoaShortest {
  import opened DtoaArith
  import opened DtoaRound
  import opened DtoaDouble
  import opened DtoaScale
  import opened DtoaTables
  import opened DtoaLog

  /** `mant * radix^(exp - digits)`: `digits` digits, the decimal point after `exp` of them. */
  datatype Decimal = Decimal(mant: nat, digits: nat, exp: int)

  /** The value of a decimal as a fraction, in units of 2^-1074. */
  function DecNum(radix: Radix, c: Decimal): nat {
    c.mant * UpPow(radix, c.exp - c.digits) * Pow(2, 1074)
  }

  function DecDen(radix: Radix, c: Decimal): (d: nat)
    ensures d > 0
  {
    UpPow(radix, -(c.exp - c.digits))
  }

  /** The significand and exponent of a non-zero magnitude, subnormals normalized. */
  function Normalize(a: nat): Float {
    if a < P52 then
      var l := if a == 0 then 0 else 52 - FloorLog2(a);
      if l < 0 then Float(a, -1021) else Float(a * Pow(2, l), -1021 - l)
    else Float(P52 + a % P52, a / P52 - 1022)
  }

  function ScaledMant(radix: Radix, f: Float, p: nat, e: int, mode: Mode): nat {
    RadixRounded(f.mant, f.exp - 53, radix, p - e, mode)
  }

  /** The first guess of the decimal exponent. */
  function FirstExp(radix: Radix, f: Float): int {
    1 + MulLog2Radix(f.exp - 1, radix)
  }

  /** The rounded mantissa of `p` digits. */
  function Attempt(radix: Radix, f: Float, p: nat, mode: Mode): Decimal {
    var e := FirstExp(radix, f);
    if ScaledMant(radix, f, p, e, mode) < Pow(radix, p) then Decimal(ScaledMant(radix, f, p, e, mode), p, e)
    else Decimal(ScaledMant(radix, f, p, e + 1, mode), p, e + 1)
  }

  /** All digits are used: the first one is not zero. */
  predicate Full(radix: Radix, c: Decimal) {
    c.digits >= 1 && Pow(radix, c.digits - 1) <= c.mant < Pow(radix, c.digits)
  }

  /** Remove trailing zeros. */
  function Strip(radix: Radix, c: Decimal): (s: Decimal)
    requires Full(radix, c)
    ensures Full(radix, s) && s.digits <= c.digits
    decreases c.digits
  {
    if c.mant % radix == 0 then
      StripOnce(radix, c);
      Strip(radix, Decimal(c.mant / radix, c.digits - 1, c.exp))
    else c
  }

  lemma StripOnce(radix: Radix, c: Decimal)
    requires Full(radix, c) && c.mant % radix == 0
    ensures c.digits >= 2 && Full(radix, Decimal(c.mant / radix, c.digits - 1, c.exp))
  {
    hide Pow;
    var m, t := c.mant / radix, Pow(radix, c.digits - 1);
    DivParts(c.mant, radix);
    RadixStep(radix, c.digits);
    MulCancelStrict(m, t, radix);
    RadixOnce(radix);
    if c.digits >= 2 {
      RadixStep(radix, c.digits - 1);
      MulCancel(Pow(radix, c.digits - 2), m, radix);
    }
  }

  /** The check of `js_dtoa`: converting back gives the same significand and exponent. */
  predicate ReadsBack(radix: Radix, c: Decimal, f: Float) {
    var s := RadixScaled(c.mant, radix, c.exp - c.digits, false, 55);
    RoundToD(s.value, s.offset) == f
  }

  // ----- the value of a normalized number -----

  /** `a` units are `m * 2^(e-53)`. */
  lemma NormalizeValue(a: nat)
    requires 0 < a < INFINITY
    ensures var f := Normalize(a);
            P52 <= f.mant < P53 && -1074 < f.exp <= 1024
            && Units(a) * UpPow(2, -(f.exp + 1021)) == f.mant * UpPow(2, f.exp + 1021)
  {
    hide Pow;
    P52Is();
    if a < P52 {
      var l := FloorLog2(a);
      FloorLog2Bounds(a);
      if l >= 52 { PowMono(2, 52, l); }
      PowAdd(2, l, 52 - l);
      PowAdd(2, l + 1, 52 - l);
      MulMono(Pow(2, l), a, Pow(2, 52 - l));
      MulStrict(a, Pow(2, l + 1), Pow(2, 52 - l));
    } else {
      var q := a / P52;
      DivParts(a, P52);
      assert q <= 2046;
      PowZero(2);
    }
  }

  /** Packing undoes normalizing. */
  lemma PackNormalize(a: nat)
    requires 0 < a < INFINITY
    ensures var f := Normalize(a); PackBits(f.mant, f.exp) == a
  {
    hide Pow;
    NormalizeValue(a);
    P52Is();
    if a < P52 {
      var l := FloorLog2(a);
      FloorLog2Bounds(a);
      if l >= 52 { PowMono(2, 52, l); }
      DivIs(a * Pow(2, 52 - l), Pow(2, 52 - l), a, 0);
    } else {
      DivParts(a, P52);
      DivIs(P52 + a % P52, P52, 1, a % P52);
    }
  }

  // ----- one unit in the last digit -----

  /** `radix^g < 2^k`, for exponents of either sign. */
  predicate UnitLess(radix: Radix, g: int, k: int) {
    UpPow(radix, g) * UpPow(2, -k) < UpPow(2, k) * UpPow(radix, -g)
  }

  /** One unit in the last of `p` digits, against one unit in the last place of binary64. */
  lemma UnitShift(radix: Radix, g: int, k: int, i: nat, j: nat)
    requires UpPow(radix, g + i) * UpPow(2, -(k + j)) <= UpPow(2, k + j) * UpPow(radix, -(g + i))
    requires Pow(2, j) < Pow(radix, i)
    ensures UnitLess(radix, g, k)
  {
    hide Pow;
    hide UpPow;
    UpPowSum(radix, g, i);
    UpPowSum(2, k, j);
    PlainUp(radix, i);
    PlainUp(2, j);
    Quotients(UpPow(radix, g), UpPow(radix, -g), UpPow(radix, g + i), UpPow(radix, -(g + i)), Pow(radix, i),
              UpPow(2, k), UpPow(2, -k), UpPow(2, k + j), UpPow(2, -(k + j)), Pow(2, j));
  }

  lemma Regroup5(a: nat, b: nat, s: nat, x: nat, y: nat)
    ensures a * b * (s * (x * y)) == a * s * x * (b * y)
  {
  }

  lemma Regroup4(x: nat, a: nat, b: nat, y: nat)
    ensures x * a * (b * y) == x * y * (a * b)
  {
  }

  /** `x <= y`, `t < s` give `x / s < y / t`, on fractions. */
  lemma Quotients(a: nat, a': nat, x: nat, x': nat, s: nat, b: nat, b': nat, y: nat, y': nat, t: nat)
    requires a' > 0 && x' > 0 && b > 0 && b' > 0 && y' > 0 && s > 0 && t > 0 && y > 0
    requires a * s * x' == x * a' && b * t * y' == y * b' && x * y' <= y * x' && t < s
    ensures a * b' < b * a'
  {
    var z := x' * y';
    MulStrict(0, x', y');
    Regroup5(a, b', s, x', y');
    Regroup4(x, a', b', y');
    Regroup5(b, a', t, y', x');
    Regroup4(y, b', a', x');
    assert y' * x' == z && b' * a' == a' * b';
    MulMono(x * y', y * x', a' * b');
    MulStrict(0, b, a');
    Chain(a * b', b * a', s, t, z);
  }

  lemma Chain(l: nat, r: nat, s: nat, t: nat, z: nat)
    requires l * (s * z) <= r * (t * z) && t < s && z > 0 && r > 0
    ensures l < r
  {
    MulStrict(t, s, z);
    MulStrict(t * z, s * z, r);
    MulCancelStrict(l, r, s * z);
  }

  /** Half a unit in the last decimal digit, in units of 2^-1074. */
  lemma RoundingError(radix: Radix, a: nat, mant: nat, g: int)
    requires 0 < a < INFINITY
    requires Den(Normalize(a).exp - 53, radix, -g) > 0
    requires var f := Normalize(a);
             mant == RoundDiv(Num(f.mant, f.exp - 53, radix, -g), Den(f.exp - 53, radix, -g), RNDN)
    ensures Abs(2 * (Units(a) * UpPow(radix, -g)) - 2 * (mant * UpPow(radix, g) * Pow(2, 1074)))
         <= UpPow(radix, g) * Pow(2, 1074)
  {
    hide Pow;
    hide UpPow;
    hide Units;
    hide Normalize;
    hide RoundDiv;
    NormalizeValue(a);
    var f := Normalize(a);
    var e := f.exp - 53;
    var p, q, d, r, w := UpPow(2, e), UpPow(2, -e), UpPow(radix, -g), UpPow(radix, g), Pow(2, 1074);
    var n, den := Num(f.mant, e, radix, -g), Den(e, radix, -g);
    HalfBounds(n, den, RNDN);
    assert (2 * mant + 1) * den == 2 * (mant * den) + den && (2 * mant - 1) * den == 2 * (mant * den) - den;
    UnitsFraction(a, f.mant, e);
    ErrorInUnits(Units(a), f.mant, p, q, d, r, w, mant);
  }

  /** `a` units as a fraction. */
  lemma UnitsFraction(a: nat, m: nat, e: int)
    requires Units(a) * UpPow(2, -(e + 1074)) == m * UpPow(2, e + 1074)
    ensures Units(a) * UpPow(2, -e) == m * UpPow(2, e) * Pow(2, 1074)
  {
    hide Pow;
    hide UpPow;
    UpPowSum(2, e, 1074);
    PlainUp(2, 1074);
    // U * n' = m * n, p * w * n' = n * q
    CrossUnits(Units(a), m, UpPow(2, e), UpPow(2, -e), UpPow(2, e + 1074), UpPow(2, -(e + 1074)), Pow(2, 1074));
  }

  lemma CrossUnits(u: nat, m: nat, p: nat, q: nat, n: nat, n': nat, w: nat)
    requires u * n' == m * n && p * w * n' == n * q && n' > 0
    ensures u * q == m * p * w
  {
    assert u * q * n' == m * (n * q) by { assert u * q * n' == u * n' * q; assert m * n * q == m * (n * q); }
    assert m * p * w * n' == m * (p * w * n');
    MulCancel(u * q, m * p * w, n');
    MulCancel(m * p * w, u * q, n');
  }

  lemma ErrorInUnits(u: nat, m: nat, p: nat, q: nat, d: nat, r: nat, w: nat, mant: nat)
    requires u * q == m * p * w && q > 0 && w > 0
    requires Abs(2 * (m * (p * d)) - 2 * (mant * (q * r))) <= q * r
    ensures Abs(2 * (u * d) - 2 * (mant * r * w)) <= r * w
  {
    var x, y, z := u * d, mant * r * w, r * w;
    var x', y', z' := m * (p * d), mant * (q * r), q * r;
    assert x * q == x' * w by { assert x * q == u * q * d; assert x' * w == m * p * w * d; }
    assert y * q == y' * w;
    assert z * q == z' * w;
    ScaledAbs(x, y, z, x', y', z', q, w);
  }

  lemma Spread(x: int, y: int, q: nat)
    ensures (2 * x - 2 * y) * q == 2 * (x * q) - 2 * (y * q)
  {
  }

  lemma OneSided(x: nat, y: nat, z: nat, x': nat, y': nat, z': nat, q: nat, w: nat)
    requires q > 0 && x * q == x' * w && y * q == y' * w && z * q == z' * w && 2 * x' - 2 * y' <= z'
    ensures 2 * x - 2 * y <= z
  {
    MulMonoInt(2 * x' - 2 * y', z', w);
    Spread(x', y', w);
    Spread(x, y, q);
    MulCancel(2 * x - 2 * y, z, q);
  }

  lemma ScaledAbs(x: nat, y: nat, z: nat, x': nat, y': nat, z': nat, q: nat, w: nat)
    requires q > 0 && x * q == x' * w && y * q == y' * w && z * q == z' * w
    requires Abs(2 * x' - 2 * y') <= z'
    ensures Abs(2 * x - 2 * y) <= z
  {
    OneSided(x, y, z, x', y', z', q, w);
    OneSided(y, x, z, y', x', z', q, w);
  }

  // ----- the range of the rounded mantissa -----

  lemma LeftSide(t: nat, q: nat, h: nat, h': nat, a: nat, a': nat, b': nat)
    requires t * h' * a' == h * a
    ensures t * (q * h') * (a' * b') == a * b' * (q * h)
  {
    assert t * (q * h') * (a' * b') == t * h' * a' * (q * b');
    assert h * a * (q * b') == a * b' * (q * h);
  }

  lemma RightSide(b: nat, q: nat, b': nat, p: nat, n: nat, a': nat, h: nat)
    requires b * q == b' * p * n
    ensures b * a' * (q * h) == n * (p * h) * (a' * b')
  {
    assert b * a' * (q * h) == b * q * (a' * h);
    assert b' * p * n * (a' * h) == n * (p * h) * (a' * b');
  }

  lemma LowAlgebra(t: nat, q: nat, h: nat, h': nat, a: nat, a': nat, b: nat, b': nat, p: nat, m: nat, n: nat)
    requires a * b' <= b * a' && t * h' * a' == h * a && b * q == b' * p * n && n <= m && a' > 0 && b' > 0
    ensures t * (q * h') <= m * (p * h)
  {
    LeftSide(t, q, h, h', a, a', b');
    RightSide(b, q, b', p, n, a', h);
    MulStrict(0, a', b');
    MulMono(a * b', b * a', q * h);
    MulCancel(t * (q * h'), n * (p * h), a' * b');
    MulMono(n, m, p * h);
  }

  lemma HighAlgebra(t: nat, q: nat, h: nat, h': nat, a: nat, a': nat, b: nat, b': nat, p: nat, m: nat, n: nat)
    requires b * a' < a * b' && t * h' * a' == h * a && b * q == b' * p * n && m <= 2 * n && a' > 0 && b' > 0 && q > 0
      && h > 0
    ensures m * (p * h) < 2 * t * (q * h')
  {
    LeftSide(t, q, h, h', a, a', b');
    RightSide(b, q, b', p, n, a', h);
    MulStrict(0, a', b');
    MulStrict(0, q, h);
    MulStrict(b * a', a * b', q * h);
    MulCancelStrict(n * (p * h), t * (q * h'), a' * b');
    MulMono(m, 2 * n, p * h);
    assert 2 * n * (p * h) == 2 * (n * (p * h)) && 2 * t * (q * h') == 2 * (t * (q * h'));
  }

  /** With the first guess of the exponent, the scaled number has `p` digits, or is less
      than twice too big. */
  lemma ScaledRange(radix: Radix, f: Float, p: nat)
    requires P52 <= f.mant < P53 && -1074 < f.exp <= 1024 && p >= 1
    ensures var h := p - FirstExp(radix, f);
            Pow(radix, p - 1) * Den(f.exp - 53, radix, h) <= Num(f.mant, f.exp - 53, radix, h)
              < 2 * Pow(radix, p) * Den(f.exp - 53, radix, h)
  {
    hide Pow;
    hide UpPow;
    hide MulLog2Radix;
    var e, e0 := f.exp, FirstExp(radix, f);
    var h: int := p - e0;
    MulLog2RadixExact(e - 1, radix);
    UpPowSum(2, e - 53, 52);
    PlainUp(2, 52);
    P52Is();
    UpPowSum(radix, h, e0 - 1);
    PlainUp(radix, p - 1);
    UpPowSum(radix, h, e0);
    PlainUp(radix, p);
    LowAlgebra(Pow(radix, p - 1), UpPow(2, -(e - 53)), UpPow(radix, h), UpPow(radix, -h), UpPow(radix, e0 - 1),
      UpPow(radix, -(e0 - 1)),
               UpPow(2, e - 1), UpPow(2, -(e - 1)), UpPow(2, e - 53), f.mant, P52);
    HighAlgebra(Pow(radix, p), UpPow(2, -(e - 53)), UpPow(radix, h), UpPow(radix, -h), UpPow(radix, e0),
                UpPow(radix, -e0), UpPow(2, e - 1), UpPow(2, -(e - 1)), UpPow(2, e - 53), f.mant, P52);
  }

  /** With the first guess, in a radix that is a power of two, it has `p` digits. */
  lemma BinaryRange(radix: Radix, f: Float, p: nat)
    requires P52 <= f.mant < P53 && -1074 < f.exp <= 1024 && RadixBits(radix) != 0
    ensures var h := p - FirstExp(radix, f);
            Num(f.mant, f.exp - 53, radix, h) < Pow(radix, p) * Den(f.exp - 53, radix, h)
  {
    hide Pow;
    hide UpPow;
    hide MulLog2Radix;
    var e, b, e0 := f.exp, RadixBits(radix), FirstExp(radix, f);
    var h: int := p - e0;
    BinaryExponent(radix, e - 1);
    RadixUpPow(radix, h);
    RadixIsPower(radix, p);
    UpPowSum(2, e - 53, h * b);
    UpPowSum(2, e - 53 + h * b, 53);
    PlainUp(2, 53);
    PlainUp(2, p * b);
    P52Is();
    UpPowOrder(e + h * b, p * b);
    assert e + h * b <= p * b by { assert (p - e0) * b == p * b - e0 * b; }
    BinaryAlgebra(f.mant, UpPow(2, e - 53), UpPow(2, -(e - 53)), UpPow(2, h * b), UpPow(2, -(h * b)),
      UpPow(2, e - 53 + h * b), UpPow(2, -(e - 53 + h * b)), UpPow(2, e + h * b), UpPow(2, -(e + h * b)),
      Pow(2, p * b));
  }

  lemma BinaryExponent(radix: Radix, a: int)
    requires RadixBits(radix) != 0
    ensures a < (MulLog2Radix(a, radix) + 1) * RadixBits(radix)
  {
    FloorParts(a, RadixBits(radix), MulLog2Radix(a, radix));
  }

  lemma BinaryAlgebra(m: nat, p: nat, q: nat, h: nat, h': nat, x: nat, x': nat, y: nat, y': nat, t: nat)
    requires p * h * x' == x * q * h' && x * P53 * y' == y * x' && y <= t * y' && m < P53
    requires p > 0 && q > 0 && h > 0 && h' > 0 && x' > 0 && y' > 0 && x > 0
    ensures m * (p * h) < t * (q * h')
  {
    MulStrict(0, q, h');
    MulStrict(0, p, h);
    MulStrict(m, P53, p * h);
    Group3(x, q, h');
    MulMono(y, t * y', x');
    BinaryCancel(p * h, x, q * h', x', y', t);
  }

  lemma BinaryCancel(g: nat, x: nat, k: nat, x': nat, y': nat, t: nat)
    requires g * x' == x * k && x * P53 * y' <= t * y' * x' && x' > 0 && y' > 0
    ensures P53 * g <= t * k
  {
    var w := x' * y';
    MulStrict(0, x', y');
    MulMono(x * P53 * y', t * y' * x', k);
    assert P53 * g * w == x * P53 * y' * k by { assert P53 * g * w == g * x' * (P53 * y'); }
    assert t * k * w == t * y' * x' * k;
    MulCancel(P53 * g, t * k, w);
  }

  /** One exponent more divides the scaled number by the radix. */
  lemma NextExponent(radix: Radix, m: nat, e: int, h: int)
    ensures Num(m, e, radix, h - 1) * radix * Den(e, radix, h) == Num(m, e, radix, h) * Den(e, radix, h - 1)
  {
    hide Pow;
    hide UpPow;
    UpPowSum(radix, h - 1, 1);
    PlainUp(radix, 1);
    RadixOnce(radix);
    NextAlgebra(radix, m, UpPow(2, e), UpPow(2, -e), UpPow(radix, h), UpPow(radix, -h), UpPow(radix, h - 1),
      UpPow(radix, -(h - 1)));
  }

  lemma RadixOnce(radix: nat)
    ensures Pow(radix, 0) == 1 && Pow(radix, 1) == radix
  {
  }

  lemma RadixStep(radix: nat, p: nat)
    requires p >= 1
    ensures Pow(radix, p) == radix * Pow(radix, p - 1)
  {
  }

  lemma NextAlgebra(b: nat, m: nat, p: nat, q: nat, h: nat, h': nat, g: nat, g': nat)
    requires g * b * h' == h * g'
    ensures m * (p * g) * b * (q * h') == m * (p * h) * (q * g')
  {
    assert m * (p * g) * b * (q * h') == m * p * q * (g * b * h');
    assert m * (p * h) * (q * g') == m * p * q * (h * g');
  }

  lemma RoundDivAtLeast(n: nat, d: nat, lo: nat, mode: Mode)
    requires mode != RNDZ && d > 0 && (2 * lo - 1) * d < 2 * n
    ensures lo <= RoundDiv(n, d, mode)
  {
    hide RoundDiv;
    HalfBounds(n, d, mode);
    MulCancelStrict(2 * lo - 1, 2 * RoundDiv(n, d, mode) + 1, d);
  }

  /** The second guess, after a first one that rounded to too many digits. */
  lemma SecondGuess(b: nat, n: nat, d: nat, n': nat, d': nat, t: nat, k: nat, mode: Mode)
    requires mode != RNDZ && b >= 2 && d > 0 && d' > 0 && t > 0 && n' * b * d == n * d'
    requires b * t <= RoundDiv(n, d, mode) && n < k * (b * t) * d
    ensures t <= RoundDiv(n', d', mode) <= k * t
  {
    hide RoundDiv;
    HalfBounds(n, d, mode);
    var m := RoundDiv(n, d, mode);
    MulMonoInt(2 * (b * t) - 1, 2 * m - 1, d);
    SecondLow(b, n, d, n', d', t);
    SecondHigh(b, n, d, n', d', t, k);
    RoundDivAtLeast(n', d', t, mode);
    RoundDivRange(n', d', mode, 0, k * t);
  }

  lemma Exchange(x: int, y: nat, z: nat)
    ensures x * y * z == x * z * y
  {
  }

  lemma SecondLow(b: nat, n: nat, d: nat, n': nat, d': nat, t: nat)
    requires b >= 2 && d > 0 && d' > 0 && t > 0 && n' * b * d == n * d' && (2 * (b * t) - 1) * d <= 2 * n
    ensures (2 * t - 1) * d' < 2 * n'
  {
    ThroughDivisors(2 * (b * t) - 1, n, d, n' * b, d');
    Regroup3(b, t, d');
    SecondStep(b, n', d', t * d');
    assert (2 * t - 1) * d' == 2 * (t * d') - d';
  }

  /** A bound of one fraction is a bound of an equal one. */
  lemma ThroughDivisors(k: int, n: nat, d: nat, m: nat, d': nat)
    requires d > 0 && m * d == n * d' && k * d <= 2 * n
    ensures k * d' <= 2 * m
  {
    MulMonoInt(k * d, 2 * n, d');
    Exchange(k, d, d');
    Assoc(2, n, d');
    Assoc(2, m, d);
    MulCancel(k * d', 2 * m, d);
  }

  lemma Regroup3(b: nat, t: nat, d: nat)
    ensures (2 * (b * t) - 1) * d == 2 * (t * d * b) - d
  {
    assert (2 * (b * t) - 1) * d == 2 * (b * t * d) - d;
    assert b * t * d == t * d * b;
  }

  lemma SecondStep(b: nat, n': nat, d': nat, x: nat)
    requires b >= 2 && d' > 0 && 2 * (x * b) - d' <= 2 * (n' * b)
    ensures 2 * x - d' < 2 * n'
  {
    if 2 * n' <= 2 * x - d' {
      MulMonoInt(2 * n', 2 * x - d', b);
      assert (2 * x - d') * b == 2 * (x * b) - d' * b && 2 * n' * b == 2 * (n' * b);
      MulStrict(1, b, d');
    }
  }

  lemma SecondHigh(b: nat, n: nat, d: nat, n': nat, d': nat, t: nat, k: nat)
    requires b >= 2 && d > 0 && d' > 0 && n' * b * d == n * d' && n < k * (b * t) * d
    ensures n' <= k * t * d'
  {
    MulStrict(n, k * (b * t) * d, d');
    Exchange(k * (b * t), d, d');
    MulCancelStrict(n' * b, k * (b * t) * d', d);
    assert k * (b * t) * d' == k * t * d' * b by { assert k * (b * t) == k * t * b; }
    MulCancelStrict(n', k * t * d', b);
  }

  /** What `js_dtoa` relies on: one correction of the exponent is enough, and the mantissa
      then has exactly `p` digits. */
  lemma AttemptFull(radix: Radix, f: Float, p: nat, mode: Mode)
    requires mode != RNDZ && P52 <= f.mant < P53 && -1074 < f.exp <= 1024 && p >= 1
    ensures Full(radix, Attempt(radix, f, p, mode)) && Attempt(radix, f, p, mode).digits == p
  {
    hide Pow;
    hide RoundDiv;
    hide Num;
    hide Den;
    hide RadixRounded;
    hide MulLog2Radix;
    var e0 := FirstExp(radix, f);
    var h: int := p - e0;
    var n, d := Num(f.mant, f.exp - 53, radix, h), Den(f.exp - 53, radix, h);
    var n', d' := Num(f.mant, f.exp - 53, radix, h - 1), Den(f.exp - 53, radix, h - 1);
    var t := Pow(radix, p - 1);
    RadixStep(radix, p);
    RadixRound(f.mant, f.exp - 53, radix, h, mode);
    RadixRound(f.mant, f.exp - 53, radix, h - 1, mode);
    ScaledRange(radix, f, p);
    if RoundDiv(n, d, mode) < radix * t {
      RoundDivRange(n, d, mode, t, 2 * (radix * t));
    } else {
      NextExponent(radix, f.mant, f.exp - 53, h);
      if radix == 2 {
        BinaryRange(radix, f, p);
        SecondGuess(radix, n, d, n', d', t, 1, mode);
      } else {
        SecondGuess(radix, n, d, n', d', t, 2, mode);
        MulStrict(2, radix, t);
      }
    }
  }

  // ----- the greatest number of digits is enough -----

  lemma GuardLess(radix: Radix, e: int, e0: int, g: int)
    requires IsLog(e - 1, radix, e0 - 1) && g == e0 - PrintDigits(radix) && RadixBits(radix) == 0
    ensures UnitLess(radix, g, e - 54) && UnitLess(radix, g, e - 53)
  {
    hide Pow;
    hide UpPow;
    hide UnitLess;
    hide PrintDigits;
    EnoughDigits(radix);
    UnitShift(radix, g, e - 54, PrintDigits(radix) - 1, 53);
    UnitShift(radix, g, e - 53, PrintDigits(radix) - 1, 52);
  }

  lemma EnoughDigits(radix: Radix)
    requires RadixBits(radix) == 0
    ensures Pow(2, 52) < Pow(2, 53) < Pow(radix, PrintDigits(radix) - 1)
  {
    P52Is();
    DigitLimits(radix);
  }

  /** When the mantissa needed the second exponent, the number is close to its upper end. */
  lemma CarryLess(radix: Radix, f: Float, g: int, t: nat)
    requires P52 <= f.mant < P53 && P53 < t
    requires radix * t <= RoundDiv(Num(f.mant, f.exp - 53, radix, 1 - g), Den(f.exp - 53, radix, 1 - g), RNDN)
    requires Pow(radix, PrintDigits(radix) - 1) == t
    ensures UnitLess(radix, g, f.exp - 53) && (f.mant == P52 ==> UnitLess(radix, g, f.exp - 54))
  {
    hide Pow;
    hide UpPow;
    hide RoundDiv;
    hide PrintDigits;
    var n, d := Num(f.mant, f.exp - 53, radix, 1 - g), Den(f.exp - 53, radix, 1 - g);
    HalfBounds(n, d, RNDN);
    MulMonoInt(2 * (radix * t) - 1, 2 * RoundDiv(n, d, RNDN) - 1, d);
    UpPowSum(radix, g - 1, 1);
    PlainUp(radix, 1);
    RadixOnce(radix);
    UpPowSum(2, f.exp - 54, 1);
    PlainUp(2, 1);
    TwoOnce();
    CarryAlgebra(radix, t, f.mant, UpPow(2, f.exp - 53), UpPow(2, -(f.exp - 53)), UpPow(radix, 1 - g),
      UpPow(radix, -(1 - g)), UpPow(radix, g), UpPow(radix, -g));
    if f.mant == P52 {
      HalfAlgebra(UpPow(radix, g), UpPow(radix, -g), UpPow(2, f.exp - 53), UpPow(2, -(f.exp - 53)),
        UpPow(2, f.exp - 54), UpPow(2, -(f.exp - 54)));
    }
  }

  lemma TwoOnce()
    ensures Pow(2, 1) == 2
  {
    assert Pow(2, 0) == 1;
  }

  lemma CarryLeft(b: nat, k: nat, q: nat, r: nat, h: nat, h': nat, r': nat)
    requires h' * b * r' == r * h
    ensures k * (q * h') * (b * r') == k * (r * q) * h
  {
    assert k * (q * h') * (b * r') == k * q * (h' * b * r');
    assert k * q * (r * h) == k * (r * q) * h;
  }

  lemma CarryRight(b: nat, m: nat, p: nat, h: nat, r': nat)
    ensures 2 * (m * (p * h)) * (b * r') == 2 * (b * m) * (p * r') * h
  {
    assert 2 * (m * (p * h)) * (b * r') == 2 * (m * p * h * (b * r'));
    assert m * p * h * (b * r') == b * m * (p * r') * h;
  }

  lemma CarryAlgebra(b: nat, t: nat, m: nat, p: nat, q: nat, h: nat, h': nat, r: nat, r': nat)
    requires P52 <= m < P53 < t && b >= 2 && p > 0 && q > 0 && h > 0 && h' > 0 && r > 0 && r' > 0
    requires (2 * (b * t) - 1) * (q * h') <= 2 * (m * (p * h)) && h' * b * r' == r * h
    ensures r * q < p * r'
    ensures m == P52 ==> 2 * (r * q) < p * r'
  {
    var x, y, k: nat := r * q, p * r', 2 * (b * t) - 1;
    MulMono(k * (q * h'), 2 * (m * (p * h)), b * r');
    CarryLeft(b, k, q, r, h, h', r');
    CarryRight(b, m, p, h, r');
    MulCancel(k * x, 2 * (b * m) * y, h);
    MulStrict(0, r, q);
    CarryBounds(b, t, m, k);
    CarryCompare(b, m, k, x, y);
  }

  lemma CarryCompare(b: nat, m: nat, k: nat, x: nat, y: nat)
    requires 2 * (b * P53) < k && b * m <= b * P53 && k * x <= 2 * (b * m) * y && x > 0
    ensures x < y && (m == P52 ==> 2 * x < y)
  {
    MulStrict(2 * (b * P53), k, x);
    if y <= x {
      MulMono(y, x, 2 * (b * m));
      MulMono(2 * (b * m), 2 * (b * P53), x);
    }
    if m == P52 && y <= 2 * x { MulMono(y, 2 * x, 2 * (b * P52)); }
  }

  lemma CarryBounds(b: nat, t: nat, m: nat, k: int)
    requires b >= 2 && m < P53 < t && k == 2 * (b * t) - 1
    ensures 2 * (b * P53) < k && 2 * (b * m) <= 2 * (b * P53)
  {
    MulMono(P53 + 1, t, b);
    assert b * (P53 + 1) == b * P53 + b;
    MulMono(m, P53, b);
  }

  lemma HalfAlgebra(r: nat, r': nat, p: nat, q: nat, p': nat, q': nat)
    requires p' * 2 * q == p * q' && 2 * (r * q) < p * r' && q' > 0 && q > 0
    ensures r * q' < p' * r'
  {
    MulStrict(2 * (r * q), p * r', q');
    assert 2 * (r * q) * q' == r * q' * (2 * q);
    assert p * r' * q' == p' * r' * (2 * q) by {
      assert p * r' * q' == p * q' * r';
      assert p' * 2 * q * r' == p' * r' * (2 * q);
    }
    MulCancelStrict(r * q', p' * r', 2 * q);
  }

  /** A unit of the radix below a binary one, in units of 2^-1074. */
  lemma GapBound(radix: Radix, g: int, k: int, gap: nat)
    requires UnitLess(radix, g, k) && gap >= 1 && (k + 1074 >= 0 ==> Pow(2, k + 1074) <= gap)
    ensures UpPow(radix, g) * Pow(2, 1074) < gap * UpPow(radix, -g)
  {
    hide Pow;
    hide UpPow;
    var r, d, w := UpPow(radix, g), UpPow(radix, -g), Pow(2, 1074);
    if k >= 0 {
      PlainUp(2, k);
      PowAdd(2, k, 1074);
      GapScaled(r, d, w, 1, Pow(2, k), w, gap);
    } else {
      PlainUp(2, -k);
      if k + 1074 >= 0 {
        PowAdd(2, k + 1074, -k);
        GapScaled(r, d, w, Pow(2, -k), 1, Pow(2, k + 1074), gap);
      } else {
        PowMono(2, 1074, -k);
        MulMono(w, Pow(2, -k), r);
        MulMono(1, gap, d);
      }
    }
  }

  lemma GapScaled(r: nat, d: nat, w: nat, x: nat, y: nat, p: nat, gap: nat)
    requires r * x < y * d && w == p * x && y * p <= gap && p > 0
    ensures r * w < gap * d
  {
    MulStrict(r * x, y * d, p);
    MulMono(y * p, gap, d);
    assert r * x * p == r * (p * x) && y * d * p == y * p * d;
  }

  /** The distances to the two neighbours. */
  lemma GapSizes(a: nat)
    requires 0 < a < INFINITY
    ensures var k := Normalize(a).exp - 53 + 1074;
            Units(a + 1) - Units(a) >= 1 && (k >= 0 ==> Units(a + 1) - Units(a) >= Pow(2, k))
            && Units(a) - Units(a - 1) >= 1
            && (k >= 0 && Normalize(a).mant > P52 ==> Units(a) - Units(a - 1) >= Pow(2, k))
            && (k - 1 >= 0 ==> Units(a) - Units(a - 1) >= Pow(2, k - 1))
  {
    hide Units;
    hide Pow;
    UnitsMono(a, a + 1);
    UnitsMono(a - 1, a);
    if a >= P52 {
      var k, m := a / P52 - 1, P52 + a % P52;
      DivParts(a, P52);
      assert a == k * P52 + m;
      UnitsOf(k, m);
      UnitsOf(k, m + 1);
      assert (m + 1) * Pow(2, k) == m * Pow(2, k) + Pow(2, k);
      if m > P52 {
        UnitsOf(k, m - 1);
        assert (m - 1) * Pow(2, k) == m * Pow(2, k) - Pow(2, k);
        if k >= 1 { PowSteps(k - 1); }
      } else if k >= 1 {
        assert a - 1 == (k - 1) * P52 + (P53 - 1);
        UnitsOf(k - 1, P53 - 1);
        PowSteps(k - 1);
        assert (P53 - 1) * Pow(2, k - 1) == P53 * Pow(2, k - 1) - Pow(2, k - 1);
        assert P52 * (2 * Pow(2, k - 1)) == P53 * Pow(2, k - 1);
      }
    } else {
      P52Is();
      FloorLog2Bounds(a);
      if FloorLog2(a) >= 52 { PowMono(2, 52, FloorLog2(a)); }
    }
  }

  /** A decimal is read back when it is off by less than half the distance to each
      neighbour. */
  lemma CloseIsNearest(a: nat, n: nat, d: nat, err: nat)
    requires 0 < a < INFINITY && d > 0 && Abs(2 * (Units(a) * d) - 2 * n) <= err
    requires Units(a + 1) >= Units(a) >= Units(a - 1)
    requires err < (Units(a + 1) - Units(a)) * d && err < (Units(a) - Units(a - 1)) * d
    ensures Nearest(n, d, a)
  {
    hide Units;
    hide Nearest;
    var u, v, w := Units(a), Units(a + 1), Units(a - 1);
    assert (v - u) * d == v * d - u * d && (u - w) * d == u * d - w * d;
    assert (w + u) * d == w * d + u * d && (u + v) * d == u * d + v * d;
    NearestBetween(n, d, a);
  }

  lemma UnitLessAttempt(radix: Radix, f: Float)
    requires P52 <= f.mant < P53 && -1074 < f.exp <= 1024 && RadixBits(radix) == 0
    ensures var g := Attempt(radix, f, PrintDigits(radix), RNDN).exp - PrintDigits(radix);
            UnitLess(radix, g, f.exp - 53) && (f.mant == P52 ==> UnitLess(radix, g, f.exp - 54))
  {
    hide Pow;
    hide UpPow;
    hide UnitLess;
    hide MulLog2Radix;
    hide RadixRounded;
    hide RoundDiv;
    hide PrintDigits;
    hide RadixBits;
    hide IsLog;
    var e0, p := FirstExp(radix, f), PrintDigits(radix);
    MulLog2RadixExact(f.exp - 1, radix);
    GuardLess(radix, f.exp, e0, e0 - p);
    if ScaledMant(radix, f, p, e0, RNDN) >= Pow(radix, p) {
      EnoughDigits(radix);
      P52Is();
      RadixStep(radix, p);
      RadixRound(f.mant, f.exp - 53, radix, p - e0, RNDN);
      CarryLess(radix, f, e0 + 1 - p, Pow(radix, p - 1));
    }
  }

  /** The first attempt needs no check: that many digits are always read back. In a radix
      that is a power of two they are exact. */
  lemma MaxDigitsNearest(radix: Radix, a: nat)
    requires 0 < a < INFINITY
    ensures var c := Attempt(radix, Normalize(a), PrintDigits(radix), RNDN);
            Nearest(DecNum(radix, c), DecDen(radix, c), a)
  {
    if RadixBits(radix) == 0 {
      MaxDigitsClose(radix, a);
    } else {
      MaxDigitsExact(radix, a);
    }
  }

  lemma MaxDigitsClose(radix: Radix, a: nat)
    requires 0 < a < INFINITY && RadixBits(radix) == 0
    ensures var c := Attempt(radix, Normalize(a), PrintDigits(radix), RNDN);
            Nearest(DecNum(radix, c), DecDen(radix, c), a)
  {
    hide Pow;
    hide UpPow;
    hide Units;
    hide Nearest;
    hide UnitLess;
    hide Normalize;
    hide RoundDiv;
    hide RadixRounded;
    hide FirstExp;
    hide PrintDigits;
    hide RadixBits;
    NormalizeValue(a);
    var f, p := Normalize(a), PrintDigits(radix);
    var c := Attempt(radix, f, p, RNDN);
    var g := c.exp - p;
    UnitLessAttempt(radix, f);
    RadixRound(f.mant, f.exp - 53, radix, -g, RNDN);
    RoundingError(radix, a, c.mant, g);
    GapSizes(a);
    var up, down := Units(a + 1) - Units(a), Units(a) - Units(a - 1);
    GapBound(radix, g, f.exp - 53, up);
    GapBound(radix, g, if f.mant == P52 then f.exp - 54 else f.exp - 53, down);
    CloseIsNearest(a, DecNum(radix, c), DecDen(radix, c), UpPow(radix, g) * Pow(2, 1074));
  }

  lemma BinaryDigits(radix: Radix)
    requires RadixBits(radix) != 0
    ensures (PrintDigits(radix) - 1) * RadixBits(radix) >= 53
  {
    PowersOfTwo(radix);
    FewBits();
  }

  /** In a radix that is a power of two nothing is rounded. */
  lemma MaxDigitsExact(radix: Radix, a: nat)
    requires 0 < a < INFINITY && RadixBits(radix) != 0
    ensures var c := Attempt(radix, Normalize(a), PrintDigits(radix), RNDN);
            Nearest(DecNum(radix, c), DecDen(radix, c), a)
  {
    hide Pow;
    hide UpPow;
    hide Units;
    hide Nearest;
    hide Normalize;
    hide RoundDiv;
    hide RadixRounded;
    hide FirstExp;
    hide PrintDigits;
    hide RadixBits;
    hide Num;
    hide Den;
    NormalizeValue(a);
    var f, p := Normalize(a), PrintDigits(radix);
    var h: int := p - FirstExp(radix, f);
    var n, d := Num(f.mant, f.exp - 53, radix, h), Den(f.exp - 53, radix, h);
    RadixRound(f.mant, f.exp - 53, radix, h, RNDN);
    BinaryRange(radix, f, p);
    BinaryDivides(radix, f, h);
    var mant := RoundDiv(n, d, RNDN);
    MulCancelStrict(mant, Pow(radix, p), d);
    UnitsExact(radix, a, mant, h);
    var c := Attempt(radix, f, p, RNDN);
    UnitsMono(a, a + 1);
    UnitsMono(a - 1, a);
    MulStrict(Units(a), Units(a + 1), DecDen(radix, c));
    MulStrict(Units(a - 1), Units(a), DecDen(radix, c));
    CloseIsNearest(a, DecNum(radix, c), DecDen(radix, c), 0);
  }

  lemma BinaryDivides(radix: Radix, f: Float, h: int)
    requires RadixBits(radix) != 0 && h == PrintDigits(radix) - FirstExp(radix, f)
    ensures var n, d := Num(f.mant, f.exp - 53, radix, h), Den(f.exp - 53, radix, h); RoundDiv(n, d, RNDN) * d == n
  {
    hide Pow;
    hide UpPow;
    hide MulLog2Radix;
    hide PrintDigits;
    hide RadixBits;
    var e, b, p := f.exp, RadixBits(radix), PrintDigits(radix);
    var s: int := e - 53 + h * b;
    BinaryDigits(radix);
    FloorLow(radix, e - 1);
    assert s >= 0 by { assert h * b == p * b - FirstExp(radix, f) * b && (p - 1) * b == p * b - b; }
    RadixUpPow(radix, h);
    UpPowSum(2, e - 53, h * b);
    PlainUp(2, s);
    var n, d := Num(f.mant, e - 53, radix, h), Den(e - 53, radix, h);
    assert n == f.mant * Pow(2, s) * d by {
      Group3(UpPow(2, s), UpPow(2, -(e - 53)), UpPow(2, -(h * b)));
      Group3(f.mant, UpPow(2, s), d);
    }
    DivIs(n, d, f.mant * Pow(2, s), 0);
  }

  lemma FloorLow(radix: Radix, a: int)
    requires RadixBits(radix) != 0
    ensures MulLog2Radix(a, radix) * RadixBits(radix) <= a
  {
    FloorParts(a, RadixBits(radix), MulLog2Radix(a, radix));
  }

  /** An exact mantissa stands for exactly the number. */
  lemma UnitsExact(radix: Radix, a: nat, mant: nat, h: int)
    requires 0 < a < INFINITY
    requires var f := Normalize(a); mant * Den(f.exp - 53, radix, h) == Num(f.mant, f.exp - 53, radix, h)
    ensures Units(a) * UpPow(radix, h) == mant * UpPow(radix, -h) * Pow(2, 1074)
  {
    hide Pow;
    hide UpPow;
    hide Units;
    hide Normalize;
    NormalizeValue(a);
    var f := Normalize(a);
    UnitsFraction(a, f.mant, f.exp - 53);
    var e := f.exp - 53;
    ExactUnits(Units(a), f.mant, UpPow(2, e), UpPow(2, -e), UpPow(radix, h), UpPow(radix, -h), Pow(2, 1074), mant);
  }

  lemma ExactUnits(u: nat, m: nat, p: nat, q: nat, d: nat, r: nat, w: nat, mant: nat)
    requires u * q == m * p * w && q > 0 && mant * (q * r) == m * (p * d)
    ensures u * d == mant * r * w
  {
    assert u * d * q == m * p * w * d by { assert u * d * q == u * q * d; }
    assert m * p * w * d == m * (p * d) * w;
    assert mant * (q * r) * w == mant * r * w * q;
    MulCancel(u * d, mant * r * w, q);
    MulCancel(mant * r * w, u * d, q);
  }

  // ----- fewer digits -----

  /** Removing zeros changes nothing but the number of digits. */
  lemma {:induction false} StripValue(radix: Radix, c: Decimal)
    requires Full(radix, c)
    ensures DecNum(radix, Strip(radix, c)) * DecDen(radix, c) == DecNum(radix, c) * DecDen(radix, Strip(radix, c))
    decreases c.digits
  {
    hide Full;
    hide DecNum;
    hide DecDen;
    if c.mant % radix == 0 {
      StripOnce(radix, c);
      var s := Decimal(c.mant / radix, c.digits - 1, c.exp);
      var t := Strip(radix, s);
      StripValue(radix, s);
      StripStep(radix, c, s);
      CrossThrough(DecNum(radix, t), DecDen(radix, t), DecNum(radix, s), DecDen(radix, s), DecNum(radix, c),
        DecDen(radix, c));
    }
  }

  lemma StripStep(radix: Radix, c: Decimal, s: Decimal)
    requires c.mant == s.mant * radix && c.digits == s.digits + 1 && c.exp == s.exp
    ensures DecNum(radix, s) * DecDen(radix, c) == DecNum(radix, c) * DecDen(radix, s)
  {
    hide Pow;
    hide UpPow;
    OneZero(radix, s.mant, c.exp - c.digits);
  }

  lemma OneZero(radix: Radix, m: nat, g: int)
    ensures m * UpPow(radix, g + 1) * Pow(2, 1074) * UpPow(radix, -g)
      == m * radix * UpPow(radix, g) * Pow(2, 1074) * UpPow(radix, -(g + 1))
  {
    hide Pow;
    hide UpPow;
    UpPowSum(radix, g, 1);
    PlainUp(radix, 1);
    RadixOnce(radix);
    var w := m * Pow(2, 1074);
    assert m * UpPow(radix, g + 1) * Pow(2, 1074) * UpPow(radix, -g) == w * (UpPow(radix, g + 1) * UpPow(radix, -g));
    assert m * radix * UpPow(radix, g) * Pow(2, 1074) * UpPow(radix, -(g + 1))
      == w * (UpPow(radix, g) * radix * UpPow(radix, -(g + 1)));
  }

  lemma CrossThrough(n: nat, d: nat, k: nat, l: nat, x: nat, y: nat)
    requires l > 0 && n * l == k * d && k * y == x * l
    ensures n * y == x * d
  {
    assert n * y * l == n * l * y && k * d * y == k * y * d && x * l * d == x * d * l;
    MulCancel(n * y, x * d, l);
    MulCancel(x * d, n * y, l);
  }

  /** The check is sound: what is read back is the nearest magnitude. */
  lemma ReadsBackNearest(radix: Radix, c: Decimal, a: nat)
    requires 0 < a < INFINITY && c.mant > 0 && ReadsBack(radix, c, Normalize(a))
    ensures Nearest(DecNum(radix, c), DecDen(radix, c), a)
  {
    hide Pow;
    hide Nearest;
    hide Normalize;
    hide StandsFor;
    hide RoundToD;
    hide PackBits;
    hide RoundBits;
    hide UpPow;
    hide RadixScaled;
    var g := c.exp - c.digits;
    var nn, dd := RadixStands(c.mant, radix, g);
    var s := RadixScaled(c.mant, radix, g, false, 55);
    RoundToDNearest(s.value, s.offset, Num(c.mant, 0, radix, g), Den(0, radix, g), nn, dd);
    PackNormalize(a);
    assert UpPow(2, 0) == 1 && UpPow(2, -0) == 1 by { SmallUpPow(0); }
    assert Num(c.mant, 0, radix, g) * Pow(2, 1074) == DecNum(radix, c) && Den(0, radix, g) == DecDen(radix, c);
    RoundBitsNearest(DecNum(radix, c), DecDen(radix, c));
  }

  /** The loop that tries fewer and fewer digits, keeping the last decimal that was read
      back. */
  function Shorten(radix: Radix, f: Float, p: nat, best: Decimal): Decimal
    requires P52 <= f.mant < P53 && -1074 < f.exp <= 1024
    decreases p
  {
    if p == 0 then best
    else
      AttemptFull(radix, f, p, RNDN);
      var c := Strip(radix, Attempt(radix, f, p, RNDN));
      if ReadsBack(radix, c, f) then Shorten(radix, f, c.digits - 1, c) else best
  }

  /** The digits that `js_dtoa` prints in the free format. */
  function Shortest(radix: Radix, f: Float): Decimal
    requires P52 <= f.mant < P53 && -1074 < f.exp <= 1024
  {
    AttemptFull(radix, f, PrintDigits(radix), RNDN);
    var c := Strip(radix, Attempt(radix, f, PrintDigits(radix), RNDN));
    Shorten(radix, f, c.digits - 1, c)
  }

  lemma {:induction false} ShortenNearest(radix: Radix, a: nat, f: Float, p: nat, best: Decimal)
    requires 0 < a < INFINITY && f == Normalize(a) && P52 <= f.mant < P53 && -1074 < f.exp <= 1024
    requires p <= PrintDigits(radix) && Full(radix, best) && best.digits <= PrintDigits(radix)
    requires Nearest(DecNum(radix, best), DecDen(radix, best), a)
    ensures var c := Shorten(radix, f, p, best);
            Full(radix, c) && c.digits <= PrintDigits(radix) && Nearest(DecNum(radix, c), DecDen(radix, c), a)
    decreases p
  {
    hide Nearest;
    hide Normalize;
    hide Strip;
    hide ReadsBack;
    hide DecNum;
    hide DecDen;
    if p > 0 {
      AttemptFull(radix, f, p, RNDN);
      var c := Strip(radix, Attempt(radix, f, p, RNDN));
      if ReadsBack(radix, c, f) {
        FullPositive(radix, c);
        ReadsBackNearest(radix, c, a);
        ShortenNearest(radix, a, f, c.digits - 1, c);
      }
    }
  }

  lemma FullPositive(radix: Radix, c: Decimal)
    requires Full(radix, c)
    ensures c.mant > 0
  {
  }

  /** Whatever is printed, at most the greatest number of digits, is nearest to exactly the number that
      was given: no information is lost. */
  lemma ShortestNearest(radix: Radix, a: nat)
    requires 0 < a < INFINITY && P52 <= Normalize(a).mant < P53 && -1074 < Normalize(a).exp <= 1024
    ensures var c := Shortest(radix, Normalize(a));
            Full(radix, c) && c.digits <= PrintDigits(radix) && Nearest(DecNum(radix, c), DecDen(radix, c), a)
  {
    hide Nearest;
    hide Normalize;
    hide Strip;
    hide Shorten;
    hide DecNum;
    hide DecDen;
    var f := Normalize(a);
    var c := Attempt(radix, f, PrintDigits(radix), RNDN);
    AttemptFull(radix, f, PrintDigits(radix), RNDN);
    MaxDigitsNearest(radix, a);
    StripValue(radix, c);
    NearestRatio(DecNum(radix, c), DecDen(radix, c), DecNum(radix, Strip(radix, c)), DecDen(radix, Strip(radix, c)), a);
    ShortenNearest(radix, a, f, Strip(radix, c).digits - 1, Strip(radix, c));
  }
}