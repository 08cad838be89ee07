/** The logarithm of a radix by a table constant, and why it is good enough for every radix on
    the whole range of binary64 exponents; the limits of binary64 in powers of the radix. */
module DtoaLog {
  import opened DtoaArith
  import opened DtoaRound
  import opened DtoaScale
  import opened DtoaTables

  /** `mul_log2_radix`: division truncates, the shift of a negative product rounds down. */
  function MulLog2Radix(a: int, radix: Radix): int {
    var bits := RadixBits(radix);
    if bits != 0 then
      var x := if a < 0 then a - (bits - 1) else a;
      if x < 0 then -(-x / bits) else x / bits
    else a * LogMultiplier(radix) / LOG_BASE
  }

  // ----- powers of two -----

  lemma PowersOfTwo(radix: Radix)
    ensures RadixBits(radix) != 0 <==> radix in {2, 4, 8, 16, 32}
    ensures RadixBits(radix) <= 5
    ensures RadixBits(radix) != 0 ==> radix == Pow(2, RadixBits(radix)) && OddPart(radix) == 1
  {
    hide Pow;
    var k := TwosIn(radix);
    assert Pow(2, 0) == 1 && Pow(2, 1) == 2 && Pow(2, 2) == 4 && Pow(2, 3) == 8 && Pow(2, 4) == 16 && Pow(2, 5) == 32
      && Pow(2, 6) == 64 by { SmallPowers(); }
    if OddPart(radix) == 1 {
      OddTimesTwos(radix);
      assert k <= 5;
      assert k == 0 || k == 1 || k == 2 || k == 3 || k == 4 || k == 5;
    } else {
      NotOdd();
    }
  }

  lemma SmallPowers()
    ensures Pow(2, 0) == 1 && Pow(2, 1) == 2 && Pow(2, 2) == 4 && Pow(2, 3) == 8 && Pow(2, 4) == 16 && Pow(2, 5) == 32
      && Pow(2, 6) == 64
  {
  }

  lemma NotOdd()
    ensures OddPart(2) == OddPart(4) == OddPart(8) == OddPart(16) == OddPart(32) == 1
  {
  }

  lemma FewBits()
    ensures RadixBits(2) == 1 && RadixBits(4) == 2 && RadixBits(8) == 3 && RadixBits(16) == 4 && RadixBits(32) == 5
  {
  }

  lemma RadixIsPower(radix: Radix, k: nat)
    requires RadixBits(radix) != 0
    ensures Pow(radix, k) == Pow(2, k * RadixBits(radix))
  {
    PowersOfTwo(radix);
    PowPow(2, RadixBits(radix), k);
  }

  // ----- fractions next to the logarithm -----

  /** `r^j < 2^b` follows from `r^p < 2^q` and `j / b <= p / q`. */
  lemma PowBelowTwo(r: nat, p: nat, q: nat, j: nat, b: nat)
    requires r > 0 && Pow(r, p) < Pow(2, q) && j * q <= b * p && b > 0
    ensures Pow(r, j) < Pow(2, b)
  {
    hide Pow;
    if Pow(2, b) <= Pow(r, j) {
      BaseMono(Pow(2, b), Pow(r, j), q);
      PowPow(2, b, q);
      PowPow(r, j, q);
      PowMono(r, j * q, b * p);
      PowPow(r, p, b);
      PowPow(2, q, b);
      BaseStrict(Pow(r, p), Pow(2, q), b);
    }
  }

  /** `2^b < r^j` follows from `2^q < r^p` and `b / j <= q / p`. */
  lemma TwoBelowPow(r: nat, p: nat, q: nat, j: nat, b: nat)
    requires r > 0 && Pow(2, q) < Pow(r, p) && b * p <= j * q && b > 0
    ensures Pow(2, b) < Pow(r, j)
  {
    hide Pow;
    if Pow(r, j) <= Pow(2, b) {
      BaseMono(Pow(r, j), Pow(2, b), q);
      PowPow(r, j, q);
      PowPow(2, b, q);
      PowMono(r, b * p, j * q);
      PowPow(r, p, b);
      PowPow(2, q, b);
      BaseStrict(Pow(2, q), Pow(r, p), b);
    }
  }

  lemma BaseStrict(b: nat, c: nat, n: nat)
    requires b < c && n > 0
    ensures Pow(b, n) < Pow(c, n)
  {
    BaseMono(b, c, n - 1);
    MulStrict(b, c, Pow(c, n - 1));
    MulMono(Pow(b, n - 1), Pow(c, n - 1), b);
  }

  /** Of two neighbours, the lower one is at least every fraction below the upper one that
      has a denominator below the sum of theirs. */
  lemma NeighbourBelow(s: Approx, a: nat, k: nat)
    requires s.p' * s.q - s.p * s.q' == 1 && a < s.q + s.q' && k * s.q' < a * s.p'
    ensures k * s.q <= a * s.p
  {
    if k * s.q > a * s.p { NeighbourSum(s.p, s.q, s.p', s.q', a, k); }
  }

  lemma NeighbourAbove(s: Approx, a: nat, k: nat)
    requires s.p' * s.q - s.p * s.q' == 1 && a < s.q + s.q' && a * s.p < k * s.q
    ensures a * s.p' <= k * s.q'
  {
    if a * s.p' > k * s.q' { NeighbourSum(s.p, s.q, s.p', s.q', a, k); }
  }

  /** A fraction between neighbours has a larger denominator. */
  lemma NeighbourSum(p: nat, q: nat, p': nat, q': nat, a: nat, k: nat)
    requires p' * q - p * q' == 1 && a * p < k * q && k * q' < a * p'
    ensures q + q' <= a
  {
    var u: nat, w: nat := a * p' - k * q', k * q - a * p;
    calc {
      q * u + q' * w;
      { assert q * u == q * (a * p') - q * (k * q') && q' * w == q' * (k * q) - q' * (a * p); }
      q * (a * p') - q' * (a * p);
      { assert q * (a * p') == a * (p' * q) && q' * (a * p) == a * (p * q'); }
      a * (p' * q) - a * (p * q');
      a * (p' * q - p * q');
      a;
    }
    MulMono(1, u, q);
    MulMono(1, w, q');
  }

  /** Rounding down with a multiplier between the neighbours. */
  lemma RoundsDown(s: Approx, m: nat, a: nat, k: nat)
    requires s.p' * s.q - s.p * s.q' == 1 && a < s.q + s.q' && m * s.q' < s.p' * LOG_BASE
    requires k * LOG_BASE <= a * m && a > 0
    ensures k * s.q <= a * s.p
  {
    MulMono(k * LOG_BASE, a * m, s.q');
    MulStrict(m * s.q', s.p' * LOG_BASE, a);
    assert k * LOG_BASE * s.q' == k * s.q' * LOG_BASE;
    assert a * m * s.q' == a * (m * s.q') && a * (s.p' * LOG_BASE) == a * s.p' * LOG_BASE;
    NeighbourBelow(s, a, k);
  }

  lemma RoundsUp(s: Approx, m: nat, a: nat, k: nat)
    requires s.p' * s.q - s.p * s.q' == 1 && a < s.q + s.q' && s.p * LOG_BASE < m * s.q
    requires a * m <= k * LOG_BASE && a > 0
    ensures a * s.p' <= k * s.q'
  {
    MulMono(a * m, k * LOG_BASE, s.q);
    MulStrict(s.p * LOG_BASE, m * s.q, a);
    assert k * LOG_BASE * s.q == k * s.q * LOG_BASE;
    assert a * m * s.q == a * (m * s.q) && a * (s.p * LOG_BASE) == a * s.p * LOG_BASE;
    NeighbourAbove(s, a, k);
  }

  // ----- the logarithm -----

  /** `k` is floor(a / log2(radix)): `radix^k <= 2^a < radix^(k+1)`. */
  ghost predicate IsLog(a: int, radix: Radix, k: int) {
    && UpPow(radix, k) * UpPow(2, -a) <= UpPow(2, a) * UpPow(radix, -k)
    && UpPow(2, a) * UpPow(radix, -(k + 1)) < UpPow(radix, k + 1) * UpPow(2, -a)
  }

  lemma BinaryLog(a: int, radix: Radix)
    requires RadixBits(radix) != 0
    ensures IsLog(a, radix, MulLog2Radix(a, radix))
  {
    var b, k := RadixBits(radix), MulLog2Radix(a, radix);
    assert k * b <= a < (k + 1) * b by { FloorParts(a, b, k); }
    RadixUpPow(radix, k);
    RadixUpPow(radix, k + 1);
    UpPowOrder(k * b, a);
    UpPowOrder(a, (k + 1) * b);
  }

  lemma FloorParts(a: int, b: nat, k: int)
    requires b > 0 && k == (var x := if a < 0 then a - (b - 1) else a; if x < 0 then -(-x / b) else x / b)
    ensures k * b <= a < (k + 1) * b
  {
    assert (k + 1) * b == k * b + b;
    if a >= 0 {
      DivParts(a, b);
    } else {
      var y: nat := b - 1 - a;
      DivParts(y, b);
      assert k * b == -(y / b * b);
    }
  }

  lemma RadixUpPow(radix: Radix, k: int)
    requires RadixBits(radix) != 0
    ensures UpPow(radix, k) == UpPow(2, k * RadixBits(radix)) && UpPow(radix, -k) == UpPow(2, -(k * RadixBits(radix)))
  {
    PowersOfTwo(radix);
    RadixPower(1, RadixBits(radix), k);
    RadixPower(1, RadixBits(radix), -k);
    OnePow(k);
    OnePow(-k);
    OffsetSign(k, RadixBits(radix));
  }

  lemma UpPowOrder(x: int, y: int)
    ensures x <= y ==> UpPow(2, x) * UpPow(2, -y) <= UpPow(2, y) * UpPow(2, -x)
    ensures x < y ==> UpPow(2, x) * UpPow(2, -y) < UpPow(2, y) * UpPow(2, -x)
  {
    if x < y {
      if x >= 0 {
        PowStrict(2, x, y);
      } else if y <= 0 {
        PowStrict(2, -y, -x);
      } else {
        PowStrict(2, 0, -x);
        PowStrict(2, 0, y);
        MulStrict(1, Pow(2, -x), Pow(2, y));
      }
    }
  }

  lemma TableLog(a: int, radix: Radix)
    requires -2048 <= a <= 2047 && RadixBits(radix) == 0
    ensures IsLog(a, radix, MulLog2Radix(a, radix))
  {
    hide Pow;
    hide Table;
    PowersOfTwo(radix);
    var s := LogBounds(radix);
    var m, k := LogMultiplier(radix), MulLog2Radix(a, radix);
    ZeroPowers(radix);
    if a > 0 {
      ProductParts(a, m, k);
      RoundsDown(s, m, a, k);
      RoundsUp(s, m, a, k + 1);
      PowBelowTwo(radix, s.p, s.q, k, a);
      TwoBelowPow(radix, s.p', s.q', k + 1, a);
    } else if a < 0 {
      ProductParts(a, m, k);
      var n: nat, j: nat := -a, -k;
      RoundsUp(s, m, n, j);
      TwoBelowPow(radix, s.p', s.q', j, n);
      if j > 0 {
        RoundsDown(s, m, n, j - 1);
        PowBelowTwo(radix, s.p, s.q, j - 1, n);
      }
    }
  }

  lemma ZeroPowers(radix: Radix)
    ensures Pow(radix, 0) == 1 && Pow(radix, 1) == radix && Pow(2, 0) == 1
  {
  }

  lemma ProductParts(a: int, m: nat, k: int)
    requires k == a * m / LOG_BASE
    ensures k * LOG_BASE <= a * m < (k + 1) * LOG_BASE
    ensures a >= 0 ==> k >= 0
    ensures a < 0 && m > 0 ==> k < 0 && -a * m <= -k * LOG_BASE && (-k - 1) * LOG_BASE <= -a * m
  {
    assert -a * m == -(a * m) && -k * LOG_BASE == -(k * LOG_BASE);
    if a >= 0 { MulMono(0, a, m); }
    if a < 0 && m > 0 { MulStrictInt(a, 0, m); }
  }

  /** The table gives floor(a / log2(radix)) for every radix on the whole stated range. */
  lemma MulLog2RadixExact(a: int, radix: Radix)
    requires -2048 <= a <= 2047
    ensures IsLog(a, radix, MulLog2Radix(a, radix))
  {
    if RadixBits(radix) != 0 {
      BinaryLog(a, radix);
    } else {
      TableLog(a, radix);
    }
  }

  /** No logarithm is greater than the number itself. */
  lemma LogSize(a: int, radix: Radix)
    ensures Abs(MulLog2Radix(a, radix)) <= Abs(a) + 1
  {
    hide LogMultiplier;
    hide RadixBits;
    var b, k := RadixBits(radix), MulLog2Radix(a, radix);
    if b != 0 {
      FloorParts(a, b, k);
      if k > 0 { MulMono(1, b, k); }
      if k + 1 < 0 { MulMono(1, b, -(k + 1)); assert -(k + 1) * b == -((k + 1) * b); }
    } else {
      var m := LogMultiplier(radix);
      ProductParts(a, m, k);
      if a >= 0 { MulMono(m, LOG_BASE, a); } else { MulMono(m, LOG_BASE, -a); }
    }
  }

  // ----- the limits of binary64 -----

  lemma FittingLimits(c: Column, s: Approx)
    requires Fitting(c, s)
    ensures 1024 * s.p' <= c.maxExp * s.q' && 1075 * s.p' <= -c.minExp * s.q' && -c.minExp * s.q <= 1084 * s.p
    ensures (c.maxExp - 1) * s.q <= 1024 * s.p && (-c.minExp - 1) * s.q <= 1075 * s.p
    ensures c.atodDigits * s.q <= 128 * s.p && 128 * s.p' <= (c.atodDigits + 1) * s.q'
    ensures 53 * s.p' <= (c.dtoaDigits - 1) * s.q' && (c.dtoaDigits - 2) * s.q <= 53 * s.p
    ensures c.dtoaDigits * s.q <= 63 * s.p
  {
  }

  /** The bounds behind `max_exponent` and `min_exponent`. */
  lemma RadixLimits(radix: Radix)
    requires RadixBits(radix) == 0
    ensures MaxExponent(radix) >= 0 && Pow(2, 1024) < Pow(radix, MaxExponent(radix))
    ensures MinExponent(radix) <= 0 && Pow(2, 1075) < Pow(radix, -MinExponent(radix)) < Pow(2, 1084)
  {
    hide Pow;
    hide Table;
    hide Fitting;
    hide RadixBits;
    PowersOfTwo(radix);
    var s := LogBounds(radix);
    FittingLimits(Table(radix), s);
    TwoBelowPow(radix, s.p', s.q', MaxExponent(radix), 1024);
    TwoBelowPow(radix, s.p', s.q', -MinExponent(radix), 1075);
    PowBelowTwo(radix, s.p, s.q, -MinExponent(radix), 1084);
  }

  /** The bounds behind the numbers of digits. */
  lemma DigitLimits(radix: Radix)
    requires RadixBits(radix) == 0
    ensures Pow(radix, AtodDigits(radix)) < Pow(2, 128)
    ensures Pow(2, 53) < Pow(radix, PrintDigits(radix) - 1) && Pow(radix, PrintDigits(radix)) < Pow(2, 63)
  {
    hide Pow;
    hide Table;
    hide Fitting;
    hide RadixBits;
    PowersOfTwo(radix);
    var s := LogBounds(radix);
    FittingLimits(Table(radix), s);
    PowBelowTwo(radix, s.p, s.q, AtodDigits(radix), 128);
    TwoBelowPow(radix, s.p', s.q', PrintDigits(radix) - 1, 53);
    PowBelowTwo(radix, s.p, s.q, PrintDigits(radix), 63);
  }

  /** How many digits are kept is bounded by 128 bits, or 64 if the radix is a power of two. */
  function KeptBits(radix: Radix): nat { if RadixBits(radix) == 0 then 128 else 64 }

  /** The exponent `k` is the greatest whose power is not above 2^n. */
  predicate Floors(radix: nat, k: int, n: nat) {
    k >= 0 && Pow(radix, k) <= Pow(2, n) < Pow(radix, k + 1)
  }

  /** The exponent `k` is the least whose power is not below 2^n. */
  predicate Ceils(radix: nat, k: int, n: nat) {
    k >= 1 && Pow(radix, k - 1) < Pow(2, n) <= Pow(radix, k)
  }

  /** Every entry is exactly what the generator of the tables computes: the digits of a limb
      and the digits that are kept are the most that fit, the printed digits are one more than
      53 bits need, and the exponents are the least beyond 2^1024 and 2^-1075. */
  lemma TableExact(radix: Radix)
    ensures Floors(radix, DigitsPerLimb(radix), 32) && Floors(radix, AtodDigits(radix), KeptBits(radix))
    ensures Ceils(radix, PrintDigits(radix) - 1, 53)
    ensures Ceils(radix, MaxExponent(radix), 1024) && Ceils(radix, -MinExponent(radix), 1075)
  {
    hide Pow;
    hide Table;
    hide Fitting;
    hide RadixBits;
    PowersOfTwo(radix);
    LimbPower(radix);
    SmallTwos();
    PowAdd(2, 16, 16);
    if RadixBits(radix) != 0 {
      BinaryTable(radix);
    } else {
      var s := LogBounds(radix);
      FittingLimits(Table(radix), s);
      RadixLimits(radix);
      DigitLimits(radix);
      TwoBelowPow(radix, s.p', s.q', AtodDigits(radix) + 1, 128);
      PowBelowTwo(radix, s.p, s.q, PrintDigits(radix) - 2, 53);
      PowBelowTwo(radix, s.p, s.q, MaxExponent(radix) - 1, 1024);
      PowBelowTwo(radix, s.p, s.q, -MinExponent(radix) - 1, 1075);
    }
  }

  lemma BinaryPower(radix: Radix, k: nat, n: nat)
    requires RadixBits(radix) != 0
    ensures k * RadixBits(radix) <= n <==> Pow(radix, k) <= Pow(2, n)
    ensures k * RadixBits(radix) < n <==> Pow(radix, k) < Pow(2, n)
  {
    hide Pow;
    hide RadixBits;
    PowersOfTwo(radix);
    var b := RadixBits(radix);
    PowPow(2, b, k);
    if b * k < n { PowStrict(2, b * k, n); }
    if n < b * k { PowStrict(2, n, b * k); }
  }

  lemma BinaryColumn(radix: Radix)
    requires RadixBits(radix) != 0
    ensures var c, b := Table(radix), RadixBits(radix);
            && c.atodDigits * b <= 64 < (c.atodDigits + 1) * b
            && (c.dtoaDigits - 2) * b < 53 <= (c.dtoaDigits - 1) * b
            && (c.maxExp - 1) * b < 1024 <= c.maxExp * b
            && (-c.minExp - 1) * b < 1075 <= -c.minExp * b
  {
    hide Pow;
    PowersOfTwo(radix);
    assert Pow(2, 0) == 1 && Pow(2, 1) == 2 && Pow(2, 2) == 4 && Pow(2, 3) == 8 && Pow(2, 4) == 16 && Pow(2, 5) == 32
      by { SmallPowers(); }
  }

  lemma BinaryTable(radix: Radix)
    requires RadixBits(radix) != 0
    ensures Floors(radix, AtodDigits(radix), 64) && Ceils(radix, PrintDigits(radix) - 1, 53)
    ensures Ceils(radix, MaxExponent(radix), 1024) && Ceils(radix, -MinExponent(radix), 1075)
  {
    hide Pow;
    hide Table;
    hide RadixBits;
    BinaryColumn(radix);
    BinaryPower(radix, AtodDigits(radix), 64);
    BinaryPower(radix, AtodDigits(radix) + 1, 64);
    BinaryPower(radix, PrintDigits(radix) - 2, 53);
    BinaryPower(radix, PrintDigits(radix) - 1, 53);
    BinaryPower(radix, MaxExponent(radix) - 1, 1024);
    BinaryPower(radix, MaxExponent(radix), 1024);
    BinaryPower(radix, -MinExponent(radix) - 1, 1075);
    BinaryPower(radix, -MinExponent(radix), 1075);
  }

  lemma SmallRadix(radix: Radix)
    requires 1 <= RadixBits(radix) <= 4
    ensures radix <= 16
  {
    hide Pow;
    hide RadixBits;
    PowersOfTwo(radix);
    PowMono(2, RadixBits(radix), 4);
    SmallTwos();
  }
}
