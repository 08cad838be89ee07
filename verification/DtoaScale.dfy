/** Scaling by a power of the radix, with its guard and sticky bits, and the two roundings
    built on it: to an integer and to a binary64 number. */
module DtoaScale {
  import opened DtoaArith
  import opened DtoaRound
  import opened DtoaDouble
  import opened DtoaTables

  /** `mpb_shr_round` on values: a negative shift is exact. */
  function ShrRound(v: nat, shift: int, mode: Mode): nat {
    if shift <= 0 then v * Pow(2, -shift) else RoundDiv(v, Pow(2, shift), mode)
  }

  lemma ShrRoundIs(v: nat, shift: int, mode: Mode)
    ensures ShrRound(v, shift, mode) == RoundDiv(v * UpPow(2, -shift), UpPow(2, shift), mode)
  {
    if shift <= 0 {
      DivIs(v * Pow(2, -shift), 1, v * Pow(2, -shift), 0);
    }
  }

  /** What `mul_pow` leaves: `value * 2^-offset` is the scaled number, exactly for a
      non-negative exponent; otherwise it is a sticky quotient. */
  datatype Scaled = Scaled(value: nat, offset: int)

  /** `l`, the limbs added before dividing. */
  function LimbsFor(g: nat, d: nat): nat
    requires d > 0
  {
    (g + d - 1) / d
  }

  function Max(x: int, y: int): int {
    if x < y then y else x
  }

  /** The bits added on top of the limbs: two below the rounding position, or enough for
      `e` significant bits. */
  function ExtraBits(a: nat, isInt: bool, e: int, offset: int): nat {
    if isInt then Max(2 + e - offset, 0)
    else Max(e - (if a == 0 then -1 else FloorLog2(a)), 0)
  }

  function MulPow(a: nat, radix1: nat, radixShift: nat, f: int, isInt: bool, e: int, d: nat): Scaled
    requires radix1 > 0 && d > 0
  {
    if radix1 == 1 then Scaled(a, -f * radixShift)
    else if f >= 0 then Scaled(a * Pow(radix1, f), -f * radixShift)
    else
      var offset := -f * radixShift + 32 * LimbsFor(-f, d);
      var extra := ExtraBits(a, isInt, e, offset);
      var n, p := a * Pow(2, 32 * LimbsFor(-f, d) + extra), Pow(radix1, -f);
      Scaled(Sticky(n / p, n % p != 0), offset + extra)
  }

  /** `mul_pow_round`: scaling, then one shift. */
  function MulPowRounded(m: nat, e: int, radix1: nat, radixShift: nat, f: int, d: nat, mode: Mode): nat
    requires radix1 > 0 && d > 0
  {
    var s := MulPow(m, radix1, radixShift, f, true, e, d);
    ShrRound(s.value, s.offset - e, mode)
  }

  // ----- powers of two on both sides -----

  lemma UpPowBalance(b: nat, j: int, k: int, p: int, q: int)
    requires b > 0 && j + k == p + q
    ensures UpPow(b, j) * UpPow(b, k) * (UpPow(b, -p) * UpPow(b, -q))
      == UpPow(b, p) * UpPow(b, q) * (UpPow(b, -j) * UpPow(b, -k))
  {
    UpPowSum(b, j, k);
    UpPowSum(b, p, q);
    Cross(UpPow(b, j) * UpPow(b, k), UpPow(b, -j) * UpPow(b, -k),
          UpPow(b, p) * UpPow(b, q), UpPow(b, -p) * UpPow(b, -q), UpPow(b, j + k), UpPow(b, -(j + k)));
  }

  /** Two fractions equal to a third are equal. */
  lemma Cross(a: nat, a': nat, c: nat, c': nat, t: nat, t': nat)
    requires t > 0 && t' > 0 && a * t' == t * a' && c * t' == t * c'
    ensures a * c' == c * a'
  {
    var x, y := a * c', c * a';
    assert x * (t * t') == a * t' * (t * c') by {
      assert a * c' * (t * t') == a * t' * (t * c');
    }
    assert y * (t * t') == c * t' * (t * a') by {
      assert c * a' * (t * t') == c * t' * (t * a');
    }
    MulStrict(0, t, t');
    MulCancel(x, y, t * t');
    MulCancel(y, x, t * t');
  }

  // ----- rounding to an integer -----

  /** `m * 2^e * radix^f` as a fraction. */
  function Num(m: nat, e: int, radix: nat, f: int): nat {
    m * (UpPow(2, e) * UpPow(radix, f))
  }

  function Den(e: int, radix: nat, f: int): (d: nat)
    ensures radix > 0 ==> d > 0
  {
    assert radix > 0 ==> UpPow(2, -e) * UpPow(radix, -f) > 0 by {
      if radix > 0 { MulStrict(0, UpPow(2, -e), UpPow(radix, -f)); }
    }
    UpPow(2, -e) * UpPow(radix, -f)
  }

  lemma RadixPower(radix1: nat, shift: nat, k: int)
    requires radix1 > 0
    ensures radix1 * Pow(2, shift) > 0
    ensures UpPow(radix1 * Pow(2, shift), k) == UpPow(radix1, k) * UpPow(2, k * shift)
  {
    MulStrict(0, radix1, Pow(2, shift));
    if k > 0 {
      PowMulBase(radix1, Pow(2, shift), k);
      PowPow(2, shift, k);
      if shift == 0 { assert k * shift == 0; } else { MulStrict(0, k, shift); }
    } else {
      MulMonoInt(k, 0, shift);
    }
  }

  lemma OffsetSign(f: int, shift: nat)
    ensures -f * shift == -(f * shift) && (f >= 0 ==> f * shift >= 0) && (f <= 0 ==> f * shift <= 0)
  {
    if f >= 0 { MulMono(0, f, shift); } else { MulMono(0, -f, shift); assert -f * shift == -(f * shift); }
  }

  /** Exact scaling: the rounded shift rounds the whole fraction. */
  lemma ExactShift(m: nat, e: int, r: nat, f: int, t: int, mode: Mode)
    requires r > 0 && UpPow(r, -f) == 1
    ensures UpPow(2, -e) * UpPow(2, -t) > 0
    ensures ShrRound(m * UpPow(r, f), -t - e, mode)
         == RoundDiv(m * (UpPow(2, e) * (UpPow(r, f) * UpPow(2, t))), UpPow(2, -e) * UpPow(2, -t), mode)
  {
    hide RoundDiv;
    hide ShrRound;
    hide UpPow;
    var s: int := -t - e;
    ShrRoundIs(m * UpPow(r, f), s, mode);
    MulStrict(0, UpPow(2, -e), UpPow(2, -t));
    UpPowSum(2, e, t);
    assert -(e + t) == s && -s == e + t;
    var a, b, c, x, y := UpPow(2, e), UpPow(2, t), UpPow(2, s), UpPow(2, -s), UpPow(2, -e) * UpPow(2, -t);
    Group3(x, UpPow(2, -e), UpPow(2, -t));
    assert a * b * c == x * y;
    Reorder(m, UpPow(r, f), a, b, c, x, y);
    RoundDivRatio(m * UpPow(r, f) * x, c, m * (a * (UpPow(r, f) * b)), y, mode);
  }

  lemma Reorder(m: nat, q: nat, a: nat, b: nat, c: nat, x: nat, y: nat)
    requires a * b * c == x * y
    ensures m * q * x * y == m * (a * (q * b)) * c
  {
    assert m * q * x * y == m * q * (x * y);
    assert m * (a * (q * b)) == m * q * (a * b);
    assert m * q * (a * b) * c == m * q * (a * b * c);
  }

  lemma FourPow(s: int)
    requires s >= 2
    ensures Pow(2, s - 2) > 0 && UpPow(2, s) == Pow(2, s) == 4 * Pow(2, s - 2)
  {
    assert Pow(2, s) == 2 * Pow(2, s - 1);
  }

  function StickyQuotient(n: nat, p: nat): nat
    requires p > 0
  {
    Sticky(n / p, n % p != 0)
  }

  lemma StickyPowers(w: nat, t: int, e: int)
    requires t <= 0 && w - t - e >= 0
    ensures UpPow(2, w) * UpPow(2, -t) * UpPow(2, -e) == UpPow(2, e) * UpPow(2, w - t - e)
  {
    hide Pow;
    UpPowBalance(2, w, -t, e, w - t - e);
    assert UpPow(2, 0 - w) == 1 && UpPow(2, t) == 1 && UpPow(2, -(w - t - e)) == 1;
  }

  /** Sticky scaling: at least two dropped bits make it as good as exact. */
  lemma StickyShift(m: nat, e: int, p: nat, w: nat, t: int, mode: Mode)
    requires p > 0 && t <= 0 && w - t - e >= 2
    ensures UpPow(2, -e) * (p * UpPow(2, -t)) > 0
    ensures ShrRound(StickyQuotient(m * UpPow(2, w), p), w - t - e, mode)
         == RoundDiv(m * UpPow(2, e), UpPow(2, -e) * (p * UpPow(2, -t)), mode)
  {
    hide RoundDiv;
    hide Pow;
    hide UpPow;
    hide Sticky;
    var s: int := w - t - e;
    var a, b, c, d := UpPow(2, w), UpPow(2, -t), UpPow(2, e), UpPow(2, -e);
    FourPow(s);
    StickyRound(m * a, p, UpPow(2, s), mode);
    MulStrict(0, p, b);
    MulStrict(0, d, p * b);
    StickyPowers(w, t, e);
    ReorderSticky(m, a, b, c, d, p, UpPow(2, s));
    RoundDivRatio(m * a, p * UpPow(2, s), m * c, d * (p * b), mode);
  }

  lemma PowZero(b: nat)
    ensures Pow(b, 0) == 1
  {
  }

  lemma ReorderSticky(m: nat, a: nat, b: nat, c: nat, d: nat, p: nat, s: nat)
    requires a * b * d == c * s
    ensures m * a * (d * (p * b)) == m * c * (p * s)
  {
    assert m * a * (d * (p * b)) == m * p * (a * b * d);
    assert m * c * (p * s) == m * p * (c * s);
  }

  /** `mul_pow_round`: whatever the sign of the exponents and the rounding mode, the
      result is `m * 2^e * radix^f` rounded once. */
  lemma MulPowRound(m: nat, e: int, radix1: nat, shift: nat, f: int, d: nat, mode: Mode)
    requires radix1 > 0 && d > 0
    ensures radix1 * Pow(2, shift) > 0
    ensures MulPowRounded(m, e, radix1, shift, f, d, mode)
         == RoundDiv(Num(m, e, radix1 * Pow(2, shift), f), Den(e, radix1 * Pow(2, shift), f), mode)
  {
    hide RoundDiv;
    hide ShrRound;
    hide UpPow;
    hide Pow;
    RadixPower(radix1, shift, f);
    RadixPower(radix1, shift, -f);
    OffsetSign(f, shift);
    assert -f * shift == -(f * shift);
    if radix1 == 1 || f >= 0 {
      PlainScaled(m, radix1, shift, f, true, e, d);
      ExactShift(m, e, radix1, f, f * shift, mode);
    } else {
      StickyScaled(m, radix1, shift, f, e, d, mode);
    }
  }

  lemma PlainScaled(a: nat, radix1: nat, shift: nat, f: int, isInt: bool, e: int, d: nat)
    requires radix1 > 0 && d > 0 && (radix1 == 1 || f >= 0)
    ensures MulPow(a, radix1, shift, f, isInt, e, d) == Scaled(a * UpPow(radix1, f), -f * shift)
    ensures UpPow(radix1, -f) == 1
  {
    if radix1 == 1 { OnePow(f); OnePow(-f); }
  }

  lemma StickyScaled(m: nat, radix1: nat, shift: nat, f: int, e: int, d: nat, mode: Mode)
    requires radix1 > 1 && d > 0 && f < 0
    ensures UpPow(2, -e) * (UpPow(radix1, -f) * UpPow(2, -f * shift)) > 0
    ensures MulPowRounded(m, e, radix1, shift, f, d, mode)
         == RoundDiv(m * (UpPow(2, e) * (UpPow(radix1, f) * UpPow(2, f * shift))),
           UpPow(2, -e) * (UpPow(radix1, -f) * UpPow(2, -f * shift)), mode)
  {
    hide RoundDiv;
    hide ShrRound;
    hide Pow;
    hide LimbsFor;
    OffsetSign(f, shift);
    var t := f * shift;
    var l := LimbsFor(-f, d);
    var extra := ExtraBits(m, true, e, -t + 32 * l);
    StickyShift(m, e, Pow(radix1, -f), 32 * l + extra, t, mode);
    assert UpPow(2, 32 * l + extra) == Pow(2, 32 * l + extra) by { PowZero(2); }
    assert MulPow(m, radix1, shift, f, true, e, d)
      == Scaled(StickyQuotient(m * Pow(2, 32 * l + extra), Pow(radix1, -f)), -t + 32 * l + extra);
    assert UpPow(2, t) == 1 && UpPow(radix1, f) == 1;
  }

  lemma {:induction false} OnePow(k: int)
    ensures UpPow(1, k) == 1
    decreases Max(k, 0)
  {
    if k > 0 { OnePow(k - 1); }
  }

  // ----- rounding to binary64 -----

  datatype Float = Float(mant: nat, exp: int)

  /** `round_to_d`: the significand and exponent of the rounded number. */
  function RoundToD(a: nat, offset: int): Float {
    if a == 0 then Float(0, 0)
    else
      var e := FloorLog2(a) + 1 - offset;
      var prec := if e < -1021 then 53 - (-1021 - e) else 53;
      var m := ShrRound(a, e + offset - prec, RNDN) * Pow(2, 53 - prec);
      if m >= P53 then Float(m / 2, e + 1) else Float(m, e)
  }

  /** The end of `js_atod`: bits of a significand and an exponent. */
  function PackBits(m: nat, e: int): nat {
    if m == 0 then 0
    else if e > 1024 then INFINITY
    else if e < -1073 then 0
    else if e < -1021 then m / Pow(2, -e - 1021)
    else (e + 1022) * P52 + m % P52
  }

  /** `a * 2^-offset` stands for the fraction `n / d`: it is a sticky quotient of it, with
      at least 56 bits unless it is exact. */
  ghost predicate StandsFor(a: nat, offset: int, n: nat, d: nat, nn: nat, dd: nat) {
    && d > 0 && dd > 0
    && a == Sticky(nn / dd, nn % dd != 0)
    && (dd == 1 || nn / dd >= Pow(2, 55))
    && nn * d * UpPow(2, -offset) == n * dd * UpPow(2, offset)
  }

  lemma StickyLog(q: nat, inexact: bool)
    requires q > 0
    ensures Sticky(q, inexact) > 0 && FloorLog2(Sticky(q, inexact)) == FloorLog2(q)
  {
    FloorLog2Bounds(q);
    var l := FloorLog2(q);
    if q % 2 == 0 {
      assert l > 0;
      assert Pow(2, l + 1) == 2 * Pow(2, l);
      FloorLog2Is(Sticky(q, inexact), l);
    }
  }

  /** The quantum follows from the exponent. */
  lemma QuantumIs(x: nat, d: nat, j: int)
    requires d > 0
    requires j > 0 ==> Pow(2, j - 1) * d <= x
    requires x < UpPow(2, j) * d
    ensures Quantum(x, d) == Max(j - 53, 0)
  {
    DivParts(x, d);
    var q := x / d;
    assert (q + 1) * d == q * d + d;
    if j > 0 {
      MulCancelStrict(Pow(2, j - 1), q + 1, d);
      MulCancelStrict(q, Pow(2, j), d);
      FloorLog2Is(q, j - 1);
    } else {
      MulCancelStrict(q, 1, d);
    }
  }

  // ----- correctness of the conversion to binary64 -----

  /** A bound on the sticky quotient's numerator is one on the fraction, in units. */
  lemma CarryOver(n: nat, d: nat, nn: nat, dd: nat, o: int, k: nat, j: int)
    requires d > 0 && dd > 0 && nn * d * UpPow(2, -o) == n * dd * UpPow(2, o) && j == k - o + 1074
    ensures nn < Pow(2, k) * dd ==> n * Pow(2, 1074) * UpPow(2, -j) < UpPow(2, j) * d
    ensures Pow(2, k) * dd <= nn ==> UpPow(2, j) * d <= n * Pow(2, 1074) * UpPow(2, -j)
  {
    hide Pow;
    hide UpPow;
    var b, c, u, v, p, t := UpPow(2, o), UpPow(2, -o), UpPow(2, j), UpPow(2, -j), Pow(2, k), Pow(2, 1074);
    PowAdd(2, k, 1074);
    UpPowSum(2, o, j);
    PlainUp(2, k + 1074);
    assert o + j == k + 1074;
    assert b * u == p * t * c * v;
    MulStrict(0, d, c);
    if nn < p * dd {
      MulStrict(nn, p * dd, d * c);
    } else {
      MulMono(p * dd, nn, d * c);
    }
    CancelBoth(n, d, nn, dd, b, c, u, v, p, t);
  }

  lemma PlainUp(b: nat, k: nat)
    requires b > 0
    ensures UpPow(b, k) == Pow(b, k) && UpPow(b, 0 - k) == 1
  {
    PowZero(b);
  }

  lemma Rearrange4(u: nat, d: nat, dd: nat, b: nat)
    ensures u * d * (dd * b) == b * u * (d * dd)
  {
  }

  lemma Rearrange6(p: nat, dd: nat, d: nat, c: nat, t: nat, v: nat)
    ensures p * dd * (d * c) * (t * v) == p * t * c * v * (d * dd)
  {
  }

  lemma Rearrange3(n: nat, s: nat, w: nat)
    ensures n * s * w == n * w * s
  {
  }

  lemma Group3(a: nat, b: nat, c: nat)
    ensures a * b * c == a * (b * c)
  {
  }

  lemma CancelBoth(n: nat, d: nat, nn: nat, dd: nat, b: nat, c: nat, u: nat, v: nat, p: nat, t: nat)
    requires d > 0 && dd > 0 && b > 0 && v > 0 && t > 0
    requires nn * d * c == n * dd * b && b * u == p * t * c * v
    ensures nn * (d * c) < p * dd * (d * c) ==> n * t * v < u * d
    ensures p * dd * (d * c) <= nn * (d * c) ==> u * d <= n * t * v
  {
    var w, s := dd * b, t * v;
    MulStrict(0, dd, b);
    MulStrict(0, t, v);
    var x, y := nn * (d * c), p * dd * (d * c);
    Group3(nn, d, c);
    Group3(n, dd, b);
    Group3(n, t, v);
    Rearrange3(n, s, w);
    Rearrange4(u, d, dd, b);
    Rearrange6(p, dd, d, c, t, v);
    CancelScaled(n * t * v, u * d, w, x, y, s);
  }

  lemma CancelScaled(g: nat, h: nat, w: nat, x: nat, y: nat, s: nat)
    requires w > 0 && s > 0 && g * w == x * s && h * w == y * s
    ensures x < y ==> g < h
    ensures y <= x ==> h <= g
  {
    if x < y {
      MulStrict(x, y, s);
      MulCancelStrict(g, h, w);
    } else {
      MulMono(y, x, s);
      MulCancel(h, g, w);
    }
  }

  lemma QuotientRange(n: nat, d: nat, lo: nat, hi: nat)
    requires d > 0 && lo <= n / d < hi
    ensures lo * d <= n < hi * d
  {
    DivParts(n, d);
    MulMono(lo, n / d, d);
    MulMono(n / d + 1, hi, d);
    assert (n / d + 1) * d == n / d * d + d;
  }

  lemma LogRange(a: nat, nn: nat, dd: nat)
    requires dd > 0 && a == Sticky(nn / dd, nn % dd != 0) && a > 0 && nn / dd > 0
    ensures Pow(2, FloorLog2(a)) * dd <= nn < Pow(2, FloorLog2(a) + 1) * dd
  {
    hide Pow;
    hide Sticky;
    StickyLog(nn / dd, nn % dd != 0);
    FloorLog2Bounds(nn / dd);
    QuotientRange(nn, dd, Pow(2, FloorLog2(a)), Pow(2, FloorLog2(a) + 1));
  }

  /** The exponent computed from `a` gives the quantum of the fraction it stands for. */
  lemma QuantumFromLog(a: nat, o: int, n: nat, d: nat, nn: nat, dd: nat)
    requires a > 0 && StandsFor(a, o, n, d, nn, dd)
    ensures var e := FloorLog2(a) + 1 - o;
            Quantum(n * Pow(2, 1074), d) == Max(e + 1021, 0)
            && n * Pow(2, 1074) * UpPow(2, -(e + 1074)) < UpPow(2, e + 1074) * d
            && (e + 1074 > 0 ==> Pow(2, e + 1073) * d <= n * Pow(2, 1074))
  {
    hide Pow;
    hide UpPow;
    hide Quantum;
    var x := n * Pow(2, 1074);
    assert nn / dd > 0 by { StandsInteger(a, o, n, d, nn, dd); }
    LogRange(a, nn, dd);
    var l := FloorLog2(a);
    var j: int := l + 1 - o + 1074;
    CarryOver(n, d, nn, dd, o, l + 1, j);
    CarryOver(n, d, nn, dd, o, l, j - 1);
    DropFactor(x, UpPow(2, -j), UpPow(2, j) * d);
    if j > 0 {
      PlainUp(2, j - 1);
      SmallUpPow(-(j - 1));
      assert UpPow(2, j - 1) * d <= x * UpPow(2, -(j - 1));
      assert UpPow(2, -(j - 1)) == 1;
    }
    QuantumIs(x, d, j);
  }

  lemma StandsInteger(a: nat, o: int, n: nat, d: nat, nn: nat, dd: nat)
    requires a > 0 && StandsFor(a, o, n, d, nn, dd)
    ensures nn / dd > 0
  {
  }

  lemma SmallUpPow(k: int)
    ensures UpPow(2, k) >= 1 && (k <= 0 ==> UpPow(2, k) == 1)
  {
  }

  lemma DropFactor(x: nat, v: nat, y: nat)
    requires v > 0 && x * v < y
    ensures x < y
  {
    MulMono(1, v, x);
  }

  /** The rounded shift of `round_to_d` rounds the fraction to a multiple of its quantum. */
  lemma SignificandIs(a: nat, o: int, n: nat, d: nat, nn: nat, dd: nat)
    requires a > 0 && StandsFor(a, o, n, d, nn, dd)
    ensures var k := Max(FloorLog2(a) + 1 - o + 1021, 0);
            d * Pow(2, k) > 0
            && ShrRound(a, o - 1074 + k, RNDN) == RoundDiv(n * Pow(2, 1074), d * Pow(2, k), RNDN)
  {
    hide Pow;
    hide UpPow;
    hide RoundDiv;
    hide ShrRound;
    var k := Max(FloorLog2(a) + 1 - o + 1021, 0);
    var s: int := o - 1074 + k;
    MulStrict(0, d, Pow(2, k));
    MulStrict(0, dd, UpPow(2, s));
    ShiftedQuotient(a, s, o, n, d, nn, dd);
    PlainUp(2, 1074);
    PlainUp(2, k);
    UpPowBalance(2, o, k, s, 1074);
    SameFraction(n, d, nn, dd, UpPow(2, o), UpPow(2, -o), UpPow(2, s), UpPow(2, -s), Pow(2, k), Pow(2, 1074));
    RoundDivRatio(nn * UpPow(2, -s), dd * UpPow(2, s), n * Pow(2, 1074), d * Pow(2, k), RNDN);
  }

  lemma ShiftedQuotient(a: nat, s: int, o: int, n: nat, d: nat, nn: nat, dd: nat)
    requires a > 0 && StandsFor(a, o, n, d, nn, dd) && s == o - 1074 + Max(FloorLog2(a) + 1 - o + 1021, 0)
    ensures dd * UpPow(2, s) > 0
    ensures ShrRound(a, s, RNDN) == RoundDiv(nn * UpPow(2, -s), dd * UpPow(2, s), RNDN)
  {
    hide Pow;
    hide RoundDiv;
    MulStrict(0, dd, UpPow(2, s));
    var q := nn / dd;
    if dd == 1 {
      assert q == nn && nn % dd == 0;
      ShrRoundIs(a, s, RNDN);
    } else {
      StickyLog(q, nn % dd != 0);
      FloorLog2Bounds(q);
      if FloorLog2(q) + 1 <= 55 { PowMono(2, FloorLog2(q) + 1, 55); }
      FourPow(s);
      StickyRound(nn, dd, UpPow(2, s), RNDN);
    }
  }

  lemma SameFraction(n: nat, d: nat, nn: nat, dd: nat, b: nat, c: nat, u: nat, v: nat, k: nat, t: nat)
    requires b > 0 && c > 0 && nn * d * c == n * dd * b && b * k * v == u * t * c
    ensures nn * v * (d * k) == n * t * (dd * u)
  {
    var x, y := nn * v * (d * k), n * t * (dd * u);
    assert x * (b * c) == nn * d * c * (b * k * v);
    assert y * (b * c) == n * dd * b * (u * t * c);
    MulStrict(0, b, c);
    MulCancel(x, y, b * c);
    MulCancel(y, x, b * c);
  }

  lemma LowestNormal(x: nat, d: nat)
    requires d > 0 && Pow(2, 52) * d <= x && x <= P53 * d
    ensures P52 <= RoundDiv(x, d, RNDN)
  {
    P52Is();
    RoundDivRange(x, d, RNDN, P52, P53);
  }

  lemma PackNormal(r: nat, e: int)
    requires P52 <= r <= P53 && e >= -1021
    ensures (if r >= P53 then PackBits(r / 2, e + 1) else PackBits(r, e))
         == if (e + 1021) * P52 + r < INFINITY then (e + 1021) * P52 + r else INFINITY
  {
    hide Pow;
    if r < P53 {
      DivIs(r, P52, 1, r - P52);
    } else {
      assert r / 2 == P52;
    }
  }

  /** Below the normal numbers, fewer bits than 53 are kept, or none. */
  lemma SubnormalRange(x: nat, d: nat, j: int)
    requires d > 0 && x * UpPow(2, -j) < UpPow(2, j) * d
    ensures if j >= 0 then RoundDiv(x, d, RNDN) <= Pow(2, j) else RoundDiv(x, d, RNDN) == 0
  {
    if j >= 0 {
      RoundDivRange(x, d, RNDN, 0, UpPow(2, j));
    } else {
      PowMono(2, 1, -j);
      MulMono(2, UpPow(2, -j), x);
      DivIs(x, d, 0, x);
    }
  }

  lemma PackSubnormal(r: nat, e: int)
    requires e < -1021 && if e + 1074 >= 0 then r <= Pow(2, e + 1074) else r == 0
    ensures var m := r * Pow(2, -1021 - e);
            (if m >= P53 then PackBits(m / 2, e + 1) else PackBits(m, e)) == r
  {
    if r > 0 {
      var s := -1021 - e;
      P52Is();
      PowAdd(2, e + 1074, s);
      MulMono(r, Pow(2, e + 1074), Pow(2, s));
      var m := r * Pow(2, s);
      if m >= P53 {
        MulCancel(Pow(2, e + 1074), r, Pow(2, s));
        assert r == Pow(2, e + 1074) && m == P53 && m / 2 == P52;
        PowAdd(2, e + 1074, s - 1);
        DivIs(P52, Pow(2, s - 1), r, 0);
      } else {
        DivIs(m, Pow(2, s), r, 0);
      }
    }
  }

  /** `round_to_d` followed by packing is correct rounding. */
  lemma RoundToDNearest(a: nat, o: int, n: nat, d: nat, nn: nat, dd: nat)
    requires a > 0 && StandsFor(a, o, n, d, nn, dd)
    ensures PackBits(RoundToD(a, o).mant, RoundToD(a, o).exp) == RoundBits(n * Pow(2, 1074), d)
  {
    hide Pow;
    hide UpPow;
    hide RoundDiv;
    hide ShrRound;
    hide Quantum;
    hide PackBits;
    hide StandsFor;
    var e := FloorLog2(a) + 1 - o;
    var k := Max(e + 1021, 0);
    var x := n * Pow(2, 1074);
    assert d > 0 by { StandsPositive(a, o, n, d, nn, dd); }
    QuantumFromLog(a, o, n, d, nn, dd);
    QuantumBounds(x, d);
    SignificandIs(a, o, n, d, nn, dd);
    PowZero(2);
    var g := d * Pow(2, k);
    var r := RoundDiv(x, g, RNDN);
    RoundDivRange(x, g, RNDN, if k > 0 then P52 else 0, P53);
    if e >= -1021 {
      if k == 0 { LowestNormal(x, d); }
      PackNormal(r, e);
    } else {
      SubnormalRange(x, d, e + 1074);
      PackSubnormal(r, e);
      SmallBits(r, e);
    }
  }

  lemma StandsPositive(a: nat, o: int, n: nat, d: nat, nn: nat, dd: nat)
    requires StandsFor(a, o, n, d, nn, dd)
    ensures d > 0 && dd > 0
  {
  }

  lemma SmallBits(r: nat, e: int)
    requires e < -1021 && if e + 1074 >= 0 then r <= Pow(2, e + 1074) else r == 0
    ensures r < INFINITY
  {
    if e + 1074 >= 0 {
      P52Is();
      PowMono(2, e + 1074, 52);
    }
  }

  // ----- what `mul_pow` leaves stands for the scaled number -----

  /** The limbs added before dividing outweigh the divisor. */
  lemma EnoughLimbs(radix1: nat, g: nat, d: nat)
    requires d > 0 && Pow(radix1, d) <= Pow(2, 32) && radix1 > 0
    ensures Pow(radix1, g) <= Pow(2, 32 * LimbsFor(g, d))
  {
    hide Pow;
    var l := LimbsFor(g, d);
    LimbsCover(g, d);
    PowMono(radix1, g, l * d);
    PowPow(radix1, d, l);
    PowPow(2, 32, l);
    BaseMono(Pow(radix1, d), Pow(2, 32), l);
  }

  lemma LimbsCover(g: nat, d: nat)
    requires d > 0
    ensures g <= LimbsFor(g, d) * d
  {
    DivParts(g + d - 1, d);
  }

  lemma {:induction false} BaseMono(b: nat, c: nat, n: nat)
    requires b <= c
    ensures Pow(b, n) <= Pow(c, n)
    decreases n
  {
    if n > 0 {
      BaseMono(b, c, n - 1);
      MulMono(b, c, Pow(b, n - 1));
      MulMono(Pow(b, n - 1), Pow(c, n - 1), c);
    }
  }

  /** The quotient keeps at least 56 bits. */
  lemma EnoughBits(a: nat, w: nat, p: nat, extra: nat)
    requires a > 0 && p > 0 && p <= Pow(2, w) && FloorLog2(a) + extra >= 55
    ensures a * Pow(2, w + extra) / p >= Pow(2, 55)
  {
    hide Pow;
    var x := a * Pow(2, extra);
    FloorLog2Bounds(a);
    PowAdd(2, FloorLog2(a), extra);
    MulMono(Pow(2, FloorLog2(a)), a, Pow(2, extra));
    PowMono(2, 55, FloorLog2(a) + extra);
    PowAdd(2, w, extra);
    Group3(a, Pow(2, extra), Pow(2, w));
    assert Pow(2, w + extra) == Pow(2, extra) * Pow(2, w);
    MulMono(p, Pow(2, w), x);
    DivAtLeast(a * Pow(2, w + extra), p, x);
  }

  lemma DivAtLeast(n: nat, d: nat, q: nat)
    requires d > 0 && q * d <= n
    ensures q <= n / d
  {
    DivParts(n, d);
    assert (n / d + 1) * d == n / d * d + d;
    MulCancelStrict(q, n / d + 1, d);
  }

  lemma MulPowStands(a: nat, radix1: nat, shift: nat, f: int, d: nat) returns (nn: nat, dd: nat)
    requires a > 0 && radix1 > 1 && d > 0 && Pow(radix1, d) <= Pow(2, 32)
    ensures StandsFor(MulPow(a, radix1, shift, f, false, 55, d).value, MulPow(a, radix1, shift, f, false, 55, d).offset,
                      Num(a, 0, radix1 * Pow(2, shift), f), Den(0, radix1 * Pow(2, shift), f), nn, dd)
    ensures MulPow(a, radix1, shift, f, false, 55, d).value > 0
  {
    hide Pow;
    hide Sticky;
    RadixPower(radix1, shift, f);
    RadixPower(radix1, shift, -f);
    OffsetSign(f, shift);
    MulStrict(0, radix1, Pow(2, shift));
    SmallUpPow(0);
    var s := MulPow(a, radix1, shift, f, false, 55, d);
    if f >= 0 {
      nn, dd := a * UpPow(radix1, f), 1;
      PlainScaled(a, radix1, shift, f, false, 55, d);
      ExactStands(a, UpPow(radix1, f), f * shift);
      MulStrict(0, a, UpPow(radix1, f));
    } else {
      var l := LimbsFor(-f, d);
      var extra := ExtraBits(a, false, 55, -f * shift + 32 * l);
      nn, dd := a * Pow(2, 32 * l + extra), Pow(radix1, -f);
      EnoughLimbs(radix1, -f, d);
      EnoughBits(a, 32 * l, dd, extra);
      StickyStands(a, dd, 32 * l + extra, -f * shift);
      StickyPositive(nn / dd, nn % dd != 0);
    }
  }

  lemma StickyPositive(q: nat, inexact: bool)
    requires q >= Pow(2, 55)
    ensures Sticky(q, inexact) > 0
  {
  }

  lemma ExactStands(a: nat, r: nat, t: int)
    requires t >= 0
    ensures StandsFor(a * r, -t, a * (1 * (r * UpPow(2, t))), 1, a * r, 1)
  {
    hide Pow;
    assert a * r / 1 == a * r && a * r % 1 == 0;
    assert UpPow(2, -t) == 1;
    Group3(a, r, UpPow(2, t));
  }

  lemma StickyStands(a: nat, p: nat, w: nat, t: int)
    requires p > 0 && t >= 0 && a * Pow(2, w) / p >= Pow(2, 55)
    ensures StandsFor(Sticky(a * Pow(2, w) / p, a * Pow(2, w) % p != 0), w + t, a * (1 * (1 * 1)), p * UpPow(2, t),
      a * Pow(2, w), p)
  {
    hide Pow;
    hide Sticky;
    PlainUp(2, t);
    PlainUp(2, w + t);
    PowAdd(2, w, t);
    MulStrict(0, p, Pow(2, t));
    Regroup(a, Pow(2, w), p, Pow(2, t));
  }

  lemma Regroup(a: nat, x: nat, p: nat, y: nat)
    ensures a * x * (p * y) == a * p * (x * y)
  {
  }

  // ----- any radix -----

  /** `mul_pow` by a power of a radix. */
  function RadixScaled(a: nat, radix: Radix, f: int, isInt: bool, e: int): Scaled {
    MulPow(a, OddPart(radix), TwosIn(radix), f, isInt, e, OddPerLimb(radix))
  }

  /** `mul_pow_round` by a power of a radix. */
  function RadixRounded(m: nat, e: int, radix: Radix, f: int, mode: Mode): nat {
    MulPowRounded(m, e, OddPart(radix), TwosIn(radix), f, OddPerLimb(radix), mode)
  }

  lemma RadixRound(m: nat, e: int, radix: Radix, f: int, mode: Mode)
    ensures RadixRounded(m, e, radix, f, mode) == RoundDiv(Num(m, e, radix, f), Den(e, radix, f), mode)
  {
    hide MulPowRounded;
    hide RoundDiv;
    hide Num;
    hide Den;
    OddTimesTwos(radix);
    MulPowRound(m, e, OddPart(radix), TwosIn(radix), f, OddPerLimb(radix), mode);
  }

  lemma RadixStands(a: nat, radix: Radix, f: int) returns (nn: nat, dd: nat)
    requires a > 0
    ensures var s := RadixScaled(a, radix, f, false, 55);
            s.value > 0 && StandsFor(s.value, s.offset, Num(a, 0, radix, f), Den(0, radix, f), nn, dd)
  {
    hide MulPow;
    hide StandsFor;
    hide Num;
    hide Den;
    hide Pow;
    OddTimesTwos(radix);
    if OddPart(radix) == 1 {
      nn, dd := a, 1;
      BinaryStands(a, TwosIn(radix), f, OddPerLimb(radix));
    } else {
      OddFits(radix);
      BIsTwos();
      nn, dd := MulPowStands(a, OddPart(radix), TwosIn(radix), f, OddPerLimb(radix));
    }
  }

  lemma BIsTwos()
    ensures Pow(2, 32) == 0x1_0000_0000
  {
    SmallTwos();
    PowAdd(2, 16, 16);
  }

  /** By a power of two only the offset changes. */
  lemma BinaryStands(a: nat, shift: nat, f: int, d: nat)
    requires a > 0 && d > 0
    ensures Pow(2, shift) > 0 && MulPow(a, 1, shift, f, false, 55, d) == Scaled(a, -f * shift)
    ensures StandsFor(a, -f * shift, Num(a, 0, 1 * Pow(2, shift), f), Den(0, 1 * Pow(2, shift), f), a, 1)
  {
    hide Pow;
    hide UpPow;
    RadixPower(1, shift, f);
    RadixPower(1, shift, -f);
    OnePow(f);
    OnePow(-f);
    SmallUpPow(0);
    var t := f * shift;
    assert -f * shift == -t;
    OneStands(a, t);
  }

  lemma OneStands(a: nat, t: int)
    ensures StandsFor(a, -t, a * (1 * (1 * UpPow(2, t))), 1 * (1 * UpPow(2, -t)), a, 1)
  {
    hide UpPow;
    SmallUpPow(-t);
    assert a / 1 == a && a % 1 == 0;
    var u, v := UpPow(2, t), UpPow(2, -t);
    Group3(a, v, u);
    Group3(a, u, v);
  }
}
