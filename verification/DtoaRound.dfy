/** Rounded division, and rounding in two steps with a sticky bit. */
module DtoaRound {
  import opened DtoaArith

  /** Nearest with ties to even, nearest with ties away from zero, toward zero. */
  datatype Mode = RNDN | RNDNA | RNDZ

  predicate AddsOne(q: nat, r: nat, d: nat, mode: Mode) {
    match mode
    case RNDN => 2 * r > d || (2 * r == d && q % 2 == 1)
    case RNDNA => 2 * r >= d
    case RNDZ => false
  }

  /** `n / d`, rounded to an integer. */
  function RoundDiv(n: nat, d: nat, mode: Mode): nat
    requires d > 0
  {
    n / d + if AddsOne(n / d, n % d, d, mode) then 1 else 0
  }

  function Abs(x: int): nat {
    if x < 0 then -x else x
  }

  /** Rounding to nearest is what it says: no integer is closer, and of two equally close
      ones the even one, or the greater one, is taken. */
  lemma RoundDivNearest(n: nat, d: nat, mode: Mode, k: nat)
    requires d > 0 && mode != RNDZ
    ensures var q := RoundDiv(n, d, mode);
            Abs(n - q * d) <= Abs(n - k * d)
            && (k != q && Abs(n - q * d) == Abs(n - k * d) ==> if mode == RNDN then q % 2 == 0 else k < q)
  {
    var f, r := n / d, n % d;
    DivParts(n, d);
    assert (f + 1) * d == f * d + d;
    if k < f {
      MulMono(k, f - 1, d);
      assert (f - 1) * d == f * d - d;
    } else if k > f + 1 {
      MulMono(f + 2, k, d);
      assert (f + 2) * d == f * d + 2 * d;
    }
  }

  /** Equal fractions round alike. */
  lemma RoundDivRatio(n: nat, d: nat, n': nat, d': nat, mode: Mode)
    requires d > 0 && d' > 0 && n * d' == n' * d
    ensures RoundDiv(n, d, mode) == RoundDiv(n', d', mode)
  {
    DivBy(n, d, d');
    DivBy(n', d', d);
    assert d * d' == d' * d;
    var r, r' := n % d, n' % d';
    assert r * d' == r' * d;
    CompareScaled(2 * r, d, d');
    CompareScaled(2 * r', d', d);
    assert 2 * r * d' == 2 * r' * d by { assert 2 * r * d' == 2 * (r * d'); assert 2 * r' * d == 2 * (r' * d); }
  }

  lemma CompareScaled(x: nat, y: nat, k: nat)
    requires k > 0
    ensures x < y <==> x * k < y * k
    ensures x == y <==> x * k == y * k
  {
    if x < y { MulStrict(x, y, k); }
    if y < x { MulStrict(y, x, k); }
  }

  /** The quotient with its lowest bit set when the division was inexact. */
  function Sticky(q: nat, inexact: bool): nat {
    if inexact && q % 2 == 0 then q + 1 else q
  }

  lemma StickyOver(a: nat, b: nat, s: nat, inexact: bool)
    requires b < s && s % 4 == 0
    ensures Sticky(a * s + b, inexact) == a * s + Sticky(b, inexact) && Sticky(b, inexact) < s
  {
    var k := a * (s / 2);
    assert s == 2 * (s / 2);
    assert a * s == 2 * k;
    assert (2 * k + b) % 2 == b % 2;
  }

  lemma StickyParts(q: nat, inexact: bool, s: nat, a: nat, b: nat)
    requires s > 0 && s % 4 == 0 && q == a * s + b && b < s
    ensures Sticky(q, inexact) / s == a && Sticky(q, inexact) % s == Sticky(b, inexact)
  {
    hide Sticky;
    StickyOver(a, b, s, inexact);
    DivIs(Sticky(q, inexact), s, a, Sticky(b, inexact));
  }

  /** Rounding off at least two bits of a sticky quotient is rounding the exact one. */
  lemma StickyRound(n: nat, d: nat, s: nat, mode: Mode)
    requires d > 0 && s > 0 && s % 4 == 0
    ensures d * s > 0 && RoundDiv(Sticky(n / d, n % d != 0), s, mode) == RoundDiv(n, d * s, mode)
  {
    hide Sticky;
    hide AddsOne;
    hide RoundDiv;
    var q, r := n / d, n % d;
    DivParts(q, s);
    DivParts(n, d);
    DivChain(n, d, s);
    StickyParts(q, r != 0, s, q / s, q % s);
    RoundDivIs(Sticky(q, r != 0), s, q / s, Sticky(q % s, r != 0), mode);
    RoundDivIs(n, d * s, q / s, q % s * d + r, mode);
    HalfCompare(q % s, r, d, s);
    AddsAlike(q / s, Sticky(q % s, r != 0), s, q % s * d + r, d * s, mode);
  }

  lemma RoundDivIs(n: nat, d: nat, q: nat, r: nat, mode: Mode)
    requires d > 0 && n / d == q && n % d == r
    ensures RoundDiv(n, d, mode) == q + if AddsOne(q, r, d, mode) then 1 else 0
  {
  }

  lemma AddsAlike(q: nat, r: nat, d: nat, r': nat, d': nat, mode: Mode)
    requires 2 * r > d <==> 2 * r' > d'
    requires 2 * r == d <==> 2 * r' == d'
    ensures AddsOne(q, r, d, mode) == AddsOne(q, r', d', mode)
  {
  }

  lemma HalfCompare(b: nat, r: nat, d: nat, s: nat)
    requires d > 0 && s % 4 == 0 && r < d
    ensures 2 * Sticky(b, r != 0) > s <==> 2 * (b * d + r) > d * s
    ensures 2 * Sticky(b, r != 0) == s <==> 2 * (b * d + r) == d * s
  {
    var h := s / 2;
    var b' := Sticky(b, r != 0);
    assert d * s == 2 * (h * d) by { assert s == 2 * h; }
    if b' > h {
      MulMono(h, b, d);
      if b > h {
        MulMono(h + 1, b, d);
        assert (h + 1) * d == h * d + d;
      }
    } else if b' < h {
      MulMono(b + 1, h, d);
      assert (b + 1) * d == b * d + d;
    } else {
      assert b == h && r == 0;
    }
  }

  lemma AbsTimes(x: int, k: nat)
    ensures Abs(x) * k == Abs(x * k)
  {
    if x < 0 { MulMonoInt(x, 0, k); } else { MulMonoInt(0, x, k); }
    assert -x * k == -(x * k);
  }
}
