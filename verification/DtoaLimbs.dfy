/** Limb arithmetic: numbers as little-endian sequences of 32-bit limbs in an array, and
    the loops that work on them in place. */
module DtoaLimbs {
  import opened DtoaArith

  const B: nat := 0x1_0000_0000
  const HALF: nat := 0x8000_0000

  type Limb = x: int | 0 <= x < 0x1_0000_0000

  /** The number of a limb sequence. */
  function Val(s: seq<Limb>): nat {
    if s == [] then 0 else s[0] + B * Val(s[1..])
  }

  lemma {:induction false} ValConcat(s: seq<Limb>, t: seq<Limb>)
    ensures Val(s + t) == Val(s) + Pow(B, |s|) * Val(t)
    decreases |s|
  {
    if s == [] {
      assert s + t == t;
      assert Pow(B, 0) == 1;
    } else {
      assert (s + t)[1..] == s[1..] + t;
      ValConcat(s[1..], t);
      ConcatStep(s[0], Val(s[1..]), Pow(B, |s| - 1), Val(t));
    }
  }

  lemma ConcatStep(a: nat, v: nat, p: nat, w: nat)
    ensures a + B * (v + p * w) == a + B * v + B * p * w
  {
  }

  lemma ValAppend(s: seq<Limb>, a: Limb)
    ensures Val(s + [a]) == Val(s) + Pow(B, |s|) * a
  {
    ValConcat(s, [a]);
    assert Val([a]) == a by { assert [a][1..] == []; }
  }

  lemma ValPrepend(a: Limb, s: seq<Limb>)
    ensures Val([a] + s) == a + B * Val(s)
  {
    assert ([a] + s)[1..] == s;
  }

  lemma {:induction false} ValBelow(s: seq<Limb>)
    ensures Val(s) < Pow(B, |s|)
    decreases |s|
  {
    if s != [] {
      ValBelow(s[1..]);
      MulMono(Val(s[1..]) + 1, Pow(B, |s| - 1), B);
    }
  }

  lemma BZero()
    ensures Pow(B, 0) == 1 && Val([]) == 0
  {
  }

  // ----- addition and multiplication -----

  /** `tab += b`, on the first `n` limbs; the carry is returned. The addition of each limb
      wraps around, and the carry is found by comparing. */
  method MpAddUi(tab: array<Limb>, b: Limb, n: nat) returns (k: Limb)
    requires n <= tab.Length
    modifies tab
    ensures Val(tab[..n]) + Pow(B, n) * k == old(Val(tab[..n])) + b
    ensures tab[n..] == old(tab[n..])
  {
    hide Val;
    hide Pow;
    k := b;
    var i := 0;
    ghost var was := tab[..];
    assert Pow(B, 0) == 1 by { BZero(); }
    while i < n && k != 0
      invariant i <= n && tab[i..] == was[i..]
      invariant Val(tab[..i]) + Pow(B, i) * k == Val(was[..i]) + b
    {
      var x: int, y: int := tab[i], k;
      var a: Limb := (x + y) % B;
      k := if a < k then 1 else 0;
      ghost var done := tab[..i];
      tab[i] := a;
      assert tab[..i + 1] == done + [a] && was[..i + 1] == was[..i] + [was[i]];
      AddStep(done, was[..i], a, was[i], k, y, b);
      i := i + 1;
    }
    if i < n { AddRest(tab[..], was, i, n, b); }
  }

  lemma AddRest(s: seq<Limb>, was: seq<Limb>, i: nat, n: nat, b: int)
    requires i <= n <= |s| && |s| == |was| && s[i..] == was[i..] && Val(s[..i]) == Val(was[..i]) + b
    ensures Val(s[..n]) == Val(was[..n]) + b
  {
    assert s[..n] == s[..i] + s[i..n] && was[..n] == was[..i] + was[i..n];
    assert s[i..n] == s[i..][..n - i] && was[i..n] == was[i..][..n - i];
    ValConcat(s[..i], s[i..n]);
    ValConcat(was[..i], was[i..n]);
  }

  lemma AddStep(done: seq<Limb>, was: seq<Limb>, a: Limb, x: Limb, k: int, k0: int, b: int)
    requires |done| == |was| && k >= 0 && k0 >= 0 && b >= 0
    requires Val(done) + Pow(B, |was|) * k0 == Val(was) + b && a as int + B * k == x as int + k0
    ensures Val(done + [a]) + Pow(B, |was| + 1) * k == Val(was + [x]) + b
  {
    ValAppend(done, a);
    ValAppend(was, x);
    CarryStep(Val(done), Val(was), Pow(B, |was|), a, k, x, k0, b);
  }

  lemma CarryStep(v: nat, w: nat, p: nat, a: nat, k: nat, x: nat, k0: nat, b: nat)
    requires v + p * k0 == w + b && a + B * k == x + k0
    ensures v + p * a + B * p * k == w + p * x + b
  {
    assert p * (a + B * k) == p * a + B * p * k;
    assert p * (x + k0) == p * x + p * k0;
  }

  /** `tab = tab * b + l`; the high carry is returned. */
  method MpMul1(tab: array<Limb>, n: nat, b: Limb, l0: Limb) returns (l: Limb)
    requires n <= tab.Length
    modifies tab
    ensures Val(tab[..n]) + Pow(B, n) * l == old(Val(tab[..n])) * b + l0
    ensures tab[n..] == old(tab[n..])
  {
    hide Val;
    hide Pow;
    l := l0;
    var i := 0;
    ghost var was := tab[..];
    assert was[..0] == [] && Pow(B, 0) == 1 && Val([]) == 0 by { BZero(); }
    while i < n
      invariant i <= n && tab[i..] == was[i..]
      invariant Val(tab[..i]) + Pow(B, i) * l == Val(was[..i]) * b + l0
    {
      ghost var x: int, l1: int, done := tab[i], l, tab[..i];
      ProductFits(tab[i], b, l);
      var t: int := tab[i] as int * b as int + l as int;
      tab[i] := t % B;
      l := t / B;
      assert tab[..i + 1] == done + [(t % B) as Limb] && was[..i + 1] == was[..i] + [x as Limb];
      ShlStep(done, was[..i], t % B, x, l, l1, b, l0);
      i := i + 1;
    }
  }

  lemma ProductFits(x: Limb, y: Limb, z: Limb)
    ensures 0 <= x * y + z < B * B && 0 <= (x * y + z) / B < B
  {
    MulMono(x, B - 1, y);
    MulMono(y, B - 1, B - 1);
    DivIs(x * y + z, B, (x * y + z) / B, (x * y + z) % B);
  }

  lemma MulStep(v: nat, w: nat, p: nat, a: nat, l: nat, x: nat, l1: nat, b: nat, l0: nat)
    requires v + p * l1 == w * b + l0 && a + B * l == x * b + l1
    ensures v + p * a + B * p * l == (w + p * x) * b + l0
  {
    assert p * (a + B * l) == p * a + B * p * l;
    assert p * (x * b + l1) == p * x * b + p * l1;
    assert (w + p * x) * b == w * b + p * x * b;
  }

  // ----- division by one limb -----

  lemma DivStep(r: nat, x: Limb, b: Limb)
    requires b > 0 && r < b
    ensures 0 <= (r * B + x) / b < B && 0 <= (r * B + x) % b < b
  {
    DivParts(r * B + x, b);
    MulMono(r, b - 1, B);
    MulCancelStrict((r * B + x) / b, B, b);
  }

  /** `mp_div1`: long division from the top limb down; the remainder is returned. */
  method MpDiv1(tab: array<Limb>, n: nat, b: Limb, r0: Limb) returns (r: Limb)
    requires n <= tab.Length && r0 < b
    modifies tab
    ensures Val(tab[..n]) * b + r == old(Val(tab[..n])) + Pow(B, n) * r0 && r < b
    ensures tab[n..] == old(tab[n..])
  {
    hide Val;
    hide Pow;
    r := r0;
    var i := n;
    ghost var was := tab[..];
    assert was[n..n] == [] && Pow(B, 0) == 1 && Val([]) == 0 by { BZero(); }
    while i > 0
      invariant 0 <= i <= n && r < b
      invariant tab[..i] == was[..i] && tab[n..] == was[n..]
      invariant Val(tab[i..n]) * b + r == Val(was[i..n]) + Pow(B, n - i) * r0
    {
      i := i - 1;
      ghost var x: int, r1: int, done := tab[i], r, tab[i + 1..n];
      DivStep(r, tab[i], b);
      var a1: int := r as int * B + tab[i] as int;
      tab[i] := a1 / b as int;
      r := a1 % b as int;
      assert tab[i..n] == [(a1 / b as int) as Limb] + done && was[i..n] == [x as Limb] + was[i + 1..n];
      DivParts(a1, b);
      ShrStep(done, was[i + 1..n], a1 / b as int, x, r, r1, b, r0);
    }
    assert tab[0..n] == tab[..n] && was[0..n] == was[..n];
  }

  lemma LongDivision(v: nat, w: nat, p: nat, q: nat, r: nat, x: nat, r1: nat, b: nat, r0: nat)
    requires v * b + r1 == w + p * r0 && r1 * B + x == q * b + r
    ensures (q + B * v) * b + r == x + B * w + B * p * r0
  {
    assert (q + B * v) * b == q * b + B * (v * b);
    assert B * (v * b + r1) == B * (v * b) + B * r1;
    assert B * (w + p * r0) == B * w + B * p * r0;
  }

  // ----- division by a precomputed reciprocal -----

  /** The reciprocal of a normalized divisor: floor((B^2 - 1) / d) - B. */
  method Udiv1NormInit(d: Limb) returns (dInv: Limb)
    requires HALF <= d
    ensures dInv == (B * B - 1) / d - B
  {
    var a1: int, a0: int := B - 1 - d, B - 1;
    ReciprocalFits(d);
    dInv := (a1 * B + a0) / d;
  }

  lemma ReciprocalFits(d: Limb)
    requires HALF <= d
    ensures ((B - 1 - d) * B + (B - 1)) / d == (B * B - 1) / d - B && 0 <= (B * B - 1) / d - B < B
  {
    var q, r := (B * B - 1) / d, (B * B - 1) % d;
    DivParts(B * B - 1, d);
    MulMono(HALF, d, 2 * B);
    assert B * d <= B * B - 1;
    assert (q + 1) * d == q * d + d;
    MulCancelStrict(B, q + 1, d);
    MulCancelStrict(q, 2 * B, d);
    assert (q - B) * d == q * d - B * d;
    DivIs((B - 1 - d) * B + (B - 1), d, q - B, r);
  }

  lemma Spread2(x: nat, y: nat, z: nat)
    ensures (x + y) * z == x * z + y * z
  {
  }

  lemma Swap3(x: nat, y: nat, z: nat)
    ensures x * y * z == y * (x * z)
  {
  }

  /** `B (n - q d)` for a guess `q` with remainder `rho`. */
  lemma GuessIdentity(d: nat, v: nat, e: nat, c: nat, x: nat, q: nat, rho: nat, y: nat)
    requires v * d + e == B * B && v * c + x == B * q + rho + y
    ensures B * B * c - c * e + x * d == B * (q * d) + rho * d + y * d
  {
    Spread2(v * c, x, d);
    Spread2(B * q + rho, y, d);
    Spread2(B * q, rho, d);
    Swap3(v, c, d);
    assert B * q * d == B * (q * d);
    assert c * (v * d + e) == c * (v * d) + c * e;
    assert c * (B * B) == B * B * c;
  }

  lemma LowFacts(d: nat, e: nat, a1: nat, a0: nat, rho: nat)
    requires HALF <= d < B && a1 < d && a0 < HALF && rho < B && 1 <= e <= d
    ensures a1 * e <= d * d - d && a0 * B - a0 * d <= HALF * B - HALF * d && a0 * B - a0 * d >= 0
      && rho * d <= B * d - d
  {
    MulMono(a1, d - 1, e);
    MulMono(e, d, d - 1);
    MulMono(a0, HALF, B - d);
    MulMono(rho, B - 1, d);
    Complement(a0, d);
    Complement(HALF, d);
  }

  /** The first guess of the quotient is the quotient or one less. */
  lemma GuessLow(d: nat, v: nat, e: nat, a1: nat, a0: nat, q: nat, rho: nat)
    requires HALF <= d < B && a1 < d && a0 < HALF && rho < B
    requires v * d + e == B * B && 1 <= e <= d
    requires v * a1 + a0 == B * q + rho
    ensures q * d <= a1 * B + a0 < q * d + 2 * d
  {
    GuessIdentity(d, v, e, a1, a0, q, rho, 0);
    GuessLowCore(d, e, a1, a0, q * d, rho, a1 * e, rho * d, a0 * d);
  }

  lemma GuessLowCore(d: nat, e: nat, a1: nat, a0: nat, qd: nat, rho: nat, ae: nat, rd: nat, ad: nat)
    requires HALF <= d < B && a1 < d && a0 < HALF && rho < B && 1 <= e <= d
    requires ae == a1 * e && rd == rho * d && ad == a0 * d
    requires B * B * a1 - ae + ad == B * qd + rd
    ensures qd <= a1 * B + a0 < qd + 2 * d
  {
    LowFacts(d, e, a1, a0, rho);
    QuadraticGap(d);
    LinearGuess(a1 * B + a0, qd, a1, ae, a0, ad, rd, d, d * d);
  }

  lemma LinearGuess(n: nat, qd: nat, a1: nat, ae: nat, a0: nat, ad: nat, rd: nat, d: nat, dd: nat)
    requires n == a1 * B + a0 && B * B * a1 - ae + ad == B * qd + rd
    requires ae <= dd - d && a0 * B - ad <= HALF * B - HALF * d && a0 * B - ad >= 0 && rd <= B * d - d
    requires dd + HALF * B <= d * B + HALF * d && d > 0
    ensures qd <= n < qd + 2 * d
  {
  }

  lemma QuadraticGap(d: nat)
    requires HALF <= d < B
    ensures d * d + HALF * B <= d * B + HALF * d
  {
    var x, y := d - HALF, B - d;
    MulMono(0, x, y);
    assert x * y == d * y - HALF * y;
    Complement(d, d);
  }

  lemma Complement(x: nat, d: nat)
    requires d <= B
    ensures x * (B - d) == x * B - x * d
  {
  }

  lemma HighFacts(d: nat, e: nat, a1: nat, a0: nat, rho: nat)
    requires HALF <= d < B && a1 < d && HALF <= a0 < B && rho < B && 1 <= e <= d
    ensures (a1 + 1) * e <= d * d && rho * d <= B * d - d
    ensures a0 * B - a0 * d <= (B - 1) * B - (B - 1) * d && a0 * B - a0 * d >= B * B - d * B - (d * B - d * d)
  {
    var m := B - d;
    MulMono(a1 + 1, d, e);
    MulMono(e, d, d);
    MulMono(a0, B - 1, m);
    MulMono(m, a0, m);
    MulMono(rho, B - 1, d);
    Complement(a0, d);
    SquareComplement(d);
  }

  lemma SquareComplement(d: nat)
    requires d <= B
    ensures (B - d) * (B - d) == B * B - d * B - (d * B - d * d)
  {
    Complement(B - d, d);
    assert (B - d) * d == B * d - d * d;
  }

  lemma GuessHigh(d: nat, v: nat, e: nat, a1: nat, a0: nat, q: nat, rho: nat)
    requires HALF <= d < B && a1 < d && HALF <= a0 < B && rho < B
    requires v * d + e == B * B && 1 <= e <= d
    requires v * (a1 + 1) + (a0 + d) == B * q + rho + 2 * B
    ensures q * d <= a1 * B + a0 < q * d + 2 * d
  {
    GuessIdentity(d, v, e, a1 + 1, a0 + d, q, rho, 2 * B);
    GuessHighCore(d, e, a1, a0, q * d, rho, (a1 + 1) * e, rho * d);
  }

  lemma GuessHighCore(d: nat, e: nat, a1: nat, a0: nat, qd: nat, rho: nat, ae: nat, rd: nat)
    requires HALF <= d < B && a1 < d && HALF <= a0 < B && rho < B && 1 <= e <= d
    requires ae == (a1 + 1) * e && rd == rho * d
    requires B * B * (a1 + 1) - ae + (a0 + d) * d == B * qd + rd + 2 * B * d
    ensures qd <= a1 * B + a0 < qd + 2 * d
  {
    Spread2(a0, d, d);
    HighFacts(d, e, a1, a0, rho);
    LinearGuessHigh(a1 * B + a0, qd, a1, ae, a0, a0 * d, rd, d, d * d);
  }

  lemma LinearGuessHigh(n: nat, qd: nat, a1: nat, ae: nat, a0: nat, ad: nat, rd: nat, d: nat, dd: nat)
    requires n == a1 * B + a0 && B * B * (a1 + 1) - ae + (ad + dd) == B * qd + rd + 2 * B * d
    requires ae <= dd && rd <= B * d - d && d > 0
    requires a0 * B - ad <= (B - 1) * B - (B - 1) * d && a0 * B - ad >= B * B - d * B - (d * B - dd)
    ensures qd <= n < qd + 2 * d
  {
  }

  /** The sign bit of a limb, spread over all bits. */
  function SignMask(a: Limb): (m: Limb) { if a >= HALF then B - 1 else 0 }

  /** `x & m` for a mask of all zeros or all ones. */
  function Masked(m: Limb, x: Limb): Limb { if m == 0 then 0 else x }

  /** `udiv1norm`: exact division of two limbs by a normalized one, without dividing. All
      sums are taken modulo 2^32, or modulo 2^64 for the double limbs. */
  method Udiv1Norm(a1: Limb, a0: Limb, d: Limb, dInv: Limb) returns (q: Limb, r: Limb)
    requires HALF <= d && a1 < d && dInv == (B * B - 1) / d - B
    ensures a1 as int * B + a0 == q as int * d as int + r && r < d
  {
    q := UdivGuess(a1, a0, d, dInv);
    q, r := UdivCorrect(a1, a0, d, q);
  }

  /** The quotient from the reciprocal: right, or one too small. */
  method UdivGuess(a1: Limb, a0: Limb, d: Limb, dInv: Limb) returns (q: Limb)
    requires HALF <= d && a1 < d && dInv == (B * B - 1) / d - B
    ensures q as int * d as int <= a1 as int * B + a0 < q as int * d as int + 2 * d as int
    ensures a1 as int * B + a0 < d as int * B
  {
    hide SignMask;
    hide Masked;
    var i1: int, i0: int, iv: int := a1, a0, dInv;
    var n1m: int := SignMask(a0);
    var nAdj: int := (i0 + Masked(SignMask(a0), d) as int) % B;
    var c: int := (i1 - n1m) % B;
    GuessOperands(i1, a0, d);
    var product: int := iv * c + nAdj;
    FirstGuess(i1, i0, d, iv, c, nAdj, product);
    q := product % (B * B) / B + i1;
  }

  /** The remainder of the guess, and one conditional correction. */
  method UdivCorrect(a1: Limb, a0: Limb, d: Limb, q0: Limb) returns (q: Limb, r: Limb)
    requires HALF <= d && a1 as int * B + a0 < d as int * B
    requires q0 as int * d as int <= a1 as int * B + a0 < q0 as int * d as int + 2 * d as int
    ensures a1 as int * B + a0 == q as int * d as int + r && r < d
  {
    var n: int, id: int, iq: int := a1 as int * B + a0 as int, d, q0;
    var qd: int := iq * id;
    var a: int := (n - qd - id) % (B * B);
    SecondGuess(n, qd, iq, id, a);
    var ah: Limb := a / B;
    q := (iq + 1 + ah as int) % B;
    r := (a % B + Masked(ah, d) as int) % B;
    Finished(n, qd, iq, id, q, r, ah == 0);
  }

  lemma Finished(n: nat, qd: nat, q0: nat, d: nat, q: nat, r: nat, corrected: bool)
    requires qd == q0 * d && r < d
    requires if corrected then q == q0 + 1 && r == n - (q0 + 1) * d else q == q0 && r == n - q0 * d
    ensures n == q * d + r
  {
  }

  /** After the guess, one conditional correction gives quotient and remainder. */
  lemma SecondGuess(n: nat, qd: nat, q0: nat, d: nat, a: int)
    requires HALF <= d < B && qd == q0 * d && qd <= n < qd + 2 * d && q0 < B && n < d * B
    requires a == (n - qd - d) % (B * B)
    ensures 0 <= a / B < B
    ensures a / B == 0 || a / B == B - 1
    ensures a / B == B - 1 ==> (q0 + 1 + a / B) % B == q0 && (a % B + d) % B == n - q0 * d && n - q0 * d < d
    ensures a / B == 0 ==> (q0 + 1 + a / B) % B == q0 + 1 && a % B % B == n - (q0 + 1) * d && 0 <= n - (q0 + 1) * d < d
  {
    NextQuotient(n, qd, q0, d);
    Correction(n, qd, q0, d, a);
  }

  lemma NextQuotient(n: nat, qd: nat, q0: nat, d: nat)
    requires qd == q0 * d && n < d * B && d > 0
    ensures (q0 + 1) * d == qd + d && (n >= qd + d ==> q0 + 1 < B)
  {
    assert (q0 + 1) * d == q0 * d + d;
    if n >= qd + d { MulCancelStrict(q0 + 1, B, d); }
  }

  lemma Correction(n: nat, qd: nat, q0: nat, d: nat, a: int)
    requires HALF <= d < B && qd <= n < qd + 2 * d && q0 < B && (n >= qd + d ==> q0 + 1 < B)
    requires a == (n - qd - d) % (B * B)
    ensures 0 <= a / B < B
    ensures a / B == 0 || a / B == B - 1
    ensures a / B == B - 1 ==> (q0 + 1 + a / B) % B == q0 && (a % B + d) % B == n - qd && n - qd < d
    ensures a / B == 0 ==> (q0 + 1 + a / B) % B == q0 + 1 && a % B % B == n - qd - d && 0 <= n - qd - d < d
  {
    var x: int := n - qd - d;
    if x >= 0 {
      assert x % (B * B) == x;
    } else {
      assert x % (B * B) == x + B * B;
    }
  }

  lemma ReciprocalParts(d: nat, dInv: nat)
    requires HALF <= d < B && dInv == (B * B - 1) / d - B
    ensures 1 <= B * B - (dInv + B) * d <= d
  {
    DivParts(B * B - 1, d);
  }

  /** The operands of the first product, whatever the sign bit of `a0`. */
  lemma GuessOperands(a1: nat, a0: Limb, d: Limb)
    requires HALF <= d && a1 < d
    ensures (a1 - SignMask(a0)) % B == if a0 >= HALF then a1 + 1 else a1
    ensures (a0 as int + Masked(SignMask(a0), d) as int) % B == if a0 >= HALF then a0 as int + d as int - B else a0
  {
  }

  lemma ProductBelow(v: nat, c: nat, x: nat)
    requires v < B && c < B && x < B
    ensures v * c + x < B * B
  {
    MulMono(v, B - 1, c);
    MulMono(c, B - 1, B - 1);
  }

  /** The double-limb product does not overflow, and its high limb added to `a1` is the
      quotient or one less. */
  lemma FirstGuess(a1: nat, a0: nat, d: nat, dInv: nat, c: nat, adj: nat, t: nat)
    requires HALF <= d < B && a1 < d && a0 < B && dInv < B && dInv == (B * B - 1) / d - B
    requires c == (if a0 >= HALF then a1 + 1 else a1) && adj == (if a0 >= HALF then a0 + d - B else a0)
    requires t == dInv * c + adj
    ensures t < B * B && t / B + a1 < B
    ensures (t / B + a1) * d <= a1 * B + a0 < (t / B + a1) * d + 2 * d
    ensures a1 * B + a0 < d * B
  {
    ProductBelow(dInv, c, adj);
    GuessBounds(a1, a0, d, dInv, t / B, t % B);
    MulMono(a1, d - 1, B);
    QuotientBelow(t / B + a1, d, a1 * B + a0);
  }

  lemma QuotientBelow(q: nat, d: nat, n: nat)
    requires q * d <= n < d * B
    ensures q < B
  {
    MulCancelStrict(q, B, d);
  }

  lemma GuessBounds(a1: nat, a0: nat, d: nat, dInv: nat, hi: nat, lo: nat)
    requires HALF <= d < B && a1 < d && a0 < B && dInv == (B * B - 1) / d - B && lo < B
    requires hi * B + lo == if a0 >= HALF then dInv * (a1 + 1) + (a0 + d - B) else dInv * a1 + a0
    ensures (hi + a1) * d <= a1 * B + a0 < (hi + a1) * d + 2 * d
  {
    ReciprocalParts(d, dInv);
    var v := dInv + B;
    if a0 < HALF {
      Spread2(dInv, B, a1);
      GuessLow(d, v, B * B - v * d, a1, a0, hi + a1, lo);
    } else {
      Spread2(dInv, B, a1 + 1);
      GuessHigh(d, v, B * B - v * d, a1, a0, hi + a1, lo);
    }
  }

  // ----- shifts -----

  /** Bits of a limb that a left shift by `k` moves out, and those that stay. */
  lemma SplitLimb(a: nat, k: nat)
    requires a < B && k <= 32
    ensures Pow(2, k) * Pow(2, 32 - k) == B
    ensures a * Pow(2, k) == a / Pow(2, 32 - k) * B + a % Pow(2, 32 - k) * Pow(2, k)
    ensures a / Pow(2, 32 - k) < Pow(2, k) && a % Pow(2, 32 - k) * Pow(2, k) + Pow(2, k) <= B
    ensures a * Pow(2, k) % B == a % Pow(2, 32 - k) * Pow(2, k)
  {
    hide Pow;
    PowAdd(2, k, 32 - k);
    BIsPower();
    var p, q := Pow(2, k), Pow(2, 32 - k);
    DivParts(a, q);
    SplitAlgebra(a, p, q, a / q, a % q);
    DivIs(a * p, B, a / q, a % q * p);
  }

  lemma BIsPower()
    ensures Pow(2, 32) == B
  {
    assert Pow(2, 1) == 2 && Pow(2, 2) == 4 && Pow(2, 4) == 16;
    PowAdd(2, 4, 4);
    PowAdd(2, 8, 8);
    PowAdd(2, 16, 16);
  }

  lemma SplitAlgebra(a: nat, p: nat, q: nat, h: nat, l: nat)
    requires p * q == B && a == h * q + l && l < q && a < B && p > 0
    ensures a * p == h * B + l * p && h < p && l * p + p <= B
  {
    assert (h * q + l) * p == h * (p * q) + l * p;
    MulMono(l + 1, q, p);
    assert (l + 1) * p == l * p + p && q * p == p * q;
    if h >= p { MulMono(p, h, q); }
  }

  /** (a << shift) | l: the shifted limb has zeros where `l` lies. */
  method ShlTwo(l: Limb, a: Limb, shift: nat) returns (x: Limb, h: Limb)
    requires 1 <= shift < 32 && l < Pow(2, shift)
    ensures x as int + B * h as int == a as int * Pow(2, shift) + l as int && h < Pow(2, shift)
  {
    hide Pow;
    SplitLimb(a, shift);
    x := (a as int * Pow(2, shift)) % B + l as int;
    h := a as int / Pow(2, 32 - shift);
  }

  /** `mp_shl`: `tab = tab * 2^shift + low`; the bits moved out are returned. */
  method MpShl(tab: array<Limb>, n: nat, shift: nat, low: Limb) returns (l: Limb)
    requires n <= tab.Length && 1 <= shift < 32 && low < Pow(2, shift)
    modifies tab
    ensures Val(tab[..n]) + Pow(B, n) * l == old(Val(tab[..n])) * Pow(2, shift) + low && l < Pow(2, shift)
    ensures tab[n..] == old(tab[n..])
  {
    hide Val;
    hide Pow;
    l := low;
    var i := 0;
    ghost var was := tab[..];
    assert was[..0] == [] && Pow(B, 0) == 1 && Val([]) == 0 by { BZero(); }
    while i < n
      invariant i <= n && tab[i..] == was[i..] && l < Pow(2, shift)
      invariant Val(tab[..i]) + Pow(B, i) * l == Val(was[..i]) * Pow(2, shift) + low
    {
      var a: Limb := tab[i];
      ghost var done, l1 := tab[..i], l;
      var x, h := ShlTwo(l, a, shift);
      tab[i] := x;
      l := h;
      assert tab[..i + 1] == done + [x] && was[..i + 1] == was[..i] + [a];
      ShlStep(done, was[..i], x, a, l, l1, Pow(2, shift), low);
      i := i + 1;
    }
  }

  lemma ShlStep(done: seq<Limb>, was: seq<Limb>, x: Limb, a: Limb, l: int, l1: int, p: nat, low: int)
    requires |done| == |was| && l >= 0 && l1 >= 0 && low >= 0
    requires Val(done) + Pow(B, |was|) * l1 == Val(was) * p + low && x as int + B * l == a as int * p + l1
    ensures Val(done + [x]) + Pow(B, |was| + 1) * l == Val(was + [a]) * p + low
  {
    hide Val;
    hide Pow;
    ValAppend(done, x);
    ValAppend(was, a);
    NextWeight(|was|);
    MulStep(Val(done), Val(was), Pow(B, |was|), x, l, a, l1, p, low);
  }

  lemma NextWeight(n: nat)
    ensures Pow(B, n + 1) == B * Pow(B, n)
  {
  }

  /** (a >> shift) | (l << (32 - shift)): the high bits of `a >> shift` are zeros. */
  method ShrTwo(l: Limb, a: Limb, shift: nat) returns (x: Limb)
    requires 1 <= shift < 32
    ensures x as int * Pow(2, shift) + a as int % Pow(2, shift) == l as int % Pow(2, shift) * B + a as int
    ensures a as int % Pow(2, shift) < Pow(2, shift)
  {
    hide Pow;
    ShrLimb(l, a, l as int % Pow(2, shift), shift);
    x := a as int / Pow(2, shift) + (l as int * Pow(2, 32 - shift)) % B;
  }

  /** `mp_shr`: `(tab + high * B^n) / 2^shift`, and its remainder. */
  method MpShr(tab: array<Limb>, n: nat, shift: nat, high: Limb) returns (rem: nat)
    requires n <= tab.Length && 1 <= shift < 32 && high < Pow(2, shift)
    modifies tab
    ensures Val(tab[..n]) * Pow(2, shift) + rem == old(Val(tab[..n])) + Pow(B, n) * high && rem < Pow(2, shift)
    ensures tab[n..] == old(tab[n..])
  {
    hide Val;
    hide Pow;
    var l: Limb := high;
    var i := n;
    ghost var was := tab[..];
    SmallMod(high, Pow(2, shift));
    ghost var r: int := high;
    ShrStart(was, n, Pow(2, shift), high);
    hide Shifting;
    while i > 0
      invariant 0 <= i <= n && 0 <= r < Pow(2, shift) && l as int % Pow(2, shift) == r
      invariant Shifting(was, tab[..], i, n, Pow(2, shift), r, high)
    {
      i := i - 1;
      var a: Limb := tab[i];
      var x := ShrTwo(l, a, shift);
      ShrNext(was, tab[..], i, n, Pow(2, shift), r, high, x, a as int % Pow(2, shift));
      tab[i] := x;
      l := a;
      r := a as int % Pow(2, shift);
    }
    rem := l as int % Pow(2, shift);
    ShrEnd(was, tab[..], n, Pow(2, shift), rem, high);
    assert tab[..][..n] == tab[..n] && was[..n] == old(tab[..n]);
    assert tab[..][n..] == tab[n..] && was[n..] == old(tab[n..]);
  }

  /** The limbs from `i` on are those of the quotient, so far with remainder `r`. */
  ghost predicate Shifting(was: seq<Limb>, now: seq<Limb>, i: nat, n: nat, p: nat, r: int, high: nat) {
    && i <= n <= |was| == |now| && now[..i] == was[..i] && now[n..] == was[n..] && r >= 0
    && Val(now[i..n]) * p + r == Val(was[i..n]) + Pow(B, n - i) * high
  }

  lemma ShrStart(was: seq<Limb>, n: nat, p: nat, high: nat)
    requires n <= |was|
    ensures Shifting(was, was, n, n, p, high, high)
  {
    assert was[n..n] == [] && Pow(B, 0) == 1 && Val([]) == 0 by { BZero(); }
  }

  lemma ShrNext(was: seq<Limb>, now: seq<Limb>, i: nat, n: nat, p: nat, r: int, high: nat, x: Limb, r1: int)
    requires i < n && Shifting(was, now, i + 1, n, p, r, high) && r1 >= 0 && x as int * p + r1 == r * B + now[i]
    ensures Shifting(was, now[i := x], i, n, p, r1, high)
  {
    hide Val;
    hide Pow;
    var next := now[i := x];
    assert now[i] == now[..i + 1][i] == was[..i + 1][i] == was[i];
    assert next[..i] == now[..i + 1][..i] == was[..i + 1][..i] == was[..i];
    assert next[i..n] == [x] + now[i + 1..n] && was[i..n] == [was[i]] + was[i + 1..n];
    ShrStep(now[i + 1..n], was[i + 1..n], x, was[i], r1, r, p, high);
  }

  lemma ShrEnd(was: seq<Limb>, now: seq<Limb>, n: nat, p: nat, r: int, high: nat)
    requires Shifting(was, now, 0, n, p, r, high)
    ensures Val(now[..n]) * p + r == Val(was[..n]) + Pow(B, n) * high && now[n..] == was[n..]
  {
    hide Val;
    hide Pow;
    assert now[0..n] == now[..n] && was[0..n] == was[..n];
  }

  lemma SmallMod(x: nat, p: nat)
    requires x < p
    ensures x % p == x
  {
    DivIs(x, p, 0, x);
  }

  /** One limb of a right shift: `(r B + a) / 2^shift`, where `r` is the low part of `l`. */
  lemma ShrLimb(l: nat, a: nat, r: nat, shift: nat)
    requires l < B && a < B && 1 <= shift < 32 && r == l % Pow(2, shift)
    ensures var p := Pow(2, shift); var x := a / p + l * Pow(2, 32 - shift) % B;
            r < p && a % p < p && x < B && x * p + a % p == r * B + a
  {
    hide Pow;
    var p, q := Pow(2, shift), Pow(2, 32 - shift);
    SplitLimb(l, 32 - shift);
    DivParts(l, p);
    DivParts(a, p);
    assert 32 - (32 - shift) == shift;
    assert l * q % B == r * q;
    assert p * q == B by { SplitLimb(0, shift); }
    assert (a / p + r * q) * p == a / p * p + r * (p * q);
    MulMono(r + 1, p, B);
    MulCancelStrict(a / p + r * q, B, p);
  }

  lemma ShrStep(done: seq<Limb>, was: seq<Limb>, x: Limb, a: Limb, r: int, r1: int, p: nat, high: int)
    requires |done| == |was| && r >= 0 && r1 >= 0 && high >= 0
    requires Val(done) * p + r1 == Val(was) + Pow(B, |was|) * high && x as int * p + r == r1 * B + a
    ensures Val([x] + done) * p + r == Val([a] + was) + Pow(B, |was| + 1) * high
  {
    ValPrepend(x, done);
    ValPrepend(a, was);
    LongDivision(Val(done), Val(was), Pow(B, |was|), x, r, a, r1, p, high);
  }

  /** `mp_div1norm`: division by `b`, given as the normalized `b << shift` with its
      reciprocal. */
  method MpDiv1Norm(tab: array<Limb>, n: nat, b: Limb, r0: nat, bInv: Limb, shift: nat, ghost d: nat) returns (r: nat)
    requires n <= tab.Length && shift < 32 && HALF <= b && b == d * Pow(2, shift) && r0 < d
    requires bInv == (B * B - 1) / b - B
    modifies tab
    ensures Val(tab[..n]) * d + r == old(Val(tab[..n])) + Pow(B, n) * r0 && r < d
    ensures tab[n..] == old(tab[n..])
  {
    hide Val;
    hide Pow;
    ghost var v := Val(tab[..n]) + Pow(B, n) * r0;
    var s := ShiftIn(tab, n, shift, r0, d, b);
    var x := MpDivNormLoop(tab, n, b, s, bInv);
    r := x as int / Pow(2, shift);
    Unshift(Val(tab[..n]), x, v, d, Pow(2, shift));
  }

  /** The shift before the division: limbs and remainder move left together. */
  method ShiftIn(tab: array<Limb>, n: nat, shift: nat, r0: nat, ghost d: nat, ghost b: Limb) returns (s: Limb)
    requires n <= tab.Length && shift < 32 && b == d * Pow(2, shift) && r0 < d
    modifies tab
    ensures Val(tab[..n]) + Pow(B, n) * s == (old(Val(tab[..n])) + Pow(B, n) * r0) * Pow(2, shift) && s < b
    ensures tab[n..] == old(tab[n..])
  {
    hide Val;
    hide Pow;
    ghost var v0, p := Val(tab[..n]), Pow(2, shift);
    var c: Limb := 0;
    if shift != 0 {
      c := MpShl(tab, n, shift, 0);
    } else {
      PowZero2();
    }
    // (r << shift) | carry: the carry has no more than `shift` bits
    NormalizedStart(r0, d, p, b, c);
    StartValue(v0, Val(tab[..n]), Pow(B, n), r0, c, p);
    s := r0 * Pow(2, shift) + c as int;
  }

  /** The loop of `mp_div1norm`. */
  method MpDivNormLoop(tab: array<Limb>, n: nat, b: Limb, s: Limb, bInv: Limb) returns (x: Limb)
    requires n <= tab.Length && HALF <= b && s < b && bInv == (B * B - 1) / b - B
    modifies tab
    ensures Val(tab[..n]) * b + x == old(Val(tab[..n])) + Pow(B, n) * s && x < b
    ensures tab[n..] == old(tab[n..])
  {
    hide Val;
    hide Pow;
    x := s;
    var i := n;
    ghost var was := tab[..];
    assert was[n..n] == [] && Pow(B, 0) == 1 && Val([]) == 0 by { BZero(); }
    while i > 0
      invariant 0 <= i <= n && x < b
      invariant tab[..i] == was[..i] && tab[n..] == was[n..]
      invariant Val(tab[i..n]) * b + x == Val(was[i..n]) + Pow(B, n - i) * s
    {
      i := i - 1;
      var a: Limb := tab[i];
      ghost var done, x1: int := tab[i + 1..n], x;
      var q: Limb;
      q, x := Udiv1Norm(x, a, b, bInv);
      tab[i] := q;
      assert tab[i..n] == [q] + done && was[i..n] == [a] + was[i + 1..n];
      ShrStep(done, was[i + 1..n], q, a, x, x1, b, s);
    }
    assert tab[0..n] == tab[..n] && was[0..n] == was[..n];
  }

  lemma PowZero2()
    ensures Pow(2, 0) == 1
  {
  }

  lemma NormalizedStart(r0: nat, d: nat, p: nat, b: nat, c: nat)
    requires r0 < d && b == d * p && c < p && b < B
    ensures 0 <= r0 * p + c < b
  {
    MulMono(r0 + 1, d, p);
    assert (r0 + 1) * p == r0 * p + p;
  }

  lemma StartValue(v0: nat, w0: nat, bn: nat, r0: nat, c: nat, p: nat)
    requires w0 + bn * c == v0 * p
    ensures w0 + bn * (r0 * p + c) == (v0 + bn * r0) * p
  {
    assert bn * (r0 * p + c) == bn * r0 * p + bn * c;
    assert (v0 + bn * r0) * p == v0 * p + bn * r0 * p;
  }

  /** The remainder of a shifted division is a shifted remainder. */
  lemma Unshift(q: nat, x: nat, n: nat, d: nat, p: nat)
    requires p > 0 && q * (d * p) + x == n * p && x < d * p
    ensures q * d + x / p == n && x / p < d
  {
    DivParts(x, p);
    assert q * (d * p) == q * d * p;
    var m := n - q * d;
    assert m * p == n * p - q * d * p;
    DivIs(x, p, m, 0);
    MulCancelStrict(m, d, p);
  }
}
