/** The conversions on the mini bignum: scaling by a power of the radix, and rounding. */
module DtoaConvert {
  import opened Common
  import opened DtoaArith
  import opened DtoaRound
  import opened DtoaDouble
  import opened DtoaScale
  import opened DtoaLimbs
  import opened DtoaBits
  import opened DtoaBig

  /** `pow_ui`, for results of at most 64 bits. */
  method PowUi(a: nat, b: nat) returns (r: nat)
    requires a > 0 && Pow(a, b) < P64
    ensures r == Pow(a, b)
  {
    PowOne(a);
    if b == 0 { return 1; }
    if b == 1 { return a; }
    FloorLog2Bounds(b);
    r := a;
    var i: nat := FloorLog2(b);
    TopBit(b);
    while i > 0
      invariant i <= FloorLog2(b) && b / Pow(2, i) <= b && r == Pow(a, b / Pow(2, i))
    {
      i := i - 1;
      var bit := b / Pow(2, i) % 2;
      NextBit(b, i);
      PowSplit(a, b / Pow(2, i + 1), bit);
      r := r * r;
      if bit == 1 { r := r * a; }
    }
    assert b / Pow(2, 0) == b by { PowZero(2); }
  }

  lemma PowOne(a: nat)
    ensures Pow(a, 0) == 1 && Pow(a, 1) == a
  {
  }

  lemma TopBit(b: nat)
    requires b > 0
    ensures b / Pow(2, FloorLog2(b)) == 1
  {
    FloorLog2Bounds(b);
    HalfPower(FloorLog2(b));
    DivIs(b, Pow(2, FloorLog2(b)), 1, b - Pow(2, FloorLog2(b)));
  }

  lemma NextBit(b: nat, i: nat)
    ensures b / Pow(2, i) == 2 * (b / Pow(2, i + 1)) + b / Pow(2, i) % 2
    ensures b / Pow(2, i) <= b
  {
    DivChain(b, Pow(2, i), 2);
    HalfPower(i);
    DivParts(b, Pow(2, i));
    MulMono(1, Pow(2, i), b / Pow(2, i));
  }

  lemma PowSplit(a: nat, k: nat, bit: nat)
    requires bit < 2
    ensures Pow(a, 2 * k + bit) == if bit == 1 then Pow(a, k) * Pow(a, k) * a else Pow(a, k) * Pow(a, k)
  {
    PowAdd(a, k, k);
    if bit == 1 {
      PowAdd(a, 2 * k, 1);
      PowOne(a);
    }
  }

  /** `pow_ui_inv`: a power below 2^32, normalized, with its reciprocal. */
  method PowUiInv(a: nat, b: nat) returns (r: Limb, rInv: Limb, shift: nat)
    requires a > 0 && Pow(a, b) < B
    ensures Prepared(a, b, r, rInv, shift)
  {
    var p := PowUi(a, b);
    shift := Clz32(p);
    Normalized(p);
    r := p * Pow(2, shift);
    rInv := Udiv1NormInit(r);
  }

  lemma Normalized(p: Limb)
    requires p > 0
    ensures HALF <= p as int * Pow(2, Clz32(p)) < B
  {
    hide Pow;
    var l := FloorLog2(p);
    LimbLog(p);
    FloorLog2Bounds(p);
    PowAdd(2, l, 31 - l);
    PowAdd(2, l + 1, 31 - l);
    BIsPower();
    HalfPower(31);
    MulMono(Pow(2, l), p, Pow(2, 31 - l));
    MulStrict(p, Pow(2, l + 1), Pow(2, 31 - l));
  }

  // ----- mul_pow -----

  /** A number has no more limbs than its size asks for. */
  lemma LenAtMost(s: seq<Limb>, k: nat)
    requires k >= 1 && (|s| > 1 ==> s[|s| - 1] != 0) && Val(s) < Pow(B, k)
    ensures |s| <= k
  {
    hide Val;
    hide Pow;
    if |s| > k {
      LimbsAtLeast(s);
      PowMono(B, k, |s| - 1);
    }
  }

  lemma LimbsAtLeast(s: seq<Limb>)
    requires |s| > 1 && s[|s| - 1] != 0
    ensures Pow(B, |s| - 1) <= Val(s)
  {
    hide Val;
    hide Pow;
    var n := |s| - 1;
    assert s == s[..n] + [s[n]];
    ValAppend(s[..n], s[n]);
    MulMono(1, s[n], Pow(B, n));
  }

  /** What a left shift needs. */
  lemma RoomToShift(s: seq<Limb>, k: nat, c: nat)
    requires |s| >= 1 && (|s| > 1 ==> s[|s| - 1] != 0) && Val(s) > 0 && Val(s) * Pow(2, k) < Pow(2, 32 * c)
    ensures |s| + k / 32 <= c
  {
    hide Val;
    hide Pow;
    var n := |s| - 1;
    if n > 0 { LimbsAtLeast(s); } else { PowZero(B); }
    LimbPower(n);
    MulMono(Pow(2, 32 * n), Val(s), Pow(2, k));
    PowAdd(2, 32 * n, k);
    PowOrder(2, 32 * n + k, 32 * c);
  }

  /** Counting the multiplications, each of which adds a limb at most. */
  lemma LimbsSuffice(s: seq<Limb>, radix1: nat, f: nat, d: nat, c: nat)
    requires radix1 > 0 && d > 0 && Pow(radix1, d) < B && |s| + LimbsFor(f, d) <= c
    ensures Val(s) * Pow(radix1, f) < Pow(B, c)
  {
    hide Val;
    hide Pow;
    hide LimbsFor;
    ValBelow(s);
    PowByLimbs(radix1, f, d);
    PowAdd(B, |s|, LimbsFor(f, d));
    MulMono(Pow(radix1, f), Pow(B, LimbsFor(f, d)), Val(s));
    MulStrict(Val(s), Pow(B, |s|), Pow(B, LimbsFor(f, d)));
    PowMono(B, |s| + LimbsFor(f, d), c);
  }

  lemma {:induction false} PowByLimbs(radix1: nat, f: nat, d: nat)
    requires radix1 > 0 && d > 0 && Pow(radix1, d) < B
    ensures Pow(radix1, f) <= Pow(B, LimbsFor(f, d))
    decreases f
  {
    hide Pow;
    hide LimbsFor;
    if f == 0 {
      PowZero(radix1);
      PowZero(B);
      PowMono(B, 0, LimbsFor(0, d));
    } else {
      var n := if f < d then f else d;
      OneChunk(f, n, d);
      PowByLimbs(radix1, f - n, d);
      PowAdd(radix1, f - n, n);
      PowMono(radix1, n, d);
      PowAdd(B, LimbsFor(f - n, d), 1);
      PowOne(B);
      MulMono(Pow(radix1, f - n), Pow(B, LimbsFor(f - n, d)), Pow(radix1, n));
      MulMono(Pow(radix1, n), B, Pow(B, LimbsFor(f - n, d)));
    }
  }

  /** Whether the limbs suffice for scaling by `radix1^f`. */
  predicate Fits(capacity: nat, len: nat, f: int, d: nat, shift: nat)
    requires d > 0
  {
    if f >= 0 then len + LimbsFor(f, d) < capacity
    else len + shift / 32 + 1 < capacity
  }

  /** The multiplications of `mul_pow`: one limb-sized power at a time. */
  method MulUp(a: Mpb, radix1: nat, f0: nat, d: nat)
    requires a.Valid() && radix1 > 0 && d > 0 && Pow(radix1, d) < B
    requires a.Value() * Pow(radix1, f0) < Pow(B, a.tab.Length)
    modifies a, a.tab
    ensures a.Valid() && a.Value() == old(a.Value()) * Pow(radix1, f0) && a.len <= old(a.len) + LimbsFor(f0, d)
  {
    hide Pow;
    var f: nat, b: nat, n0: nat := f0, 0, 0;
    ghost var v := a.Value();
    PowOne(radix1);
    while f != 0
      invariant f <= f0 && a.Valid() && a.len + LimbsFor(f, d) <= old(a.len) + LimbsFor(f0, d)
      invariant a.Value() == v * Pow(radix1, f0 - f)
      invariant n0 != 0 ==> n0 <= d && b == Pow(radix1, n0)
      decreases f
    {
      var n := if f < d then f else d;
      PowMono(radix1, n, d);
      OneChunk(f, n, d);
      if n != n0 {
        b := PowUi(radix1, n);
        n0 := n;
      }
      PowAdd(radix1, f0 - f, n);
      Group3(v, Pow(radix1, f0 - f), Pow(radix1, n));
      PowMono(radix1, f0 - f + n, f0);
      MulMono(Pow(radix1, f0 - f + n), Pow(radix1, f0), v);
      a.MulLimb(b);
      f := f - n;
    }
  }

  lemma OneChunk(f: nat, n: nat, d: nat)
    requires d > 0 && f > 0 && n == if f < d then f else d
    ensures LimbsFor(f, d) == LimbsFor(f - n, d) + 1
  {
    if f < d {
      DivIs(f + d - 1, d, 1, f - 1);
      DivIs(d - 1, d, 0, d - 1);
    } else {
      DivParts(f - 1, d);
      DivIs(f + d - 1, d, (f - 1) / d + 1, (f - 1) % d);
    }
  }

  /** The divisions of `mul_pow`, and whether any of them left a remainder. */
  method DivDown(a: Mpb, radix1: nat, g0: nat, d: nat) returns (rem: nat)
    requires a.Valid() && radix1 > 0 && d > 0 && Pow(radix1, d) < B
    modifies a, a.tab
    ensures a.Valid() && a.Value() == old(a.Value()) / Pow(radix1, g0) && a.len <= old(a.len)
    ensures rem != 0 <==> old(a.Value()) % Pow(radix1, g0) != 0
  {
    hide Pow;
    hide Val;
    hide BitOr;
    var g: nat, b: Limb, bInv: Limb, shift: nat, n0: nat := g0, 0, 0, 0, 0;
    rem := 0;
    ghost var v, p := a.Value(), 1;
    PowOne(radix1);
    DivIs(v, 1, v, 0);
    while g != 0
      invariant g <= g0 && a.Valid() && a.len <= old(a.len) && p == Pow(radix1, g0 - g)
      invariant a.Value() == v / p && (rem != 0 <==> v % p != 0)
      invariant n0 != 0 ==> n0 <= d && Prepared(radix1, n0, b, bInv, shift)
      decreases g
    {
      var n := if g < d then g else d;
      PowMono(radix1, n, d);
      if n != n0 {
        b, bInv, shift := PowUiInv(radix1, n);
        n0 := n;
      }
      var r := a.DivLimb(b, bInv, shift, Pow(radix1, n));
      BitOrZero(rem, r);
      rem := BitOr(rem, r);
      DivChain(v, p, Pow(radix1, n));
      PowAdd(radix1, g0 - g, n);
      p := p * Pow(radix1, n);
      g := g - n;
    }
  }

  /** A normalized power with its reciprocal. */
  ghost predicate Prepared(a: nat, n: nat, b: Limb, bInv: Limb, shift: nat) {
    shift < 32 && HALF <= b && b as int == Pow(a, n) * Pow(2, shift) && bInv as int == (B * B - 1) / b as int - B
  }

  /** `mul_pow`: what it needs on the way up is room for the product. */
  method MulPowBig(a: Mpb, radix1: nat, radixShift: nat, f: int, isInt: bool, e: int, d: nat) returns (offset: int)
    requires a.Valid() && a.Value() > 0 && radix1 > 0 && d > 0 && Pow(radix1, d) < B
    requires radix1 != 1 && f >= 0 ==> a.Value() * Pow(radix1, f) < Pow(B, a.tab.Length)
    requires radix1 != 1 && f < 0 ==>
               Fits(a.tab.Length, a.len, f, d,
                    32 * LimbsFor(-f, d)
                      + ExtraBits(a.Value(), isInt, e, -f * radixShift + 32 * LimbsFor(-f, d)))
    modifies a, a.tab
    ensures a.Valid() && Scaled(a.Value(), offset) == MulPow(old(a.Value()), radix1, radixShift, f, isInt, e, d)
    ensures radix1 == 1 ==> a.len == old(a.len)
    ensures radix1 != 1 && f >= 0 ==> a.len <= old(a.len) + LimbsFor(f, d)
    ensures radix1 != 1 && f < 0 ==>
              a.len < a.tab.Length
              && a.len <= old(a.len)
                   + (32 * LimbsFor(-f, d)
                      + ExtraBits(old(a.Value()), isInt, e, -f * radixShift + 32 * LimbsFor(-f, d))) / 32 + 1
  {
    hide Pow;
    hide Sticky;
    hide LimbsFor;
    offset := -f * radixShift;
    if radix1 != 1 {
      if f >= 0 {
        MulUp(a, radix1, f, d);
      } else {
        var l := LimbsFor(-f, d);
        offset := offset + l * 32;
        var log := a.Log2();
        var extra := if isInt then Max(2 + e - offset, 0) else Max(e - log, 0);
        offset := offset + extra;
        a.ShrRounded(-(l * 32 + extra), RNDZ);
        var rem := DivDown(a, radix1, -f, d);
        a.Stick(rem != 0);
      }
    }
  }

  /** What is left to shift after multiplying: a product that is small once it is shifted to
      the right, and one that has room to be shifted to the left. */
  predicate ShiftFits(capacity: nat, v: nat, shift: int)
    requires capacity >= 1
  {
    if shift > 0 then shift >= 32 || v < Pow(2, 32 * (capacity - 1))
    else v * Pow(2, -shift) < Pow(2, 32 * (capacity - 1))
  }

  /** `mul_pow_round`. */
  method MulPowRoundBig(t: Mpb, m: nat, e: int, radix1: nat, radixShift: nat, f: int, d: nat, mode: Mode)
    requires 0 < m < P64 && t.tab.Length >= 3 && radix1 > 0 && d > 0 && Pow(radix1, d) < B
    requires radix1 == 1 || f >= 0 ==>
      m * UpPow(radix1, f) < Pow(B, t.tab.Length)
      && ShiftFits(t.tab.Length, m * UpPow(radix1, f), -e - f * radixShift)
    requires radix1 != 1 && f < 0 ==>
      Fits(t.tab.Length, 2, f, d,
           32 * LimbsFor(-f, d) + ExtraBits(m, true, e, -f * radixShift + 32 * LimbsFor(-f, d)))
    modifies t, t.tab
    ensures t.Valid() && t.Value() == MulPowRounded(m, e, radix1, radixShift, f, d, mode)
  {
    hide Pow;
    hide UpPow;
    hide LimbsFor;
    hide Sticky;
    hide ExtraBits;
    hide ShiftFits;
    hide Val;
    if radix1 == 1 { OnePow(f); }
    if f >= 0 { PlainUp(radix1, f); }
    t.SetU64(m);
    var offset := MulPowBig(t, radix1, radixShift, f, true, e, d);
    ScaledPositive(m, radix1, radixShift, f, true, e, d);
    OffsetSign(f, radixShift);
    OffsetAbove(m, radix1, radixShift, f, e, d);
    if radix1 == 1 || f >= 0 {
      assert offset == -f * radixShift == -(f * radixShift) && t.Value() == m * UpPow(radix1, f);
      RoomToRound(t.tab[..t.len], t.tab.Length, -e + offset);
    }
    t.ShrRounded(-e + offset, mode);
  }

  lemma RoomToRound(s: seq<Limb>, capacity: nat, shift: int)
    requires |s| >= 1 && (|s| > 1 ==> s[|s| - 1] != 0) && Val(s) > 0 && capacity >= 2
    requires ShiftFits(capacity, Val(s), shift)
    ensures shift < 0 ==> |s| + (-shift) / 32 + 1 <= capacity
    ensures 0 < shift < 32 ==> |s| < capacity
  {
    hide Val;
    hide Pow;
    if shift <= 0 {
      RoomToShift(s, -shift, capacity - 1);
    } else if shift < 32 {
      LimbPower(capacity - 1);
      LenAtMost(s, capacity - 1);
    }
  }

  lemma ScaledPositive(a: nat, radix1: nat, shift: nat, f: int, isInt: bool, e: int, d: nat)
    requires a > 0 && radix1 > 0 && d > 0
    ensures MulPow(a, radix1, shift, f, isInt, e, d).value > 0
  {
    hide Pow;
    if radix1 != 1 {
      if f >= 0 {
        MulStrict(0, a, Pow(radix1, f));
      } else {
        var w := 32 * LimbsFor(-f, d) + ExtraBits(a, isInt, e, -f * shift + 32 * LimbsFor(-f, d));
        var n, p := a * Pow(2, w), Pow(radix1, -f);
        MulStrict(0, a, Pow(2, w));
        DivParts(n, p);
      }
    }
  }

  /** A division leaves at least two bits to drop. */
  lemma OffsetAbove(a: nat, radix1: nat, shift: nat, f: int, e: int, d: nat)
    requires radix1 > 0 && d > 0
    ensures f < 0 && radix1 > 1 ==> MulPow(a, radix1, shift, f, true, e, d).offset - e >= 2
  {
    hide Pow;
  }

  // ----- round_to_d -----

  /** The rounded significand has at most `prec` bits, or is the next power of two. */
  lemma SignificandBound(a: nat, prec: int)
    requires a > 0 && prec <= 53
    ensures var r := ShrRound(a, FloorLog2(a) + 1 - prec, RNDN);
            if prec >= 0 then r <= Pow(2, prec) else r == 0
  {
    hide Pow;
    hide RoundDiv;
    var l := FloorLog2(a);
    var s: int := l + 1 - prec;
    FloorLog2Bounds(a);
    if s <= 0 {
      PowAdd(2, l + 1, -s);
      MulMono(a, Pow(2, l + 1), Pow(2, -s));
    } else if prec >= 0 {
      PowAdd(2, prec, s);
      RoundDivRange(a, Pow(2, s), RNDN, 0, Pow(2, prec));
    } else {
      PowMono(2, l + 2, s);
      HalfPower(l + 1);
      SmallRoundsToZero(a, Pow(2, s));
    }
  }

  lemma SmallRoundsToZero(a: nat, d: nat)
    requires 2 * a < d
    ensures RoundDiv(a, d, RNDN) == 0
  {
    DivIs(a, d, 0, a);
  }

  /** A number below 2^64 has at most two limbs. */
  lemma ShortNumber(s: seq<Limb>)
    requires |s| >= 1 && (|s| > 1 ==> s[|s| - 1] != 0) && Val(s) < P64
    ensures |s| <= 2
  {
    hide Val;
    hide Pow;
    if |s| > 2 {
      var n := |s| - 1;
      assert s == s[..n] + [s[n]];
      ValAppend(s[..n], s[n]);
      PowMono(B, 2, n);
      BSquared();
      MulMono(1, s[n], Pow(B, n));
    }
  }

  lemma BSquared()
    ensures Pow(B, 2) == P64
  {
    assert Pow(B, 1) == B * Pow(B, 0) && Pow(B, 0) == 1;
  }

  lemma SignificandSmall(r: nat, prec: int)
    requires prec <= 53 && if prec >= 0 then r <= Pow(2, prec) else r == 0
    ensures r < P64 && 0 <= r * Pow(2, 53 - prec) <= P53
  {
    hide Pow;
    P52Is();
    if prec >= 0 {
      PowMono(2, prec, 53);
      PowAdd(2, prec, 53 - prec);
      MulMono(r, Pow(2, prec), Pow(2, 53 - prec));
    }
  }

  /** `round_to_d`: the shift that restores 53 bits must be less than 64. */
  method RoundToDBig(a: Mpb, offset: int) returns (m: nat, e: int)
    requires a.Valid() && a.len + 3 <= a.tab.Length
    requires a.Value() > 0 ==> FloorLog2(a.Value()) + 1 - offset >= -1084
    modifies a, a.tab
    ensures Float(m, e) == RoundToD(old(a.Value()), offset)
  {
    hide Val;
    hide Pow;
    hide ShrRound;
    ghost var v := a.Value();
    var log := a.Log2();
    if a.tab[0] == 0 && a.len == 1 {
      assert a.tab[..1] == [a.tab[0]];
      OneLimb(0);
      return 0, 0;
    }
    assert v > 0 by { NonZero(a.tab[..a.len]); }
    e := log + 1 - offset;
    var prec: int := 53;
    if e < -1021 { prec := 53 - (-1021 - e); }
    SignificandBound(v, prec);
    a.ShrRounded(e + offset - prec, RNDN);
    SignificandSmall(a.Value(), prec);
    ShortNumber(a.tab[..a.len]);
    m := a.GetU64();
    m := m * Pow(2, 53 - prec);
    if m >= P53 {
      m := m / 2;
      e := e + 1;
    }
  }

  lemma NonZero(s: seq<Limb>)
    requires |s| >= 1 && (|s| > 1 ==> s[|s| - 1] != 0) && !(|s| == 1 && s[0] == 0)
    ensures Val(s) > 0
  {
    ValZero(s);
    assert s[|s| - 1] != 0;
  }

  /** `mul_pow_round_to_d`. */
  method MulPowRoundToDBig(a: Mpb, radix1: nat, radixShift: nat, f: int, d: nat) returns (m: nat, e: int)
    requires a.Valid() && a.Value() > 0 && radix1 > 0 && d > 0 && Pow(radix1, d) < B && a.len + 3 <= a.tab.Length
    requires radix1 != 1 ==> Fits(a.tab.Length - 3, a.len, f, d,
                  if f >= 0 then 0
                    else 32 * LimbsFor(-f, d) + ExtraBits(a.Value(), false, 55, -f * radixShift + 32 * LimbsFor(-f, d)))
    requires var s := MulPow(a.Value(), radix1, radixShift, f, false, 55, d); s.value > 0 ==>
      FloorLog2(s.value) + 1 - s.offset >= -1084
    modifies a, a.tab
    ensures var s := MulPow(old(a.Value()), radix1, radixShift, f, false, 55, d);
            Float(m, e) == RoundToD(s.value, s.offset)
  {
    hide Pow;
    hide MulPow;
    hide RoundToD;
    if radix1 != 1 && f >= 0 { LimbsSuffice(a.tab[..a.len], radix1, f, d, a.tab.Length); }
    var offset := MulPowBig(a, radix1, radixShift, f, false, 55, d);
    m, e := RoundToDBig(a, offset);
  }
}
