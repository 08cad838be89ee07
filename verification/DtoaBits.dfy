/** Bits of limb sequences: positions, lower bits, and the bitwise or. */
module DtoaBits {
  import opened Common
  import opened DtoaArith
  import opened DtoaRound
  import opened DtoaLimbs

  lemma {:induction false} BitOrZero(x: nat, y: nat)
    ensures BitOr(x, y) == 0 <==> x == 0 && y == 0
    decreases x + y
  {
    if x != 0 && y != 0 { BitOrZero(x / 2, y / 2); }
  }

  lemma BitOrOne(x: nat, on: bool)
    ensures BitOr(x, if on then 1 else 0) == Sticky(x, on)
  {
    if x != 0 && on {
      assert BitOr(x / 2, 0) == x / 2;
      assert 1 / 2 == 0;
    }
  }

  lemma LimbPower(l: nat)
    ensures Pow(B, l) == Pow(2, 32 * l)
  {
    BIsPower();
    PowPow32(l);
  }

  lemma {:induction false} PowPow32(l: nat)
    requires Pow(2, 32) == B
    ensures Pow(B, l) == Pow(2, 32 * l)
    decreases l
  {
    if l > 0 {
      PowPow32(l - 1);
      PowAdd(2, 32, 32 * (l - 1));
    }
  }

  /** Dropping `l` limbs divides by their weight. */
  lemma DropLimbs(s: seq<Limb>, l: nat)
    requires l <= |s|
    ensures Val(s) / Pow(B, l) == Val(s[l..]) && Val(s) % Pow(B, l) == Val(s[..l])
  {
    hide Val;
    hide Pow;
    assert s == s[..l] + s[l..];
    ValConcat(s[..l], s[l..]);
    ValBelow(s[..l]);
    DivIs(Val(s), Pow(B, l), Val(s[l..]), Val(s[..l]));
  }

  /** `k = 32 l + j`: dividing by `2^k` is dropping `l` limbs and shifting by `j`. */
  lemma SplitShift(s: seq<Limb>, l: nat, j: nat)
    requires l <= |s|
    ensures Val(s) / Pow(2, 32 * l + j) == Val(s[l..]) / Pow(2, j)
    ensures Val(s) % Pow(2, 32 * l + j) == Val(s[l..]) % Pow(2, j) * Pow(2, 32 * l) + Val(s[..l])
  {
    hide Pow;
    LimbPower(l);
    PowAdd(2, 32 * l, j);
    DropLimbs(s, l);
    DivChain(Val(s), Pow(2, 32 * l), Pow(2, j));
  }

  /** Bit `j` of the first limb is bit `j` of the number. */
  lemma FirstLimbBit(s: seq<Limb>, j: nat)
    requires s != [] && j < 32
    ensures Val(s) / Pow(2, j) % 2 == s[0] as int / Pow(2, j) % 2
    ensures Val(s) % Pow(2, j) == s[0] as int % Pow(2, j)
  {
    hide Pow;
    hide Val;
    FirstLimb(s);
    LimbSplit(j);
    var p, q, h := Pow(2, j), Pow(2, 31 - j), Val(s[1..]);
    Product3(p, q, h);
    FirstBitAlgebra(Val(s), s[0], p, q * h);
  }

  lemma FirstLimb(s: seq<Limb>)
    requires s != []
    ensures Val(s) == s[0] as int + B * Val(s[1..])
  {
  }

  lemma LimbSplit(j: nat)
    requires j < 32
    ensures B == Pow(2, j) * 2 * Pow(2, 31 - j)
  {
    hide Pow;
    PowAdd(2, j, 32 - j);
    HalfPower(31 - j);
    BIsPower();
    MiddleTwo(Pow(2, j), Pow(2, 31 - j));
  }

  lemma MiddleTwo(p: nat, q: nat)
    ensures p * (2 * q) == p * 2 * q
  {
  }

  lemma Product3(p: nat, q: nat, h: nat)
    ensures p * 2 * q * h == p * (2 * (q * h))
  {
  }

  lemma HalfPower(k: nat)
    ensures Pow(2, k + 1) == 2 * Pow(2, k)
  {
  }

  lemma FirstBitAlgebra(n: nat, a: nat, p: nat, h: nat)
    requires p > 0 && n == a + p * (2 * h)
    ensures n / p % 2 == a / p % 2 && n % p == a % p
  {
    var u, r := a / p, a % p;
    DivParts(a, p);
    assert (u + 2 * h) * p + r == n;
    DivIs(n, p, u + 2 * h, r);
  }

  /** Beyond the limbs there are no bits. */
  lemma NoBits(s: seq<Limb>, k: nat)
    requires k >= 32 * |s|
    ensures Val(s) / Pow(2, k) == 0 && Val(s) % Pow(2, k) == Val(s)
  {
    ValBelow(s);
    LimbPower(|s|);
    PowMono(2, 32 * |s|, k);
    DivIs(Val(s), Pow(2, k), 0, Val(s));
  }

  /** A number is zero when its limbs are. */
  lemma {:induction false} ValZero(s: seq<Limb>)
    ensures Val(s) == 0 <==> (forall i :: 0 <= i < |s| ==> s[i] == 0)
    decreases |s|
  {
    if s != [] {
      ValZero(s[1..]);
      assert forall i :: 0 <= i < |s[1..]| ==> s[1..][i] == s[i + 1];
      if Val(s) == 0 {
        forall i | 0 <= i < |s| ensures s[i] == 0 {
          if i > 0 { assert s[i] == s[1..][i - 1]; }
        }
      }
    }
  }

  /** The remainder of a shift, as its highest bit and the bits below. */
  lemma RemainderBits(v: nat, shift: nat)
    requires shift >= 1
    ensures v % Pow(2, shift) == v / Pow(2, shift - 1) % 2 * Pow(2, shift - 1) + v % Pow(2, shift - 1)
    ensures v / Pow(2, shift) == v / Pow(2, shift - 1) / 2
  {
    hide Pow;
    HalfPower(shift - 1);
    DivChain(v, Pow(2, shift - 1), 2);
  }

  /** When a right shift adds one: the rounding modes in terms of the bits dropped. */
  lemma AddsOneBits(v: nat, shift: nat, mode: Mode)
    requires shift >= 1
    ensures AddsOne(v / Pow(2, shift), v % Pow(2, shift), Pow(2, shift), mode)
       <==> mode != RNDZ && v / Pow(2, shift - 1) % 2 == 1
            && (mode == RNDNA || v % Pow(2, shift - 1) != 0 || v / Pow(2, shift) % 2 == 1)
  {
    hide Pow;
    RemainderBits(v, shift);
    HalfPower(shift - 1);
  }
}
