/** The mini bignum: limbs in an array of fixed capacity, worked on in place. */
module DtoaBig {
  import opened Common
  import opened DtoaArith
  import opened DtoaRound
  import opened DtoaScale
  import opened DtoaLimbs
  import opened DtoaBits

  const P64: nat := 0x1_0000_0000_0000_0000

  /** Leading zeros of a limb (`clz32`). */
  function Clz32(v: Limb): (k: nat)
    requires v != 0
  {
    LimbLog(v);
    31 - FloorLog2(v)
  }

  lemma LimbLog(v: Limb)
    requires v != 0
    ensures FloorLog2(v) <= 31 && Pow(2, FloorLog2(v)) <= v
  {
    FloorLog2Bounds(v);
    BIsPower();
    PowOrder(2, FloorLog2(v), 32);
  }

  class Mpb {
    const tab: array<Limb>
    var len: nat

    constructor (capacity: nat)
      requires capacity >= 1
      ensures Valid() && len == 1 && Value() == 0 && tab.Length == capacity && fresh(tab)
    {
      tab := new Limb[capacity](i => 0);
      len := 1;
      new;
      assert tab[..1] == [0];
      ValZero(tab[..1]);
    }

    /** The limbs in use; the highest one is not zero, except in a single limb. */
    ghost predicate Valid()
      reads this, tab
    {
      1 <= len <= tab.Length && (len > 1 ==> tab[len - 1] != 0)
    }

    ghost function Value(): nat
      requires len <= tab.Length
      reads this, tab
    {
      Val(tab[..len])
    }

    /** `mpb_renorm`. */
    method Renorm()
      requires 1 <= len <= tab.Length
      modifies this`len
      ensures Valid() && Value() == old(Value()) && len <= old(len)
    {
      while len > 1 && tab[len - 1] == 0
        invariant 1 <= len <= old(len) <= tab.Length && Value() == old(Value())
        decreases len
      {
        assert tab[..len] == tab[..len - 1] + [tab[len - 1]];
        ValAppend(tab[..len - 1], 0);
        len := len - 1;
      }
    }

    /** A carry becomes a new limb. */
    method Push(h: Limb)
      requires 1 <= len && len < tab.Length
      modifies this`len, tab
      ensures len == old(len) + 1 && Value() == old(Value()) + Pow(B, old(len)) * h && tab[len - 1] == h
    {
      ghost var was := tab[..len];
      tab[len] := h;
      len := len + 1;
      assert tab[..len] == was + [h];
      ValAppend(was, h);
    }

    /** `mpb_set_u64`. */
    method SetU64(m: nat)
      requires m < P64 && tab.Length >= 2
      modifies this`len, tab
      ensures Valid() && Value() == m && len <= 2
    {
      tab[0] := m % B;
      tab[1] := m / B;
      len := if tab[1] == 0 then 1 else 2;
      assert tab[..2][..1] == tab[..1] == [tab[0]] && tab[..2] == [tab[0], tab[1]];
      TwoLimbs(tab[0], tab[1]);
    }

    /** `mpb_get_u64`. */
    method GetU64() returns (m: nat)
      requires Valid() && len <= 2
      ensures m == Value() && m < P64
    {
      if len == 1 {
        assert tab[..1] == [tab[0]];
        m := tab[0];
        OneLimb(tab[0]);
      } else {
        assert tab[..2] == [tab[0], tab[1]];
        m := tab[0] as int + tab[1] as int * B;
        TwoLimbs(tab[0], tab[1]);
      }
    }

    /** `mpb_floor_log2`, -1 for zero. */
    method Log2() returns (k: int)
      requires Valid()
      ensures if Value() == 0 then k == -1 else k == FloorLog2(Value())
    {
      var v := tab[len - 1];
      assert tab[..len] == tab[..len - 1] + [v];
      ValAppend(tab[..len - 1], v);
      if v == 0 {
        k := -1;
        assert tab[..0] == [];
      } else {
        k := len * 32 - 1 - Clz32(v);
        TopLimb(tab[..len - 1], v);
      }
    }

    /** `mpb_get_bit`. */
    method GetBit(k: nat) returns (bit: nat)
      requires Valid()
      ensures bit == Value() / Pow(2, k) % 2
    {
      var l, j := k / 32, k % 32;
      if l >= len {
        NoBits(tab[..len], k);
        bit := 0;
      } else {
        bit := tab[l] as int / Pow(2, j) % 2;
        SplitShift(tab[..len], l, j);
        FirstLimbBit(tab[..len][l..], j);
      }
    }

    /** The or of the limbs below `n`. */
    method OrLimbs(n: nat) returns (bits: nat)
      requires n <= tab.Length
      ensures bits != 0 <==> Val(tab[..n]) != 0
    {
      bits := 0;
      for i := 0 to n
        invariant bits != 0 <==> exists j :: 0 <= j < i && tab[j] != 0
      {
        BitOrZero(bits, tab[i]);
        bits := BitOr(bits, tab[i]);
      }
      ValZero(tab[..n]);
      assert forall j :: 0 <= j < n ==> tab[..n][j] == tab[j];
    }

    /** Whether one of the lowest `k` bits is set, by or-ing limbs. */
    method LowBits(k: nat) returns (bit2: nat)
      requires Valid()
      ensures bit2 != 0 <==> Value() % Pow(2, k) != 0
    {
      hide Val;
      hide Pow;
      hide BitOr;
      var l, j := k / 32, k % 32;
      bit2 := OrLimbs(if l < len then l else len);
      ghost var s := tab[..len];
      if l < len {
        var low: nat := tab[l] as int % Pow(2, j);
        BitOrZero(bit2, low);
        bit2 := BitOr(bit2, low);
        assert s[..l] == tab[..l];
        SplitShift(s, l, j);
        FirstLimbBit(s[l..], j);
        SumZero(low, Pow(2, 32 * l), Val(s[..l]));
      } else {
        NoBits(s, k);
      }
    }

    /** Limbs move down by `l`. */
    method MoveDown(l: nat)
      requires Valid() && 0 < l < len
      modifies this`len, tab
      ensures len == old(len) - l && Value() == old(Value()) / Pow(B, l) && Valid()
    {
      ghost var was := tab[..len];
      len := len - l;
      var i := 0;
      while i < len
        invariant i <= len == |was| - l
        invariant forall k :: 0 <= k < i ==> tab[k] == was[k + l]
        invariant forall k :: i <= k < |was| ==> tab[k] == was[k]
      {
        tab[i] := tab[i + l];
        i := i + 1;
      }
      assert tab[..len] == was[l..];
      DropLimbs(was, l);
    }

    method ClearLow(l: nat)
      requires l <= tab.Length
      modifies tab
      ensures Val(tab[..l]) == 0 && tab[l..] == old(tab[l..])
    {
      for i := 0 to l
        invariant forall k :: 0 <= k < i ==> tab[k] == 0
        invariant tab[l..] == old(tab[l..])
      {
        tab[i] := 0;
      }
      ValZero(tab[..l]);
    }

    /** Copy the first `n` limbs `l` places up, from the top down. */
    method SlideUp(l: nat, n: nat)
      requires n + l <= tab.Length
      modifies tab
      ensures tab[l..n + l] == old(tab[..n])
    {
      ghost var was := tab[..n];
      for i := n downto 0
        invariant forall k :: i <= k < n ==> tab[k + l] == was[k]
        invariant forall k :: 0 <= k < i ==> tab[k] == was[k]
      {
        tab[i + l] := tab[i];
      }
    }

    /** Limbs move up by `l`, zeros below them. */
    method MoveUp(l: nat)
      requires Valid() && Value() > 0 && len + l <= tab.Length
      modifies this`len, tab
      ensures len == old(len) + l && Value() == old(Value()) * Pow(B, l) && Valid()
    {
      hide Val;
      hide Pow;
      ghost var was := tab[..len];
      SlideUp(l, len);
      ghost var up := tab[l..];
      assert up[..len] == was;
      ClearLow(l);
      len := len + l;
      assert tab[..len] == tab[..l] + tab[l..][..|was|];
      ValConcat(tab[..l], was);
      TopAfterMove(was);
    }

    lemma TopAfterMove(was: seq<Limb>)
      requires |was| >= 1 && Val(was) > 0 && (|was| > 1 ==> was[|was| - 1] != 0)
      ensures was[|was| - 1] != 0
    {
      if |was| == 1 { ValZero(was); }
    }

    /** `mpb_shr_round` to the left: exact. */
    method ShiftLeft(k: nat)
      requires Valid() && Value() > 0 && len + k / 32 + 1 <= tab.Length
      modifies this`len, tab
      ensures Valid() && Value() == old(Value()) * Pow(2, k) && len <= old(len) + k / 32 + 1
    {
      hide Val;
      hide Pow;
      var l, j := k / 32, k % 32;
      ghost var v := Value();
      LimbPower(l);
      PowAdd(2, j, 32 * l);
      if j != 0 {
        var c := MpShl(tab, len, j, 0);
        Push(c);
        Renorm();
      } else {
        PowZero(2);
      }
      assert Value() == v * Pow(2, j);
      Group3(v, Pow(2, j), Pow(2, 32 * l));
      if l > 0 {
        MulStrict(0, v, Pow(2, j));
        MoveUp(l);
      } else {
        PowZero(2);
      }
    }

    /** Whether the right shift rounds up. */
    method RoundUp(shift: nat, mode: Mode) returns (addOne: nat)
      requires Valid() && shift >= 1
      ensures addOne == if AddsOne(Value() / Pow(2, shift), Value() % Pow(2, shift), Pow(2, shift), mode) then 1 else 0
    {
      hide Val;
      hide Pow;
      AddsOneBits(Value(), shift, mode);
      addOne := 0;
      if mode != RNDZ {
        var bit1 := GetBit(shift - 1);
        if bit1 != 0 {
          var bit2 := 1;
          if mode != RNDNA { bit2 := LowBits(shift - 1); }
          if bit2 != 0 { addOne := 1; } else { addOne := GetBit(shift); }
        }
      }
    }

    /** The truncating shift to the right. */
    method ShiftDown(shift: nat)
      requires Valid() && shift >= 1 && shift / 32 < len
      modifies this`len, tab
      ensures Valid() && Value() == old(Value()) / Pow(2, shift) && len <= old(len) - shift / 32
    {
      hide Val;
      hide Pow;
      var l, j := shift / 32, shift % 32;
      ghost var v := Value();
      LimbPower(l);
      PowAdd(2, 32 * l, j);
      DivChain(v, Pow(2, 32 * l), Pow(2, j));
      PowZero(2);
      DivIs(v, 1, v, 0);
      if l > 0 { MoveDown(l); }
      ghost var w := Value();
      DivIs(w, 1, w, 0);
      if j != 0 {
        var r := MpShr(tab, len, j, 0);
        DivIs(w, Pow(2, j), Value(), r);
        Renorm();
      }
    }

    /** `mpb_shr_round`: the number divided by `2^shift` and rounded, or, for a negative
        shift, multiplied. */
    method ShrRounded(shift: int, mode: Mode)
      requires Valid() && (shift < 0 ==> Value() > 0 && len + (-shift) / 32 + 1 <= tab.Length)
      requires 0 < shift < 32 && mode != RNDZ ==> len < tab.Length
      modifies this`len, tab
      ensures Valid() && Value() == ShrRound(old(Value()), shift, mode)
      ensures len <= old(len) + (if shift < 0 then (-shift) / 32 else 0) + 1
    {
      hide Val;
      hide Pow;
      if shift == 0 {
        PowZero(2);
      } else if shift < 0 {
        ShiftLeft(-shift);
      } else {
        ghost var v := Value();
        var addOne := RoundUp(shift, mode);
        if shift / 32 >= len {
          NoBits(tab[..len], shift);
          len := 1;
          tab[0] := addOne;
          assert tab[..1] == [tab[0]];
          OneLimb(tab[0]);
        } else {
          ShiftDown(shift);
          if addOne != 0 { AddOne(); }
        }
      }
    }

    // ----- multiplication and division by a limb -----

    /** `mp_mul1` with the carry kept, which there is room for. */
    method MulLimb(b: Limb)
      requires Valid() && b > 0 && Value() * b as int < Pow(B, tab.Length)
      modifies this`len, tab
      ensures Valid() && Value() == old(Value()) * b && len <= old(len) + 1
    {
      hide Val;
      hide Pow;
      ghost var was := tab[..len];
      var h := MpMul1(tab, len, b, 0);
      if h != 0 {
        if len == tab.Length { MulMono(1, h, Pow(B, len)); }
        Push(h);
      } else {
        MulMono(1, b, Val(was));
        NotShorter(was, tab[..len]);
      }
    }

    /** `mpb_mul1_base`: `r * base + a`, where a base of zero stands for 2^32. */
    method Mul1Base(base: Limb, a: Limb)
      requires Valid() && len < tab.Length
      modifies this`len, tab
      ensures Valid() && Value() == old(Value()) * (if base == 0 then B else base as int) + a && len <= old(len) + 1
    {
      hide Val;
      hide Pow;
      ghost var was := tab[..len];
      if len == 1 && tab[0] == 0 {
        assert was == [0];
        OneLimb(0);
        tab[0] := a;
        assert tab[..1] == [a];
        OneLimb(a);
      } else if base == 0 {
        SlideUp(1, len);
        tab[0] := a;
        len := len + 1;
        assert tab[1..len] == was;
        assert tab[..len] == [a] + tab[1..len];
        ValPrepend(a, was);
        Renorm();
      } else {
        var h := MpMul1(tab, len, base, a);
        Push(h);
        Renorm();
      }
    }

    /** `mp_div1norm` and `mpb_renorm`. */
    method DivLimb(b: Limb, bInv: Limb, shift: nat, ghost d: nat) returns (r: nat)
      requires Valid() && shift < 32 && HALF <= b && b == d * Pow(2, shift) && d > 0
      requires bInv == (B * B - 1) / b - B
      modifies this`len, tab
      ensures Valid() && Value() == old(Value()) / d && r == old(Value()) % d && len <= old(len)
    {
      hide Val;
      hide Pow;
      ghost var v := Value();
      r := MpDiv1Norm(tab, len, b, 0, bInv, shift, d);
      DivIs(v, d, Value(), r);
      Renorm();
    }

    /** `mp_div1` and `mpb_renorm`. */
    method DivPlain(b: Limb) returns (r: Limb)
      requires Valid() && b > 0
      modifies this`len, tab
      ensures Valid() && Value() == old(Value()) / b as int && r as int == old(Value()) % b as int && len <= old(len)
    {
      hide Val;
      hide Pow;
      ghost var v := Value();
      r := MpDiv1(tab, len, b, 0);
      DivIs(v, b, Value(), r);
      Renorm();
    }

    /** The sticky bit: the lowest bit is set when something was lost. */
    method Stick(lost: bool)
      requires Valid()
      modifies tab
      ensures Valid() && Value() == Sticky(old(Value()), lost)
    {
      hide Pow;
      ghost var was := tab[..len];
      ghost var x: int := tab[0];
      BitOrOne(tab[0], lost);
      tab[0] := BitOr(tab[0], if lost then 1 else 0);
      assert tab[..len][1..] == was[1..];
      StickyFirst(x, Val(was[1..]), lost);
    }

    lemma StickyFirst(x: nat, h: nat, lost: bool)
      ensures Sticky(x, lost) + B * h == Sticky(x + B * h, lost)
    {
      var k := HALF * h;
      assert B * h == 2 * k;
      EvenShift(x, k);
    }

    lemma EvenShift(x: nat, k: nat)
      ensures (x + 2 * k) % 2 == x % 2
    {
    }

    method AddOne()
      requires Valid() && len < tab.Length
      modifies this`len, tab
      ensures Valid() && Value() == old(Value()) + 1 && len <= old(len) + 1
    {
      hide Pow;
      ghost var was := tab[..len];
      var a := MpAddUi(tab, 1, len);
      if a != 0 {
        Push(a);
      } else {
        NotShorter(was, tab[..len]);
      }
    }

    /** A greater number of the same length keeps its highest limb. */
    lemma NotShorter(s: seq<Limb>, t: seq<Limb>)
      requires |s| == |t| >= 1 && (|s| > 1 ==> s[|s| - 1] != 0) && Val(s) <= Val(t)
      ensures |t| > 1 ==> t[|t| - 1] != 0
    {
      hide Val;
      hide Pow;
      if |t| > 1 && t[|t| - 1] == 0 {
        var n := |t| - 1;
        assert s == s[..n] + [s[n]] && t == t[..n] + [t[n]];
        ValAppend(s[..n], s[n]);
        ValAppend(t[..n], t[n]);
        ValBelow(t[..n]);
        MulMono(1, s[n], Pow(B, n));
      }
    }
  }

  lemma SumZero(x: nat, p: nat, y: nat)
    requires p > 0
    ensures x * p + y == 0 <==> x == 0 && y == 0
  {
    if x > 0 { MulMono(1, x, p); }
  }

  lemma OneLimb(a: Limb)
    ensures Val([a]) == a
  {
    assert [a][1..] == [];
  }

  lemma TwoLimbs(a: Limb, b: Limb)
    ensures Val([a, b]) == a as int + B * b as int && Val([a]) == a
  {
    OneLimb(a);
    OneLimb(b);
    assert [a, b][1..] == [b];
  }

  /** The highest bit of a number is that of its highest limb. */
  lemma TopLimb(s: seq<Limb>, v: Limb)
    requires v != 0
    ensures Val(s + [v]) > 0 && FloorLog2(Val(s + [v])) == 32 * |s| + FloorLog2(v)
  {
    hide Val;
    hide Pow;
    ValAppend(s, v);
    ValBelow(s);
    LimbPower(|s|);
    FloorLog2Bounds(v);
    var k := FloorLog2(v);
    PowAdd(2, 32 * |s|, k);
    PowAdd(2, 32 * |s|, k + 1);
    TopBounds(Val(s), Pow(2, 32 * |s|), v, Pow(2, k), Pow(2, k + 1));
    FloorLog2Is(Val(s + [v]), 32 * |s| + k);
  }

  lemma TopBounds(w: nat, p: nat, v: nat, lo: nat, hi: nat)
    requires w < p && lo <= v < hi
    ensures p * lo <= w + p * v < p * hi
  {
    MulMono(lo, v, p);
    MulMono(v + 1, hi, p);
    assert p * (v + 1) == p * v + p;
  }
}
