/** `js_atod` in its own form: loops over the text, digits collected in limbs. */
module DtoaReader {
  import opened DtoaArith
  import opened DtoaRound
  import opened DtoaDouble
  import opened DtoaLog
  import opened DtoaScale
  import opened DtoaTables
  import opened DtoaScan
  import opened DtoaLimbs
  import opened DtoaBig
  import opened DtoaConvert

  const DBIGNUM_LEN_MAX: nat := 52

  method ReadPrefixOf(s: string, p: nat, radix: RadixArg, fl: Flags) returns (r: Prefix)
    ensures r == ReadPrefix(s, p, radix, fl)
  {
    var radix' := if radix == 0 then 10 else radix;
    if Ch(s, p) == '0' {
      var c := Ch(s, p + 1);
      if (c == 'x' || c == 'X') && (radix == 0 || radix == 16) {
        r := NeedsDigit(s, p + 2, 16, fl.underscores);
      } else if (c == 'o' || c == 'O') && radix == 0 && fl.binOct {
        r := NeedsDigit(s, p + 2, 8, fl.underscores);
      } else if (c == 'b' || c == 'B') && radix == 0 && fl.binOct {
        r := NeedsDigit(s, p + 2, 2, fl.underscores);
      } else if '0' <= c <= '9' && radix == 0 && fl.legacyOctal {
        var i := p + 1;
        while '0' <= Ch(s, i) <= '7'
          invariant PastOctal(s, p + 1) == PastOctal(s, i)
          decreases |s| - i
        {
          i := i + 1;
        }
        if Ch(s, i) == '8' || Ch(s, i) == '9' {
          r := Goes(p, 10, false);
        } else {
          r := NeedsDigit(s, p + 1, 8, false);
        }
      } else {
        r := Goes(p, radix', fl.underscores);
      }
    } else if !fl.intOnly && IsInfinity(s, p) {
      r := Infinite(p + 8);
    } else {
      r := Goes(p, radix', fl.underscores);
    }
  }

  method SkipZerosFrom(s: string, h: How, st: Scan) returns (z: Scan)
    ensures z == SkipZeros(s, h, st)
  {
    hide DotHere;
    var p, pos, dot := st.p, st.pos, st.dot;
    while true
      invariant SkipZeros(s, h, st) == SkipZeros(s, h, Scan(p, pos, dot))
      decreases |s| - p
    {
      ghost var here := Scan(p, pos, dot);
      if DotHere(s, h, p) {
        if dot >= 0 { return Scan(p, pos, dot); }
        dot := pos;
        p := p + 1;
      }
      assert Scan(p, pos, dot) == AfterDot(s, h, here);
      if h.sep && Ch(s, p) == '_' && p > h.start && Ch(s, p + 1) == '0' { p := p + 1; }
      if Ch(s, p) != '0' { return Scan(p, pos, dot); }
      p := p + 1;
      pos := pos + 1;
    }
  }

  /** The digits collected so far: in limbs, and in the limb being filled. */
  ghost predicate Collected(v: nat, limb: nat, n: nat, radix: Radix, mant: nat) {
    n < DigitsPerLimb(radix) && limb < Pow(radix, n) && v * Pow(radix, n) + limb == mant
  }

  lemma CollectDigit(v: nat, limb: nat, n: nat, radix: Radix, mant: nat, c: nat)
    requires Collected(v, limb, n, radix, mant) && c < radix
    ensures v * Pow(radix, n + 1) + (limb * radix + c) == mant * radix + c
    ensures limb * radix + c < Pow(radix, n + 1) <= B
    ensures Pow(radix, n + 1) == radix * Pow(radix, n)
  {
    hide Pow;
    hide RadixBase;
    hide DigitsPerLimb;
    LimbPower(radix);
    PowMono(radix, n + 1, DigitsPerLimb(radix));
    NextPower(radix, n);
    NextDigit(v, Pow(radix, n), limb, radix);
    MulMono(limb + 1, Pow(radix, n), radix);
  }

  lemma NextDigit(v: nat, p: nat, limb: nat, radix: nat)
    ensures (v * p + limb) * radix == v * (radix * p) + limb * radix && (limb + 1) * radix == limb * radix + radix
  {
  }

  lemma NextPower(b: nat, n: nat)
    ensures Pow(b, n + 1) == b * Pow(b, n)
  {
  }

  /** One more digit; a full limb moves into the number. */
  method Collect(t: Mpb, limb: nat, n: nat, radix: Radix, c: nat, ghost mant: nat) returns (limb': nat, n': nat)
    requires c < radix && t.Valid() && t.len < t.tab.Length && Collected(t.Value(), limb, n, radix, mant)
    modifies t, t.tab
    ensures t.Valid() && Collected(t.Value(), limb', n', radix, mant * radix + c)
    ensures if n + 1 == DigitsPerLimb(radix) then n' == 0 && t.len <= old(t.len) + 1
            else n' == n + 1 && t.len == old(t.len)
  {
    hide Pow;
    hide Val;
    hide RadixBase;
    hide DigitsPerLimb;
    CollectDigit(t.Value(), limb, n, radix, mant, c);
    LimbPower(radix);
    PowOne(radix);
    limb' := limb * radix + c;
    n' := n + 1;
    if n' == DigitsPerLimb(radix) {
      t.Mul1Base(RadixBase(radix), limb');
      limb', n' := 0, 0;
    }
  }

  /** The digits of an unfinished limb. */
  method Flush(t: Mpb, limb: nat, n: nat, radix: Radix, ghost mant: nat)
    requires t.Valid() && t.len < t.tab.Length && Collected(t.Value(), limb, n, radix, mant)
    modifies t, t.tab
    ensures t.Valid() && t.Value() == mant && t.len <= old(t.len) + 1
  {
    hide Pow;
    hide Val;
    PowOne(radix);
    if n != 0 {
      BaseFits(radix, n);
      var base := PowUi(radix, n);
      t.Mul1Base(base, limb);
    }
  }

  lemma BaseFits(radix: Radix, n: nat)
    requires 0 < n < DigitsPerLimb(radix)
    ensures 0 < Pow(radix, n) < B
  {
    hide Pow;
    LimbPower(radix);
    PowStrict(radix, n, DigitsPerLimb(radix));
  }

  /** The second loop: at most `AtodDigits` digits are kept. */
  method ReadDigitsFrom(s: string, h: How, st: Scan, t: Mpb) returns (sc: Scan, count: nat, extra: bool)
    requires t.Valid() && t.len == 1 && t.Value() == 0 && t.tab.Length == DBIGNUM_LEN_MAX
    modifies t, t.tab
    ensures t.Valid() && t.len <= 8
    ensures (sc, Acc(t.Value(), count, extra)) == ReadDigits(s, h, st, Acc(0, 0, false))
  {
    hide DotHere;
    hide Pow;
    hide Val;
    hide Collected;
    hide InLimbs;
    hide DigitsPerLimb;
    hide AtodDigits;
    hide ReadDigits;
    hide Take;
    var p, pos, dot := st.p, st.pos, st.dot;
    var limb: nat, n: nat := 0, 0;
    count, extra := 0, false;
    ghost var mant: nat := 0;
    ghost var chunks: nat := 0;
    NothingCollected(h.radix);
    while true
      invariant t.Valid() && Collected(t.Value(), limb, n, h.radix, mant)
      invariant InLimbs(chunks, n, count, h.radix) && t.len <= 1 + chunks && chunks <= 5
      invariant ReadDigits(s, h, st, Acc(0, 0, false)) == ReadDigits(s, h, Scan(p, pos, dot), Acc(mant, count, extra))
      decreases |s| - p
    {
      ghost var here := Scan(p, pos, dot);
      if DotHere(s, h, p) {
        if dot >= 0 { SecondDot(s, h, here, Acc(mant, count, extra)); break; }
        dot := pos;
        p := p + 1;
      }
      assert Scan(p, pos, dot) == AfterDot(s, h, here);
      if h.sep && Ch(s, p) == '_' && p > h.start && ToDigit(Ch(s, p + 1)) < h.radix { p := p + 1; }
      var c := ToDigit(Ch(s, p));
      DigitsStep(s, h, here, Acc(mant, count, extra), Scan(p, pos, dot));
      if c >= h.radix || p >= |s| { break; }
      p := p + 1;
      pos := pos + 1;
      TakeIs(Acc(mant, count, extra), c, h.radix);
      if count < AtodDigits(h.radix) {
        NextInLimbs(h.radix, chunks, n, count);
        limb, n := Collect(t, limb, n, h.radix, c, mant);
        mant := mant * h.radix + c;
        count := count + 1;
        if n == 0 { chunks := chunks + 1; }
      } else {
        extra := extra || c != 0;
      }
    }
    sc := Scan(p, pos, dot);
    Flush(t, limb, n, h.radix, mant);
  }

  lemma NothingCollected(radix: Radix)
    ensures Collected(0, 0, 0, radix, 0) && InLimbs(0, 0, 0, radix)
  {
  }

  /** `count` digits fill `chunks` limbs and `n` places of another. */
  ghost predicate InLimbs(chunks: nat, n: nat, count: nat, radix: Radix) {
    chunks * DigitsPerLimb(radix) + n == count && n < DigitsPerLimb(radix) && count <= AtodDigits(radix)
  }

  lemma NextInLimbs(radix: Radix, chunks: nat, n: nat, count: nat)
    requires InLimbs(chunks, n, count, radix) && count < AtodDigits(radix)
    ensures chunks <= 4
    ensures if n + 1 == DigitsPerLimb(radix) then InLimbs(chunks + 1, 0, count + 1, radix)
      else InLimbs(chunks, n + 1, count + 1, radix)
  {
    ChunkCount(radix, chunks, n, count);
    assert (chunks + 1) * DigitsPerLimb(radix) == chunks * DigitsPerLimb(radix) + DigitsPerLimb(radix);
  }

  lemma SecondDot(s: string, h: How, st: Scan, acc: Acc)
    requires DotHere(s, h, st.p) && st.dot >= 0
    ensures ReadDigits(s, h, st, acc) == (st, acc)
  {
  }

  lemma DigitsStep(s: string, h: How, st: Scan, acc: Acc, v: Scan)
    requires !(DotHere(s, h, st.p) && st.dot >= 0)
    requires v == AfterSep(s, h, AfterDot(s, h, st), ToDigit(Ch(s, AfterDot(s, h, st).p + 1)) < h.radix)
    ensures ReadDigits(s, h, st, acc)
         == if ToDigit(Ch(s, v.p)) >= h.radix || v.p >= |s| then (v, acc)
            else ReadDigits(s, h, Scan(v.p + 1, v.pos + 1, v.dot), Take(acc, ToDigit(Ch(s, v.p)), h.radix))
  {
    hide DotHere;
    hide Take;
  }

  lemma TakeIs(acc: Acc, c: nat, radix: Radix)
    ensures Take(acc, c, radix)
         == if acc.count < AtodDigits(radix) then Acc(acc.mant * radix + c, acc.count + 1, acc.extra)
           else Acc(acc.mant, acc.count, acc.extra || c != 0)
  {
  }

  /** Never more than six limbs are filled. */
  lemma ChunkCount(radix: Radix, chunks: nat, n: nat, count: nat)
    requires chunks * DigitsPerLimb(radix) + n == count < AtodDigits(radix)
    ensures chunks <= 4
  {
    hide DigitsPerLimb;
    hide AtodDigits;
    FiveLimbs(radix);
    if chunks >= 5 { MulMono(5, chunks, DigitsPerLimb(radix)); }
  }

  lemma FiveLimbs(radix: Radix)
    ensures AtodDigits(radix) <= 5 * DigitsPerLimb(radix)
  {
  }

  method ReadExpDigitsFrom(s: string, h: How, start: nat, first: int) returns (p: nat, expn: int, overflow: bool)
    ensures (p, expn, overflow) == ReadExpDigits(s, h, start, first, false)
  {
    p, expn, overflow := start, first, false;
    while true
      invariant ReadExpDigits(s, h, start, first, false) == ReadExpDigits(s, h, p, expn, overflow)
      decreases |s| - p
    {
      if h.sep && Ch(s, p) == '_' && ToDigit(Ch(s, p + 1)) < 10 { p := p + 1; }
      var c := ToDigit(Ch(s, p));
      if c >= 10 || p >= |s| { break; }
      if !overflow {
        if expn > EXPN_GUARD { overflow := true; } else { expn := expn * 10 + c; }
      }
      p := p + 1;
    }
  }

  method ReadExpFrom(s: string, h: How, p0: nat) returns (x: Expn)
    ensures x == ReadExp(s, h, p0)
  {
    var p := p0;
    if !ExpMark(s, h, p) { return Expn(p, 0, false, false); }
    var binary := Ch(s, p) == 'p' || Ch(s, p) == 'P';
    p := p + 1;
    var negative := false;
    if Ch(s, p) == '+' {
      p := p + 1;
    } else if Ch(s, p) == '-' {
      negative := true;
      p := p + 1;
    }
    if ToDigit(Ch(s, p)) >= 10 { return NoDigits(p); }
    var expn: int, overflow := ToDigit(Ch(s, p)), false;
    p := p + 1;
    p, expn, overflow := ReadExpDigitsFrom(s, h, p, expn);
    x := Expn(p, if negative then -expn else expn, overflow, binary);
  }

  // ----- conversion -----

  /** Above the lower limit the shift of `round_to_d` is less than 64. */
  lemma TableNotTiny(radix: Radix, m: nat, e: int, c: nat)
    requires RadixBits(radix) == 0 && m > 0 && c > 0 && Pow(radix, c - 1) <= m && e + c > MinExponent(radix)
    ensures var s := RadixScaled(m, radix, e, false, 55); s.value > 0 && FloorLog2(s.value) + 1 - s.offset >= -1084
  {
    hide Pow;
    hide UpPow;
    hide StandsFor;
    hide RadixScaled;
    hide RadixBits;
    hide MinExponent;
    var nn, dd := RadixStands(m, radix, e);
    var s := RadixScaled(m, radix, e, false, 55);
    var k: int := FloorLog2(s.value) + 1 - s.offset;
    SmallUpPow(0);
    QuantumFromLog(s.value, s.offset, Num(m, 0, radix, e), Den(0, radix, e), nn, dd);
    if k < -1084 {
      RadixLimits(radix);
      AboveLeast(radix, m, e, c, -MinExponent(radix));
      SmallUpPow(k + 1074);
      FarBelow(m * UpPow(radix, e), UpPow(radix, -e), UpPow(2, -(k + 1074)), k, Pow(radix, -MinExponent(radix)));
    }
  }

  lemma AboveLeast(radix: Radix, m: nat, e: int, c: nat, low: nat)
    requires c > 0 && Pow(radix, c - 1) <= m && e + c > -(low as int)
    ensures UpPow(radix, -e) <= m * UpPow(radix, e) * Pow(radix, low)
  {
    hide Pow;
    hide UpPow;
    UpPowSum(radix, c - 1, e);
    PlainUp(radix, c - 1);
    var j: int := c - 1 + e;
    // m radix^e >= radix^j, and j >= -low
    if j >= 0 {
      PlainUp(radix, j);
      assert UpPow(radix, -j) == 1;
      PowZero(radix);
      PowMono(radix, 0, low);
    } else {
      PlainUp(radix, -j);
      PowMono(radix, -j, low);
      assert UpPow(radix, j) == 1 by { PlainUp(radix, -j); }
    }
    MulMono(Pow(radix, c - 1), m, UpPow(radix, e));
    LeastAlgebra(Pow(radix, c - 1) * UpPow(radix, e), m * UpPow(radix, e), UpPow(radix, -e), UpPow(radix, j),
      UpPow(radix, -j), Pow(radix, low));
  }

  lemma LeastAlgebra(low: nat, x: nat, d: nat, u: nat, u': nat, t: nat)
    requires low <= x && low * u' == u * d && u >= 1 && u' <= t
    ensures d <= x * t
  {
    MulMono(1, u, d);
    MulMono(low, x, u');
    MulMono(u', t, x);
  }

  lemma FarBelow(x: nat, d: nat, v: nat, k: int, t: nat)
    requires k < -1084 && v == UpPow(2, -(k + 1074)) && d <= x * t && t <= Pow(2, 1084)
    ensures d <= x * Pow(2, 1074) * v
  {
    hide Pow;
    PowMono(2, 10, -(k + 1074));
    PowAdd(2, 1074, 10);
    MulMono(Pow(2, 10), v, x * Pow(2, 1074));
    assert x * Pow(2, 1074) * Pow(2, 10) == x * (Pow(2, 1074) * Pow(2, 10));
    MulMono(t, Pow(2, 1084), x);
  }

  lemma BinNotTiny(a: nat, e: int, c: nat, bits: nat)
    requires 1 <= bits <= 5 && c > 0 && a > 0 && Pow(2, (c - 1) * bits) <= a && e + c * bits > -1075
    ensures FloorLog2(a) + 1 + e >= -1084
  {
    hide Pow;
    FloorLog2Bounds(a);
    PowOrder(2, (c - 1) * bits, FloorLog2(a) + 1);
    assert c * bits == (c - 1) * bits + bits;
  }

  // ----- the first digit kept is not zero -----

  ghost predicate Leading(acc: Acc, radix: Radix) {
    && acc.mant < Pow(radix, acc.count)
    && (acc.count > 0 ==> acc.mant > 0 && Pow(radix, acc.count - 1) <= acc.mant)
  }

  lemma TakeLeading(acc: Acc, c: nat, radix: Radix)
    requires Leading(acc, radix) && c < radix && (acc.count > 0 || c > 0)
    ensures Leading(Take(acc, c, radix), radix)
  {
    hide Pow;
    hide AtodDigits;
    var k := acc.count;
    NextPower(radix, k);
    MulMono(acc.mant + 1, Pow(radix, k), radix);
    assert (acc.mant + 1) * radix == acc.mant * radix + radix;
    if k > 0 {
      NextPower(radix, k - 1);
      MulMono(Pow(radix, k - 1), acc.mant, radix);
    } else {
      PowOne(radix);
    }
  }

  lemma NoneLeading(radix: Radix)
    ensures Leading(Acc(0, 0, false), radix)
  {
  }

  lemma {:induction false} ReadLeading(s: string, h: How, st: Scan, acc: Acc)
    requires Leading(acc, h.radix) && acc.count > 0
    ensures Leading(ReadDigits(s, h, st, acc).1, h.radix)
    decreases |s| - st.p
  {
    hide DotHere;
    hide Leading;
    hide Take;
    if !(DotHere(s, h, st.p) && st.dot >= 0) {
      var u := AfterDot(s, h, st);
      var v := AfterSep(s, h, u, ToDigit(Ch(s, u.p + 1)) < h.radix);
      var c := ToDigit(Ch(s, v.p));
      DigitsStep(s, h, st, acc, v);
      if c < h.radix && v.p < |s| {
        TakeLeading(acc, c, h.radix);
        TakeIs(acc, c, h.radix);
        ReadLeading(s, h, Scan(v.p + 1, v.pos + 1, v.dot), Take(acc, c, h.radix));
      }
    }
  }

  /** After the leading zeros, no further zero is taken as the first digit. */
  lemma NoLeadingZero(s: string, h: How, z: Scan)
    requires Ch(s, z.p) != '0' && (h.sep && Ch(s, z.p) == '_' && z.p > h.start ==> Ch(s, z.p + 1) != '0')
    requires DotHere(s, h, z.p) ==> z.dot >= 0
    ensures Leading(ReadDigits(s, h, z, Acc(0, 0, false)).1, h.radix)
  {
    hide DotHere;
    hide Leading;
    NoneLeading(h.radix);
    if !(DotHere(s, h, z.p) && z.dot >= 0) {
      var v := AfterSep(s, h, z, ToDigit(Ch(s, z.p + 1)) < h.radix);
      var c := ToDigit(Ch(s, v.p));
      DigitsStep(s, h, z, Acc(0, 0, false), v);
      if c < h.radix && v.p < |s| {
        assert Ch(s, v.p) != '0';
        TakeLeading(Acc(0, 0, false), c, h.radix);
        TakeIs(Acc(0, 0, false), c, h.radix);
        ReadLeading(s, h, Scan(v.p + 1, v.pos + 1, v.dot), Take(Acc(0, 0, false), c, h.radix));
      }
    }
  }

  /** Where the first loop stops, the second one does not start with a zero. */
  ghost predicate Stopped(s: string, h: How, z: Scan) {
    (DotHere(s, h, z.p) && z.dot >= 0)
    || (Ch(s, z.p) != '0' && (h.sep && Ch(s, z.p) == '_' && z.p > h.start ==> Ch(s, z.p + 1) != '0')
        && (DotHere(s, h, z.p) ==> z.dot >= 0))
  }

  lemma StopsHere(s: string, h: How, st: Scan)
    requires !(DotHere(s, h, st.p) && st.dot >= 0)
    ensures var u := AfterDot(s, h, st);
            var v := AfterSep(s, h, u, Ch(s, u.p + 1) == '0');
            v.p >= st.p && (Ch(s, v.p) != '0' ==> Stopped(s, h, v))
  {
  }

  lemma {:induction false} SkipZerosStops(s: string, h: How, st: Scan)
    ensures Stopped(s, h, SkipZeros(s, h, st))
    decreases |s| - st.p
  {
    hide DotHere;
    hide AfterDot;
    hide AfterSep;
    if !(DotHere(s, h, st.p) && st.dot >= 0) {
      var u := AfterDot(s, h, st);
      var v := AfterSep(s, h, u, Ch(s, u.p + 1) == '0');
      StopsHere(s, h, st);
      if Ch(s, v.p) == '0' { SkipZerosStops(s, h, Scan(v.p + 1, v.pos + 1, v.dot)); }
    }
  }

  lemma DigitsLeading(s: string, h: How, st: Scan)
    ensures Leading(ReadDigits(s, h, SkipZeros(s, h, st), Acc(0, 0, false)).1, h.radix)
  {
    hide DotHere;
    hide ReadDigits;
    hide SkipZeros;
    SkipZerosStops(s, h, st);
    var z := SkipZeros(s, h, st);
    if DotHere(s, h, z.p) && z.dot >= 0 {
      SecondDot(s, h, z, Acc(0, 0, false));
      NoneLeading(h.radix);
    } else {
      NoLeadingZero(s, h, z);
    }
  }

  // ----- the whole of js_atod -----

  method ConvertTableBig(t: Mpb, radix: Radix, count: nat, expn: int, offset: int) returns (bits: nat)
    requires RadixBits(radix) == 0 && 0 < count <= AtodDigits(radix)
    requires t.Valid() && t.tab.Length == DBIGNUM_LEN_MAX && Leading(Acc(t.Value(), count, false), radix)
    modifies t, t.tab
    ensures bits == ConvertTable(Acc(old(t.Value()), count, false), radix, expn, offset)
  {
    hide Pow;
    hide Val;
    hide MulPow;
    hide RoundToD;
    hide PackBits;
    hide RadixBits;
    hide MaxExponent;
    hide MinExponent;
    hide AtodDigits;
    hide OddPart;
    hide TwosIn;
    hide OddPerLimb;
    hide Fits;
    var e := Wrap32(expn - offset);
    var e1 := Wrap32(e + count);
    if e1 >= MaxExponent(radix) + 1 { return INFINITY; }
    if e1 <= MinExponent(radix) { return 0; }
    assert e1 == e + count;
    TableNotTiny(radix, t.Value(), e, count);
    OddFits(radix);
    FewLimbs(radix, t.Value(), count);
    ShortLimbs(t.tab[..t.len]);
    TableFits(radix, t.Value(), t.len, e, count);
    var m, e2 := MulPowRoundToDBig(t, OddPart(radix), TwosIn(radix), e, OddPerLimb(radix));
    bits := PackBits(m, e2);
  }

  /** The digits that are kept fill four limbs. */
  lemma FewLimbs(radix: Radix, m: nat, count: nat)
    requires RadixBits(radix) == 0 && count <= AtodDigits(radix) && m < Pow(radix, count)
    ensures m < Pow(2, 128)
  {
    hide Pow;
    hide AtodDigits;
    DigitLimits(radix);
    PowMono(radix, count, AtodDigits(radix));
  }

  lemma ShortLimbs(s: seq<Limb>)
    requires |s| >= 1 && (|s| > 1 ==> s[|s| - 1] != 0) && Val(s) < Pow(2, 128)
    ensures |s| <= 4 && (Val(s) < B ==> |s| == 1)
  {
    hide Val;
    hide Pow;
    BIsPower();
    PowPow(2, 32, 4);
    PowOne(B);
    if |s| > 1 {
      var n := |s| - 1;
      assert s == s[..n] + [s[n]];
      ValAppend(s[..n], s[n]);
      MulMono(1, s[n], Pow(B, n));
      if n >= 4 { PowMono(B, 4, n); }
      PowMono(B, 1, n);
    }
  }

  // ----- fifty-two limbs are enough -----

  /** The limbs that scaling by the extreme powers of a radix takes. */
  predicate Room(radix: Radix) {
    && LimbsFor(MaxExponent(radix) + 1, OddPerLimb(radix)) <= 38
    && LimbsFor(AtodDigits(radix) - MinExponent(radix) - 1, OddPerLimb(radix)) <= 43
  }

  lemma Room3()
    ensures Room(3)
    ensures Room(5)
    ensures Room(6)
  {
  }

  lemma Room7()
    ensures Room(7)
    ensures Room(9)
    ensures Room(10)
  {
  }

  lemma Room11()
    ensures Room(11)
    ensures Room(12)
    ensures Room(13)
  {
  }

  lemma Room14()
    ensures Room(14)
    ensures Room(15)
    ensures Room(17)
  {
  }

  lemma Room18()
    ensures Room(18)
    ensures Room(19)
    ensures Room(20)
  {
  }

  lemma Room21()
    ensures Room(21)
    ensures Room(22)
    ensures Room(23)
  {
  }

  lemma Room24()
    ensures Room(24)
    ensures Room(25)
    ensures Room(26)
  {
  }

  lemma Room27()
    ensures Room(27)
    ensures Room(28)
    ensures Room(29)
  {
  }

  lemma Room30()
    ensures Room(30)
    ensures Room(31)
    ensures Room(33)
  {
  }

  lemma Room34()
    ensures Room(34)
    ensures Room(35)
    ensures Room(36)
  {
  }

  lemma HasRoom(radix: Radix)
    requires RadixBits(radix) == 0
    ensures Room(radix)
  {
    hide Room;
    hide RadixBits;
    PowersOfTwo(radix);
    Room3();
    Room7();
    Room11();
    Room14();
    Room18();
    Room21();
    Room24();
    Room27();
    Room30();
    Room34();
  }

  lemma LimbsMono(f: nat, g: nat, d: nat)
    requires d > 0 && f <= g
    ensures LimbsFor(f, d) <= LimbsFor(g, d)
  {
    DivParts(f + d - 1, d);
    DivParts(g + d - 1, d);
    if LimbsFor(f, d) > LimbsFor(g, d) { MulMono(LimbsFor(g, d) + 1, LimbsFor(f, d), d); }
  }

  /** A number that needs 32 bits more is a single limb. */
  lemma ExtraRoom(a: nat, len: nat, offset: int)
    requires a > 0 && len <= 4 && (a < B ==> len == 1)
    ensures ExtraBits(a, false, 55, offset) <= 55 && len + ExtraBits(a, false, 55, offset) / 32 <= 4
  {
    hide Pow;
    if FloorLog2(a) < 24 {
      FloorLog2Bounds(a);
      PowMono(2, FloorLog2(a) + 1, 32);
      BIsPower();
    }
  }

  /** Fifty-two limbs are enough for every exponent between the limits. */
  lemma TableFits(radix: Radix, a: nat, len: nat, e: int, count: nat)
    requires RadixBits(radix) == 0 && a > 0 && len <= 4 && (a < B ==> len == 1)
    requires count <= AtodDigits(radix) && MinExponent(radix) < e + count <= MaxExponent(radix) + 1
    ensures Fits(DBIGNUM_LEN_MAX - 3, len, e, OddPerLimb(radix),
                 if e >= 0 then 0
                   else 32 * LimbsFor(-e, OddPerLimb(radix)) + ExtraBits(a, false, 55,
                     -e * TwosIn(radix) + 32 * LimbsFor(-e, OddPerLimb(radix))))
  {
    hide LimbsFor;
    hide ExtraBits;
    hide MaxExponent;
    hide MinExponent;
    hide AtodDigits;
    hide OddPerLimb;
    hide TwosIn;
    hide RadixBits;
    HasRoom(radix);
    var d := OddPerLimb(radix);
    if e >= 0 {
      LimbsMono(e, MaxExponent(radix) + 1, d);
    } else {
      LimbsMono(-e, AtodDigits(radix) - MinExponent(radix) - 1, d);
      ExtraRoom(a, len, -e * TwosIn(radix) + 32 * LimbsFor(-e, d));
    }
  }

  method ConvertBinBig(t: Mpb, count: nat, extra: bool, bits: nat, expn: int, binary: bool,
      offset: int) returns (mag: nat)
    requires t.Valid() && t.len <= 8 && t.tab.Length == DBIGNUM_LEN_MAX && 0 < count && 1 <= bits <= 5
    requires t.Value() > 0 && Pow(2, (count - 1) * bits) <= t.Value()
    modifies t, t.tab
    ensures mag == ConvertBin(Acc(old(t.Value()), count, extra), bits, expn, binary, offset)
  {
    hide Pow;
    hide Val;
    hide RoundToD;
    hide PackBits;
    hide Sticky;
    ghost var v := t.Value();
    t.Stick(extra);
    var e := expn;
    if !binary { e := Wrap32(e * bits); }
    e := Wrap32(e - offset * bits);
    var e1 := Wrap32(e + count * bits);
    if e1 >= 1024 + bits { return INFINITY; }
    if e1 <= -1075 { return 0; }
    StickyAbove(v, extra);
    CountBits(count, bits);
    if t.Value() > 0 { BinNotTiny(t.Value(), e, count, bits); }
    var m, e2 := RoundToDBig(t, -e);
    mag := PackBits(m, e2);
  }

  lemma StickyAbove(q: nat, inexact: bool)
    ensures q <= Sticky(q, inexact)
  {
  }

  lemma CountBits(count: nat, bits: nat)
    requires count > 0
    ensures count * bits >= 0
  {
  }

  /** From the digits and the exponent to the magnitude. */
  method MagnitudeBig(h: How, sc: Scan, t: Mpb, count: nat, extra: bool, sigPos: nat, x: Expn) returns (mag: nat)
    requires x.Expn? && t.Valid() && t.len <= 8 && t.tab.Length == DBIGNUM_LEN_MAX && count <= AtodDigits(h.radix)
    requires Leading(Acc(t.Value(), count, extra), h.radix)
    modifies t, t.tab
    ensures mag == Magnitude(h, sc, Acc(old(t.Value()), count, extra), sigPos, x)
  {
    hide ConvertTable;
    hide ConvertBin;
    hide Pow;
    hide Val;
    hide RadixBits;
    hide AtodDigits;
    var dot := if sc.dot < 0 then sc.pos else sc.dot;
    var offset := sigPos + count - dot;
    if count == 0 {
      mag := 0;
    } else if x.overflow {
      mag := if x.value < 0 then 0 else INFINITY;
    } else if RadixBits(h.radix) != 0 {
      PowersOfTwo(h.radix);
      RadixIsPower(h.radix, count - 1);
      mag := ConvertBinBig(t, count, extra, RadixBits(h.radix), x.value, x.binary, offset);
    } else {
      ConvertTableExtra(t.Value(), h.radix, count, extra, x.value, offset);
      mag := ConvertTableBig(t, h.radix, count, x.value, offset);
    }
  }

  /** `js_atod`, for every radix, or zero to read it from a prefix. */
  method JsAtod(s: string, radix: RadixArg, fl: Flags) returns (r: Result)
    ensures r == Atod(s, radix, fl)
  {
    hide ReadPrefix;
    hide SkipZeros;
    hide ReadDigits;
    hide ReadExp;
    hide Magnitude;
    hide Leading;
    hide Val;
    hide AtodDigits;
    var negative := Ch(s, 0) == '-';
    var prefix := ReadPrefixOf(s, Start(s), radix, fl);
    match prefix {
      case Fails(p) => return Result(NaN, p);
      case Infinite(p) => return Result(Bits(negative, INFINITY), p);
      case Goes(p, radix', sep) =>
        var h := How(Start(s), radix', sep, fl.intOnly);
        var tmp0 := new Mpb(DBIGNUM_LEN_MAX);
        var z := SkipZerosFrom(s, h, Scan(p, 0, -1));
        DigitsLeading(s, h, Scan(p, 0, -1));
        var sc, count, extra := ReadDigitsFrom(s, h, z, tmp0);
        CountAtMost(s, h, z, Acc(0, 0, false));
        var x := ReadExpFrom(s, h, sc.p);
        if x.NoDigits? { return Result(NaN, x.at); }
        if x.at == h.start { return Result(NaN, x.at); }
        var mag := MagnitudeBig(h, sc, tmp0, count, extra, z.pos, x);
        r := Result(Bits(negative, mag), x.at);
    }
  }

  lemma ConvertTableExtra(m: nat, radix: Radix, count: nat, extra: bool, expn: int, offset: int)
    ensures ConvertTable(Acc(m, count, extra), radix, expn, offset)
         == ConvertTable(Acc(m, count, false), radix, expn, offset)
  {
  }

  lemma {:induction false} CountAtMost(s: string, h: How, st: Scan, acc: Acc)
    requires acc.count <= AtodDigits(h.radix)
    ensures ReadDigits(s, h, st, acc).1.count <= AtodDigits(h.radix)
    decreases |s| - st.p
  {
    hide DotHere;
    hide AtodDigits;
    hide ReadDigits;
    hide Take;
    if DotHere(s, h, st.p) && st.dot >= 0 {
      SecondDot(s, h, st, acc);
    } else {
      var u := AfterDot(s, h, st);
      var v := AfterSep(s, h, u, ToDigit(Ch(s, u.p + 1)) < h.radix);
      var c := ToDigit(Ch(s, v.p));
      DigitsStep(s, h, st, acc, v);
      if c < h.radix && v.p < |s| {
        TakeIs(acc, c, h.radix);
        CountAtMost(s, h, Scan(v.p + 1, v.pos + 1, v.dot), Take(acc, c, h.radix));
      }
    }
  }
}
