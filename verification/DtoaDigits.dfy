/** Digit strings: their values, what is kept of them, and the exponent's digits. */
module DtoaDigits {
  import opened DtoaArith
  import opened DtoaScan
  import opened DtoaTables
  import opened DtoaNumeral

  lemma DigitsAppend(s: string, c: char, radix: Radix)
    ensures DigitsValue(s + [c], radix) == DigitsValue(s, radix) * radix + ToDigit(c)
  {
    assert (s + [c])[..|s|] == s;
  }

  lemma {:induction false} DigitsConcat(s: string, t: string, radix: Radix)
    ensures DigitsValue(s + t, radix) == DigitsValue(s, radix) * Pow(radix, |t|) + DigitsValue(t, radix)
    decreases |t|
  {
    if t == "" {
      assert s + t == s;
    } else {
      var u, c := t[..|t| - 1], t[|t| - 1];
      DigitsConcat(s, u, radix);
      assert s + t == (s + u) + [c];
      DigitsAppend(s + u, c, radix);
      OneMore(DigitsValue(s, radix), Pow(radix, |u|), DigitsValue(u, radix), radix);
    }
  }

  lemma OneMore(a: nat, p: nat, b: nat, radix: Radix)
    ensures (a * p + b) * radix == a * (radix * p) + b * radix
  {
  }

  lemma {:induction false} DigitsBelow(s: string, radix: Radix)
    requires AllDigits(s, radix)
    ensures DigitsValue(s, radix) < Pow(radix, |s|)
    decreases |s|
  {
    hide ToDigit;
    if s != "" {
      var u := s[..|s| - 1];
      DigitsBelow(u, radix);
      BelowStep(DigitsValue(u, radix), Pow(radix, |u|), ToDigit(s[|s| - 1]), radix);
    }
  }

  lemma BelowStep(v: nat, p: nat, c: nat, radix: nat)
    requires v < p && c < radix
    ensures v * radix + c < radix * p
  {
    MulMono(v + 1, p, radix);
    assert (v + 1) * radix == v * radix + radix;
  }

  lemma {:induction false} DigitsAbove(s: string, radix: Radix)
    requires s != "" && ToDigit(s[0]) > 0
    ensures Pow(radix, |s| - 1) <= DigitsValue(s, radix)
    decreases |s|
  {
    var u := s[..|s| - 1];
    if u != "" {
      DigitsAbove(u, radix);
      MulMono(Pow(radix, |u| - 1), DigitsValue(u, radix), radix);
    }
  }

  lemma {:induction false} ZerosValue(s: string, radix: Radix)
    requires forall i :: 0 <= i < |s| ==> s[i] == '0'
    ensures DigitsValue(s, radix) == 0
    decreases |s|
  {
    if s != "" { ZerosValue(s[..|s| - 1], radix); }
  }

  function Significant(s: string): string {
    s[Zeros(s)..]
  }

  /** Leading zeros do not count. */
  lemma SignificantValue(s: string, radix: Radix)
    requires AllDigits(s, radix)
    ensures DigitsValue(Significant(s), radix) == DigitsValue(s, radix)
    ensures AllDigits(Significant(s), radix)
    ensures Significant(s) != "" ==> ToDigit(Significant(s)[0]) > 0
  {
    hide Pow;
    hide DigitsValue;
    hide ToDigit;
    var k := Zeros(s);
    assert s == s[..k] + s[k..];
    DigitsConcat(s[..k], s[k..], radix);
    ZerosValue(s[..k], radix);
    if k < |s| { OnlyZeroIsZero(s[k]); }
  }

  lemma OnlyZeroIsZero(c: char)
    requires c != '0'
    ensures ToDigit(c) > 0
  {
  }

  // ----- the digits that are kept -----

  function Kept(n: nat, radix: Radix): nat {
    if n < AtodDigits(radix) then n else AtodDigits(radix)
  }

  function KeptAcc(s: string, radix: Radix): (acc: Acc)
    ensures acc.count <= |s|
  {
    var c := Kept(|s|, radix);
    Acc(DigitsValue(s[..c], radix), c, DigitsValue(s[c..], radix) != 0)
  }

  lemma ProductNonZero(v: nat, radix: Radix)
    ensures v * radix > 0 <==> v > 0
  {
    if v > 0 { MulMono(1, v, radix); }
  }

  lemma TakeNext(s: string, c: char, radix: Radix)
    ensures Take(KeptAcc(s, radix), ToDigit(c), radix) == KeptAcc(s + [c], radix)
  {
    hide AtodDigits;
    hide DigitsValue;
    hide ToDigit;
    var m := AtodDigits(radix);
    var t := s + [c];
    if |s| < m {
      assert s[..|s|] == s && s[|s|..] == "" && t[..|t|] == t && t[|t|..] == "";
      DigitsAppend(s, c, radix);
    } else {
      assert t[..m] == s[..m] && t[m..] == s[m..] + [c];
      DigitsAppend(s[m..], c, radix);
      ProductNonZero(DigitsValue(s[m..], radix), radix);
    }
  }

  lemma {:induction false} TakeAllKeeps(done: string, s: string, radix: Radix)
    ensures TakeAll(KeptAcc(done, radix), s, radix) == KeptAcc(done + s, radix)
    decreases |s|
  {
    hide Take;
    hide KeptAcc;
    if s == "" {
      assert done + s == done;
    } else {
      TakeNext(done, s[0], radix);
      TakeAllKeeps(done + [s[0]], s[1..], radix);
      assert done + [s[0]] + s[1..] == done + s;
    }
  }

  lemma TakesAll(s: string, radix: Radix)
    ensures TakeAll(Acc(0, 0, false), s, radix) == KeptAcc(s, radix)
  {
    assert KeptAcc("", radix) == Acc(0, 0, false) by { assert ""[..0] == "" && ""[0..] == ""; }
    TakeAllKeeps("", s, radix);
    assert "" + s == s;
  }

  // ----- the exponent -----

  /** The exponent's value is given up once the digits before the last exceed the guard. */
  predicate Saturates(ed: string) {
    |ed| > 0 && DigitsValue(ed[..|ed| - 1], 10) > EXPN_GUARD
  }

  lemma SaturatesWhen(ed: string)
    requires AllDigits(ed, 10) && ed != ""
    ensures Saturates(ed) <==> DigitsValue(ed, 10) >= 10 * (EXPN_GUARD + 1)
  {
    assert ToDigit(ed[|ed| - 1]) < 10;
  }

  /** Where the loop stands after the digits `ed[..k]`. */
  predicate ExpState(ed: string, k: nat, value: int, overflow: bool) {
    && 1 <= k <= |ed|
    && overflow == Saturates(ed[..k])
    && (if overflow then value > EXPN_GUARD else value == DigitsValue(ed[..k], 10))
  }

  lemma ExpNext(ed: string, k: nat, value: int, overflow: bool)
    requires AllDigits(ed, 10) && ExpState(ed, k, value, overflow) && k < |ed|
    ensures if overflow || value > EXPN_GUARD then ExpState(ed, k + 1, value, true)
            else ExpState(ed, k + 1, value * 10 + ToDigit(ed[k]), false)
  {
    assert ed[..k + 1] == ed[..k] + [ed[k]];
    DigitsAppend(ed[..k], ed[k], 10);
    assert ed[..k + 1][..k] == ed[..k];
    assert ed[..k][..k - 1] == ed[..k - 1];
    assert AllDigits(ed[..k], 10);
    SaturatesWhen(ed[..k]);
  }

  lemma {:induction false} ReadExpReads(s: string, h: How, p: nat, ed: string, k: nat, value: int, overflow: bool)
    requires AllDigits(ed, 10) && ExpState(ed, k, value, overflow)
    requires p + (|ed| - k) == |s| && s[p..] == ed[k..]
    ensures var r := ReadExpDigits(s, h, p, value, overflow);
            r.0 == |s| && ExpState(ed, |ed|, r.1, r.2)
    decreases |ed| - k
  {
    if k < |ed| {
      assert s[p] == s[p..][0] == ed[k..][0] == ed[k];
      assert s[p + 1..] == s[p..][1..] && ed[k + 1..] == ed[k..][1..];
      ExpNext(ed, k, value, overflow);
      if overflow || value > EXPN_GUARD {
        ReadExpReads(s, h, p + 1, ed, k + 1, value, true);
      } else {
        ReadExpReads(s, h, p + 1, ed, k + 1, value * 10 + ToDigit(ed[k]), false);
      }
    } else {
      assert Ch(s, p) == '\0';
    }
  }
}
