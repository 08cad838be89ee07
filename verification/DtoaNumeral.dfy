/** Numerals, their values, and how `js_atod` scans their text. */
module DtoaNumeral {
  import opened DtoaScan
  import opened DtoaTables

  datatype Exponent = NoExp | Exp(mark: char, sign: string, digits: string)

  /** A numeral: sign, digits before the dot, digits after it, exponent. */
  datatype Numeral = Numeral(sign: string, ip: string, dot: bool, fp: string, exp: Exponent)

  function ExpText(x: Exponent): string {
    match x
    case NoExp => ""
    case Exp(mark, sign, digits) => [mark] + sign + digits
  }

  function BodyText(n: Numeral): string {
    n.ip + (if n.dot then "." else "") + n.fp
  }

  function Text(n: Numeral): string {
    n.sign + BodyText(n) + ExpText(n.exp)
  }

  predicate AllDigits(s: string, radix: Radix) {
    forall i :: 0 <= i < |s| ==> ToDigit(s[i]) < radix
  }

  predicate MarkFits(c: char, radix: Radix) {
    if radix == 10 then c == 'e' || c == 'E'
    else c == '@' || (1 <= RadixBits(radix) <= 4 && (c == 'p' || c == 'P'))
  }

  /** The grammar of numerals in a radix, without a radix prefix. */
  predicate WellFormed(n: Numeral, radix: Radix) {
    && n.sign in {"", "+", "-"}
    && AllDigits(n.ip, radix) && AllDigits(n.fp, radix)
    && |n.ip| + |n.fp| > 0 && (!n.dot ==> n.fp == "")
    && (n.exp.Exp? ==>
      MarkFits(n.exp.mark, radix) && n.exp.sign in {"", "+", "-"} && |n.exp.digits| > 0 && AllDigits(n.exp.digits, 10))
  }

  /** The number written by digits. */
  function DigitsValue(s: string, radix: nat): nat {
    if s == "" then 0 else DigitsValue(s[..|s| - 1], radix) * radix + ToDigit(s[|s| - 1])
  }

  function AllOf(n: Numeral): string {
    n.ip + n.fp
  }

  function ExpValue(x: Exponent): int {
    match x
    case NoExp => 0
    case Exp(_, sign, digits) => if sign == "-" then 0 - DigitsValue(digits, 10) else DigitsValue(digits, 10)
  }

  predicate IsBinary(x: Exponent) {
    x.Exp? && (x.mark == 'p' || x.mark == 'P')
  }

  /** The number of leading zeros. */
  function Zeros(s: string): (k: nat)
    ensures k <= |s| && (forall i :: 0 <= i < k ==> s[i] == '0') && (k < |s| ==> s[k] != '0')
  {
    if s == "" || s[0] != '0' then 0 else 1 + Zeros(s[1..])
  }

  // ----- scanning the body -----

  /** The cursor stands between two digits of the body. */
  predicate Inside(n: Numeral, from: nat, st: Scan) {
    && st.pos <= |AllOf(n)|
    && (if st.dot < 0 then st.dot == -1 && st.pos <= |n.ip| && st.p == from + st.pos
        else n.dot && st.dot == |n.ip| && st.pos >= |n.ip| && st.p == from + 1 + st.pos)
  }

  /** The text at `from` is the body of `n`, and nothing after it continues it. */
  ghost predicate Reads(s: string, h: How, n: Numeral) {
    && WellFormed(n, h.radix) && (h.intOnly ==> !n.dot)
    && h.start + |BodyText(n)| <= |s| && s[h.start..h.start + |BodyText(n)|] == BodyText(n)
    && ToDigit(Ch(s, h.start + |BodyText(n)|)) >= h.radix
    && Ch(s, h.start + |BodyText(n)|) != '.' && Ch(s, h.start + |BodyText(n)|) != '_'
  }

  lemma BodyChar(s: string, h: How, n: Numeral, st: Scan)
    requires Reads(s, h, n) && Inside(n, h.start, st)
    ensures st.dot < 0 && st.pos == |n.ip| && n.dot ==> Ch(s, st.p) == '.'
    ensures !(st.dot < 0 && st.pos == |n.ip| && n.dot) && st.pos < |AllOf(n)| ==>
      Ch(s, st.p) == AllOf(n)[st.pos] && st.p < |s|
    ensures !(st.dot < 0 && st.pos == |n.ip| && n.dot) && st.pos == |AllOf(n)| ==> st.p == h.start + |BodyText(n)|
  {
    var b := BodyText(n);
    assert forall i :: 0 <= i < |b| ==> s[h.start..h.start + |b|][i] == b[i];
    if st.p < h.start + |b| {
      assert Ch(s, st.p) == b[st.p - h.start];
    }
  }

  /** One digit of the body, or its end, after the dot if it stands here. */
  lemma BodyStep(s: string, h: How, n: Numeral, st: Scan, follows: bool)
    requires Reads(s, h, n) && Inside(n, h.start, st)
    ensures !(DotHere(s, h, st.p) && st.dot >= 0)
    ensures var v := AfterSep(s, h, AfterDot(s, h, st), follows);
            Inside(n, h.start, v) && v.pos == st.pos
            && (if v.pos < |AllOf(n)| then Ch(s, v.p) == AllOf(n)[v.pos] && v.p < |s|
              && Inside(n, h.start, Scan(v.p + 1, v.pos + 1, v.dot))
                else v.p == h.start + |BodyText(n)|)
  {
    var all := AllOf(n);
    BodyChar(s, h, n, st);
    if st.dot < 0 && st.pos == |n.ip| && n.dot {
      var u := Scan(st.p + 1, st.pos, st.pos);
      BodyChar(s, h, n, u);
      if |n.ip| == 0 {
        assert all[0] == n.fp[0];
      }
      assert DotHere(s, h, st.p);
      NotSpecial(s, h, n, u);
    } else {
      NotSpecial(s, h, n, st);
    }
  }

  /** Neither a digit nor what follows the body is a dot or a separator. */
  lemma NotSpecial(s: string, h: How, n: Numeral, st: Scan)
    requires Reads(s, h, n) && Inside(n, h.start, st) && !(st.dot < 0 && st.pos == |n.ip| && n.dot)
    ensures Ch(s, st.p) != '.' && Ch(s, st.p) != '_'
  {
    BodyChar(s, h, n, st);
    var all := AllOf(n);
    if st.pos < |all| {
      assert ToDigit(all[st.pos]) < h.radix by {
        if st.pos < |n.ip| { assert all[st.pos] == n.ip[st.pos]; } else { assert all[st.pos] == n.fp[st.pos - |n.ip|]; }
      }
    }
  }

  lemma ZerosStep(s: string, k: nat)
    requires k < |s|
    ensures Zeros(s[k..]) == if s[k] == '0' then 1 + Zeros(s[k + 1..]) else 0
  {
    assert s[k..][1..] == s[k + 1..];
  }

  /** The first loop passes the leading zeros. */
  lemma {:induction false} SkipZerosReads(s: string, h: How, n: Numeral, st: Scan)
    requires Reads(s, h, n) && Inside(n, h.start, st)
    ensures var z := SkipZeros(s, h, st);
            Inside(n, h.start, z) && z.pos == st.pos + Zeros(AllOf(n)[st.pos..])
    decreases |AllOf(n)| - st.pos
  {
    hide DotHere;
    hide AfterDot;
    hide AfterSep;
    hide Reads;
    hide Inside;
    hide AllOf;
    hide Zeros;
    var follows := Ch(s, AfterDot(s, h, st).p + 1) == '0';
    var v := AfterSep(s, h, AfterDot(s, h, st), follows);
    BodyStep(s, h, n, st, follows);
    InsideBound(n, h.start, st);
    if st.pos < |AllOf(n)| {
      ZerosStep(AllOf(n), st.pos);
      if Ch(s, v.p) == '0' {
        SkipZerosReads(s, h, n, Scan(v.p + 1, v.pos + 1, v.dot));
      }
    } else {
      EndIsNoDigit(s, h, n);
      NoZeros(AllOf(n));
    }
  }

  lemma NoZeros(s: string)
    ensures Zeros(s[|s|..]) == 0
  {
  }

  lemma InsideBound(n: Numeral, from: nat, st: Scan)
    requires Inside(n, from, st)
    ensures st.pos <= |AllOf(n)|
  {
  }

  lemma EndIsNoDigit(s: string, h: How, n: Numeral)
    requires Reads(s, h, n)
    ensures ToDigit(Ch(s, h.start + |BodyText(n)|)) >= h.radix && Ch(s, h.start + |BodyText(n)|) != '0'
  {
  }

  /** Taking all digits of a string. */
  function TakeAll(acc: Acc, s: string, radix: Radix): Acc
    decreases |s|
  {
    if s == "" then acc else TakeAll(Take(acc, ToDigit(s[0]), radix), s[1..], radix)
  }

  /** The second loop takes the remaining digits. */
  lemma {:induction false} ReadDigitsReads(s: string, h: How, n: Numeral, st: Scan, acc: Acc)
    requires Reads(s, h, n) && Inside(n, h.start, st)
    ensures var d := ReadDigits(s, h, st, acc);
            Inside(n, h.start, d.0) && d.0.pos == |AllOf(n)| && d.0.p == h.start + |BodyText(n)|
            && d.1 == TakeAll(acc, AllOf(n)[st.pos..], h.radix)
    decreases |AllOf(n)| - st.pos
  {
    hide DotHere;
    hide AfterDot;
    hide AfterSep;
    hide Reads;
    hide Take;
    var u := AfterDot(s, h, st);
    var follows := ToDigit(Ch(s, u.p + 1)) < h.radix;
    var v := AfterSep(s, h, u, follows);
    BodyStep(s, h, n, st, follows);
    var rest := AllOf(n)[st.pos..];
    if st.pos < |AllOf(n)| {
      assert rest[0] == Ch(s, v.p);
      DigitInBody(n, h.radix, st.pos, s, h);
      assert rest[1..] == AllOf(n)[st.pos + 1..];
      ReadDigitsReads(s, h, n, Scan(v.p + 1, v.pos + 1, v.dot), Take(acc, ToDigit(rest[0]), h.radix));
    } else {
      EndIsNoDigit(s, h, n);
    }
  }

  lemma DigitInBody(n: Numeral, radix: Radix, i: nat, s: string, h: How)
    requires Reads(s, h, n) && radix == h.radix && i < |AllOf(n)|
    ensures ToDigit(AllOf(n)[i]) < radix
  {
    if i < |n.ip| { assert AllOf(n)[i] == n.ip[i]; } else { assert AllOf(n)[i] == n.fp[i - |n.ip|]; }
  }
}
