/** Other forms of numerals: radix prefixes, legacy octal numbers, and separators between digits.
    Each is read like the same digits without it. */
module DtoaForms {
  import opened DtoaArith
  import opened DtoaLog
  import opened DtoaTables
  import opened DtoaScan
  import opened DtoaNumeral
  import opened DtoaAtod
  import opened DtoaPrint

  lemma DigitFacts()
    ensures ToDigit('0') == 0 && ToDigit('I') == 18
    ensures ToDigit('+') == 36 && ToDigit('-') == 36 && ToDigit('\0') == 36
  {
  }

  // ----- the same characters, further on -----

  /** From `a` on, `s` has the characters of `t`, `d` places further on. */
  ghost predicate Moved(t: string, s: string, a: nat, d: nat) {
    |s| == |t| + d && forall i: nat :: i >= a ==> Ch(s, i + d) == Ch(t, i)
  }

  predicate SameReading(h: How, h': How) {
    h.radix == h'.radix && h.sep == h'.sep && h.intOnly == h'.intOnly
  }

  /** At a cursor, being past the start makes no difference: the cursor is past it in both, or
      at a digit. */
  predicate Settled(t: string, h: How, h': How, p: nat, d: nat) {
    p >= h.start && p + d > h'.start && (p > h.start || ToDigit(Ch(t, p)) < h.radix)
  }

  function Ahead(st: Scan, d: nat): Scan { st.(p := st.p + d) }

  lemma DotAhead(t: string, s: string, h: How, h': How, p: nat, d: nat)
    requires Moved(t, s, p, d) && SameReading(h, h') && Settled(t, h, h', p, d)
    ensures DotHere(s, h', p + d) == DotHere(t, h, p)
  {
    assert Ch(s, p + d) == Ch(t, p) && Ch(s, (p + 1) + d) == Ch(t, p + 1);
  }

  lemma SepAhead(t: string, s: string, h: How, h': How, st: Scan, d: nat, follows: bool)
    requires Moved(t, s, st.p, d) && SameReading(h, h') && Settled(t, h, h', st.p, d)
    ensures AfterSep(s, h', Ahead(st, d), follows) == Ahead(AfterSep(t, h, st, follows), d)
  {
    assert Ch(s, st.p + d) == Ch(t, st.p);
  }

  /** The cursor after a dot and a separator, in the loop over zeros and in that over digits. */
  function PassZero(s: string, h: How, st: Scan): (v: Scan)
    ensures v.p >= st.p
  {
    var u := AfterDot(s, h, st);
    AfterSep(s, h, u, Ch(s, u.p + 1) == '0')
  }

  function PassDigit(s: string, h: How, st: Scan): (v: Scan)
    ensures v.p >= st.p
  {
    var u := AfterDot(s, h, st);
    AfterSep(s, h, u, ToDigit(Ch(s, u.p + 1)) < h.radix)
  }

  function NextPlace(v: Scan): Scan { Scan(v.p + 1, v.pos + 1, v.dot) }

  lemma PassAhead(t: string, s: string, h: How, h': How, st: Scan, d: nat)
    requires Moved(t, s, st.p, d) && SameReading(h, h') && Settled(t, h, h', st.p, d)
    ensures PassZero(s, h', Ahead(st, d)) == Ahead(PassZero(t, h, st), d)
    ensures PassDigit(s, h', Ahead(st, d)) == Ahead(PassDigit(t, h, st), d)
    ensures Settled(t, h, h', PassZero(t, h, st).p, d) && Settled(t, h, h', PassDigit(t, h, st).p, d)
  {
    hide ToDigit;
    hide DotHere;
    DotAhead(t, s, h, h', st.p, d);
    var u := AfterDot(t, h, st);
    assert Ch(s, (u.p + 1) + d) == Ch(t, u.p + 1);
    SepAhead(t, s, h, h', u, d, Ch(t, u.p + 1) == '0');
    SepAhead(t, s, h, h', u, d, ToDigit(Ch(t, u.p + 1)) < h.radix);
  }

  /** One turn of each loop. */
  lemma SkipTurn(s: string, h: How, st: Scan)
    ensures SkipZeros(s, h, st)
         == if DotHere(s, h, st.p) && st.dot >= 0 then st
            else if Ch(s, PassZero(s, h, st).p) != '0' then PassZero(s, h, st)
            else SkipZeros(s, h, NextPlace(PassZero(s, h, st)))
  {
    hide ToDigit;
    hide DotHere;
  }

  lemma ReadTurn(s: string, h: How, st: Scan, acc: Acc)
    ensures var v := PassDigit(s, h, st);
            ReadDigits(s, h, st, acc)
            == if DotHere(s, h, st.p) && st.dot >= 0 then (st, acc)
               else if ToDigit(Ch(s, v.p)) >= h.radix || v.p >= |s| then (v, acc)
               else ReadDigits(s, h, NextPlace(v), Take(acc, ToDigit(Ch(s, v.p)), h.radix))
  {
    hide ToDigit;
    hide DotHere;
    hide Take;
  }

  lemma {:induction false} SkipAhead(t: string, s: string, h: How, h': How, st: Scan, d: nat)
    requires Moved(t, s, st.p, d) && SameReading(h, h') && Settled(t, h, h', st.p, d)
    ensures SkipZeros(s, h', Ahead(st, d)) == Ahead(SkipZeros(t, h, st), d)
    ensures SkipZeros(t, h, st).p >= st.p && Settled(t, h, h', SkipZeros(t, h, st).p, d)
    decreases |t| - st.p
  {
    hide ToDigit;
    hide DotHere;
    hide SkipZeros;
    hide PassZero;
    hide PassDigit;
    SkipTurn(t, h, st);
    SkipTurn(s, h', Ahead(st, d));
    DotAhead(t, s, h, h', st.p, d);
    PassAhead(t, s, h, h', st, d);
    var v := PassZero(t, h, st);
    assert Ch(s, v.p + d) == Ch(t, v.p);
    if !(DotHere(t, h, st.p) && st.dot >= 0) && Ch(t, v.p) == '0' { SkipAhead(t, s, h, h', NextPlace(v), d); }
  }

  lemma {:induction false} ReadAhead(t: string, s: string, h: How, h': How, st: Scan, acc: Acc, d: nat)
    requires Moved(t, s, st.p, d) && SameReading(h, h') && Settled(t, h, h', st.p, d)
    ensures var r := ReadDigits(t, h, st, acc);
            ReadDigits(s, h', Ahead(st, d), acc) == (Ahead(r.0, d), r.1) && r.0.p >= st.p
            && Settled(t, h, h', r.0.p, d)
    decreases |t| - st.p
  {
    hide ToDigit;
    hide DotHere;
    hide ReadDigits;
    hide Take;
    hide PassZero;
    hide PassDigit;
    ReadTurn(t, h, st, acc);
    ReadTurn(s, h', Ahead(st, d), acc);
    DotAhead(t, s, h, h', st.p, d);
    PassAhead(t, s, h, h', st, d);
    var v := PassDigit(t, h, st);
    assert Ch(s, v.p + d) == Ch(t, v.p);
    var c := ToDigit(Ch(t, v.p));
    if !(DotHere(t, h, st.p) && st.dot >= 0) && c < h.radix && v.p < |t| {
      ReadAhead(t, s, h, h', NextPlace(v), Take(acc, c, h.radix), d);
    }
  }

  function PassExp(s: string, h: How, p: nat): (q: nat)
    ensures q >= p
  {
    if h.sep && Ch(s, p) == '_' && ToDigit(Ch(s, p + 1)) < 10 then p + 1 else p
  }

  lemma ExpTurn(s: string, h: How, p: nat, value: int, overflow: bool)
    ensures var q := PassExp(s, h, p);
            var c, o := ToDigit(Ch(s, q)), overflow || value > EXPN_GUARD;
            ReadExpDigits(s, h, p, value, overflow)
            == if c >= 10 || q >= |s| then (q, value, overflow)
               else ReadExpDigits(s, h, q + 1, if o then value else value * 10 + c, o)
  {
    hide ToDigit;
  }

  lemma {:induction false} ExpDigitsAhead(t: string, s: string, h: How, h': How, p: nat, value: int, overflow: bool,
      d: nat)
    requires Moved(t, s, p, d) && SameReading(h, h')
    ensures var r := ReadExpDigits(t, h, p, value, overflow);
            ReadExpDigits(s, h', p + d, value, overflow) == (r.0 + d, r.1, r.2) && r.0 >= p
    decreases |t| - p
  {
    hide ToDigit;
    hide ReadExpDigits;
    ExpTurn(t, h, p, value, overflow);
    ExpTurn(s, h', p + d, value, overflow);
    assert Ch(s, p + d) == Ch(t, p) && Ch(s, (p + 1) + d) == Ch(t, p + 1);
    var q := PassExp(t, h, p);
    assert Ch(s, q + d) == Ch(t, q);
    var c, o := ToDigit(Ch(t, q)), overflow || value > EXPN_GUARD;
    if c < 10 && q < |t| { ExpDigitsAhead(t, s, h, h', q + 1, if o then value else value * 10 + c, o, d); }
  }

  function ExpnAhead(x: Expn, d: nat): Expn {
    match x
    case NoDigits(at) => NoDigits(at + d)
    case Expn(at, v, o, b) => Expn(at + d, v, o, b)
  }

  lemma MarkIs(t: string, h: How, p: nat)
    ensures ExpMark(t, h, p) <==> !h.intOnly && p > h.start && p < |t| && MarkFits(t[p], h.radix)
  {
    hide RadixBits;
  }

  /** Where the digits of an exponent begin. */
  function ExpStart(t: string, m: nat): nat {
    if Ch(t, m + 1) == '+' || Ch(t, m + 1) == '-' then m + 2 else m + 1
  }

  lemma ExpIs(t: string, h: How, m: nat)
    requires ExpMark(t, h, m)
    ensures var q := ExpStart(t, m);
            ReadExp(t, h, m)
            == if ToDigit(Ch(t, q)) >= 10 then NoDigits(q)
               else
                 var r := ReadExpDigits(t, h, q + 1, ToDigit(Ch(t, q)), false);
                 Expn(r.0, if Ch(t, m + 1) == '-' then -r.1 else r.1, r.2, Ch(t, m) == 'p' || Ch(t, m) == 'P')
  {
    hide ToDigit;
    hide ExpMark;
  }

  lemma NoExpMark(t: string, h: How, p: nat)
    requires !ExpMark(t, h, p)
    ensures ReadExp(t, h, p) == Expn(p, 0, false, false)
  {
  }

  lemma ExpAhead(t: string, s: string, h: How, h': How, p: nat, d: nat)
    requires Moved(t, s, p, d) && SameReading(h, h') && p > h.start && p + d > h'.start
    ensures ReadExp(s, h', p + d) == ExpnAhead(ReadExp(t, h, p), d)
  {
    hide ToDigit;
    hide ReadExp;
    hide ExpMark;
    hide MarkFits;
    assert Ch(s, p + d) == Ch(t, p) && Ch(s, (p + 1) + d) == Ch(t, p + 1) && Ch(s, (p + 2) + d) == Ch(t, p + 2);
    MarkIs(t, h, p);
    MarkIs(s, h', p + d);
    if ExpMark(t, h, p) {
      ExpIs(t, h, p);
      ExpIs(s, h', p + d);
      var q := ExpStart(t, p);
      assert ExpStart(s, p + d) == q + d;
      if ToDigit(Ch(t, q)) < 10 { ExpDigitsAhead(t, s, h, h', q + 1, ToDigit(Ch(t, q)), false, d); }
    } else {
      NoExpMark(t, h, p);
      NoExpMark(s, h', p + d);
    }
  }

  /** Everything after the prefix. */
  function AtodFrom(s: string, h: How, p: nat, negative: bool): Result {
    var z := SkipZeros(s, h, Scan(p, 0, -1));
    var d := ReadDigits(s, h, z, Acc(0, 0, false));
    match ReadExp(s, h, d.0.p)
    case NoDigits(q) => Result(NaN, q)
    case Expn(q, v, o, b) =>
      if q == h.start then Result(NaN, q)
      else Result(Bits(negative, Magnitude(h, d.0, d.1, z.pos, Expn(q, v, o, b))), q)
  }

  function Later(r: Result, d: nat): Result { r.(next := r.next + d) }

  /** A digit at the cursor is passed. */
  lemma DigitPassed(t: string, h: How, p: nat)
    requires ToDigit(Ch(t, p)) < h.radix && p >= h.start
    ensures ReadDigits(t, h, SkipZeros(t, h, Scan(p, 0, -1)), Acc(0, 0, false)).0.p > p
  {
    var st := Scan(p, 0, -1);
    assert p < |t|;
    if Ch(t, p) == '0' {
      SkipGrows(t, h, Scan(p + 1, 1, -1));
      ReadGrows(t, h, SkipZeros(t, h, Scan(p + 1, 1, -1)), Acc(0, 0, false));
    } else {
      assert SkipZeros(t, h, st) == st;
      ReadGrows(t, h, Scan(p + 1, 1, -1), Take(Acc(0, 0, false), ToDigit(Ch(t, p)), h.radix));
    }
  }

  lemma {:induction false} SkipGrows(t: string, h: How, st: Scan)
    ensures SkipZeros(t, h, st).p >= st.p
    decreases |t| - st.p
  {
    hide PassZero;
    hide SkipZeros;
    SkipTurn(t, h, st);
    var v := PassZero(t, h, st);
    if Ch(t, v.p) == '0' { SkipGrows(t, h, NextPlace(v)); }
  }

  lemma {:induction false} ReadGrows(t: string, h: How, st: Scan, acc: Acc)
    ensures ReadDigits(t, h, st, acc).0.p >= st.p
    decreases |t| - st.p
  {
    hide PassDigit;
    hide ReadDigits;
    hide ToDigit;
    hide Take;
    ReadTurn(t, h, st, acc);
    var v := PassDigit(t, h, st);
    if v.p < |t| { ReadGrows(t, h, NextPlace(v), Take(acc, ToDigit(Ch(t, v.p)), h.radix)); }
  }

  lemma FromAhead(t: string, s: string, h: How, h': How, p: nat, d: nat, negative: bool)
    requires Moved(t, s, p, d) && SameReading(h, h') && h.start <= p && h'.start <= h.start < p + d && d > 0
    requires ToDigit(Ch(t, p)) < h.radix
    ensures AtodFrom(s, h', p + d, negative) == Later(AtodFrom(t, h, p, negative), d)
  {
    hide SkipZeros;
    hide ReadDigits;
    hide ReadExp;
    hide Moved;
    hide RadixBits;
    hide ConvertBin;
    hide ConvertTable;
    SkipAhead(t, s, h, h', Scan(p, 0, -1), d);
    var z := SkipZeros(t, h, Scan(p, 0, -1));
    MovedOn(t, s, p, z.p, d);
    ReadAhead(t, s, h, h', z, Acc(0, 0, false), d);
    var r := ReadDigits(t, h, z, Acc(0, 0, false));
    DigitPassed(t, h, p);
    MovedOn(t, s, p, r.0.p, d);
    ExpAhead(t, s, h, h', r.0.p, d);
    ExpGrows(t, h, r.0.p);
  }

  lemma MovedOn(t: string, s: string, a: nat, b: nat, d: nat)
    requires Moved(t, s, a, d) && a <= b
    ensures Moved(t, s, b, d)
  {
  }

  lemma ExpGrows(t: string, h: How, p: nat)
    ensures ReadExp(t, h, p).at >= p
  {
    hide RadixBits;
    if ExpMark(t, h, p) {
      var q := if Ch(t, p + 1) == '+' || Ch(t, p + 1) == '-' then p + 2 else p + 1;
      if ToDigit(Ch(t, q)) < 10 { ExpDigitsGrow(t, h, q + 1, ToDigit(Ch(t, q)), false); }
    }
  }

  lemma {:induction false} ExpDigitsGrow(t: string, h: How, p: nat, value: int, overflow: bool)
    ensures ReadExpDigits(t, h, p, value, overflow).0 >= p
    decreases |t| - p
  {
    hide ToDigit;
    hide ReadExpDigits;
    ExpTurn(t, h, p, value, overflow);
    var q := PassExp(t, h, p);
    var c, o := ToDigit(Ch(t, q)), overflow || value > EXPN_GUARD;
    if c < 10 && q < |t| { ExpDigitsGrow(t, h, q + 1, if o then value else value * 10 + c, o); }
  }

  lemma AtodGoes(s: string, radix: RadixArg, fl: Flags, p: nat, radix': Radix, sep: bool)
    requires ReadPrefix(s, Start(s), radix, fl) == Goes(p, radix', sep)
    ensures Atod(s, radix, fl) == AtodFrom(s, How(Start(s), radix', sep, fl.intOnly), p, Ch(s, 0) == '-')
  {
    hide SkipZeros;
    hide ReadDigits;
    hide ReadExp;
    hide ReadPrefix;
    hide Magnitude;
  }

  const DIGITS: string := "0123456789abcdefghijklmnopqrstuvwxyz"

  const CAPITALS: string := "0123456789ABCDEFGHIJKLMNOPQRSTUVWXYZ"

  lemma DigitAt(d: nat)
    requires d < 36
    ensures DIGITS[d] == if d < 10 then '0' + d as char else 'a' + (d - 10) as char
    ensures CAPITALS[d] == if d < 10 then '0' + d as char else 'A' + (d - 10) as char
  {
  }

  /** The digits that are read, in either case, and printed. */
  lemma DigitsAre(d: nat)
    requires d < 36
    ensures ToDigit(DIGITS[d]) == d && ToDigit(CAPITALS[d]) == d && DigitChar(d) == DIGITS[d]
  {
    DigitAt(d);
  }

  /** Nothing else is a digit. */
  lemma NoOtherDigit(c: char)
    ensures ToDigit(c) < 36 <==> c in DIGITS || c in CAPITALS
  {
    var d := ToDigit(c);
    if d < 36 {
      DigitAt(d);
      assert c == DIGITS[d] || c == CAPITALS[d];
    }
    if c in DIGITS || c in CAPITALS {
      var k :| 0 <= k < 36 && (c == DIGITS[k] || c == CAPITALS[k]);
      DigitAt(k);
    }
  }

  // ----- radix prefixes -----

  predicate IsSign(sign: string) { sign in {"", "+", "-"} }

  /** `0x` for radix 16, `0o` and `0b` for 8 and 2 where these are accepted. */
  predicate IsPrefix(c: char, radix: Radix, arg: RadixArg, fl: Flags) {
    || (c in {'x', 'X'} && radix == 16 && arg in {0, 16})
    || (c in {'o', 'O'} && radix == 8 && arg == 0 && fl.binOct)
    || (c in {'b', 'B'} && radix == 2 && arg == 0 && fl.binOct)
  }

  predicate HexAgain(rest: string, radix: Radix) {
    radix == 16 && |rest| >= 2 && rest[0] == '0' && rest[1] in {'x', 'X'}
  }

  lemma SignedChars(sign: string, rest: string, i: nat)
    requires IsSign(sign)
    ensures Ch(sign + rest, |sign| + i) == Ch(rest, i)
    ensures ToDigit(Ch(rest, 0)) < 36 ==> Start(sign + rest) == |sign| && (Ch(sign + rest, 0) == '-') == (sign == "-")
  {
  }

  lemma NoInfinity(s: string, p: nat)
    requires IsInfinity(s, p)
    ensures Ch(s, p) == 'I'
  {
    assert s[p] == s[p..p + 8][0];
  }

  /** Behind a prefix, the digits are read as in its radix; without a digit there, nothing is. */
  lemma PrefixRead(sign: string, c: char, rest: string, radix: Radix, arg: RadixArg, fl: Flags)
    requires IsSign(sign) && IsPrefix(c, radix, arg, fl) && !HexAgain(rest, radix)
    ensures Atod(sign + ['0', c] + rest, arg, fl)
         == if ToDigit(Ch(rest, 0)) < radix then Later(Atod(sign + rest, radix, fl), 2) else Result(NaN, |sign| + 2)
  {
    hide AtodFrom;
    hide Atod;
    hide ToDigit;
    var s, t, a := sign + ['0', c] + rest, sign + rest, |sign|;
    assert s == sign + (['0', c] + rest);
    DigitFacts();
    SignedChars(sign, ['0', c] + rest, 0);
    SignedChars(sign, ['0', c] + rest, 1);
    SignedChars(sign, ['0', c] + rest, 2);
    assert Ch(['0', c] + rest, 0) == '0' && Ch(['0', c] + rest, 1) == c && Ch(['0', c] + rest, 2) == Ch(rest, 0);
    if ToDigit(Ch(rest, 0)) < radix {
      SignedChars(sign, rest, 0);
      SignedChars(sign, rest, 1);
      DigitFacts();
      if IsInfinity(t, a) { NoInfinity(t, a); }
      AtodGoes(s, arg, fl, a + 2, radix, fl.underscores);
      assert ReadPrefix(t, Start(t), radix, fl) == Goes(a, radix, fl.underscores);
      AtodGoes(t, radix, fl, a, radix, fl.underscores);
      forall i: nat | i >= a ensures Ch(s, i + 2) == Ch(t, i) {
        SignedChars(sign, ['0', c] + rest, i - a + 2);
        SignedChars(sign, rest, i - a);
      }
      FromAhead(t, s, How(a, radix, fl.underscores, fl.intOnly), How(a, radix, fl.underscores, fl.intOnly), a, 2,
                sign == "-");
    } else {
      assert ReadPrefix(s, Start(s), arg, fl) == Fails(a + 2);
      AtodFails(s, arg, fl, a + 2);
    }
  }

  lemma AtodFails(s: string, radix: RadixArg, fl: Flags, p: nat)
    requires ReadPrefix(s, Start(s), radix, fl) == Fails(p)
    ensures Atod(s, radix, fl) == Result(NaN, p)
  {
    hide ReadPrefix;
  }

  // ----- legacy octal numbers -----

  predicate OctalDigits(s: string) { forall i :: 0 <= i < |s| ==> '0' <= s[i] <= '7' }

  lemma {:induction false} PastOctalIs(s: string, p: nat, q: nat)
    requires p <= q <= |s| && OctalDigits(s[p..q]) && !('0' <= Ch(s, q) <= '7')
    ensures PastOctal(s, p) == q
    decreases q - p
  {
    if p < q {
      assert s[p] == s[p..q][0] && s[p + 1..q] == s[p..q][1..];
      PastOctalIs(s, p + 1, q);
    }
  }

  /** Where the digits behind the zero are read, and in which radix. */
  lemma LegacyPrefix(sign: string, digits: string, rest: string, fl: Flags)
    requires IsSign(sign) && fl.legacyOctal && OctalDigits(digits) && !('0' <= Ch(rest, 0) <= '7')
    ensures var s, a := sign + ("0" + (digits + rest)), |sign|;
            && Start(s) == a && (Ch(s, 0) == '-' <==> sign == "-")
            && (Ch(rest, 0) in {'8', '9'} ==>
                  ReadPrefix(s, a, 0, fl) == Goes(a, 10, false)
                  && ReadPrefix(s, a, 10, fl.(underscores := false)) == Goes(a, 10, false))
            && (Ch(rest, 0) !in {'8', '9'} && digits != "" ==> ReadPrefix(s, a, 0, fl) == Goes(a + 1, 8, false))
  {
    hide PastOctal;
    var u := "0" + (digits + rest);
    var s, a := sign + u, |sign|;
    SignedChars(sign, u, 0);
    SignedChars(sign, u, 1);
    assert Ch(u, 0) == '0' && Ch(u, 1) == if digits == "" then Ch(rest, 0) else digits[0];
    var q := a + 1 + |digits|;
    assert s[a + 1..q] == digits;
    SignedChars(sign, u, 1 + |digits|);
    PastOctalIs(s, a + 1, q);
  }

  /** After a zero, octal digits that are not followed by 8 or 9 are read in radix 8; otherwise
      the whole is read in radix 10. Neither has separators. */
  lemma LegacyOctal(sign: string, digits: string, rest: string, fl: Flags)
    requires IsSign(sign) && fl.legacyOctal && OctalDigits(digits) && !('0' <= Ch(rest, 0) <= '7')
    ensures var s, plain := sign + ("0" + (digits + rest)), fl.(underscores := false);
            if Ch(rest, 0) in {'8', '9'} then Atod(s, 0, fl) == Atod(s, 10, plain)
            else digits != "" ==> Atod(s, 0, fl) == Later(Atod(sign + (digits + rest), 8, plain), 1)
  {
    hide AtodFrom;
    hide Atod;
    hide ReadPrefix;
    hide Start;
    var u := "0" + (digits + rest);
    var s, a, plain := sign + u, |sign|, fl.(underscores := false);
    LegacyPrefix(sign, digits, rest, fl);
    if Ch(rest, 0) in {'8', '9'} {
      AtodGoes(s, 0, fl, a, 10, false);
      AtodGoes(s, 10, plain, a, 10, false);
    } else if digits != "" {
      var t := sign + (digits + rest);
      AtodGoes(s, 0, fl, a + 1, 8, false);
      OctalPrefix(sign, digits, rest, plain);
      AtodGoes(t, 8, plain, a, 8, false);
      forall i: nat | i >= a ensures Ch(s, i + 1) == Ch(t, i) {
        SignedChars(sign, u, i - a + 1);
        SignedChars(sign, digits + rest, i - a);
      }
      FromAhead(t, s, How(a, 8, false, fl.intOnly), How(a, 8, false, fl.intOnly), a, 1, sign == "-");
    }
  }

  lemma OctalPrefix(sign: string, digits: string, rest: string, fl: Flags)
    requires IsSign(sign) && digits != "" && OctalDigits(digits) && !fl.underscores
    ensures var t, a := sign + (digits + rest), |sign|;
            && Start(t) == a && (Ch(t, 0) == '-' <==> sign == "-") && ToDigit(Ch(t, a)) < 8
            && ReadPrefix(t, a, 8, fl) == Goes(a, 8, false)
  {
    var t, a := sign + (digits + rest), |sign|;
    SignedChars(sign, digits + rest, 0);
    assert Ch(digits + rest, 0) == digits[0];
    if IsInfinity(t, a) { NoInfinity(t, a); }
  }

  /** Without a prefix or a legacy octal number, the radix is 10 if none is given. */
  lemma PlainRadix(s: string, fl: Flags)
    requires Ch(s, Start(s)) == '0' ==>
      Ch(s, Start(s) + 1) !in {'x', 'X'} && (fl.binOct ==> Ch(s, Start(s) + 1) !in {'o', 'O', 'b', 'B'})
      && (fl.legacyOctal ==> !('0' <= Ch(s, Start(s) + 1) <= '9'))
    ensures Atod(s, 0, fl) == Atod(s, 10, fl)
  {
    hide SkipZeros;
    hide ReadDigits;
    hide ReadExp;
    hide Magnitude;
  }

  // ----- separators -----

  /** `s` is `t` with a separator before the character at `k`. */
  ghost predicate Inserted(t: string, s: string, k: nat) {
    0 < k < |t| && Ch(s, k) == '_' && (forall i: nat :: i < k ==> Ch(s, i) == Ch(t, i)) && Moved(t, s, k, 1)
  }

  lemma InsertedIs(t: string, k: nat)
    requires 0 < k < |t|
    ensures Inserted(t, t[..k] + "_" + t[k..], k)
  {
  }

  lemma InsertedFacts(t: string, s: string, k: nat)
    requires Inserted(t, s, k)
    ensures |s| == |t| + 1 && Ch(s, k + 1) == Ch(t, k)
  {
  }

  /** Between two digits, with no exponent before them. */
  predicate InDigits(t: string, k: nat, radix: Radix) {
    && 0 < k < |t| && ToDigit(t[k - 1]) < radix && ToDigit(t[k]) < radix
    && forall i :: 0 <= i < k ==> !MarkFits(t[i], radix)
  }

  /** Between two digits of the exponent whose mark is at `m`. */
  predicate InExponent(t: string, m: nat, k: nat, radix: Radix) {
    && m < k - 1 && k < |t| && MarkFits(t[m], radix) && (forall i :: 0 <= i < m ==> !MarkFits(t[i], radix))
    && ToDigit(t[k]) < 10
    && forall i :: m < i < k ==> ToDigit(t[i]) < 10 || (i == m + 1 && i < k - 1 && t[i] in {'+', '-'})
  }

  lemma PlaceInText(t: string, k: nat, radix: Radix)
    requires InDigits(t, k, radix) || exists m :: InExponent(t, m, k, radix)
    ensures 0 < k < |t|
  {
    hide ToDigit;
  }

  lemma DigitChar36(c: char)
    ensures ToDigit(c) < 36 ==> c != '.' && c != '_'
  {
  }

  /** Up to the separator, the cursors agree; past it, one is a place ahead. */
  predicate Beside(k: nat, st: Scan, st': Scan) {
    st' == if st.p <= k then st else Ahead(st, 1)
  }

  lemma DotBeside(t: string, s: string, h: How, k: nat, p: nat)
    requires Inserted(t, s, k) && p <= k && ToDigit(t[k - 1]) < 36 && ToDigit(t[k]) < 36
    ensures DotHere(s, h, p) == DotHere(t, h, p) && (DotHere(t, h, p) ==> p < k - 1)
  {
    DigitChar36(t[k - 1]);
    DigitChar36(t[k]);
  }

  lemma PassBeside(t: string, s: string, h: How, k: nat, st: Scan)
    requires Inserted(t, s, k) && st.p <= k && h.start < k && h.sep && ToDigit(t[k - 1]) < 36 && ToDigit(t[k]) < 36
    ensures var v, v' := PassZero(t, h, st), PassZero(s, h, st);
            v.p <= k && v' == if v.p == k && t[k] == '0' then Ahead(v, 1) else v
    ensures var v, v' := PassDigit(t, h, st), PassDigit(s, h, st);
            v.p <= k && v' == if v.p == k && ToDigit(t[k]) < h.radix then Ahead(v, 1) else v
  {
    hide ToDigit;
    hide DotHere;
    DigitChar36(t[k - 1]);
    DigitChar36(t[k]);
    DotBeside(t, s, h, k, st.p);
    var u := AfterDot(t, h, st);
    assert u.p <= k && AfterDot(s, h, st) == u;
    assert Ch(s, k + 1) == Ch(t, k);
  }

  lemma {:induction false} SkipBeside(t: string, s: string, h: How, k: nat, st: Scan)
    requires Inserted(t, s, k) && st.p <= k && h.start < k && h.sep && ToDigit(t[k - 1]) < 36 && ToDigit(t[k]) < 36
    ensures Beside(k, SkipZeros(t, h, st), SkipZeros(s, h, st))
    decreases |t| - st.p
  {
    hide ToDigit;
    hide DotHere;
    hide SkipZeros;
    hide PassZero;
    hide PassDigit;
    hide Moved;
    SkipTurn(t, h, st);
    SkipTurn(s, h, st);
    DotBeside(t, s, h, k, st.p);
    PassBeside(t, s, h, k, st);
    var v := PassZero(t, h, st);
    if !(DotHere(t, h, st.p) && st.dot >= 0) && Ch(t, v.p) == '0' {
      if v.p < k {
        SkipBeside(t, s, h, k, NextPlace(v));
      } else {
        InsertedFacts(t, s, k);
        MovedOn(t, s, k, k + 1, 1);
        SkipAhead(t, s, h, h, NextPlace(v), 1);
      }
    }
  }

  lemma {:induction false} ReadBeside(t: string, s: string, h: How, k: nat, st: Scan, acc: Acc)
    requires Inserted(t, s, k) && st.p <= k && h.start < k && h.sep
    requires ToDigit(t[k - 1]) < h.radix && ToDigit(t[k]) < h.radix
    ensures var r, r' := ReadDigits(t, h, st, acc), ReadDigits(s, h, st, acc);
            Beside(k, r.0, r'.0) && r.1 == r'.1 && r.0.p != k
    decreases |t| - st.p
  {
    hide ToDigit;
    hide DotHere;
    hide ReadDigits;
    hide Take;
    hide PassZero;
    hide PassDigit;
    hide Moved;
    ReadTurn(t, h, st, acc);
    ReadTurn(s, h, st, acc);
    DotBeside(t, s, h, k, st.p);
    PassBeside(t, s, h, k, st);
    InsertedFacts(t, s, k);
    var v := PassDigit(t, h, st);
    var c := ToDigit(Ch(t, v.p));
    if !(DotHere(t, h, st.p) && st.dot >= 0) && c < h.radix && v.p < |t| {
      if v.p < k {
        ReadBeside(t, s, h, k, NextPlace(v), Take(acc, c, h.radix));
      } else {
        InsertedFacts(t, s, k);
        MovedOn(t, s, k, k + 1, 1);
        ReadAhead(t, s, h, h, NextPlace(v), Take(acc, c, h.radix), 1);
      }
    }
  }

  /** Before a character that is no digit, no dot and no separator, what follows does not matter. */
  lemma {:induction false} SkipBefore(t: string, s: string, h: How, m: nat, st: Scan)
    requires m < |t| && m < |s| && (forall i: nat :: i <= m ==> Ch(s, i) == Ch(t, i)) && st.p <= m
    requires t[m] !in {'.', '_', '0'}
    ensures SkipZeros(s, h, st) == SkipZeros(t, h, st) && SkipZeros(t, h, st).p <= m
    decreases |t| - st.p
  {
    hide ToDigit;
    hide SkipZeros;
    SkipTurn(t, h, st);
    SkipTurn(s, h, st);
    if !(DotHere(t, h, st.p) && st.dot >= 0) {
      var v := PassZero(t, h, st);
      assert v.p <= m && PassZero(s, h, st) == v;
      if Ch(t, v.p) == '0' { SkipBefore(t, s, h, m, NextPlace(v)); }
    }
  }

  lemma {:induction false} ReadBefore(t: string, s: string, h: How, m: nat, st: Scan, acc: Acc)
    requires m < |t| && m < |s| && (forall i: nat :: i <= m ==> Ch(s, i) == Ch(t, i)) && st.p <= m
    requires t[m] !in {'.', '_'} && ToDigit(t[m]) >= h.radix
    ensures ReadDigits(s, h, st, acc) == ReadDigits(t, h, st, acc) && ReadDigits(t, h, st, acc).0.p <= m
    decreases |t| - st.p
  {
    hide ToDigit;
    hide ReadDigits;
    hide Take;
    ReadTurn(t, h, st, acc);
    ReadTurn(s, h, st, acc);
    if !(DotHere(t, h, st.p) && st.dot >= 0) {
      var v := PassDigit(t, h, st);
      assert v.p <= m && PassDigit(s, h, st) == v;
      var c := ToDigit(Ch(t, v.p));
      if c < h.radix { ReadBefore(t, s, h, m, NextPlace(v), Take(acc, c, h.radix)); }
    }
  }

  lemma {:induction false} ExpDigitsBeside(t: string, s: string, h: How, k: nat, p: nat, value: int, overflow: bool)
    requires Inserted(t, s, k) && p <= k && h.sep && ToDigit(t[k]) < 10
    requires forall i :: p <= i < k ==> ToDigit(t[i]) < 10
    ensures var r, r' := ReadExpDigits(t, h, p, value, overflow), ReadExpDigits(s, h, p, value, overflow);
            r.0 > k && r' == (r.0 + 1, r.1, r.2)
    decreases k - p
  {
    hide ToDigit;
    hide ReadExpDigits;
    hide Moved;
    InsertedFacts(t, s, k);
    ExpTurn(t, h, p, value, overflow);
    ExpTurn(s, h, p, value, overflow);
    DigitChar36(t[p]);
    var c, o := ToDigit(t[p]), overflow || value > EXPN_GUARD;
    if p < k {
      assert PassExp(t, h, p) == p && PassExp(s, h, p) == p;
      ExpDigitsBeside(t, s, h, k, p + 1, if o then value else value * 10 + c, o);
    } else {
      assert PassExp(t, h, p) == p && PassExp(s, h, p) == p + 1;
      MovedOn(t, s, k, k + 1, 1);
      ExpDigitsAhead(t, s, h, h, k + 1, if o then value else value * 10 + c, o, 1);
    }
  }

  lemma MarkChars(c: char, radix: Radix)
    requires MarkFits(c, radix)
    ensures c !in {'.', '_', '0', '+', '-'} && ToDigit(c) >= radix && ToDigit(c) >= 10
  {
    hide RadixBits;
    if 1 <= RadixBits(radix) <= 4 { SmallRadix(radix); }
  }

  lemma ExpStartWithin(t: string, m: nat, k: nat, radix: Radix)
    requires InExponent(t, m, k, radix)
    ensures ExpStart(t, m) < k && forall i :: ExpStart(t, m) <= i < k ==> ToDigit(t[i]) < 10
  {
    hide MarkFits;
    assert ToDigit('+') == 36 && ToDigit('-') == 36;
    hide ToDigit;
    assert t[m + 1] == Ch(t, m + 1);
  }

  lemma ExpBeside(t: string, s: string, h: How, m: nat, k: nat)
    requires Inserted(t, s, k) && h.sep && InExponent(t, m, k, h.radix)
    ensures var x, x' := ReadExp(t, h, m), ReadExp(s, h, m);
            if x.at > k then x' == ExpnAhead(x, 1) else x' == x
  {
    hide ToDigit;
    hide ReadExp;
    hide ExpMark;
    hide MarkFits;
    hide Moved;
    MarkIs(t, h, m);
    assert Ch(s, m) == Ch(t, m) && Ch(s, m + 1) == Ch(t, m + 1);
    MarkIs(s, h, m);
    InsertedFacts(t, s, k);
    if ExpMark(t, h, m) {
      var q := ExpStart(t, m);
      ExpStartWithin(t, m, k, h.radix);
      assert Ch(s, q) == Ch(t, q);
      ExpIs(t, h, m);
      ExpIs(s, h, m);
      ExpDigitsBeside(t, s, h, k, q + 1, ToDigit(Ch(t, q)), false);
    } else {
      NoExpMark(t, h, m);
      NoExpMark(s, h, m);
    }
  }

  lemma DigitsBeside(t: string, s: string, h: How, p: nat, k: nat, negative: bool)
    requires Inserted(t, s, k) && h.sep && h.start <= p < k && InDigits(t, k, h.radix)
    ensures var r := AtodFrom(t, h, p, negative);
            AtodFrom(s, h, p, negative) == if r.next > k then Later(r, 1) else r
  {
    hide SkipZeros;
    hide ReadDigits;
    hide ReadExp;
    hide Moved;
    hide RadixBits;
    hide ConvertBin;
    hide ConvertTable;
    var st, acc := Scan(p, 0, -1), Acc(0, 0, false);
    SkipBeside(t, s, h, k, st);
    var z, z' := SkipZeros(t, h, st), SkipZeros(s, h, st);
    if z.p <= k {
      ReadBeside(t, s, h, k, z, acc);
    } else {
      MovedOn(t, s, k, z.p, 1);
      ReadAhead(t, s, h, h, z, acc, 1);
    }
    var d := ReadDigits(t, h, z, acc).0;
    ExpGrows(t, h, d.p);
    if d.p < k {
      NoExponent(t, h, d.p);
      assert Ch(s, d.p) == Ch(t, d.p);
      NoExponent(s, h, d.p);
    } else {
      MovedOn(t, s, k, d.p, 1);
      ExpAhead(t, s, h, h, d.p, 1);
    }
  }

  lemma NoExponent(t: string, h: How, p: nat)
    requires p < |t| ==> !MarkFits(t[p], h.radix)
    ensures ReadExp(t, h, p) == Expn(p, 0, false, false)
  {
    MarkIs(t, h, p);
  }

  lemma ExponentBeside(t: string, s: string, h: How, p: nat, m: nat, k: nat, negative: bool)
    requires Inserted(t, s, k) && h.sep && h.start <= p <= m && InExponent(t, m, k, h.radix)
    ensures var r := AtodFrom(t, h, p, negative);
            AtodFrom(s, h, p, negative) == if r.next > k then Later(r, 1) else r
  {
    hide SkipZeros;
    hide ReadDigits;
    hide ReadExp;
    hide Moved;
    hide RadixBits;
    hide ConvertBin;
    hide ConvertTable;
    hide ToDigit;
    var st, acc := Scan(p, 0, -1), Acc(0, 0, false);
    MarkChars(t[m], h.radix);
    InsertedFacts(t, s, k);
    SkipBefore(t, s, h, m, st);
    var z := SkipZeros(t, h, st);
    ReadBefore(t, s, h, m, z, acc);
    var d := ReadDigits(t, h, z, acc).0;
    if d.p < m {
      NoExponent(t, h, d.p);
      assert Ch(s, d.p) == Ch(t, d.p);
      NoExponent(s, h, d.p);
    } else {
      ExpBeside(t, s, h, m, k);
    }
  }

  /** Where separators are accepted, one between two digits changes nothing but the length. */
  lemma SeparatorIgnored(t: string, k: nat, radix: Radix, fl: Flags)
    requires fl.underscores && Start(t) < k && (InDigits(t, k, radix) || exists m :: InExponent(t, m, k, radix))
    requires fl.intOnly || !IsInfinity(t, Start(t))
    requires !HexAgain(t[Start(t)..], radix)
    ensures var r := Atod(t, radix, fl);
            Atod(t[..k] + "_" + t[k..], radix, fl) == if r.next > k then Later(r, 1) else r
  {
    hide AtodFrom;
    hide Atod;
    hide InDigits;
    hide InExponent;
    hide Moved;
    PlaceInText(t, k, radix);
    var s, a := t[..k] + "_" + t[k..], Start(t);
    InsertedIs(t, k);
    assert Start(s) == a;
    SamePrefix(t, s, k, radix, fl);
    AtodGoes(t, radix, fl, a, radix, true);
    AtodGoes(s, radix, fl, a, radix, true);
    var h := How(a, radix, true, fl.intOnly);
    if InDigits(t, k, radix) {
      DigitsBeside(t, s, h, a, k, Ch(t, 0) == '-');
    } else {
      var m :| InExponent(t, m, k, radix);
      MarkAfter(t, m, k, radix);
      ExponentBeside(t, s, h, a, m, k, Ch(t, 0) == '-');
    }
  }

  lemma MarkAfter(t: string, m: nat, k: nat, radix: Radix)
    requires InExponent(t, m, k, radix)
    ensures m >= Start(t)
  {
    hide ToDigit;
    MarkChars(t[m], radix);
  }

  lemma InfinityChars(s: string, p: nat, i: nat)
    requires IsInfinity(s, p) && i < 8
    ensures Ch(s, p + i) != '_'
  {
    assert s[p + i] == s[p..p + 8][i];
  }

  lemma SamePrefix(t: string, s: string, k: nat, radix: Radix, fl: Flags)
    requires Inserted(t, s, k) && Start(t) < k && Start(s) == Start(t) && fl.underscores
    requires (fl.intOnly || !IsInfinity(t, Start(t))) && !HexAgain(t[Start(t)..], radix)
    ensures ReadPrefix(t, Start(t), radix, fl) == ReadPrefix(s, Start(t), radix, fl) == Goes(Start(t), radix, true)
  {
    var a := Start(t);
    if IsInfinity(s, a) {
      if k < a + 8 {
        InfinityChars(s, a, k - a);
      } else {
        forall i: nat | a <= i < a + 8 ensures t[i] == s[i] { assert Ch(s, i) == Ch(t, i); }
        assert t[a..a + 8] == s[a..a + 8];
      }
    }
  }

  // ----- what follows a numeral -----

  /** A character that goes on with no number, nor with its exponent. */
  predicate Stops(c: char, n: Numeral, radix: Radix) {
    c !in {'.', '_'} && ToDigit(c) >= radix && if n.exp.Exp? then ToDigit(c) >= 10 else !MarkFits(c, radix)
  }

  lemma JoinedChars(t: string, rest: string, i: nat)
    ensures i < |t| ==> Ch(t + rest, i) == t[i]
    ensures Ch(t + rest, |t| + i) == Ch(rest, i)
  {
  }

  lemma BodyReads(n: Numeral, radix: Radix, fl: Flags, rest: string)
    requires WellFormed(n, radix) && (fl.intOnly ==> IsInteger(n)) && Stops(Ch(rest, 0), n, radix)
    ensures Reads(Text(n) + rest, TheHow(n, radix, fl), n)
  {
    hide ToDigit;
    hide MarkFits;
    hide WellFormed;
    var t, e := Text(n), |n.sign| + |BodyText(n)|;
    TextReads(n, radix, fl);
    FollowChar(n, radix);
    TextParts(n);
    assert (t + rest)[|n.sign|..e] == t[|n.sign|..e];
    if e < |t| {
      JoinedChars(t, rest, e);
    } else {
      JoinedChars(t, rest, 0);
    }
  }

  /** Where the digits end, and what was read. */
  lemma DigitsRead(s: string, n: Numeral, radix: Radix, fl: Flags)
    requires WellFormed(n, radix) && Reads(s, TheHow(n, radix, fl), n)
    ensures var h := TheHow(n, radix, fl);
            var z := SkipZeros(s, h, Scan(|n.sign|, 0, -1));
            var d := ReadDigits(s, h, z, Acc(0, 0, false));
            && z.pos == Zeros(AllOf(n)) && d.0.pos == |AllOf(n)| && d.0.p == |n.sign| + |BodyText(n)|
            && (d.0.dot < 0 || d.0.dot == |n.ip|) && (d.0.dot < 0 ==> |AllOf(n)| == |n.ip|)
            && d.1 == TakeAll(Acc(0, 0, false), AllOf(n)[Zeros(AllOf(n))..], radix)
  {
    hide SkipZeros;
    hide ReadDigits;
    hide Reads;
    hide WellFormed;
    hide TakeAll;
    var h := TheHow(n, radix, fl);
    SkipZerosReads(s, h, n, Scan(|n.sign|, 0, -1));
    assert AllOf(n)[0..] == AllOf(n);
    ReadDigitsReads(s, h, n, SkipZeros(s, h, Scan(|n.sign|, 0, -1)), Acc(0, 0, false));
  }

  lemma {:induction false} ExpDigitsStop(t: string, s: string, h: How, p: nat, value: int, overflow: bool)
    requires p <= |t| <= |s| && (forall i: nat :: i < |t| ==> Ch(s, i) == Ch(t, i))
    requires Ch(s, |t|) != '_' && ToDigit(Ch(s, |t|)) >= 10
    ensures ReadExpDigits(s, h, p, value, overflow) == ReadExpDigits(t, h, p, value, overflow)
    decreases |t| - p
  {
    hide ToDigit;
    hide ReadExpDigits;
    DigitFacts();
    ExpTurn(t, h, p, value, overflow);
    ExpTurn(s, h, p, value, overflow);
    var q := PassExp(t, h, p);
    assert PassExp(s, h, p) == q && q <= |t|;
    var c, o := ToDigit(Ch(t, q)), overflow || value > EXPN_GUARD;
    if c < 10 { ExpDigitsStop(t, s, h, q + 1, if o then value else value * 10 + c, o); }
  }

  /** Reading stops behind a numeral that is followed by anything else. */
  lemma TrailingIgnored(n: Numeral, rest: string, radix: Radix, fl: Flags)
    requires WellFormed(n, radix) && (fl.intOnly ==> IsInteger(n)) && Stops(Ch(rest, 0), n, radix)
    requires !LooksInfinite(n, fl) && (fl.intOnly || !IsInfinity(Text(n) + rest, |n.sign|))
    requires !HexAgain((Text(n) + rest)[|n.sign|..], radix)
    ensures Atod(Text(n) + rest, radix, fl) == Atod(Text(n), radix, fl)
  {
    hide Atod;
    hide AtodFrom;
    hide WellFormed;
    hide Stops;
    hide Text;
    hide BodyText;
    hide AllOf;
    hide Zeros;
    hide TakeAll;
    hide SkipZeros;
    hide ReadDigits;
    hide ReadExp;
    hide ReadPrefix;
    hide Reads;
    hide HexAgain;
    hide IsInfinity;
    var t, s := Text(n), Text(n) + rest;
    var a, h := |n.sign|, TheHow(n, radix, fl);
    StartIs(n, radix);
    PrefixIs(n, radix, fl);
    JoinedPrefix(n, rest, radix, fl);
    AtodGoes(t, radix, fl, a, radix, fl.underscores);
    AtodGoes(s, radix, fl, a, radix, fl.underscores);
    TextReads(n, radix, fl);
    BodyReads(n, radix, fl, rest);
    DigitsRead(t, n, radix, fl);
    DigitsRead(s, n, radix, fl);
    ExpStops(n, rest, radix, fl);
    FromSame(t, s, h, a, n.sign == "-");
  }

  /** The same digits and the same exponent give the same number. */
  lemma FromSame(t: string, s: string, h: How, p: nat, negative: bool)
    requires var z, z' := SkipZeros(t, h, Scan(p, 0, -1)), SkipZeros(s, h, Scan(p, 0, -1));
             var d, d' := ReadDigits(t, h, z, Acc(0, 0, false)), ReadDigits(s, h, z', Acc(0, 0, false));
             z.pos == z'.pos && d.1 == d'.1 && d.0.pos == d'.0.pos && d.0.p == d'.0.p
             && (if d.0.dot < 0 then d.0.pos else d.0.dot) == (if d'.0.dot < 0 then d'.0.pos else d'.0.dot)
             && ReadExp(t, h, d.0.p) == ReadExp(s, h, d.0.p)
    ensures AtodFrom(t, h, p, negative) == AtodFrom(s, h, p, negative)
  {
    hide SkipZeros;
    hide ReadDigits;
    hide ReadExp;
    hide RadixBits;
    hide ConvertBin;
    hide ConvertTable;
  }

  lemma HexIs(s: string, p: nat, radix: Radix)
    requires p <= |s|
    ensures HexAgain(s[p..], radix) <==> radix == 16 && Ch(s, p) == '0' && Ch(s, p + 1) in {'x', 'X'}
  {
  }

  lemma JoinedPrefix(n: Numeral, rest: string, radix: Radix, fl: Flags)
    requires WellFormed(n, radix) && Stops(Ch(rest, 0), n, radix)
    requires !LooksInfinite(n, fl) && (fl.intOnly || !IsInfinity(Text(n) + rest, |n.sign|))
    requires !HexAgain((Text(n) + rest)[|n.sign|..], radix)
    ensures Start(Text(n) + rest) == |n.sign| && (Ch(Text(n) + rest, 0) == '-' <==> n.sign == "-")
    ensures ReadPrefix(Text(n) + rest, |n.sign|, radix, fl) == Goes(|n.sign|, radix, fl.underscores)
  {
    hide Text;
    hide WellFormed;
    hide Stops;
    hide LooksInfinite;
    var t, s, a := Text(n), Text(n) + rest, |n.sign|;
    StartIs(n, radix);
    NotEmpty(n, radix);
    TextParts(n);
    JoinedChars(t, rest, 0);
    assert Ch(s, 0) == Ch(t, 0);
    HexIs(s, a, radix);
  }

  lemma ExpStops(n: Numeral, rest: string, radix: Radix, fl: Flags)
    requires WellFormed(n, radix) && (fl.intOnly ==> IsInteger(n)) && Stops(Ch(rest, 0), n, radix)
    ensures var h, e := TheHow(n, radix, fl), |n.sign| + |BodyText(n)|;
            ReadExp(Text(n) + rest, h, e) == ReadExp(Text(n), h, e)
  {
    hide ToDigit;
    hide MarkFits;
    hide ReadExp;
    hide Text;
    hide BodyText;
    hide WellFormed;
    var h, e := TheHow(n, radix, fl), |n.sign| + |BodyText(n)|;
    var t := Text(n);
    var s := t + rest;
    TextParts(n);
    JoinedChars(t, rest, 0);
    if n.exp.NoExp? {
      assert e == |t|;
      NoExponent(t, h, e);
      NoExponent(s, h, e);
    } else {
      ExponentChars(n, radix);
      forall i: nat | i < |t| ensures Ch(s, i) == Ch(t, i) { JoinedChars(t, rest, i); }
      SameExponent(t, s, h, e);
    }
  }

  lemma SameExponent(t: string, s: string, h: How, e: nat)
    requires e + 1 < |t| <= |s| && ExpStart(t, e) < |t| && (forall i: nat :: i < |t| ==> Ch(s, i) == Ch(t, i))
    requires Ch(s, |t|) != '_' && ToDigit(Ch(s, |t|)) >= 10
    ensures ReadExp(s, h, e) == ReadExp(t, h, e)
  {
    hide ToDigit;
    hide MarkFits;
    hide ReadExp;
    hide ExpMark;
    assert Ch(s, e) == Ch(t, e) && Ch(s, e + 1) == Ch(t, e + 1);
    MarkIs(t, h, e);
    MarkIs(s, h, e);
    if ExpMark(t, h, e) {
      var q := ExpStart(t, e);
      assert Ch(s, q) == Ch(t, q);
      ExpIs(t, h, e);
      ExpIs(s, h, e);
      if ToDigit(Ch(t, q)) < 10 { ExpDigitsStop(t, s, h, q + 1, ToDigit(Ch(t, q)), false); }
    } else {
      NoExpMark(t, h, e);
      NoExpMark(s, h, e);
    }
  }

  lemma ExponentChars(n: Numeral, radix: Radix)
    requires WellFormed(n, radix) && n.exp.Exp?
    ensures var e := |n.sign| + |BodyText(n)|;
            e + 1 < |Text(n)| && ExpStart(Text(n), e) < |Text(n)| && Text(n)[e] == n.exp.mark
  {
    hide ToDigit;
    hide MarkFits;
    hide BodyText;
    DigitFacts();
    var t, e, x := Text(n), |n.sign| + |BodyText(n)|, ExpText(n.exp);
    assert t == n.sign + BodyText(n) + x;
    assert forall i :: 0 <= i < |x| ==> t[e + i] == x[i];
    assert t[e + 1] == x[1];
    if n.exp.sign == "" {
      assert x[1] == n.exp.digits[0] && ToDigit(n.exp.digits[0]) < 10;
    }
  }

  lemma MarkFails(s: string, h: How, p: nat, sign: string, rest: string)
    requires ExpMark(s, h, p) && IsSign(sign) && s[p + 1..] == sign + rest
    requires ToDigit(Ch(rest, 0)) >= 10 && (sign == "" ==> Ch(rest, 0) !in {'+', '-'})
    ensures ReadExp(s, h, p) == NoDigits(p + 1 + |sign|)
  {
    hide ToDigit;
    hide ReadExp;
    ExpIs(s, h, p);
    assert s == s[..p + 1] + (sign + rest) by { MarkIs(s, h, p); }
    JoinedChars(s[..p + 1], sign + rest, 0);
    JoinedChars(s[..p + 1], sign + rest, 1);
    assert sign == "" ==> sign + rest == rest;
    assert sign != "" ==> Ch(sign + rest, 0) == sign[0] && Ch(sign + rest, 1) == Ch(rest, 0);
  }

  /** The mark of an exponent without digits behind it makes the text no number at all. */
  lemma MarkNeedsDigit(n: Numeral, mark: char, sign: string, rest: string, radix: Radix, fl: Flags)
    requires WellFormed(n, radix) && n.exp.NoExp? && !fl.intOnly && MarkFits(mark, radix) && IsSign(sign)
    requires ToDigit(Ch(rest, 0)) >= 10 && (sign == "" ==> Ch(rest, 0) !in {'+', '-'})
    requires !LooksInfinite(n, fl) && !IsInfinity(Text(n) + ([mark] + (sign + rest)), |n.sign|)
    ensures Atod(Text(n) + ([mark] + (sign + rest)), radix, fl) == Result(NaN, |Text(n)| + 1 + |sign|)
  {
    hide Atod;
    hide AtodFrom;
    hide ToDigit;
    hide WellFormed;
    hide Text;
    hide BodyText;
    hide MarkFits;
    hide LooksInfinite;
    hide IsInfinity;
    hide ReadPrefix;
    hide SkipZeros;
    hide ReadDigits;
    hide ReadExp;
    hide TakeAll;
    hide Reads;
    hide IsSign;
    var tail := [mark] + (sign + rest);
    var t, s, a, h := Text(n), Text(n) + tail, |n.sign|, TheHow(n, radix, fl);
    TextParts(n);
    assert |t| == a + |BodyText(n)| by { assert ExpText(n.exp) == ""; }
    MarkReads(n, radix, fl, tail);
    DigitsRead(s, n, radix, fl);
    MarkPrefix(n, tail, radix, fl);
    AtodGoes(s, radix, fl, a, radix, fl.underscores);
    NotEmpty(n, radix);
    assert s[|t|] == mark && s[|t| + 1..] == sign + rest;
    MarkIs(s, h, |t|);
    MarkFails(s, h, |t|, sign, rest);
    FromNoDigits(s, h, a, Ch(s, 0) == '-', |t| + 1 + |sign|);
  }

  lemma FromNoDigits(s: string, h: How, p: nat, negative: bool, q: nat)
    requires var z := SkipZeros(s, h, Scan(p, 0, -1));
             ReadExp(s, h, ReadDigits(s, h, z, Acc(0, 0, false)).0.p) == NoDigits(q)
    ensures AtodFrom(s, h, p, negative) == Result(NaN, q)
  {
    hide SkipZeros;
    hide ReadDigits;
    hide ReadExp;
  }

  lemma MarkReads(n: Numeral, radix: Radix, fl: Flags, tail: string)
    requires WellFormed(n, radix) && n.exp.NoExp? && !fl.intOnly && tail != "" && MarkFits(tail[0], radix)
    ensures Reads(Text(n) + tail, TheHow(n, radix, fl), n)
  {
    hide ToDigit;
    hide MarkFits;
    hide WellFormed;
    var t, e := Text(n), |n.sign| + |BodyText(n)|;
    TextReads(n, radix, fl);
    TextParts(n);
    MarkChars(tail[0], radix);
    assert (t + tail)[|n.sign|..e] == t[|n.sign|..e];
    JoinedChars(t, tail, 0);
  }

  lemma MarkPrefix(n: Numeral, tail: string, radix: Radix, fl: Flags)
    requires WellFormed(n, radix) && tail != "" && MarkFits(tail[0], radix) && n.exp.NoExp?
    requires !LooksInfinite(n, fl) && (fl.intOnly || !IsInfinity(Text(n) + tail, |n.sign|))
    ensures Start(Text(n) + tail) == |n.sign|
    ensures ReadPrefix(Text(n) + tail, |n.sign|, radix, fl) == Goes(|n.sign|, radix, fl.underscores)
  {
    hide WellFormed;
    hide LooksInfinite;
    hide RadixBits;
    hide ToDigit;
    var t, s, a := Text(n), Text(n) + tail, |n.sign|;
    StartIs(n, radix);
    NotEmpty(n, radix);
    PrefixIs(n, radix, fl);
    JoinedChars(t, tail, 0);
    assert Ch(s, 0) == Ch(t, 0) && Ch(s, a) == Ch(t, a);
    assert Ch(s, a + 1) == if a + 1 < |t| then Ch(t, a + 1) else tail[0];
  }
}
