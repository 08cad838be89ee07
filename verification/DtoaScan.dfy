/** Reading a number: the scanning of `js_atod` and its conversion, as functions. */
module DtoaScan {
  import opened DtoaRound
  import opened DtoaDouble
  import opened DtoaScale
  import opened DtoaTables

  datatype Flags = Flags(intOnly: bool, binOct: bool, legacyOctal: bool, underscores: bool)

  /** A binary64 value: its sign and its magnitude bits. */
  datatype Number = NaN | Bits(negative: bool, magnitude: nat)

  datatype Result = Result(value: Number, next: nat)

  /** The radix argument: zero asks for a prefix. */
  type RadixArg = r: nat | r == 0 || 2 <= r <= 36

  const INT32_LIMIT: int := 0x8000_0000
  const EXPN_GUARD: int := (0x7FFF_FFFF - 2 - 9) / 10

  /** The character at a position of a zero-terminated string. */
  function Ch(s: string, p: nat): char {
    if p < |s| then s[p] else '\0'
  }

  function ToDigit(c: char): nat {
    if '0' <= c <= '9' then (c - '0') as nat
    else if 'A' <= c <= 'Z' then (c - 'A') as nat + 10
    else if 'a' <= c <= 'z' then (c - 'a') as nat + 10
    else 36
  }

  // ----- sign and prefix -----

  function Start(s: string): nat {
    if Ch(s, 0) == '+' || Ch(s, 0) == '-' then 1 else 0
  }

  datatype Prefix = Fails(at: nat) | Infinite(at: nat) | Goes(at: nat, radix: Radix, sep: bool)

  function NeedsDigit(s: string, p: nat, radix: Radix, sep: bool): Prefix {
    if ToDigit(Ch(s, p)) >= radix then Fails(p) else Goes(p, radix, sep)
  }

  /** The first position, from `p` on, that holds no octal digit. */
  function PastOctal(s: string, p: nat): nat
    decreases |s| - p
  {
    if p < |s| && '0' <= s[p] <= '7' then PastOctal(s, p + 1) else p
  }

  function IsInfinity(s: string, p: nat): bool {
    p + 8 <= |s| && s[p..p + 8] == "Infinity"
  }

  function ReadPrefix(s: string, p: nat, radix: RadixArg, fl: Flags): Prefix {
    var radix' := if radix == 0 then 10 else radix;
    if Ch(s, p) == '0' then
      var c := Ch(s, p + 1);
      if (c == 'x' || c == 'X') && (radix == 0 || radix == 16) then NeedsDigit(s, p + 2, 16, fl.underscores)
      else if (c == 'o' || c == 'O') && radix == 0 && fl.binOct then NeedsDigit(s, p + 2, 8, fl.underscores)
      else if (c == 'b' || c == 'B') && radix == 0 && fl.binOct then NeedsDigit(s, p + 2, 2, fl.underscores)
      else if '0' <= c <= '9' && radix == 0 && fl.legacyOctal then
        var q := Ch(s, PastOctal(s, p + 1));
        if q == '8' || q == '9' then Goes(p, 10, false) else NeedsDigit(s, p + 1, 8, false)
      else Goes(p, radix', fl.underscores)
    else if !fl.intOnly && IsInfinity(s, p) then Infinite(p + 8)
    else Goes(p, radix', fl.underscores)
  }

  // ----- digits -----

  /** What the two digit loops know: where numbers start, and how digits are read. */
  datatype How = How(start: nat, radix: Radix, sep: bool, intOnly: bool)

  /** The cursor, the number of digits passed, and where the dot was (or -1). */
  datatype Scan = Scan(p: nat, pos: nat, dot: int)

  predicate DotHere(s: string, h: How, p: nat) {
    Ch(s, p) == '.' && (p > h.start || ToDigit(Ch(s, p + 1)) < h.radix) && !h.intOnly
  }

  function AfterDot(s: string, h: How, st: Scan): Scan {
    if DotHere(s, h, st.p) then Scan(st.p + 1, st.pos, st.pos) else st
  }

  function AfterSep(s: string, h: How, st: Scan, follows: bool): Scan {
    if h.sep && Ch(s, st.p) == '_' && st.p > h.start && follows then st.(p := st.p + 1) else st
  }

  function SkipZeros(s: string, h: How, st: Scan): Scan
    decreases |s| - st.p
  {
    if DotHere(s, h, st.p) && st.dot >= 0 then st
    else
      var u := AfterDot(s, h, st);
      var v := AfterSep(s, h, u, Ch(s, u.p + 1) == '0');
      if Ch(s, v.p) != '0' then v else SkipZeros(s, h, Scan(v.p + 1, v.pos + 1, v.dot))
  }

  /** The digits kept, their number, and whether a later one was not zero. */
  datatype Acc = Acc(mant: nat, count: nat, extra: bool)

  function Take(acc: Acc, c: nat, radix: Radix): Acc {
    if acc.count < AtodDigits(radix) then Acc(acc.mant * radix + c, acc.count + 1, acc.extra)
    else acc.(extra := acc.extra || c != 0)
  }

  function ReadDigits(s: string, h: How, st: Scan, acc: Acc): (Scan, Acc)
    decreases |s| - st.p
  {
    if DotHere(s, h, st.p) && st.dot >= 0 then (st, acc)
    else
      var u := AfterDot(s, h, st);
      var v := AfterSep(s, h, u, ToDigit(Ch(s, u.p + 1)) < h.radix);
      var c := ToDigit(Ch(s, v.p));
      if c >= h.radix || v.p >= |s| then (v, acc)
      else ReadDigits(s, h, Scan(v.p + 1, v.pos + 1, v.dot), Take(acc, c, h.radix))
  }

  // ----- exponent -----

  predicate ExpMark(s: string, h: How, p: nat) {
    && !h.intOnly
    && (if h.radix == 10 then Ch(s, p) == 'e' || Ch(s, p) == 'E'
        else Ch(s, p) == '@' || (1 <= RadixBits(h.radix) <= 4 && (Ch(s, p) == 'p' || Ch(s, p) == 'P')))
    && p > h.start
  }

  datatype Expn = NoDigits(at: nat) | Expn(at: nat, value: int, overflow: bool, binary: bool)

  /** The digits of the exponent; the value stops growing once it would not fit an int. */
  function ReadExpDigits(s: string, h: How, p: nat, value: int, overflow: bool): (nat, int, bool)
    decreases |s| - p
  {
    var q := if h.sep && Ch(s, p) == '_' && ToDigit(Ch(s, p + 1)) < 10 then p + 1 else p;
    var c := ToDigit(Ch(s, q));
    if c >= 10 || q >= |s| then (q, value, overflow)
    else if overflow || value > EXPN_GUARD then ReadExpDigits(s, h, q + 1, value, true)
    else ReadExpDigits(s, h, q + 1, value * 10 + c, false)
  }

  function ReadExp(s: string, h: How, p: nat): Expn {
    if !ExpMark(s, h, p) then Expn(p, 0, false, false)
    else
      var binary := Ch(s, p) == 'p' || Ch(s, p) == 'P';
      var negative := Ch(s, p + 1) == '-';
      var q := if Ch(s, p + 1) == '+' || negative then p + 2 else p + 1;
      if ToDigit(Ch(s, q)) >= 10 then NoDigits(q)
      else
        var r := ReadExpDigits(s, h, q + 1, ToDigit(Ch(s, q)), false);
        Expn(r.0, if negative then -r.1 else r.1, r.2, binary)
  }

  // ----- conversion -----

  /** Arithmetic on a 32-bit `int`: out of range it wraps around (in C it is undefined). */
  function Wrap32(x: int): int {
    (x + INT32_LIMIT) % (2 * INT32_LIMIT) - INT32_LIMIT
  }

  function FloatBits(f: Float): nat {
    PackBits(f.mant, f.exp)
  }

  /** A radix with an odd factor: the limits on the exponent, then scaling and rounding. */
  function ConvertTable(acc: Acc, radix: Radix, expn: int, offset: int): nat {
    var e := Wrap32(expn - offset);
    var e1 := Wrap32(e + acc.count);
    if e1 >= MaxExponent(radix) + 1 then INFINITY
    else if e1 <= MinExponent(radix) then 0
    else
      var s := RadixScaled(acc.mant, radix, e, false, 55);
      FloatBits(RoundToD(s.value, s.offset))
  }

  /** A power of two: the exponent counts bits, and rounding needs no scaling. */
  function ConvertBin(acc: Acc, bits: nat, expn: int, binary: bool, offset: int): nat {
    var e := Wrap32((if binary then expn else Wrap32(expn * bits)) - offset * bits);
    var e1 := Wrap32(e + acc.count * bits);
    if e1 >= 1024 + bits then INFINITY
    else if e1 <= -1075 then 0
    else FloatBits(RoundToD(Sticky(acc.mant, acc.extra), -e))
  }

  function Magnitude(h: How, sc: Scan, acc: Acc, sigPos: nat, x: Expn): nat
    requires x.Expn?
  {
    var dot := if sc.dot < 0 then sc.pos else sc.dot;
    var offset := sigPos + acc.count - dot;
    if acc.count == 0 then 0
    else if x.overflow then if x.value < 0 then 0 else INFINITY
    else if RadixBits(h.radix) != 0 then ConvertBin(acc, RadixBits(h.radix), x.value, x.binary, offset)
    else ConvertTable(acc, h.radix, x.value, offset)
  }

  /** `js_atod`. */
  function Atod(s: string, radix: RadixArg, fl: Flags): Result {
    var negative := Ch(s, 0) == '-';
    match ReadPrefix(s, Start(s), radix, fl)
    case Fails(p) => Result(NaN, p)
    case Infinite(p) => Result(Bits(negative, INFINITY), p)
    case Goes(p, radix', sep) =>
      var h := How(Start(s), radix', sep, fl.intOnly);
      var z := SkipZeros(s, h, Scan(p, 0, -1));
      var d := ReadDigits(s, h, z, Acc(0, 0, false));
      match ReadExp(s, h, d.0.p)
      case NoDigits(q) => Result(NaN, q)
      case Expn(q, v, o, b) =>
        if q == h.start then Result(NaN, q)
        else Result(Bits(negative, Magnitude(h, d.0, d.1, z.pos, Expn(q, v, o, b))), q)
  }
}
