/** The reference matcher: all ways in which a pattern matches from a state, in
    priority order. It knows nothing of code, jumps or stacks. */
module RegexMatcher {
  import opened RegexSyntax

  /** The subject. `perIteration` selects how capture groups inside a quantified
      atom are cleared: at the start of every iteration (section 22.2.2.3.1 of
      ECMA-262), or once before a quantifier whose minimum is zero, which is what
      the bytecode does. */
  datatype Ctx = Ctx(input: seq<nat>, multiline: bool, ncap: nat, perIteration: bool)

  /** A matcher state: the position and, for each group, its start and its end;
      `UNSET` is the null pointer of the capture array. */
  datatype St = St(pos: nat, caps: seq<int>)

  const UNSET: int := -1

  predicate ValidSt(x: Ctx, s: St) {
    s.pos <= |x.input| && |s.caps| == 2 * x.ncap
  }

  predicate ValidChars(x: Ctx) {
    forall i :: 0 <= i < |x.input| ==> x.input[i] < 0x10000
  }

  predicate IsLineTerminator(c: nat) {
    c == 10 || c == 13 || c == 0x2028 || c == 0x2029
  }

  predicate IsWordChar(c: nat) {
    48 <= c <= 57 || 97 <= c <= 122 || 65 <= c <= 90 || c == 95
  }

  predicate AtLineStart(x: Ctx, p: nat)
    requires p <= |x.input|
  {
    p == 0 || (x.multiline && IsLineTerminator(x.input[p - 1]))
  }

  predicate AtLineEnd(x: Ctx, p: nat)
    requires p <= |x.input|
  {
    p == |x.input| || (x.multiline && IsLineTerminator(x.input[p]))
  }

  predicate AtWordBoundary(x: Ctx, p: nat)
    requires p <= |x.input|
  {
    (p > 0 && IsWordChar(x.input[p - 1])) != (p < |x.input| && IsWordChar(x.input[p]))
  }

  /** Which characters a one-character atom accepts. */
  predicate Accepts(r: Regex, c: nat) {
    match r
    case Char(d) => c == d
    case Dot(all) => all || !IsLineTerminator(c)
    case Class(pts) => InSet(pts, c)
    case _ => false
  }

  /** One character is read after the position, or before it when matching
      backwards inside a lookbehind. */
  function OneChar(r: Regex, fwd: bool, x: Ctx, s: St): (out: seq<St>)
    requires ValidSt(x, s)
  {
    if fwd then
      if s.pos < |x.input| && Accepts(r, x.input[s.pos]) then [s.(pos := s.pos + 1)] else []
    else
      if 0 < s.pos && Accepts(r, x.input[s.pos - 1]) then [s.(pos := s.pos - 1)] else []
  }

  function Test(b: bool, s: St): seq<St> {
    if b then [s] else []
  }

  predicate SameText(input: seq<nat>, a: nat, b: nat, n: nat) {
    a + n <= |input| && b + n <= |input| && input[a..a + n] == input[b..b + n]
  }

  /** A back-reference to an unset group matches the empty string. */
  function BackRefMatch(n: nat, fwd: bool, x: Ctx, s: St): (out: seq<St>)
    requires ValidSt(x, s)
  {
    if n >= x.ncap then []
    else
      var a, b := s.caps[2 * n], s.caps[2 * n + 1];
      if a < 0 || b < 0 || b <= a then [s]
      else if fwd then
        if SameText(x.input, a, s.pos, b - a) then [s.(pos := s.pos + (b - a))] else []
      else
        if b - a <= s.pos && SameText(x.input, a, s.pos - (b - a), b - a) then [s.(pos := s.pos - (b - a))] else []
  }

  function SetCap(s: St, k: nat, v: int): (t: St)
    ensures t.pos == s.pos && |t.caps| == |s.caps|
  {
    if k < |s.caps| then s.(caps := s.caps[k := v]) else s
  }

  /** Unset the groups `lo .. hi-1`. */
  function ResetCaps(s: St, lo: nat, hi: nat): (t: St)
    ensures t.pos == s.pos && |t.caps| == |s.caps|
  {
    s.(caps := seq(|s.caps|, i requires 0 <= i < |s.caps| => if 2 * lo <= i < 2 * hi then UNSET else s.caps[i]))
  }

  /** How many characters remain in the direction of matching. */
  function Rem(fwd: bool, x: Ctx, s: St): nat
    requires ValidSt(x, s)
  {
    if fwd then |x.input| - s.pos else s.pos
  }

  /** The results are again states of the subject, none of them behind `s`. */
  predicate Onward(fwd: bool, x: Ctx, s: St, out: seq<St>)
    requires ValidSt(x, s)
  {
    forall o :: o in out ==> ValidSt(x, o) && Rem(fwd, x, o) <= Rem(fwd, x, s)
  }

  predicate AllValid(x: Ctx, ss: seq<St>) {
    forall o :: o in ss ==> ValidSt(x, o)
  }

  function Match(r: Regex, cc: nat, fwd: bool, x: Ctx, s: St): (out: seq<St>)
    requires ValidSt(x, s)
    ensures Onward(fwd, x, s, out)
    decreases r, 0, 0, 0, 0, 0
  {
    match r
    case Empty => [s]
    case Char(_) => OneChar(r, fwd, x, s)
    case Dot(_) => OneChar(r, fwd, x, s)
    case Class(_) => OneChar(r, fwd, x, s)
    case LineStart => Test(AtLineStart(x, s.pos), s)
    case LineEnd => Test(AtLineEnd(x, s.pos), s)
    case WordBoundary(neg) => Test(AtWordBoundary(x, s.pos) != neg, s)
    case Cat(a, b) =>
      if fwd then MatchAll(b, cc + NCaps(a), fwd, x, Match(a, cc, fwd, x, s), Rem(fwd, x, s))
      else MatchAll(a, cc, fwd, x, Match(b, cc + NCaps(a), fwd, x, s), Rem(fwd, x, s))
    case Alt(a, b) => Match(a, cc, fwd, x, s) + Match(b, cc + NCaps(a), fwd, x, s)
    case Capture(b) =>
      var inside := SetCap(s, 2 * cc + (if fwd then 0 else 1), s.pos);
      CloseAll(cc, fwd, x, Match(b, cc + 1, fwd, x, inside), Rem(fwd, x, s))
    case BackRef(n) => BackRefMatch(n, fwd, x, s)
    case Look(ahead, neg, b) =>
      var out := Match(b, cc, ahead, x, s);
      if neg then Test(out == [], s)
      else if out == [] then [] else assert out[0] in out; [s.(caps := out[0].caps)]
    case Quant(a, min, max, greedy) =>
      Rep(a, cc, fwd, x, min, max, greedy,
          if min == 0 && !x.perIteration then ResetCaps(s, cc, cc + NCaps(a)) else s)
  }

  /** Continue every result of a first part with `r`, in order. */
  function MatchAll(r: Regex, cc: nat, fwd: bool, x: Ctx, ss: seq<St>, ghost bound: nat): (out: seq<St>)
    requires AllValid(x, ss) && forall o :: o in ss ==> Rem(fwd, x, o) <= bound
    ensures forall o :: o in out ==> ValidSt(x, o) && Rem(fwd, x, o) <= bound
    decreases r, 1, 0, 0, 0, |ss|
  {
    if ss == [] then [] else Match(r, cc, fwd, x, ss[0]) + MatchAll(r, cc, fwd, x, ss[1..], bound)
  }

  /** Record the far end of group `cc` in every result of its body. */
  function CloseAll(cc: nat, fwd: bool, x: Ctx, ss: seq<St>, ghost bound: nat): (out: seq<St>)
    requires AllValid(x, ss) && forall o :: o in ss ==> Rem(fwd, x, o) <= bound
    ensures forall o :: o in out ==> ValidSt(x, o) && Rem(fwd, x, o) <= bound
  {
    if ss == [] then []
    else
      assert ss[0] in ss;
      var closed := SetCap(ss[0], 2 * cc + (if fwd then 1 else 0), ss[0].pos);
      assert ValidSt(x, closed) && Rem(fwd, x, closed) == Rem(fwd, x, ss[0]);
      [closed] + CloseAll(cc, fwd, x, ss[1..], bound)
  }

  function Less(max: nat): nat {
    if max == INT32_MAX || max == 0 then max else max - 1
  }

  /** RepeatMatcher: between `min` and `max` more iterations of `a`. Once the
      minimum is reached, an iteration that does not move is refused. */
  function Rep(a: Regex, cc: nat, fwd: bool, x: Ctx, min: nat, max: nat, greedy: bool, s: St): (out: seq<St>)
    requires ValidSt(x, s)
    ensures Onward(fwd, x, s, out)
    decreases a, 2, min, Rem(fwd, x, s), 1, 0
  {
    if max == 0 then [s]
    else
      var entry := if x.perIteration then ResetCaps(s, cc, cc + NCaps(a)) else s;
      var more := RepNext(a, cc, fwd, x, min, max, greedy, s, Match(a, cc, fwd, x, entry));
      if min > 0 then more
      else if greedy then more + [s]
      else [s] + more
  }

  function RepNext(a: Regex, cc: nat, fwd: bool, x: Ctx, min: nat, max: nat, greedy: bool,
                   s: St, ss: seq<St>): (out: seq<St>)
    requires ValidSt(x, s) && Onward(fwd, x, s, ss)
    ensures Onward(fwd, x, s, out)
    decreases a, 2, min, Rem(fwd, x, s), 0, |ss|
  {
    if ss == [] then []
    else
      (if min == 0 && ss[0].pos == s.pos then []
       else Rep(a, cc, fwd, x, if min == 0 then 0 else min - 1, Less(max), greedy, ss[0]))
      + RepNext(a, cc, fwd, x, min, max, greedy, s, ss[1..])
  }
}
