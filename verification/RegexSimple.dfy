/** The fast path for a greedy quantifier over a straight-line atom of fixed length:
    the longest run first, then one repetition less each time, by stepping back. */
module RegexSimple {
  import opened Common
  import opened RegexSyntax
  import opened RegexCode
  import opened RegexMatcher
  import opened RegexVm
  import opened RegexYields
  import opened RegexLoops
  import opened RegexAdvance
  import opened RegexPieces
  import opened RegexRange

  /** Straight-line execution. */
  function StraightRun(c: seq<Instr>, x: Ctx, s: St): (r: Option<St>)
    requires IsSimple(c) && ValidSt(x, s)
    ensures r.Some? ==> ValidSt(x, r.value)
  {
    if c == [] then Some(s)
    else
      match Advance(c[0], x, s)
      case None => None
      case Some(t) => StraightRun(c[1..], x, t)
  }

  function ToSeq(r: Option<St>): seq<St> {
    if r.None? then [] else [r.value]
  }

  lemma {:induction false} StraightRunConcat(a: seq<Instr>, b: seq<Instr>, x: Ctx, s: St)
    requires IsSimple(a) && IsSimple(b) && ValidSt(x, s)
    ensures IsSimple(a + b)
    ensures StraightRun(a + b, x, s)
         == match StraightRun(a, x, s) case None => None case Some(t) => StraightRun(b, x, t)
    decreases |a|
  {
    if a == [] {
      assert a + b == b;
    } else {
      assert (a + b)[1..] == a[1..] + b;
      match Advance(a[0], x, s)
      case None =>
      case Some(t) => StraightRunConcat(a[1..], b, x, t);
    }
  }

  /** Each character instruction moves by one, nothing else changes the state. */
  lemma {:induction false} StraightRunMoves(c: seq<Instr>, x: Ctx, s: St)
    requires IsSimple(c) && ValidSt(x, s) && StraightRun(c, x, s).Some?
    ensures StraightRun(c, x, s).value == s.(pos := s.pos + CountChars(c))
    decreases |c|
  {
    if c != [] {
      StraightRunMoves(c[1..], x, Advance(c[0], x, s).value);
    }
  }

  lemma SimpleConcat(a: seq<Instr>, b: seq<Instr>)
    requires IsSimple(a + b)
    ensures IsSimple(a) && IsSimple(b)
  {
    forall i | 0 <= i < |a| ensures ReadsOneChar(a[i]) || IsAssertion(a[i]) { assert a[i] == (a + b)[i]; }
    forall i | 0 <= i < |b| ensures ReadsOneChar(b[i]) || IsAssertion(b[i]) { assert b[i] == (a + b)[|a| + i]; }
  }

  lemma {:induction false} CountConcat(a: seq<Instr>, b: seq<Instr>)
    ensures CountChars(a + b) == CountChars(a) + CountChars(b)
    decreases |a|
  {
    if a == [] {
      assert a + b == b;
    } else {
      assert (a + b)[1..] == a[1..] + b;
      CountConcat(a[1..], b);
    }
  }

  lemma SimpleIsStraight(c: seq<Instr>)
    requires IsSimple(c)
    ensures Straight(c)
  {
  }

  lemma ResetNothing(s: St, cc: nat)
    ensures ResetCaps(s, cc, cc) == s
  {
    assert ResetCaps(s, cc, cc).caps == s.caps;
  }

  /** A straight-line atom matches as its code runs: at most one result. */
  lemma {:induction false} StraightMatch(r: Regex, cc: nat, x: Ctx, s: St)
    requires WellFormed(r) && ValidSt(x, s) && ValidChars(x) && !x.perIteration
    requires IsSimple(Code(r, cc, true))
    ensures Match(r, cc, true, x, s) == ToSeq(StraightRun(Code(r, cc, true), x, s))
    decreases r, 1
  {
    hide ValidChars;
    hide IsSimple;
    hide Match;
    hide StraightRun;
    hide RangeCode;
    hide AltCode;
    hide CaptureCode;
    hide LookCode;
    hide QuantCode;
    hide Onward;
    match r
    case Cat(a, b) => StraightCatMatch(a, b, cc, x, s, Code(a, cc, true), Code(b, cc + NCaps(a), true));
    case Quant(a, min, max, greedy) => StraightQuantMatch(a, min, max, greedy, cc, x, s);
    case _ => StraightAtomMatch(r, cc, x, s);
  }

  lemma StraightAtomMatch(r: Regex, cc: nat, x: Ctx, s: St)
    requires WellFormed(r) && ValidSt(x, s) && ValidChars(x) && !r.Cat? && !r.Quant?
    requires IsSimple(Code(r, cc, true))
    ensures Match(r, cc, true, x, s) == ToSeq(StraightRun(Code(r, cc, true), x, s))
  {
    match r
    case Empty =>
    case Char(_) => OneCharStraight(r, cc, x, s);
    case Dot(_) => OneCharStraight(r, cc, x, s);
    case Class(_) => OneCharStraight(r, cc, x, s);
    case LineStart => OneInstr(LineStartOp, x, s);
    case LineEnd => OneInstr(LineEndOp, x, s);
    case WordBoundary(neg) => OneInstr(if neg then NotWordBoundaryOp else WordBoundaryOp, x, s);
    case _ =>
  }

  lemma NotSimple(c: seq<Instr>)
    requires c != [] && !ReadsOneChar(c[0]) && !IsAssertion(c[0])
    ensures !IsSimple(c)
  {
  }

  lemma OneInstr(i: Instr, x: Ctx, s: St)
    requires (ReadsOneChar(i) || IsAssertion(i)) && ValidSt(x, s)
    ensures IsSimple([i]) && StraightRun([i], x, s) == Advance(i, x, s)
  {
    match Advance(i, x, s)
    case None =>
    case Some(t) => assert StraightRun([], x, t) == Some(t);
  }

  lemma OneCharStraight(r: Regex, cc: nat, x: Ctx, s: St)
    requires WellFormed(r) && (r.Char? || r.Dot? || r.Class?) && ValidSt(x, s) && ValidChars(x)
    ensures IsSimple(Code(r, cc, true))
    ensures Match(r, cc, true, x, s) == ToSeq(StraightRun(Code(r, cc, true), x, s))
  {
    OneInstr(OneCharCode(r), x, s);
    if s.pos < |x.input| {
      OneCharTest(r, x.input[s.pos]);
    }
  }

  lemma StraightCatMatch(a: Regex, b: Regex, cc: nat, x: Ctx, s: St, ca: seq<Instr>, cb: seq<Instr>)
    requires WellFormed(a) && WellFormed(b) && ValidSt(x, s) && ValidChars(x) && !x.perIteration
    requires ca == Code(a, cc, true) && cb == Code(b, cc + NCaps(a), true) && IsSimple(ca + cb)
    ensures Match(Cat(a, b), cc, true, x, s) == ToSeq(StraightRun(ca + cb, x, s))
    decreases Cat(a, b), 0
  {
    hide WellFormed;
    hide ValidSt;
    hide ValidChars;
    hide Code;
    hide NCaps;
    hide IsSimple;
    hide Match;
    hide ToSeq;
    hide StraightRun;
    hide IsAssertion;
    hide Onward;
    hide After;
    hide FlatMap;
    SimpleConcat(ca, cb);
    StraightMatch(a, cc, x, s);
    var g := StraightAfter(b, cc + NCaps(a), x, cb);
    StraightBind(ca, cb, x, s, g);
    CatIsBind(a, b, cc, x, s, ToSeq(StraightRun(ca, x, s)));
  }

  lemma StraightAfter(b: Regex, cc: nat, x: Ctx, cb: seq<Instr>) returns (g: St -> seq<St>)
    requires WellFormed(b) && ValidChars(x) && !x.perIteration && cb == Code(b, cc, true) && IsSimple(cb)
    ensures g == After(b, cc, true, x)
    ensures forall t: St :: ValidSt(x, t) ==> g(t) == ToSeq(StraightRun(cb, x, t))
    decreases b, 2
  {
    g := After(b, cc, true, x);
    forall t: St | ValidSt(x, t) ensures g(t) == ToSeq(StraightRun(cb, x, t)) {
      StraightMatch(b, cc, x, t);
    }
  }

  lemma StraightBind(a: seq<Instr>, b: seq<Instr>, x: Ctx, s: St, g: St -> seq<St>)
    requires IsSimple(a) && IsSimple(b) && IsSimple(a + b) && ValidSt(x, s)
    requires forall t: St :: ValidSt(x, t) ==> g(t) == ToSeq(StraightRun(b, x, t))
    ensures FlatMap(ToSeq(StraightRun(a, x, s)), g) == ToSeq(StraightRun(a + b, x, s))
  {
    StraightRunConcat(a, b, x, s);
    match StraightRun(a, x, s)
    case None =>
    case Some(t) => FlatMapOne(t, g);
  }

  lemma CatIsBind(a: Regex, b: Regex, cc: nat, x: Ctx, s: St, ss: seq<St>)
    requires ValidSt(x, s) && Match(a, cc, true, x, s) == ss
    ensures Match(Cat(a, b), cc, true, x, s) == FlatMap(ss, After(b, cc + NCaps(a), true, x))
  {
    hide ValidSt;
    hide After;
    hide NCaps;
    hide Rem;
    hide Test;
    hide AtLineStart;
    hide AtLineEnd;
    hide AtWordBoundary;
    hide MatchAll;
    hide SetCap;
    hide ResetCaps;
    hide FlatMap;
    hide Rep;
    hide RepNext;
    hide CloseAll;
    hide OneChar;
    hide BackRefMatch;
    MatchAllIsBind(b, cc + NCaps(a), true, x, ss, Rem(true, x, s));
  }

  lemma StraightQuantMatch(a: Regex, min: nat, max: nat, greedy: bool, cc: nat, x: Ctx, s: St)
    requires WellFormed(Quant(a, min, max, greedy)) && ValidSt(x, s) && ValidChars(x) && !x.perIteration
    requires IsSimple(Code(Quant(a, min, max, greedy), cc, true))
    ensures Match(Quant(a, min, max, greedy), cc, true, x, s)
         == ToSeq(StraightRun(Code(Quant(a, min, max, greedy), cc, true), x, s))
    decreases Quant(a, min, max, greedy), 0
  {
    var c := Code(a, cc, true);
    SimpleIsStraight(Code(Quant(a, min, max, greedy), cc, true));
    StraightQuant(c, cc, NCaps(a), min, max, greedy);
    if max == 0 {
      assert NCaps(a) > 0 ==> ResetCode(cc, NCaps(a))[0].SaveReset?;
      ResetNothing(s, cc);
    } else {
      OnceIsAtom(a, cc, true, x, greedy, s);
      StraightMatch(a, cc, x, s);
    }
  }

  // ----- matching backwards -----

  /** Code that steps back is not simple, so the fast path only serves forward atoms. */
  lemma {:induction false} BackwardNoChars(r: Regex, cc: nat)
    requires WellFormed(r) && IsSimple(Code(r, cc, false))
    ensures CountChars(Code(r, cc, false)) == 0
    decreases r
  {
    match r
    case Char(_) =>
    case Dot(_) =>
    case Class(_) =>
    case Cat(a, b) =>
      BackwardCatNoChars(a, b, cc);
    case Alt(a, b) =>
    case Capture(b) =>
    case Look(_, neg, b) =>
    case Quant(a, min, max, greedy) =>
      SimpleIsStraight(Code(r, cc, false));
      StraightQuant(Code(a, cc, false), cc, NCaps(a), min, max, greedy);
      if max != 0 {
        BackwardNoChars(a, cc);
      }
    case _ =>
  }

  lemma BackwardCatNoChars(a: Regex, b: Regex, cc: nat)
    requires WellFormed(a) && WellFormed(b) && IsSimple(Code(Cat(a, b), cc, false))
    ensures CountChars(Code(Cat(a, b), cc, false)) == 0
    decreases Cat(a, b), 0
  {
    hide WellFormed;
    hide IsSimple;
    hide CountChars;
    hide NCaps;
    hide SortedPoints;
    hide RangeCode;
    hide AltCode;
    hide LookCode;
    hide QuantCode;
    var ca, cb := Code(a, cc, false), Code(b, cc + NCaps(a), false);
    SimpleConcat(cb, ca);
    CountConcat(cb, ca);
    BackwardNoChars(a, cc);
    BackwardNoChars(b, cc + NCaps(a));
  }

  // ----- the attempts -----

  lemma {:induction false} RunAtomIs(p: Prog, x: Ctx, pc: nat, c: seq<Instr>, s: St)
    requires At(p, pc, c + [MatchOp]) && IsSimple(c) && ValidSt(x, s)
    ensures RunAtom(p, x, pc, s) == match StraightRun(c, x, s) case None => Mismatch case Some(t) => Matched(t)
    decreases |c|
  {
    if c == [] {
      assert c + [MatchOp] == [MatchOp];
    } else {
      assert (c + [MatchOp])[1..] == c[1..] + [MatchOp];
      match Advance(c[0], x, s)
      case None =>
      case Some(t) => RunAtomIs(p, x, pc + Size(c[0]), c[1..], t);
    }
  }

  function Ahead(s: St, d: nat): St { s.(pos := s.pos + d) }

  /** The states `k`, `k-1`, ..., 0 steps of length `n` ahead of `s`. */
  function Desc(s: St, n: nat, k: nat): seq<St> {
    if k == 0 then [s] else [Ahead(s, k * n)] + Desc(s, n, k - 1)
  }

  lemma {:induction false} DescSnoc(s: St, n: nat, k: nat)
    ensures Desc(s, n, k + 1) == Desc(Ahead(s, n), n, k) + [s]
    decreases k
  {
    assert (k + 1) * n == n + k * n;
    if k > 0 {
      DescSnoc(s, n, k - 1);
      assert Ahead(s, (k + 1) * n) == Ahead(Ahead(s, n), k * n);
    } else {
      assert Desc(s, n, 1) == [Ahead(s, 1 * n)] + Desc(s, n, 0);
    }
  }

  /** The results of a greedy repetition of which `q` iterations are possible. */
  function Ladder(s: St, n: nat, min: nat, q: nat): seq<St> {
    if q < min then [] else Desc(Ahead(s, min * n), n, q - min)
  }

  lemma LadderZero(s: St, n: nat, min: nat)
    ensures Ladder(s, n, min, 0) == if min == 0 then [s] else []
  {
    assert Ahead(s, 0 * n) == s;
  }

  lemma LadderStep(s: St, n: nat, min: nat, q: nat)
    ensures Ladder(s, n, min, q + 1)
         == Ladder(Ahead(s, n), n, if min == 0 then 0 else min - 1, q) + if min == 0 then [s] else []
  {
    if min == 0 {
      DescSnoc(s, n, q);
      assert Ahead(s, 0 * n) == s && Ahead(Ahead(s, n), 0 * n) == Ahead(s, n);
    } else {
      assert min * n == n + (min - 1) * n;
      assert Ahead(s, min * n) == Ahead(Ahead(s, n), (min - 1) * n);
    }
  }

  lemma AheadMore(s: St, n: nat, j: nat)
    ensures Ahead(Ahead(s, n), j * n) == Ahead(s, (j + 1) * n)
  {
    assert (j + 1) * n == n + j * n;
  }

  function LessMin(min: nat): nat { if min == 0 then 0 else min - 1 }

  /** One more iteration in front of a greedy repetition with a single-result atom. */
  lemma RepOneStep(a: Regex, cc: nat, x: Ctx, min: nat, max: nat, s: St, t: St)
    requires ValidSt(x, s) && !x.perIteration && max > 0 && Match(a, cc, true, x, s) == [t] && t.pos > s.pos
    ensures ValidSt(x, t)
    ensures Rep(a, cc, true, x, min, max, true, s)
         == Rep(a, cc, true, x, LessMin(min), Less(max), true, t) + if min == 0 then [s] else []
  {
    assert t in Match(a, cc, true, x, s);
    assert RepNext(a, cc, true, x, min, max, true, s, [t])
        == Rep(a, cc, true, x, LessMin(min), Less(max), true, t) + RepNext(a, cc, true, x, min, max, true, s, []);
  }

  lemma RepNoStep(a: Regex, cc: nat, x: Ctx, min: nat, max: nat, s: St)
    requires ValidSt(x, s) && !x.perIteration && max > 0 && Match(a, cc, true, x, s) == []
    ensures Rep(a, cc, true, x, min, max, true, s) == if min == 0 then [s] else []
  {
  }

  lemma RepNone(a: Regex, cc: nat, x: Ctx, s: St)
    requires ValidSt(x, s)
    ensures Rep(a, cc, true, x, 0, 0, true, s) == [s]
  {
  }

  ghost predicate SimpleAt(p: Prog, pc: nat, a: Regex, cc: nat, n: nat)
    requires WellFormed(a)
  {
    var c := Code(a, cc, true);
    At(p, pc, c + [MatchOp]) && IsSimple(c) && n == CountChars(c) && n > 0
  }

  /** One attempt, both ways. */
  lemma AttemptIs(p: Prog, x: Ctx, pc: nat, a: Regex, cc: nat, n: nat, s: St)
    requires WellFormed(a) && SimpleAt(p, pc, a, cc, n)
    requires ValidSt(x, s) && ValidChars(x) && !x.perIteration
    ensures (Match(a, cc, true, x, s) == [] && RunAtom(p, x, pc, s) == Mismatch)
         || (ValidSt(x, Ahead(s, n)) && Match(a, cc, true, x, s) == [Ahead(s, n)]
           && RunAtom(p, x, pc, s) == Matched(Ahead(s, n)))
  {
    hide Match;
    hide At;
    hide Code;
    hide IsSimple;
    hide CountChars;
    hide StraightRun;
    hide RunAtom;
    hide SimpleAt;
    var c := Code(a, cc, true);
    SimpleAtFacts(p, pc, a, cc, n);
    StraightMatch(a, cc, x, s);
    RunAtomIs(p, x, pc, c, s);
    if StraightRun(c, x, s).Some? {
      StraightRunMoves(c, x, s);
    }
  }

  lemma SimpleAtFacts(p: Prog, pc: nat, a: Regex, cc: nat, n: nat)
    requires WellFormed(a) && SimpleAt(p, pc, a, cc, n)
    ensures At(p, pc, Code(a, cc, true) + [MatchOp]) && IsSimple(Code(a, cc, true))
      && n == CountChars(Code(a, cc, true)) && n > 0
  {
    hide At;
    hide Code;
    hide IsSimple;
    hide CountChars;
  }

  /** Iterations still allowed after `q` of at most `m`. */
  function Allowed(m: nat, q: nat): nat
    requires m == INT32_MAX || q <= m
  {
    if m == INT32_MAX then m else m - q
  }

  /** The attempts count how far the repetition can go. */
  lemma {:induction false} AttemptsAre(p: Prog, x: Ctx, pc: nat, a: Regex, cc: nat, n: nat, m: nat, q: nat, min: nat,
      s: St)
      returns (k: nat)
    requires WellFormed(a) && SimpleAt(p, pc, a, cc, n)
    requires ValidSt(x, s) && ValidChars(x) && !x.perIteration
    requires 0 < m <= INT32_MAX && (m == INT32_MAX || (q < m && min <= m - q))
    ensures RunAtoms(p, x, pc, s, q, m) == Count(q + k, Ahead(s, k * n))
    ensures Rep(a, cc, true, x, min, Allowed(m, q), true, s) == Ladder(s, n, min, k)
    decreases Rem(true, x, s), 0
  {
    hide Match;
    hide StraightRun;
    hide Ladder;
    hide RunAtom;
    hide SimpleAt;
    hide Rep;
    AttemptIs(p, x, pc, a, cc, n, s);
    SimpleAtFacts(p, pc, a, cc, n);
    if RunAtom(p, x, pc, s) == Mismatch {
      k := 0;
      RepNoStep(a, cc, x, min, Allowed(m, q), s);
      assert Ahead(s, 0 * n) == s;
      LadderZero(s, n, min);
    } else {
      RepOneStep(a, cc, x, min, Allowed(m, q), s, Ahead(s, n));
      var j := AttemptsRest(p, x, pc, a, cc, n, m, q, min, Ahead(s, n));
      k := j + 1;
      AheadMore(s, n, j);
      LadderStep(s, n, min, j);
    }
  }

  /** The attempts after a first success that ended at `t`. */
  lemma AttemptsRest(p: Prog, x: Ctx, pc: nat, a: Regex, cc: nat, n: nat, m: nat, q: nat, min: nat, t: St)
      returns (j: nat)
    requires WellFormed(a) && SimpleAt(p, pc, a, cc, n)
    requires ValidSt(x, t) && ValidChars(x) && !x.perIteration
    requires 0 < m <= INT32_MAX && (m == INT32_MAX || (q < m && min <= m - q))
    ensures (if q + 1 >= m && m != INT32_MAX then Count(q + 1, t) else RunAtoms(p, x, pc, t, q + 1, m))
         == Count(q + 1 + j, Ahead(t, j * n))
    ensures Rep(a, cc, true, x, LessMin(min), Less(Allowed(m, q)), true, t) == Ladder(t, n, LessMin(min), j)
    decreases Rem(true, x, t), 1
  {
    hide WellFormed;
    hide SimpleAt;
    hide ValidSt;
    hide ValidChars;
    hide RunAtoms;
    hide Rem;
    hide Match;
    hide Rep;
    hide Ladder;
    if q + 1 >= m && m != INT32_MAX {
      j := 0;
      RepNone(a, cc, x, t);
      assert Ahead(t, 0 * n) == t;
      LadderZero(t, n, 0);
    } else {
      j := AttemptsAre(p, x, pc, a, cc, n, m, q + 1, LessMin(min), t);
    }
  }

  // ----- the saved state of the quantifier -----

  /** Failing back into the quantifier gives up one repetition at a time. */
  lemma {:induction false} RetreatYields(p: Prog, x: Ctx, pc: nat, off: nat, min: nat, max: nat, n: nat,
                                         s: St, k: nat, stack: seq<int>, base: seq<Saved>)
    requires At(p, pc, [SimpleGreedyQuant(off, min, max, n)]) && k > 0
    ensures Yields(p, x, Fail(base + [Saved(GreedyQuantState, k, pc, Ahead(s, k * n), stack)]),
                   Desc(s, n, k - 1), pc + 17 + off, stack, base)
    decreases k
  {
    var top := Saved(GreedyQuantState, k, pc, Ahead(s, k * n), stack);
    var c := Fail(base + [top]);
    var end := pc + 17 + off;
    var out := Desc(s, n, k - 1);
    assert (base + [top])[..|base|] == base;
    assert k * n == n + (k - 1) * n;
    var t := Ahead(s, (k - 1) * n);
    if k == 1 {
      assert t == s;
      YieldsOne(p, x, s, end, stack, base);
      YieldsStep(p, x, c, out, end, stack, base);
    } else {
      var left := [Saved(GreedyQuantState, k - 1, pc, t, stack)];
      assert Step(p, x, c) == Run(end, t, stack, base + left);
      RetreatYields(p, x, pc, off, min, max, n, s, k - 1, stack, base);
      ReachesStep(p, x, c);
      assert out[0] == t && out[1..] == Desc(s, n, k - 2);
      assert Arrives(p, x, c, out, end, stack, base, left);
    }
  }

  /** The instruction yields what the repetition matches. */
  lemma SimpleYields(p: Prog, x: Ctx, pc: nat, a: Regex, cc: nat, n: nat, min: nat, max: nat,
                     s: St, stack: seq<int>, base: seq<Saved>, off: nat)
    requires WellFormed(a) && SimpleAt(p, pc + 17, a, cc, n)
    requires At(p, pc, [SimpleGreedyQuant(off, min, max, n)])
    requires ValidSt(x, s) && ValidChars(x) && !x.perIteration && min <= max <= INT32_MAX && 0 < max
    ensures Continues(p, x, s, pc, stack, base, Rep(a, cc, true, x, min, max, true, s), pc + 17 + off, stack)
  {
    var k := AttemptsAre(p, x, pc + 17, a, cc, n, max, 0, min, s);
    LadderYields(p, x, pc, n, min, max, k, s, stack, base, off);
  }

  lemma LadderYields(p: Prog, x: Ctx, pc: nat, n: nat, min: nat, max: nat, k: nat,
                     s: St, stack: seq<int>, base: seq<Saved>, off: nat)
    requires At(p, pc, [SimpleGreedyQuant(off, min, max, n)]) && ValidSt(x, s)
    requires RunAtoms(p, x, pc + 17, s, 0, max) == Count(k, Ahead(s, k * n))
    ensures Continues(p, x, s, pc, stack, base, Ladder(s, n, min, k), pc + 17 + off, stack)
  {
    hide Yields;
    hide Arrives;
    hide RunAtoms;
    hide RunAtom;
    hide At;
    var end := pc + 17 + off;
    var c := Run(pc, s, stack, base);
    var out := Ladder(s, n, min, k);
    StepAt(p, x, pc, SimpleGreedyQuant(off, min, max, n), s, stack, base);
    if k <= min {
      if k < min {
        YieldsNone(p, x, end, stack, base);
      } else {
        YieldsOne(p, x, Ahead(s, k * n), end, stack, base);
      }
      YieldsStep(p, x, c, out, end, stack, base);
    } else {
      DescendYields(p, x, c, pc, n, min, max, k, s, stack, base, off);
    }
  }

  lemma DescendYields(p: Prog, x: Ctx, c: Cfg, pc: nat, n: nat, min: nat, max: nat, k: nat,
                      s: St, stack: seq<int>, base: seq<Saved>, off: nat)
    requires At(p, pc, [SimpleGreedyQuant(off, min, max, n)]) && min < k
    requires Step(p, x, c)
      == Run(pc + 17 + off, Ahead(s, k * n), stack,
        base + [Saved(GreedyQuantState, k - min, pc, Ahead(s, k * n), stack)])
    ensures Yields(p, x, c, Ladder(s, n, min, k), pc + 17 + off, stack, base)
  {
    hide At;
    hide Step;
    hide StepRun;
    hide Reaches;
    var bottom := Ahead(s, min * n);
    AheadSplit(s, n, min, k);
    var left := [Saved(GreedyQuantState, k - min, pc, Ahead(s, k * n), stack)];
    RetreatYields(p, x, pc, off, min, max, n, bottom, k - min, stack, base);
    ReachesStep(p, x, c);
    var out := Ladder(s, n, min, k);
    assert out[0] == Ahead(s, k * n) && out[1..] == Desc(bottom, n, k - min - 1);
    assert Arrives(p, x, c, out, pc + 17 + off, stack, base, left);
  }

  lemma AheadSplit(s: St, n: nat, min: nat, k: nat)
    requires min <= k
    ensures Ahead(Ahead(s, min * n), (k - min) * n) == Ahead(s, k * n)
  {
    assert k * n == min * n + (k - min) * n;
  }
}
