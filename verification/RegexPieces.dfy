/** Simulation of the pieces of code from which the emitter builds a pattern: each
    piece yields the results of the construct it stands for, provided the code of
    the sub-pattern does. */
module RegexPieces {
  import opened RegexSyntax
  import opened RegexCode
  import opened RegexMatcher
  import opened RegexVm
  import opened RegexYields
  import opened RegexLoops
  import opened RegexRange

  /** From address `pc`, with any stack and any saved states, the code yields `f` at
      address `end`. */
  ghost predicate Does(p: Prog, x: Ctx, pc: nat, end: nat, f: St -> seq<St>) {
    forall s: St, stack: seq<int>, base: seq<Saved> ::
      ValidSt(x, s) ==> Continues(p, x, s, pc, stack, base, f(s), end, stack)
  }

  /** As `Continues`, above any saved states. */
  ghost predicate ContinuesAny(p: Prog, x: Ctx, s: St, pc: nat, stack: seq<int>, out: seq<St>, end: nat,
      endStack: seq<int>) {
    forall base :: Continues(p, x, s, pc, stack, base, out, end, endStack)
  }

  ghost predicate KeepsValid(x: Ctx, f: St -> seq<St>) {
    forall s: St :: ValidSt(x, s) ==> AllValid(x, f(s))
  }

  lemma StepAt(p: Prog, x: Ctx, pc: nat, i: Instr, s: St, stack: seq<int>, base: seq<Saved>)
    requires At(p, pc, [i]) && ValidSt(x, s)
    ensures Step(p, x, Run(pc, s, stack, base)) == StepRun(p, x, i, pc, s, stack, base)
  {
  }

  // ----- one-character atoms and assertions -----

  /** An instruction that moves or fails in one step. */
  lemma AdvanceYields(p: Prog, x: Ctx, pc: nat, i: Instr, s: St, stack: seq<int>, base: seq<Saved>, out: seq<St>)
    requires At(p, pc, [i]) && ValidSt(x, s)
    requires ReadsOneChar(i) || IsAssertion(i)
    requires out == match Advance(i, x, s) case None => [] case Some(t) => [t]
    ensures Continues(p, x, s, pc, stack, base, out, pc + Size(i), stack)
  {
    var c := Run(pc, s, stack, base);
    if out == [] {
      YieldsNone(p, x, pc + Size(i), stack, base);
    } else {
      YieldsOne(p, x, out[0], pc + Size(i), stack, base);
    }
    YieldsStep(p, x, c, out, pc + Size(i), stack, base);
  }

  lemma OneCharForward(p: Prog, x: Ctx, pc: nat, r: Regex, s: St, stack: seq<int>, base: seq<Saved>)
    requires WellFormed(r) && (r.Char? || r.Dot? || r.Class?) && ValidSt(x, s) && ValidChars(x)
    requires At(p, pc, [OneCharCode(r)])
    ensures Continues(p, x, s, pc, stack, base, OneChar(r, true, x, s), pc + Size(OneCharCode(r)), stack)
  {
    var i := OneCharCode(r);
    if s.pos < |x.input| {
      OneCharTest(r, x.input[s.pos]);
    }
    AdvanceYields(p, x, pc, i, s, stack, base, OneChar(r, true, x, s));
  }

  lemma OneCharBackward(p: Prog, x: Ctx, pc: nat, r: Regex, s: St, stack: seq<int>, base: seq<Saved>)
    requires WellFormed(r) && (r.Char? || r.Dot? || r.Class?) && ValidSt(x, s) && ValidChars(x)
    requires At(p, pc, [Prev] + [OneCharCode(r)] + [Prev])
    ensures Continues(p, x, s, pc, stack, base, OneChar(r, false, x, s), pc + 1 + Size(OneCharCode(r)) + 1, stack)
  {
    hide ValidChars;
    hide At;
    hide SortedPoints;
    hide ReadsOneChar;
    hide CharCode;
    hide RangeCode;
    hide Yields;
    var end := pc + 1 + Size(OneCharCode(r)) + 1;
    var out := OneChar(r, false, x, s);
    AtThree(p, pc, [Prev], [OneCharCode(r)], [Prev]);
    if s.pos == 0 {
      YieldsNone(p, x, end, stack, base);
    } else {
      BackwardRest(p, x, pc + 1, r, s, stack, base);
    }
    YieldsStep(p, x, Run(pc, s, stack, base), out, end, stack, base);
  }

  /** After the first `prev`: read the character, then step back over it. */
  lemma BackwardRest(p: Prog, x: Ctx, pc: nat, r: Regex, s: St, stack: seq<int>, base: seq<Saved>)
    requires WellFormed(r) && (r.Char? || r.Dot? || r.Class?) && ValidSt(x, s) && ValidChars(x) && s.pos > 0
    requires At(p, pc, [OneCharCode(r)]) && At(p, pc + Size(OneCharCode(r)), [Prev])
    ensures Continues(p, x, s.(pos := s.pos - 1), pc, stack, base, OneChar(r, false, x, s),
      pc + Size(OneCharCode(r)) + 1, stack)
  {
    var n := Size(OneCharCode(r));
    var t := s.(pos := s.pos - 1);
    OneCharForward(p, x, pc, r, t, stack, base);
    var ss := OneChar(r, true, x, t);
    assert ss == Test(OneChar(r, false, x, s) != [], s);
    var mid, end := pc + n, pc + n + 1;
    forall o, b | o in ss
      ensures Continues(p, x, o, mid, stack, b, BackOne(o), end, stack)
    {
      PrevYields(p, x, mid, s, stack, b);
    }
    YieldsBind(p, x, Run(pc, t, stack, base), ss, mid, stack, BackOne, end, stack, base);
    FlatMapOne(s, BackOne);
  }

  function BackOne(s: St): seq<St> {
    if s.pos == 0 then [] else [s.(pos := s.pos - 1)]
  }

  lemma PrevYields(p: Prog, x: Ctx, pc: nat, s: St, stack: seq<int>, base: seq<Saved>)
    requires At(p, pc, [Prev]) && ValidSt(x, s)
    ensures Continues(p, x, s, pc, stack, base, BackOne(s), pc + 1, stack)
  {
    StepAt(p, x, pc, Prev, s, stack, base);
    if s.pos == 0 {
      YieldsNone(p, x, pc + 1, stack, base);
    } else {
      YieldsOne(p, x, s.(pos := s.pos - 1), pc + 1, stack, base);
    }
    YieldsStep(p, x, Run(pc, s, stack, base), BackOne(s), pc + 1, stack, base);
  }

  lemma BackRefYields(p: Prog, x: Ctx, pc: nat, n: nat, fwd: bool, s: St, stack: seq<int>, base: seq<Saved>)
    requires At(p, pc, [if fwd then BackReference(n) else BackwardBackReference(n)]) && ValidSt(x, s)
    ensures Continues(p, x, s, pc, stack, base, BackRefMatch(n, fwd, x, s), pc + 2, stack)
  {
    var out := BackRefMatch(n, fwd, x, s);
    if out == [] {
      YieldsNone(p, x, pc + 2, stack, base);
    } else {
      YieldsOne(p, x, out[0], pc + 2, stack, base);
    }
    YieldsStep(p, x, Run(pc, s, stack, base), out, pc + 2, stack, base);
  }

  // ----- sequencing -----

  /** Two pieces in a row. */
  lemma ThenYields(p: Prog, x: Ctx, s: St, pc: nat, stack: seq<int>, base: seq<Saved>, ss: seq<St>,
                   mid: nat, f: St -> seq<St>, end: nat)
    requires AllValid(x, ss)
    requires Continues(p, x, s, pc, stack, base, ss, mid, stack)
    requires Does(p, x, mid, end, f)
    ensures Continues(p, x, s, pc, stack, base, FlatMap(ss, f), end, stack)
  {
    forall o, b | o in ss
      ensures Continues(p, x, o, mid, stack, b, f(o), end, stack)
    {
      assert ValidSt(x, o);
    }
    YieldsBind(p, x, Run(pc, s, stack, base), ss, mid, stack, f, end, stack, base);
  }

  // ----- splits -----

  /** A split explores `first`, then `second`. */
  lemma SplitYields(p: Prog, x: Ctx, c: Cfg, first: nat, second: nat, s: St, stack: seq<int>, base: seq<Saved>,
                    xs: seq<St>, ys: seq<St>, end: nat, endStack: seq<int>)
    requires Step(p, x, c) == Run(first, s, stack, base + [Saved(SplitState, 0, second, s, stack)])
    requires Continues(p, x, s, first, stack, base + [Saved(SplitState, 0, second, s, stack)], xs, end, endStack)
    requires Continues(p, x, s, second, stack, base, ys, end, endStack)
    ensures Yields(p, x, c, xs + ys, end, endStack, base)
  {
    var top := Saved(SplitState, 0, second, s, stack);
    assert (base + [top])[..|base|] == base;
    assert Step(p, x, Fail(base + [top])) == Run(second, s, stack, base);
    YieldsStep(p, x, Fail(base + [top]), ys, end, endStack, base);
    YieldsAppend(p, x, Step(p, x, c), xs, ys, end, endStack, base, [top]);
    YieldsStep(p, x, c, xs + ys, end, endStack, base);
  }

  /** A jump over the rest of a disjunction. */
  lemma GotoYields(p: Prog, x: Ctx, c: Cfg, ss: seq<St>, mid: nat, end: nat, stack: seq<int>, base: seq<Saved>)
    requires end >= mid + 5 && At(p, mid, [Goto(end - (mid + 5))]) && AllValid(x, ss)
    requires Yields(p, x, c, ss, mid, stack, base)
    ensures Yields(p, x, c, ss, end, stack, base)
  {
    forall o, b | o in ss
      ensures Continues(p, x, o, mid, stack, b, Just(o), end, stack)
    {
      assert ValidSt(x, o);
      StepAt(p, x, mid, Goto(end - (mid + 5)), o, stack, b);
      YieldsOne(p, x, o, end, stack, b);
      YieldsStep(p, x, Run(mid, o, stack, b), [o], end, stack, b);
    }
    YieldsBind(p, x, c, ss, mid, stack, Just, end, stack, base);
    BindJust(ss);
  }

  lemma AltYields(p: Prog, x: Ctx, pc: nat, a: seq<Instr>, b: seq<Instr>, s: St, stack: seq<int>, base: seq<Saved>,
                  f: St -> seq<St>, g: St -> seq<St>)
    requires At(p, pc, AltCode(a, b)) && ValidSt(x, s) && AllValid(x, f(s))
    requires Does(p, x, pc + 5, pc + 5 + Len(a), f)
    requires Does(p, x, pc + 10 + Len(a), pc + 10 + Len(a) + Len(b), g)
    ensures Continues(p, x, s, pc, stack, base, f(s) + g(s), pc + Len(AltCode(a, b)), stack)
  {
    hide At;
    hide ValidSt;
    hide AllValid;
    hide Yields;
    hide Reaches;
    hide StepSuccess;
    hide SetCap;
    hide RunAtoms;
    hide Advance;
    AtConcat(p, pc, [SplitNextFirst(Len(a) + 5)] + a + [Goto(Len(b))], b);
    LenConcat([SplitNextFirst(Len(a) + 5)] + a + [Goto(Len(b))], b);
    AtThree(p, pc, [SplitNextFirst(Len(a) + 5)], a, [Goto(Len(b))]);
    var mid := pc + 5 + Len(a);
    var end := mid + 5 + Len(b);
    var states := base + [Saved(SplitState, 0, mid + 5, s, stack)];
    StepAt(p, x, pc, SplitNextFirst(Len(a) + 5), s, stack, base);
    assert Continues(p, x, s, pc + 5, stack, states, f(s), mid, stack);
    GotoYields(p, x, Run(pc + 5, s, stack, states), f(s), mid, end, stack, states);
    assert Continues(p, x, s, mid + 5, stack, base, g(s), end, stack);
    SplitYields(p, x, Run(pc, s, stack, base), pc + 5, mid + 5, s, stack, base, f(s), g(s), end, stack);
  }

  function Just(s: St): seq<St> { [s] }

  lemma {:induction false} BindJust(ss: seq<St>)
    ensures FlatMap(ss, Just) == ss
    decreases |ss|
  {
    if ss != [] {
      BindJust(ss[1..]);
    }
  }

  // ----- captures -----

  /** Closing a group records the position in every result. */
  lemma CloseYields(p: Prog, x: Ctx, c: Cfg, ss: seq<St>, mid: nat, cc: nat, fwd: bool, stack: seq<int>,
      base: seq<Saved>)
    requires At(p, mid, [if fwd then SaveEnd(cc) else SaveStart(cc)]) && cc < x.ncap && AllValid(x, ss)
    requires Yields(p, x, c, ss, mid, stack, base)
    ensures Yields(p, x, c, FlatMap(ss, Closing(2 * cc + (if fwd then 1 else 0))), mid + 2, stack, base)
  {
    var f := Closing(2 * cc + (if fwd then 1 else 0));
    var end := mid + 2;
    forall o, bs | o in ss
      ensures Continues(p, x, o, mid, stack, bs, f(o), end, stack)
    {
      assert ValidSt(x, o);
      StepAt(p, x, mid, if fwd then SaveEnd(cc) else SaveStart(cc), o, stack, bs);
      YieldsOne(p, x, f(o)[0], end, stack, bs);
      YieldsStep(p, x, Run(mid, o, stack, bs), f(o), end, stack, bs);
    }
    YieldsBind(p, x, c, ss, mid, stack, f, end, stack, base);
  }

  lemma CaptureYields(p: Prog, x: Ctx, pc: nat, b: seq<Instr>, s: St, stack: seq<int>, base: seq<Saved>,
                      f: St -> seq<St>, cc: nat, fwd: bool)
    requires At(p, pc, CaptureCode(cc, fwd, b)) && ValidSt(x, s) && cc < x.ncap && KeepsValid(x, f)
    requires Does(p, x, pc + 2, pc + 2 + Len(b), f)
    ensures var inside := SetCap(s, 2 * cc + (if fwd then 0 else 1), s.pos);
            Continues(p, x, s, pc, stack, base, FlatMap(f(inside), Closing(2 * cc + (if fwd then 1 else 0))),
                      pc + Len(CaptureCode(cc, fwd, b)), stack)
  {
    hide At;
    hide SetCap;
    hide FlatMap;
    hide Step;
    hide Reaches;
    var first := if fwd then SaveStart(cc) else SaveEnd(cc);
    AtThree(p, pc, [first], b, [if fwd then SaveEnd(cc) else SaveStart(cc)]);
    var mid := pc + 2 + Len(b);
    var inside := SetCap(s, 2 * cc + (if fwd then 0 else 1), s.pos);
    var c := Run(pc, s, stack, base);
    StepAt(p, x, pc, first, s, stack, base);
    assert Continues(p, x, inside, pc + 2, stack, base, f(inside), mid, stack);
    YieldsStep(p, x, c, f(inside), mid, stack, base);
    assert ValidSt(x, inside);
    CloseYields(p, x, c, f(inside), mid, cc, fwd, stack, base);
  }

  // ----- look-around -----

  /** A successful body discards the alternatives it left and closes the look-around. */
  lemma {:induction false} Discard(p: Prog, x: Ctx, s: St, base: seq<Saved>, left: seq<Saved>)
    requires Choices(left)
    ensures Reaches(p, x, Success(s, base + left), Success(s, base))
    decreases |left|
  {
    if left == [] {
      assert base + left == base;
      ReachesRefl(p, x, Success(s, base));
    } else {
      var n := |left| - 1;
      assert (base + left)[..|base + left| - 1] == base + left[..n];
      Discard(p, x, s, base, left[..n]);
      ReachesStep(p, x, Success(s, base + left));
      ReachesTrans(p, x, Success(s, base + left), Success(s, base + left[..n]), Success(s, base));
    }
  }

  /** The body of a look-around runs to its verdict. */
  lemma LookVerdict(p: Prog, x: Ctx, s: St, pc: nat, stack: seq<int>, base: seq<Saved>, out: seq<St>, end: nat)
    requires AllValid(x, out)
    requires Continues(p, x, s, pc, stack, base, out, end, stack)
    requires At(p, end, [MatchOp])
    ensures Reaches(p, x, Run(pc, s, stack, base), if out == [] then Fail(base) else Success(out[0], base))
  {
    if out != [] {
      var c := Run(pc, s, stack, base);
      assert Yields(p, x, c, out, end, stack, base);
      var left :| Arrives(p, x, c, out, end, stack, base, left);
      var d := Run(end, out[0], stack, base + left);
      assert out[0] in out;
      ReachesStep(p, x, d);
      Discard(p, x, out[0], base, left);
      ReachesTrans(p, x, d, Success(out[0], base + left), Success(out[0], base));
      ReachesTrans(p, x, c, d, Success(out[0], base));
    }
  }

  /** Leaving a look-around, with the verdict of its body. */
  lemma LookLeave(p: Prog, x: Ctx, neg: bool, s: St, stack: seq<int>, base: seq<Saved>, inner: seq<St>, end: nat)
    ensures var top := Saved(if neg then NegativeLookaheadState else LookaheadState, 0, end, s, stack);
            Yields(p, x, if inner == [] then Fail(base + [top]) else Success(inner[0], base + [top]),
                   LookResult(neg, s, inner), end, stack, base)
  {
    var top := Saved(if neg then NegativeLookaheadState else LookaheadState, 0, end, s, stack);
    assert (base + [top])[..|base|] == base;
    var out := LookResult(neg, s, inner);
    if out == [] {
      YieldsNone(p, x, end, stack, base);
    } else {
      YieldsOne(p, x, out[0], end, stack, base);
    }
    YieldsStep(p, x, if inner == [] then Fail(base + [top])
      else Success(inner[0], base + [top]), out, end, stack, base);
  }

  function LookResult(neg: bool, s: St, inner: seq<St>): seq<St> {
    if neg then Test(inner == [], s)
    else if inner == [] then [] else [s.(caps := inner[0].caps)]
  }

  lemma LookEnters(p: Prog, x: Ctx, pc: nat, b: seq<Instr>, s: St, stack: seq<int>, base: seq<Saved>, neg: bool)
    requires At(p, pc, LookCode(neg, b)) && ValidSt(x, s)
    ensures var top := Saved(if neg then NegativeLookaheadState else LookaheadState, 0, pc + 6 + Len(b), s, stack);
            Step(p, x, Run(pc, s, stack, base)) == Run(pc + 5, s, stack, base + [top])
    ensures At(p, pc + 5 + Len(b), [MatchOp]) && Len(LookCode(neg, b)) == Len(b) + 6
  {
    var first := if neg then NegativeLookahead(Len(b) + 1) else Lookahead(Len(b) + 1);
    AtThree(p, pc, [first], b, [MatchOp]);
    StepAt(p, x, pc, first, s, stack, base);
  }

  lemma LookYields(p: Prog, x: Ctx, pc: nat, b: seq<Instr>, s: St, stack: seq<int>, base: seq<Saved>,
                   f: St -> seq<St>, neg: bool)
    requires At(p, pc, LookCode(neg, b)) && ValidSt(x, s) && AllValid(x, f(s))
    requires Does(p, x, pc + 5, pc + 5 + Len(b), f)
    ensures Continues(p, x, s, pc, stack, base, LookResult(neg, s, f(s)), pc + Len(LookCode(neg, b)), stack)
  {
    hide At;
    hide Step;
    hide Len;
    hide LookResult;
    hide Yields;
    LookEnters(p, x, pc, b, s, stack, base, neg);
    var end := pc + 6 + Len(b);
    var states := base + [Saved(if neg then NegativeLookaheadState else LookaheadState, 0, end, s, stack)];
    var inner := f(s);
    var c := Run(pc, s, stack, base);
    assert Continues(p, x, s, pc + 5, stack, states, inner, pc + 5 + Len(b), stack);
    LookVerdict(p, x, s, pc + 5, stack, states, inner, pc + 5 + Len(b));
    LookLeave(p, x, neg, s, stack, base, inner, end);
    var out := LookResult(neg, s, inner);
    YieldsPrefix(p, x, Step(p, x, c), if inner == [] then Fail(states)
      else Success(inner[0], states), out, end, stack, base);
    YieldsStep(p, x, c, out, end, stack, base);
  }
}
