/** Simulation of the loop codes. `f` stands for one iteration of the atom and `g` for
    one iteration that moved; the results of a loop are any function that satisfies
    the loop's equation. */
module RegexLoopPieces {
  import opened RegexSyntax
  import opened RegexCode
  import opened RegexMatcher
  import opened RegexVm
  import opened RegexYields
  import opened RegexLoops
  import opened RegexPieces

  /** Every result is strictly ahead. */
  ghost predicate Advancing(fwd: bool, x: Ctx, g: St -> seq<St>) {
    forall s: St, o: St :: ValidSt(x, s) && o in g(s) ==> ValidSt(x, o) && Rem(fwd, x, o) < Rem(fwd, x, s)
  }

  /** `a` first when greedy, last when lazy. */
  function Prefer(greedy: bool, a: seq<St>, b: seq<St>): seq<St> {
    if greedy then a + b else b + a
  }

  ghost predicate MovesAlways(x: Ctx, f: St -> seq<St>) {
    forall s: St :: ValidSt(x, s) ==> Moved(s, f(s)) == f(s)
  }

  // ----- one checked iteration -----

  function MovedOf(f: St -> seq<St>): St -> seq<St> {
    (s: St) => Moved(s, f(s))
  }

  lemma CheckYields(p: Prog, x: Ctx, pc: nat, o: St, pos: nat, s: St, stack: seq<int>, base: seq<Saved>)
    requires At(p, pc, [CheckAdvance]) && ValidSt(x, o) && pos == s.pos
    ensures Continues(p, x, o, pc, stack + [pos], base, Only(s)(o), pc + 1, stack)
  {
    StepAt(p, x, pc, CheckAdvance, o, stack + [pos], base);
    assert (stack + [pos])[..|stack|] == stack;
    if o.pos == pos {
      YieldsNone(p, x, pc + 1, stack, base);
    } else {
      YieldsOne(p, x, o, pc + 1, stack, base);
    }
    YieldsStep(p, x, Run(pc, o, stack + [pos], base), Only(s)(o), pc + 1, stack, base);
  }

  lemma CheckPairYields(p: Prog, x: Ctx, pc: nat, n: nat, f: St -> seq<St>, s: St, stack: seq<int>, base: seq<Saved>)
    requires At(p, pc, [PushCharPos]) && At(p, pc + 1 + n, [CheckAdvance])
    requires ValidSt(x, s) && KeepsValid(x, f) && Does(p, x, pc + 1, pc + 1 + n, f)
    ensures Continues(p, x, s, pc, stack, base, Moved(s, f(s)), pc + n + 2, stack)
  {
    var mid, end := pc + 1 + n, pc + n + 2;
    var inner := stack + [s.pos];
    var g := Only(s);
    StepAt(p, x, pc, PushCharPos, s, stack, base);
    assert Continues(p, x, s, pc + 1, inner, base, f(s), mid, inner);
    forall o, b | o in f(s)
      ensures Continues(p, x, o, mid, inner, b, g(o), end, stack)
    {
      assert ValidSt(x, o);
      CheckYields(p, x, mid, o, s.pos, s, stack, b);
    }
    YieldsBind(p, x, Run(pc + 1, s, inner, base), f(s), mid, inner, g, end, stack, base);
    MovedIsBind(s, f(s));
    YieldsStep(p, x, Run(pc, s, stack, base), Moved(s, f(s)), end, stack, base);
  }

  lemma CheckedLen(c: seq<Instr>, check: bool)
    ensures Len(Checked(c, check)) == Len(c) + 2 * B(check)
  {
    if check {
      LenConcat([PushCharPos] + c, [CheckAdvance]);
      LenConcat([PushCharPos], c);
    }
  }

  /** The atom starts after `push_char_pos`, if there is one. */
  lemma CheckedParts(p: Prog, pc: nat, c: seq<Instr>, check: bool)
    requires At(p, pc, Checked(c, check))
    ensures At(p, pc + B(check), c)
    ensures check ==> At(p, pc, [PushCharPos]) && At(p, pc + 1 + Len(c), [CheckAdvance])
  {
    hide At;
    if check {
      AtThree(p, pc, [PushCharPos], c, [CheckAdvance]);
    }
  }

  /** With the check, or with an atom that always moves, one iteration is `MovedOf(f)`. */
  lemma CheckedDoes(p: Prog, x: Ctx, pc: nat, n: nat, check: bool, f: St -> seq<St>, end: nat)
    requires check ==> At(p, pc, [PushCharPos]) && At(p, pc + 1 + n, [CheckAdvance])
    requires KeepsValid(x, f) && end == pc + n + 2 * B(check)
    requires check || MovesAlways(x, f)
    requires Does(p, x, pc + B(check), pc + B(check) + n, f)
    ensures Does(p, x, pc, end, MovedOf(f))
  {
    var g := MovedOf(f);
    forall s: St, stack: seq<int>, base: seq<Saved> | ValidSt(x, s)
      ensures Continues(p, x, s, pc, stack, base, g(s), end, stack)
    {
      if check {
        CheckPairYields(p, x, pc, n, f, s, stack, base);
      } else {
        assert Continues(p, x, s, pc, stack, base, f(s), end, stack);
      }
    }
  }

  // ----- split around an optional part -----

  /** The exit split: the optional part in place, the exit right after it. */
  lemma ExitSplitYields(p: Prog, x: Ctx, pc: nat, greedy: bool, off: nat, s: St, stack: seq<int>, base: seq<Saved>,
                        more: seq<St>, exit: seq<St>, end: nat, endStack: seq<int>)
    requires At(p, pc, [SplitExit(greedy, off)]) && ValidSt(x, s)
    requires ContinuesAny(p, x, s, pc + 5, stack, more, end, endStack)
    requires ContinuesAny(p, x, s, pc + 5 + off, stack, exit, end, endStack)
    ensures Continues(p, x, s, pc, stack, base, Prefer(greedy, more, exit), end, endStack)
  {
    StepAt(p, x, pc, SplitExit(greedy, off), s, stack, base);
    var c := Run(pc, s, stack, base);
    var first, second := if greedy then pc + 5 else pc + 5 + off, if greedy then pc + 5 + off else pc + 5;
    var xs, ys := if greedy then more else exit, if greedy then exit else more;
    assert Continues(p, x, s, first, stack, base + [Saved(SplitState, 0, second, s, stack)], xs, end, endStack);
    assert Continues(p, x, s, second, stack, base, ys, end, endStack);
    SplitYields(p, x, c, first, second, s, stack, base, xs, ys, end, endStack);
  }

  lemma ExitYields(p: Prog, x: Ctx, pc: nat, s: St, stack: seq<int>)
    ensures ContinuesAny(p, x, s, pc, stack, [s], pc, stack)
  {
    forall b ensures Continues(p, x, s, pc, stack, b, [s], pc, stack) {
      YieldsOne(p, x, s, pc, stack, b);
    }
  }

  lemma OptYields(p: Prog, x: Ctx, pc: nat, w: nat, greedy: bool, g: St -> seq<St>, s: St, stack: seq<int>,
      base: seq<Saved>)
    requires At(p, pc, [SplitExit(greedy, w)]) && ValidSt(x, s) && Does(p, x, pc + 5, pc + 5 + w, g)
    ensures Continues(p, x, s, pc, stack, base, Prefer(greedy, g(s), [s]), pc + 5 + w, stack)
  {
    var body, end := pc + 5, pc + 5 + w;
    forall b ensures Continues(p, x, s, body, stack, b, g(s), end, stack) {}
    ExitYields(p, x, end, s, stack);
    ExitSplitYields(p, x, pc, greedy, w, s, stack, base, g(s), [s], end, stack);
  }

  // ----- E* -----

  /** The equation of an unbounded loop whose iterations must move. */
  ghost predicate StarEquation(x: Ctx, g: St -> seq<St>, greedy: bool, rep: St -> seq<St>) {
    forall s: St :: ValidSt(x, s) ==> rep(s) == Prefer(greedy, FlatMap(g(s), rep), [s])
  }

  ghost predicate StarAt(p: Prog, pc: nat, w: nat, greedy: bool) {
    At(p, pc, [SplitExit(greedy, w + 5)]) && At(p, pc + 5 + w, [Goto(Back(w + 10))])
  }

  lemma {:induction false} StarYields(p: Prog, x: Ctx, pc: nat, w: nat, greedy: bool, fwd: bool,
                                      g: St -> seq<St>, rep: St -> seq<St>, s: St, stack: seq<int>, base: seq<Saved>)
    requires StarAt(p, pc, w, greedy) && ValidSt(x, s)
    requires Advancing(fwd, x, g) && StarEquation(x, g, greedy, rep) && Does(p, x, pc + 5, pc + 5 + w, g)
    ensures Continues(p, x, s, pc, stack, base, rep(s), pc + 10 + w, stack)
    decreases Rem(fwd, x, s), 1
  {
    var body, end := pc + 5, pc + 10 + w;
    var more := FlatMap(g(s), rep);
    forall b ensures Continues(p, x, s, body, stack, b, more, end, stack) {
      StarMore(p, x, pc, w, greedy, fwd, g, rep, s, stack, b);
    }
    ExitYields(p, x, end, s, stack);
    ExitSplitYields(p, x, pc, greedy, w + 5, s, stack, base, more, [s], end, stack);
  }

  /** One iteration, then the loop again from every state it moved to. */
  lemma {:induction false} StarMore(p: Prog, x: Ctx, pc: nat, w: nat, greedy: bool, fwd: bool,
                                    g: St -> seq<St>, rep: St -> seq<St>, s: St, stack: seq<int>, base: seq<Saved>)
    requires StarAt(p, pc, w, greedy) && ValidSt(x, s)
    requires Advancing(fwd, x, g) && StarEquation(x, g, greedy, rep) && Does(p, x, pc + 5, pc + 5 + w, g)
    ensures Continues(p, x, s, pc + 5, stack, base, FlatMap(g(s), rep), pc + 10 + w, stack)
    decreases Rem(fwd, x, s), 0
  {
    hide ValidSt;
    hide StarEquation;
    hide FlatMap;
    hide Rem;
    hide At;
    hide SplitExit;
    hide Yields;
    hide Step;
    hide Reaches;
    hide Arrives;
    hide SplitTo;
    hide SetCap;
    hide ResetCaps;
    hide StepBackRef;
    hide RunAtoms;
    var mid, end := pc + 5 + w, pc + 10 + w;
    assert Continues(p, x, s, pc + 5, stack, base, g(s), mid, stack);
    forall o, b | o in g(s)
      ensures Continues(p, x, o, mid, stack, b, rep(o), end, stack)
    {
      StepAt(p, x, mid, Goto(Back(w + 10)), o, stack, b);
      StarYields(p, x, pc, w, greedy, fwd, g, rep, o, stack, b);
      YieldsStep(p, x, Run(mid, o, stack, b), rep(o), end, stack, b);
    }
    YieldsBind(p, x, Run(pc + 5, s, stack, base), g(s), mid, stack, rep, end, stack, base);
  }

  // ----- at most k more iterations -----

  ghost predicate CountEquation(x: Ctx, g: St -> seq<St>, greedy: bool, reps: nat -> (St -> seq<St>)) {
    && (forall s: St :: ValidSt(x, s) ==> reps(0)(s) == [s])
    && (forall k: nat, s: St :: ValidSt(x, s) && 0 < k < INT32_MAX ==>
          reps(k)(s) == Prefer(greedy, FlatMap(g(s), reps(k - 1)), [s]))
  }

  lemma CountNone(x: Ctx, g: St -> seq<St>, greedy: bool, reps: nat -> (St -> seq<St>))
    requires CountEquation(x, g, greedy, reps)
    ensures forall s: St :: ValidSt(x, s) ==> reps(0)(s) == [s]
  {
    hide FlatMap;
    hide Prefer;
  }

  lemma DropYields(p: Prog, x: Ctx, pc: nat, s: St, stack: seq<int>, k: int, base: seq<Saved>)
    requires At(p, pc, [Drop]) && ValidSt(x, s)
    ensures Continues(p, x, s, pc, stack + [k], base, [s], pc + 1, stack)
  {
    StepAt(p, x, pc, Drop, s, stack + [k], base);
    assert (stack + [k])[..|stack|] == stack;
    YieldsOne(p, x, s, pc + 1, stack, base);
    YieldsStep(p, x, Run(pc, s, stack + [k], base), [s], pc + 1, stack, base);
  }

  ghost predicate LoopAt(p: Prog, pc: nat, off: int) {
    At(p, pc, [Loop(off)]) && At(p, pc + 5, [Drop])
  }

  /** `loop` decrements the counter; at zero it falls through to `drop`. */
  lemma LoopYields(p: Prog, x: Ctx, pc: nat, off: int, s: St, stack: seq<int>, k: nat, base: seq<Saved>, again: seq<St>)
    requires LoopAt(p, pc, off) && ValidSt(x, s) && k > 0 && pc + 5 + off >= 0
    requires k > 1 ==> Continues(p, x, s, pc + 5 + off, stack + [k - 1], base, again, pc + 6, stack)
    requires k == 1 ==> again == [s]
    ensures Continues(p, x, s, pc, stack + [k], base, again, pc + 6, stack)
  {
    StepAt(p, x, pc, Loop(off), s, stack + [k], base);
    assert (stack + [k])[..|stack|] == stack;
    if k == 1 {
      DropYields(p, x, pc + 5, s, stack, 0, base);
    }
    YieldsStep(p, x, Run(pc, s, stack + [k], base), again, pc + 6, stack, base);
  }

  ghost predicate CountAt(p: Prog, pc: nat, w: nat, greedy: bool) {
    At(p, pc, [SplitExit(greedy, w + 5)]) && LoopAt(p, pc + 5 + w, Back(w + 10))
  }

  lemma {:induction false} CountYields(p: Prog, x: Ctx, pc: nat, w: nat, greedy: bool,
                                       g: St -> seq<St>, reps: nat -> (St -> seq<St>), k: nat,
                                       s: St, stack: seq<int>, base: seq<Saved>)
    requires CountAt(p, pc, w, greedy) && ValidSt(x, s) && 0 < k < INT32_MAX
    requires KeepsValid(x, g) && CountEquation(x, g, greedy, reps) && Does(p, x, pc + 5, pc + 5 + w, g)
    ensures Continues(p, x, s, pc, stack + [k], base, reps(k)(s), pc + 11 + w, stack)
    decreases k, 1
  {
    hide At;
    hide Yields;
    hide Arrives;
    hide FlatMap;
    var body, exit, end := pc + 5, pc + 10 + w, pc + 11 + w;
    var inner := stack + [k];
    var more := FlatMap(g(s), reps(k - 1));
    forall b ensures Continues(p, x, s, body, inner, b, more, end, stack) {
      CountMore(p, x, pc, w, greedy, g, reps, k, s, stack, b);
    }
    forall b ensures Continues(p, x, s, exit, inner, b, [s], end, stack) {
      DropYields(p, x, exit, s, stack, k, b);
    }
    ExitSplitYields(p, x, pc, greedy, w + 5, s, inner, base, more, [s], end, stack);
  }

  lemma {:induction false} CountMore(p: Prog, x: Ctx, pc: nat, w: nat, greedy: bool,
                                     g: St -> seq<St>, reps: nat -> (St -> seq<St>), k: nat,
                                     s: St, stack: seq<int>, base: seq<Saved>)
    requires CountAt(p, pc, w, greedy) && ValidSt(x, s) && 0 < k < INT32_MAX
    requires KeepsValid(x, g) && CountEquation(x, g, greedy, reps) && Does(p, x, pc + 5, pc + 5 + w, g)
    ensures Continues(p, x, s, pc + 5, stack + [k], base, FlatMap(g(s), reps(k - 1)), pc + 11 + w, stack)
    decreases k, 0
  {
    hide At;
    hide LoopAt;
    hide Steps;
    hide Yields;
    hide Arrives;
    hide FlatMap;
    hide CountEquation;
    var mid, end := pc + 5 + w, pc + 11 + w;
    var inner := stack + [k];
    var again := reps(k - 1);
    CountNone(x, g, greedy, reps);
    assert Continues(p, x, s, pc + 5, inner, base, g(s), mid, inner);
    forall o, b | o in g(s)
      ensures Continues(p, x, o, mid, inner, b, again(o), end, stack)
    {
      assert ValidSt(x, o);
      if k > 1 {
        CountYields(p, x, pc, w, greedy, g, reps, k - 1, o, stack, b);
      }
      LoopYields(p, x, mid, Back(w + 10), o, stack, k, b, again(o));
    }
    YieldsBind(p, x, Run(pc + 5, s, inner, base), g(s), mid, inner, again, end, stack, base);
  }

  /** The counted loop with its counter pushed and dropped. */
  lemma PushedCountYields(p: Prog, x: Ctx, pc: nat, w: nat, greedy: bool,
                          g: St -> seq<St>, reps: nat -> (St -> seq<St>), k: nat,
                          s: St, stack: seq<int>, base: seq<Saved>)
    requires At(p, pc, [PushI32(k)]) && CountAt(p, pc + 5, w, greedy) && ValidSt(x, s) && 0 < k < INT32_MAX
    requires KeepsValid(x, g) && CountEquation(x, g, greedy, reps) && Does(p, x, pc + 10, pc + 10 + w, g)
    ensures Continues(p, x, s, pc, stack, base, reps(k)(s), pc + 16 + w, stack)
  {
    StepAt(p, x, pc, PushI32(k), s, stack, base);
    CountYields(p, x, pc + 5, w, greedy, g, reps, k, s, stack, base);
    YieldsStep(p, x, Run(pc, s, stack, base), reps(k)(s), pc + 16 + w, stack, base);
  }

  // ----- exactly k iterations -----

  ghost predicate TimesEquation(x: Ctx, f: St -> seq<St>, reps: nat -> (St -> seq<St>)) {
    && (forall s: St :: ValidSt(x, s) ==> reps(0)(s) == [s])
    && (forall k: nat, s: St :: ValidSt(x, s) && 0 < k ==> reps(k)(s) == FlatMap(f(s), reps(k - 1)))
  }

  lemma {:induction false} TimesYields(p: Prog, x: Ctx, pc: nat, n: nat, f: St -> seq<St>, reps: nat -> (St -> seq<St>),
                                       k: nat, s: St, stack: seq<int>, base: seq<Saved>)
    requires LoopAt(p, pc + n, Back(n + 5)) && ValidSt(x, s) && 0 < k
    requires KeepsValid(x, f) && TimesEquation(x, f, reps) && Does(p, x, pc, pc + n, f)
    ensures Continues(p, x, s, pc, stack + [k], base, reps(k)(s), pc + n + 6, stack)
    decreases k
  {
    hide Yields;
    hide Arrives;
    hide FlatMap;
    hide StepRun;
    var mid, end := pc + n, pc + n + 6;
    var inner := stack + [k];
    var again := reps(k - 1);
    assert Continues(p, x, s, pc, inner, base, f(s), mid, inner);
    forall o, b | o in f(s)
      ensures Continues(p, x, o, mid, inner, b, again(o), end, stack)
    {
      assert ValidSt(x, o);
      if k > 1 {
        TimesYields(p, x, pc, n, f, reps, k - 1, o, stack, b);
      }
      LoopYields(p, x, mid, Back(n + 5), o, stack, k, b, again(o));
    }
    YieldsBind(p, x, Run(pc, s, inner, base), f(s), mid, inner, again, end, stack, base);
  }

  lemma PushedTimesYields(p: Prog, x: Ctx, pc: nat, n: nat, f: St -> seq<St>, reps: nat -> (St -> seq<St>),
                          k: nat, s: St, stack: seq<int>, base: seq<Saved>)
    requires At(p, pc, [PushI32(k)]) && LoopAt(p, pc + 5 + n, Back(n + 5)) && ValidSt(x, s) && 0 < k
    requires KeepsValid(x, f) && TimesEquation(x, f, reps) && Does(p, x, pc + 5, pc + 5 + n, f)
    ensures Continues(p, x, s, pc, stack, base, reps(k)(s), pc + n + 11, stack)
  {
    StepAt(p, x, pc, PushI32(k), s, stack, base);
    TimesYields(p, x, pc + 5, n, f, reps, k, s, stack, base);
    YieldsStep(p, x, Run(pc, s, stack, base), reps(k)(s), pc + n + 11, stack, base);
  }

  // ----- E+ with a closing split -----

  lemma {:induction false} PlusYields(p: Prog, x: Ctx, pc: nat, n: nat, greedy: bool, fwd: bool,
                                      g: St -> seq<St>, rep: St -> seq<St>, s: St, stack: seq<int>, base: seq<Saved>)
    requires At(p, pc + n, [SplitBack(greedy, Back(n + 5))]) && ValidSt(x, s)
    requires Advancing(fwd, x, g) && StarEquation(x, g, greedy, rep) && Does(p, x, pc, pc + n, g)
    ensures Continues(p, x, s, pc, stack, base, FlatMap(g(s), rep), pc + n + 5, stack)
    decreases Rem(fwd, x, s)
  {
    var mid, end := pc + n, pc + n + 5;
    assert Continues(p, x, s, pc, stack, base, g(s), mid, stack);
    forall o, b | o in g(s)
      ensures Continues(p, x, o, mid, stack, b, rep(o), end, stack)
    {
      forall bs ensures Continues(p, x, o, pc, stack, bs, FlatMap(g(o), rep), end, stack) {
        PlusYields(p, x, pc, n, greedy, fwd, g, rep, o, stack, bs);
      }
      BackSplitYields(p, x, mid, greedy, n, o, stack, b, FlatMap(g(o), rep));
    }
    YieldsBind(p, x, Run(pc, s, stack, base), g(s), mid, stack, rep, end, stack, base);
  }

  lemma BackSplitYields(p: Prog, x: Ctx, pc: nat, greedy: bool, n: nat, s: St, stack: seq<int>, base: seq<Saved>,
      more: seq<St>)
    requires At(p, pc, [SplitBack(greedy, Back(n + 5))]) && ValidSt(x, s) && n <= pc
    requires ContinuesAny(p, x, s, pc - n, stack, more, pc + 5, stack)
    ensures Continues(p, x, s, pc, stack, base, Prefer(greedy, more, [s]), pc + 5, stack)
  {
    StepAt(p, x, pc, SplitBack(greedy, Back(n + 5)), s, stack, base);
    var c := Run(pc, s, stack, base);
    ExitYields(p, x, pc + 5, s, stack);
    var first, second := if greedy then pc - n else pc + 5, if greedy then pc + 5 else pc - n;
    var xs, ys := if greedy then more else [s], if greedy then [s] else more;
    assert Continues(p, x, s, first, stack, base + [Saved(SplitState, 0, second, s, stack)], xs, pc + 5, stack);
    assert Continues(p, x, s, second, stack, base, ys, pc + 5, stack);
    SplitYields(p, x, c, first, second, s, stack, base, xs, ys, pc + 5, stack);
  }
}
