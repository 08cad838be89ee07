/** Every code shape of a quantifier yields what the quantifier matches. */
module RegexQuantifiers {
  import opened RegexSyntax
  import opened RegexCode
  import opened RegexMatcher
  import opened RegexVm
  import opened RegexYields
  import opened RegexLoops
  import opened RegexAdvance
  import opened RegexPieces
  import opened RegexLoopPieces
  import opened RegexSimple

  // ----- the codes, for any atom -----

  /** The code `c` of an atom does `f` wherever it lies, and without the check `f`
      always moves. */
  ghost predicate AtomEnv(p: Prog, x: Ctx, c: seq<Instr>, check: bool, fwd: bool, f: St -> seq<St>) {
    && (check || MovesAlways(x, f))
    && KeepsValid(x, f)
    && Advancing(fwd, x, MovedOf(f))
    && (forall pc: nat :: At(p, pc, c) ==> DoesAtom(p, x, pc, c, f))
  }

  lemma EnvFacts(p: Prog, x: Ctx, c: seq<Instr>, check: bool, fwd: bool, f: St -> seq<St>)
    requires AtomEnv(p, x, c, check, fwd, f)
    ensures KeepsValid(x, f) && Advancing(fwd, x, MovedOf(f))
    ensures check || MovesAlways(x, f)
  {
    hide Advancing;
    hide KeepsValid;
    hide MovesAlways;
  }

  lemma EnvAt(p: Prog, x: Ctx, c: seq<Instr>, check: bool, fwd: bool, f: St -> seq<St>, pc: nat)
    requires AtomEnv(p, x, c, check, fwd, f) && At(p, pc, c)
    ensures Does(p, x, pc, pc + Len(c), f)
  {
    assert DoesAtom(p, x, pc, c, f);
  }

  ghost predicate DoesAtom(p: Prog, x: Ctx, pc: nat, c: seq<Instr>, f: St -> seq<St>) {
    Does(p, x, pc, pc + Len(c), f)
  }

  /** `reps(k)` is at most `k` iterations that move, `reps(INT32_MAX)` any number. */
  ghost predicate RepEquation(x: Ctx, g: St -> seq<St>, greedy: bool, reps: nat -> (St -> seq<St>)) {
    && (forall s: St :: ValidSt(x, s) ==> reps(0)(s) == [s])
    && (forall k: nat, s: St :: ValidSt(x, s) && 0 < k <= INT32_MAX ==>
          reps(k)(s) == Prefer(greedy, FlatMap(g(s), reps(Less(k))), [s]))
  }

  lemma RepsNone(x: Ctx, g: St -> seq<St>, greedy: bool, reps: nat -> (St -> seq<St>))
    requires RepEquation(x, g, greedy, reps)
    ensures forall s: St :: ValidSt(x, s) ==> reps(0)(s) == [s]
  {
    hide FlatMap;
    hide Prefer;
  }

  lemma RepsStar(x: Ctx, g: St -> seq<St>, greedy: bool, reps: nat -> (St -> seq<St>))
    requires RepEquation(x, g, greedy, reps)
    ensures StarEquation(x, g, greedy, reps(INT32_MAX))
  {
    hide FlatMap;
    hide Prefer;
  }

  lemma RepsCount(x: Ctx, g: St -> seq<St>, greedy: bool, reps: nat -> (St -> seq<St>))
    requires RepEquation(x, g, greedy, reps)
    ensures CountEquation(x, g, greedy, reps)
  {
    hide FlatMap;
    hide Prefer;
  }

  lemma AdvancingKeepsValid(fwd: bool, x: Ctx, g: St -> seq<St>)
    requires Advancing(fwd, x, g)
    ensures KeepsValid(x, g)
  {
  }

  lemma IterationDoes(p: Prog, x: Ctx, pc: nat, c: seq<Instr>, check: bool, fwd: bool, f: St -> seq<St>)
    requires AtomEnv(p, x, c, check, fwd, f) && At(p, pc, Checked(c, check))
    ensures Does(p, x, pc, pc + Len(Checked(c, check)), MovedOf(f))
  {
    hide *;
    CheckedParts(p, pc, c, check);
    CheckedLen(c, check);
    EnvFacts(p, x, c, check, fwd, f);
    EnvAt(p, x, c, check, fwd, f, pc + B(check));
    CheckedDoes(p, x, pc, Len(c), check, f, pc + Len(Checked(c, check)));
  }

  lemma StarParts(p: Prog, pc: nat, c: seq<Instr>, check: bool, greedy: bool)
    requires At(p, pc, StarCode(c, check, greedy))
    ensures StarAt(p, pc, Len(Checked(c, check)), greedy) && At(p, pc + 5, Checked(c, check))
    ensures Len(StarCode(c, check, greedy)) == 10 + Len(Checked(c, check))
  {
    var w := Len(Checked(c, check));
    AtThree(p, pc, [SplitExit(greedy, w + 5)], Checked(c, check), [Goto(Back(w + 10))]);
  }

  lemma StarDoes(p: Prog, x: Ctx, pc: nat, c: seq<Instr>, check: bool, fwd: bool, f: St -> seq<St>,
                 greedy: bool, reps: nat -> (St -> seq<St>))
    requires AtomEnv(p, x, c, check, fwd, f) && At(p, pc, StarCode(c, check, greedy))
    requires RepEquation(x, MovedOf(f), greedy, reps)
    ensures Does(p, x, pc, pc + Len(StarCode(c, check, greedy)), reps(INT32_MAX))
  {
    hide *;
    var w := Len(Checked(c, check));
    StarParts(p, pc, c, check, greedy);
    IterationDoes(p, x, pc + 5, c, check, fwd, f);
    EnvFacts(p, x, c, check, fwd, f);
    RepsStar(x, MovedOf(f), greedy, reps);
    StarDoesAt(p, x, pc, w, fwd, MovedOf(f), greedy, reps(INT32_MAX));
  }

  lemma StarDoesAt(p: Prog, x: Ctx, pc: nat, w: nat, fwd: bool, g: St -> seq<St>, greedy: bool, rep: St -> seq<St>)
    requires StarAt(p, pc, w, greedy) && Does(p, x, pc + 5, pc + 5 + w, g)
    requires Advancing(fwd, x, g) && StarEquation(x, g, greedy, rep)
    ensures Does(p, x, pc, pc + 10 + w, rep)
  {
    var end := pc + 10 + w;
    forall s: St, stack: seq<int>, base: seq<Saved> | ValidSt(x, s)
      ensures Continues(p, x, s, pc, stack, base, rep(s), end, stack)
    {
      StarYields(p, x, pc, w, greedy, fwd, g, rep, s, stack, base);
    }
  }

  lemma TwoAt(p: Prog, pc: nat, i: Instr, j: Instr)
    ensures Len([i, j]) == Size(i) + Size(j)
    ensures At(p, pc, [i, j]) ==> At(p, pc, [i]) && At(p, pc + Size(i), [j])
  {
    assert [i, j] == [i] + [j];
    AtConcat(p, pc, [i], [j]);
    LenConcat([i], [j]);
  }

  lemma CountParts(p: Prog, pc: nat, c: seq<Instr>, check: bool, greedy: bool, k: nat)
    requires At(p, pc, CountCode(c, check, greedy, k))
    ensures At(p, pc, [PushI32(k)]) && CountAt(p, pc + 5, Len(Checked(c, check)), greedy)
      && At(p, pc + 10, Checked(c, check))
    ensures Len(CountCode(c, check, greedy, k)) == 16 + Len(Checked(c, check))
  {
    hide At;
    hide Len;
    var w := Len(Checked(c, check));
    AtThree(p, pc, [PushI32(k), SplitExit(greedy, w + 5)], Checked(c, check), [Loop(Back(w + 10)), Drop]);
    TwoAt(p, pc, PushI32(k), SplitExit(greedy, w + 5));
    TwoAt(p, pc + 10 + w, Loop(Back(w + 10)), Drop);
  }

  lemma CountDoes(p: Prog, x: Ctx, pc: nat, c: seq<Instr>, check: bool, fwd: bool, f: St -> seq<St>,
                  greedy: bool, reps: nat -> (St -> seq<St>), k: nat)
    requires AtomEnv(p, x, c, check, fwd, f) && 0 < k < INT32_MAX && At(p, pc, CountCode(c, check, greedy, k))
    requires RepEquation(x, MovedOf(f), greedy, reps)
    ensures Does(p, x, pc, pc + Len(CountCode(c, check, greedy, k)), reps(k))
  {
    hide *;
    CountParts(p, pc, c, check, greedy, k);
    EnvFacts(p, x, c, check, fwd, f);
    IterationDoes(p, x, pc + 10, c, check, fwd, f);
    AdvancingKeepsValid(fwd, x, MovedOf(f));
    RepsCount(x, MovedOf(f), greedy, reps);
    CountDoesAt(p, x, pc, Len(Checked(c, check)), MovedOf(f), greedy, reps, k);
  }

  lemma CountDoesAt(p: Prog, x: Ctx, pc: nat, w: nat, g: St -> seq<St>, greedy: bool,
                    reps: nat -> (St -> seq<St>), k: nat)
    requires 0 < k < INT32_MAX && At(p, pc, [PushI32(k)]) && CountAt(p, pc + 5, w, greedy)
    requires Does(p, x, pc + 10, pc + 10 + w, g) && KeepsValid(x, g) && CountEquation(x, g, greedy, reps)
    ensures Does(p, x, pc, pc + 16 + w, reps(k))
  {
    hide Yields;
    hide Arrives;
    hide FlatMap;
    hide CountEquation;
    hide KeepsValid;
    var end, rep := pc + 16 + w, reps(k);
    forall s: St, stack: seq<int>, base: seq<Saved> | ValidSt(x, s)
      ensures Continues(p, x, s, pc, stack, base, rep(s), end, stack)
    {
      PushedCountYields(p, x, pc, w, greedy, g, reps, k, s, stack, base);
    }
  }

  lemma {:induction false} BindNothing(x: Ctx, ss: seq<St>, f: St -> seq<St>)
    requires AllValid(x, ss) && forall s: St :: ValidSt(x, s) ==> f(s) == [s]
    ensures FlatMap(ss, f) == ss
    decreases |ss|
  {
    if ss != [] {
      assert ss[0] in ss;
      BindNothing(x, ss[1..], f);
    }
  }

  lemma OptParts(p: Prog, pc: nat, c: seq<Instr>, check: bool, greedy: bool)
    requires At(p, pc, OptCode(c, check, greedy))
    ensures At(p, pc, [SplitExit(greedy, Len(Checked(c, check)))]) && At(p, pc + 5, Checked(c, check))
    ensures Len(OptCode(c, check, greedy)) == 5 + Len(Checked(c, check))
  {
    var w := Len(Checked(c, check));
    AtConcat(p, pc, [SplitExit(greedy, w)], Checked(c, check));
    LenConcat([SplitExit(greedy, w)], Checked(c, check));
  }

  lemma OptDoes(p: Prog, x: Ctx, pc: nat, c: seq<Instr>, check: bool, fwd: bool, f: St -> seq<St>,
                greedy: bool, reps: nat -> (St -> seq<St>))
    requires AtomEnv(p, x, c, check, fwd, f) && At(p, pc, OptCode(c, check, greedy))
    requires RepEquation(x, MovedOf(f), greedy, reps)
    ensures Does(p, x, pc, pc + Len(OptCode(c, check, greedy)), reps(1))
  {
    hide *;
    var w := Len(Checked(c, check));
    OptParts(p, pc, c, check, greedy);
    IterationDoes(p, x, pc + 5, c, check, fwd, f);
    EnvFacts(p, x, c, check, fwd, f);
    OptDoesAt(p, x, pc, w, fwd, MovedOf(f), greedy, reps);
  }

  lemma OptDoesAt(p: Prog, x: Ctx, pc: nat, w: nat, fwd: bool, g: St -> seq<St>, greedy: bool,
      reps: nat -> (St -> seq<St>))
    requires At(p, pc, [SplitExit(greedy, w)]) && Does(p, x, pc + 5, pc + 5 + w, g)
    requires Advancing(fwd, x, g) && RepEquation(x, g, greedy, reps)
    ensures Does(p, x, pc, pc + 5 + w, reps(1))
  {
    hide Yields;
    hide Arrives;
    hide FlatMap;
    var end, rep := pc + 5 + w, reps(1);
    forall s: St, stack: seq<int>, base: seq<Saved> | ValidSt(x, s)
      ensures Continues(p, x, s, pc, stack, base, rep(s), end, stack)
    {
      OptYields(p, x, pc, w, greedy, g, s, stack, base);
      BindNothing(x, g(s), reps(0));
    }
  }

  lemma NothingDoes(p: Prog, x: Ctx, pc: nat, f: St -> seq<St>)
    requires forall s: St :: ValidSt(x, s) ==> f(s) == [s]
    ensures Does(p, x, pc, pc, f)
  {
    forall s: St, stack: seq<int>, base: seq<Saved> | ValidSt(x, s)
      ensures Continues(p, x, s, pc, stack, base, f(s), pc, stack)
    {
      YieldsOne(p, x, s, pc, stack, base);
    }
  }

  lemma FromZeroIs(c: seq<Instr>, check: bool, max: nat, greedy: bool)
    ensures FromZeroCode(c, check, max, greedy)
         == if max == 0 then [] else if max == 1 then OptCode(c, check, greedy)
            else if max == INT32_MAX then StarCode(c, check, greedy) else CountCode(c, check, greedy, max)
    ensures Len([]) == 0
  {
  }

  lemma TailIs(c: seq<Instr>, check: bool, min: nat, max: nat, greedy: bool)
    requires min <= max
    ensures TailCode(c, check, min, max, greedy)
         == if max == INT32_MAX then StarCode(c, check, greedy)
            else if max > min then CountCode(c, check, greedy, max - min) else []
    ensures Left(min, max) == if max == INT32_MAX then max else max - min
    ensures Len([]) == 0
  {
  }

  lemma FromZeroDoes(p: Prog, x: Ctx, pc: nat, c: seq<Instr>, check: bool, fwd: bool, f: St -> seq<St>,
                     greedy: bool, reps: nat -> (St -> seq<St>), max: nat)
    requires AtomEnv(p, x, c, check, fwd, f) && max <= INT32_MAX && At(p, pc, FromZeroCode(c, check, max, greedy))
    requires RepEquation(x, MovedOf(f), greedy, reps)
    ensures Does(p, x, pc, pc + Len(FromZeroCode(c, check, max, greedy)), reps(max))
  {
    hide *;
    FromZeroIs(c, check, max, greedy);
    if max == 0 {
      RepsNone(x, MovedOf(f), greedy, reps);
      NothingDoes(p, x, pc, reps(0));
    } else if max == 1 {
      OptDoes(p, x, pc, c, check, fwd, f, greedy, reps);
    } else if max == INT32_MAX {
      StarDoes(p, x, pc, c, check, fwd, f, greedy, reps);
    } else {
      CountDoes(p, x, pc, c, check, fwd, f, greedy, reps, max);
    }
  }

  lemma TailDoes(p: Prog, x: Ctx, pc: nat, c: seq<Instr>, check: bool, fwd: bool, f: St -> seq<St>,
                 greedy: bool, reps: nat -> (St -> seq<St>), min: nat, max: nat)
    requires AtomEnv(p, x, c, check, fwd, f) && 0 < min <= max <= INT32_MAX
    requires At(p, pc, TailCode(c, check, min, max, greedy)) && RepEquation(x, MovedOf(f), greedy, reps)
    ensures Does(p, x, pc, pc + Len(TailCode(c, check, min, max, greedy)), reps(Left(min, max)))
  {
    hide *;
    TailIs(c, check, min, max, greedy);
    if max == INT32_MAX {
      StarDoes(p, x, pc, c, check, fwd, f, greedy, reps);
    } else if max > min {
      CountDoes(p, x, pc, c, check, fwd, f, greedy, reps, max - min);
    } else {
      RepsNone(x, MovedOf(f), greedy, reps);
      NothingDoes(p, x, pc, reps(0));
    }
  }

  /** The code of the mandatory iterations. */
  function FirstCode(c: seq<Instr>, min: nat): seq<Instr> {
    if min == 1 then c else TimesCode(c, min)
  }

  lemma FirstCodeIs(c: seq<Instr>, min: nat)
    ensures FirstCode(c, min) == if min == 1 then c else TimesCode(c, min)
  {
  }

  lemma FirstDoes(p: Prog, x: Ctx, pc: nat, c: seq<Instr>, check: bool, fwd: bool, f: St -> seq<St>,
                  times: nat -> (St -> seq<St>), min: nat)
    requires AtomEnv(p, x, c, check, fwd, f) && 0 < min && At(p, pc, FirstCode(c, min)) && TimesEquation(x, f, times)
    ensures Does(p, x, pc, pc + Len(FirstCode(c, min)), times(min))
  {
    hide *;
    EnvFacts(p, x, c, check, fwd, f);
    FirstCodeIs(c, min);
    if min == 1 {
      EnvAt(p, x, c, check, fwd, f, pc);
      OnceDoes(p, x, pc, f, times, pc + Len(c));
    } else {
      TimesParts(p, pc, c, min);
      EnvAt(p, x, c, check, fwd, f, pc + 5);
      TimesDoes(p, x, pc, Len(c), f, times, min);
    }
  }

  lemma TimesParts(p: Prog, pc: nat, c: seq<Instr>, k: nat)
    requires At(p, pc, TimesCode(c, k))
    ensures At(p, pc, [PushI32(k)]) && At(p, pc + 5, c) && LoopAt(p, pc + 5 + Len(c), Back(Len(c) + 5))
    ensures Len(TimesCode(c, k)) == Len(c) + 11
  {
    hide At;
    AtThree(p, pc, [PushI32(k)], c, [Loop(Back(Len(c) + 5)), Drop]);
    TwoAt(p, pc + 5 + Len(c), Loop(Back(Len(c) + 5)), Drop);
  }

  lemma OnceDoes(p: Prog, x: Ctx, pc: nat, f: St -> seq<St>, times: nat -> (St -> seq<St>), end: nat)
    requires Does(p, x, pc, end, f) && KeepsValid(x, f) && TimesEquation(x, f, times)
    ensures Does(p, x, pc, end, times(1))
  {
    forall s: St | ValidSt(x, s) ensures f(s) == times(1)(s) {
      BindNothing(x, f(s), times(0));
    }
    DoesSame(p, x, pc, end, f, times(1));
  }

  lemma TimesDoes(p: Prog, x: Ctx, pc: nat, n: nat, f: St -> seq<St>, times: nat -> (St -> seq<St>), k: nat)
    requires At(p, pc, [PushI32(k)]) && LoopAt(p, pc + 5 + n, Back(n + 5)) && 0 < k
    requires Does(p, x, pc + 5, pc + 5 + n, f) && KeepsValid(x, f) && TimesEquation(x, f, times)
    ensures Does(p, x, pc, pc + n + 11, times(k))
  {
    hide At;
    hide LoopAt;
    hide KeepsValid;
    hide TimesEquation;
    hide FlatMap;
    hide Yields;
    hide Arrives;
    var rep, end := times(k), pc + n + 11;
    forall s: St, stack: seq<int>, base: seq<Saved> | ValidSt(x, s)
      ensures Continues(p, x, s, pc, stack, base, rep(s), end, stack)
    {
      PushedTimesYields(p, x, pc, n, f, times, k, s, stack, base);
    }
  }

  function Bind(f: St -> seq<St>, g: St -> seq<St>): St -> seq<St> {
    (s: St) => FlatMap(f(s), g)
  }

  lemma BindDoes(p: Prog, x: Ctx, pc: nat, mid: nat, end: nat, f: St -> seq<St>, g: St -> seq<St>)
    requires Does(p, x, pc, mid, f) && Does(p, x, mid, end, g) && KeepsValid(x, f)
    ensures Does(p, x, pc, end, Bind(f, g))
  {
    var h := Bind(f, g);
    forall s: St, stack: seq<int>, base: seq<Saved> | ValidSt(x, s)
      ensures Continues(p, x, s, pc, stack, base, h(s), end, stack)
    {
      assert Continues(p, x, s, pc, stack, base, f(s), mid, stack);
      ThenYields(p, x, s, pc, stack, base, f(s), mid, g, end);
    }
  }

  lemma PlusParts(p: Prog, pc: nat, c: seq<Instr>, greedy: bool)
    requires At(p, pc, PlusCode(c, greedy))
    ensures Checked(c, false) == c && At(p, pc, c) && At(p, pc + Len(c), [SplitBack(greedy, Back(Len(c) + 5))])
    ensures Len(PlusCode(c, greedy)) == Len(c) + 5
  {
    AtConcat(p, pc, c, [SplitBack(greedy, Back(Len(c) + 5))]);
    LenConcat(c, [SplitBack(greedy, Back(Len(c) + 5))]);
  }

  lemma PlusDoes(p: Prog, x: Ctx, pc: nat, c: seq<Instr>, fwd: bool, f: St -> seq<St>,
                 greedy: bool, reps: nat -> (St -> seq<St>))
    requires AtomEnv(p, x, c, false, fwd, f) && At(p, pc, PlusCode(c, greedy))
      && RepEquation(x, MovedOf(f), greedy, reps)
    ensures Does(p, x, pc, pc + Len(PlusCode(c, greedy)), Bind(MovedOf(f), reps(INT32_MAX)))
  {
    hide *;
    PlusParts(p, pc, c, greedy);
    IterationDoes(p, x, pc, c, false, fwd, f);
    EnvFacts(p, x, c, false, fwd, f);
    RepsStar(x, MovedOf(f), greedy, reps);
    PlusDoesAt(p, x, pc, Len(c), fwd, MovedOf(f), greedy, reps(INT32_MAX));
  }

  lemma PlusDoesAt(p: Prog, x: Ctx, pc: nat, n: nat, fwd: bool, g: St -> seq<St>, greedy: bool, star: St -> seq<St>)
    requires At(p, pc + n, [SplitBack(greedy, Back(n + 5))]) && Does(p, x, pc, pc + n, g)
    requires Advancing(fwd, x, g) && StarEquation(x, g, greedy, star)
    ensures Does(p, x, pc, pc + n + 5, Bind(g, star))
  {
    hide Yields;
    hide Arrives;
    hide FlatMap;
    hide StarEquation;
    hide Advancing;
    var end, rep := pc + n + 5, Bind(g, star);
    forall s: St, stack: seq<int>, base: seq<Saved> | ValidSt(x, s)
      ensures Continues(p, x, s, pc, stack, base, rep(s), end, stack)
    {
      PlusYields(p, x, pc, n, greedy, fwd, g, star, s, stack, base);
    }
  }

  function MoreCode(c: seq<Instr>, check: bool, min: nat, max: nat, greedy: bool): seq<Instr> {
    if min == 1 && max == INT32_MAX && !check then PlusCode(c, greedy)
    else FirstCode(c, min) + TailCode(c, check, min, max, greedy)
  }

  /** At least one mandatory iteration. */
  lemma MoreDoes(p: Prog, x: Ctx, pc: nat, c: seq<Instr>, check: bool, fwd: bool, f: St -> seq<St>, greedy: bool,
                 reps: nat -> (St -> seq<St>), times: nat -> (St -> seq<St>), min: nat, max: nat)
    requires AtomEnv(p, x, c, check, fwd, f) && 0 < min <= max <= INT32_MAX
    requires At(p, pc, MoreCode(c, check, min, max, greedy))
    requires RepEquation(x, MovedOf(f), greedy, reps) && TimesEquation(x, f, times) && KeepsValid(x, times(min))
    ensures Does(p, x, pc, pc + Len(MoreCode(c, check, min, max, greedy)), Bind(times(min), reps(Left(min, max))))
  {
    hide Yields;
    hide Arrives;
    hide FlatMap;
    hide At;
    hide FirstCode;
    hide TailCode;
    hide PlusCode;
    hide RepEquation;
    hide TimesEquation;
    hide KeepsValid;
    hide Does;
    MoreCodeIs(c, check, min, max, greedy);
    EnvFacts(p, x, c, check, fwd, f);
    if min == 1 && max == INT32_MAX && !check {
      PlusDoes(p, x, pc, c, fwd, f, greedy, reps);
      PlusIsMore(p, x, pc, pc + Len(PlusCode(c, greedy)), f, reps(INT32_MAX), times);
      assert Left(min, max) == INT32_MAX;
    } else {
      FirstTailDoes(p, x, pc, c, check, fwd, f, greedy, reps, times, min, max);
    }
  }

  lemma MoreCodeIs(c: seq<Instr>, check: bool, min: nat, max: nat, greedy: bool)
    ensures MoreCode(c, check, min, max, greedy)
         == if min == 1 && max == INT32_MAX && !check then PlusCode(c, greedy)
            else FirstCode(c, min) + TailCode(c, check, min, max, greedy)
  {
  }

  lemma PlusIsMore(p: Prog, x: Ctx, pc: nat, end: nat, f: St -> seq<St>, star: St -> seq<St>,
      times: nat -> (St -> seq<St>))
    requires MovesAlways(x, f) && KeepsValid(x, f) && TimesEquation(x, f, times)
    requires Does(p, x, pc, end, Bind(MovedOf(f), star))
    ensures Does(p, x, pc, end, Bind(times(1), star))
  {
    hide Yields;
    hide Arrives;
    forall s: St | ValidSt(x, s) ensures Bind(MovedOf(f), star)(s) == Bind(times(1), star)(s) {
      BindNothing(x, f(s), times(0));
      assert times(1)(s) == f(s);
    }
    DoesSame(p, x, pc, end, Bind(MovedOf(f), star), Bind(times(1), star));
  }

  lemma FirstTailDoes(p: Prog, x: Ctx, pc: nat, c: seq<Instr>, check: bool, fwd: bool, f: St -> seq<St>, greedy: bool,
                      reps: nat -> (St -> seq<St>), times: nat -> (St -> seq<St>), min: nat, max: nat)
    requires AtomEnv(p, x, c, check, fwd, f) && 0 < min <= max <= INT32_MAX
    requires At(p, pc, FirstCode(c, min) + TailCode(c, check, min, max, greedy))
    requires RepEquation(x, MovedOf(f), greedy, reps) && TimesEquation(x, f, times) && KeepsValid(x, times(min))
    ensures Does(p, x, pc, pc + Len(FirstCode(c, min) + TailCode(c, check, min, max, greedy)),
      Bind(times(min), reps(Left(min, max))))
  {
    hide *;
    var first, tail := FirstCode(c, min), TailCode(c, check, min, max, greedy);
    AtConcat(p, pc, first, tail);
    LenConcat(first, tail);
    FirstDoes(p, x, pc, c, check, fwd, f, times, min);
    TailDoes(p, x, pc + Len(first), c, check, fwd, f, greedy, reps, min, max);
    BindDoes(p, x, pc, pc + Len(first), pc + Len(first + tail), times(min), reps(Left(min, max)));
  }

  lemma DoesSame(p: Prog, x: Ctx, pc: nat, end: nat, f: St -> seq<St>, g: St -> seq<St>)
    requires Does(p, x, pc, end, f)
    requires forall s: St :: ValidSt(x, s) ==> f(s) == g(s)
    ensures Does(p, x, pc, end, g)
  {
    forall s: St, stack: seq<int>, base: seq<Saved> | ValidSt(x, s)
      ensures Continues(p, x, s, pc, stack, base, g(s), end, stack)
    {
      assert Continues(p, x, s, pc, stack, base, f(s), end, stack);
    }
  }

  // ----- resetting captures -----

  lemma ResetYields(p: Prog, x: Ctx, pc: nat, cc: nat, k: nat, s: St, stack: seq<int>, base: seq<Saved>, out: seq<St>,
      end: nat)
    requires At(p, pc, ResetCode(cc, k)) && ValidSt(x, s) && cc + k <= x.ncap
    requires Continues(p, x, ResetCaps(s, cc, cc + k), pc + Len(ResetCode(cc, k)), stack, base, out, end, stack)
    ensures Continues(p, x, s, pc, stack, base, out, end, stack)
  {
    if k == 0 {
      ResetNothing(s, cc);
    } else {
      StepAt(p, x, pc, SaveReset(cc, cc + k - 1), s, stack, base);
      assert Len(ResetCode(cc, k)) == 3;
      YieldsStep(p, x, Run(pc, s, stack, base), out, end, stack, base);
    }
  }

  lemma ResetDoes(p: Prog, x: Ctx, pc: nat, cc: nat, k: nat, f: St -> seq<St>, g: St -> seq<St>, mid: nat, end: nat)
    requires At(p, pc, ResetCode(cc, k)) && cc + k <= x.ncap && mid == pc + Len(ResetCode(cc, k))
    requires Does(p, x, mid, end, f)
    requires forall s: St :: ValidSt(x, s) ==> g(s) == f(ResetCaps(s, cc, cc + k))
    ensures Does(p, x, pc, end, g)
  {
    forall s: St, stack: seq<int>, base: seq<Saved> | ValidSt(x, s)
      ensures Continues(p, x, s, pc, stack, base, g(s), end, stack)
    {
      var t := ResetCaps(s, cc, cc + k);
      assert ValidSt(x, t);
      assert Continues(p, x, t, mid, stack, base, f(t), end, stack);
      ResetYields(p, x, pc, cc, k, s, stack, base, g(s), end);
    }
  }

  lemma ZeroDoes(p: Prog, x: Ctx, pc: nat, c: seq<Instr>, check: bool, fwd: bool, f: St -> seq<St>, greedy: bool,
                 reps: nat -> (St -> seq<St>), max: nat, cc: nat, k: nat, g: St -> seq<St>)
    requires AtomEnv(p, x, c, check, fwd, f) && max <= INT32_MAX && cc + k <= x.ncap
    requires At(p, pc, ResetCode(cc, k) + FromZeroCode(c, check, max, greedy))
    requires RepEquation(x, MovedOf(f), greedy, reps)
    requires forall s: St :: ValidSt(x, s) ==> g(s) == reps(max)(ResetCaps(s, cc, cc + k))
    ensures Does(p, x, pc, pc + Len(ResetCode(cc, k) + FromZeroCode(c, check, max, greedy)), g)
  {
    hide *;
    var reset, z := ResetCode(cc, k), FromZeroCode(c, check, max, greedy);
    AtConcat(p, pc, reset, z);
    LenConcat(reset, z);
    FromZeroDoes(p, x, pc + Len(reset), c, check, fwd, f, greedy, reps, max);
    ResetDoes(p, x, pc, cc, k, reps(max), g, pc + Len(reset), pc + Len(reset + z));
  }

  // ----- the matcher satisfies the loop equations -----

  function RepFamily(a: Regex, cc: nat, fwd: bool, x: Ctx, greedy: bool): nat -> (St -> seq<St>) {
    (k: nat) => Repeating(a, cc, fwd, x, 0, k, greedy)
  }

  /** A repetition with minimum zero, one iteration unfolded. */
  lemma RepZero(a: Regex, cc: nat, fwd: bool, x: Ctx, max: nat, greedy: bool, s: St)
    requires !x.perIteration && ValidSt(x, s) && 0 < max
    ensures Rep(a, cc, fwd, x, 0, max, greedy, s)
         == Prefer(greedy, FlatMap(Moved(s, Match(a, cc, fwd, x, s)), Repeating(a, cc, fwd, x, 0, Less(max), greedy)),
           [s])
  {
    RepNextZero(a, cc, fwd, x, max, greedy, s, Match(a, cc, fwd, x, s));
  }

  lemma RepHolds(a: Regex, cc: nat, fwd: bool, x: Ctx, greedy: bool)
    requires !x.perIteration
    ensures RepEquation(x, MovedOf(After(a, cc, fwd, x)), greedy, RepFamily(a, cc, fwd, x, greedy))
  {
    var g, reps := MovedOf(After(a, cc, fwd, x)), RepFamily(a, cc, fwd, x, greedy);
    forall k: nat, s: St | ValidSt(x, s) && 0 < k <= INT32_MAX
      ensures reps(k)(s) == Prefer(greedy, FlatMap(g(s), reps(Less(k))), [s])
    {
      RepZero(a, cc, fwd, x, k, greedy, s);
    }
  }

  function ExactFamily(a: Regex, cc: nat, fwd: bool, x: Ctx): nat -> (St -> seq<St>) {
    (k: nat) => Exactly(a, cc, fwd, x, k)
  }

  lemma TimesHolds(a: Regex, cc: nat, fwd: bool, x: Ctx)
    ensures TimesEquation(x, After(a, cc, fwd, x), ExactFamily(a, cc, fwd, x))
    ensures forall k: nat :: KeepsValid(x, ExactFamily(a, cc, fwd, x)(k))
  {
    hide FlatMap;
    hide Match;
    var f, times := After(a, cc, fwd, x), ExactFamily(a, cc, fwd, x);
    forall k: nat, s: St | ValidSt(x, s) && 0 < k
      ensures times(k)(s) == FlatMap(f(s), times(k - 1))
    {
      ExactAllIsBind(a, cc, fwd, x, k - 1, s, Match(a, cc, fwd, x, s));
    }
    forall k: nat ensures KeepsValid(x, times(k)) {
      forall s: St | ValidSt(x, s) ensures AllValid(x, times(k)(s)) {
        assert Onward(fwd, x, s, Exact(a, cc, fwd, x, k, s));
      }
    }
  }

  lemma AfterOnward(a: Regex, cc: nat, fwd: bool, x: Ctx)
    ensures KeepsValid(x, After(a, cc, fwd, x))
    ensures Advancing(fwd, x, MovedOf(After(a, cc, fwd, x)))
  {
    var f := After(a, cc, fwd, x);
    forall s: St | ValidSt(x, s) ensures AllValid(x, f(s)) {
      assert Onward(fwd, x, s, f(s));
    }
    var g := MovedOf(f);
    forall s: St, o: St | ValidSt(x, s) && o in g(s)
      ensures ValidSt(x, o) && Rem(fwd, x, o) < Rem(fwd, x, s)
    {
      assert Onward(fwd, x, s, f(s)) && o in f(s);
    }
  }

  lemma ClearedMoves(a: Regex, cc: nat, fwd: bool, x: Ctx)
    requires WellFormed(a) && !x.perIteration && !NeedCheckAdvance(Code(a, cc, fwd), false)
    ensures MovesAlways(x, After(a, cc, fwd, x))
  {
    var f := After(a, cc, fwd, x);
    forall s: St | ValidSt(x, s) ensures Moved(s, f(s)) == f(s) {
      ClearedAtomMoves(a, cc, fwd, x, s);
      MovedAll(s, f(s));
    }
  }

  // ----- the fast path -----

  /** A straight-line atom opens no capture group. */
  lemma {:induction false} SimpleNoCaps(r: Regex, cc: nat, fwd: bool)
    requires WellFormed(r) && IsSimple(Code(r, cc, fwd))
    ensures NCaps(r) == 0
    decreases r, 1
  {
    match r
    case Cat(a, b) => SimpleCatNoCaps(a, b, cc, fwd);
    case Quant(a, min, max, greedy) =>
      SimpleIsStraight(Code(r, cc, fwd));
      StraightQuant(Code(a, cc, fwd), cc, NCaps(a), min, max, greedy);
      if max == 0 {
        assert NCaps(a) > 0 ==> ResetCode(cc, NCaps(a))[0].SaveReset?;
      } else {
        SimpleNoCaps(a, cc, fwd);
      }
    case Alt(_, _) => NotSimple(Code(r, cc, fwd));
    case Capture(_) => NotSimple(Code(r, cc, fwd));
    case Look(_, _, _) => NotSimple(Code(r, cc, fwd));
    case _ =>
  }

  lemma SimpleCatNoCaps(a: Regex, b: Regex, cc: nat, fwd: bool)
    requires WellFormed(a) && WellFormed(b) && IsSimple(Code(Cat(a, b), cc, fwd))
    ensures NCaps(Cat(a, b)) == 0
    decreases Cat(a, b), 0
  {
    var ca, cb := Code(a, cc, fwd), Code(b, cc + NCaps(a), fwd);
    if fwd { SimpleConcat(ca, cb); } else { SimpleConcat(cb, ca); }
    SimpleNoCaps(a, cc, fwd);
    SimpleNoCaps(b, cc + NCaps(a), fwd);
  }

  lemma SimpleDoes(p: Prog, x: Ctx, pc: nat, a: Regex, cc: nat, fwd: bool, min: nat, max: nat, c: seq<Instr>)
    requires WellFormed(a) && !x.perIteration && ValidChars(x) && min <= max <= INT32_MAX && 0 < max
    requires c == Code(a, cc, fwd) && SimpleLen(c) > 0 && At(p, pc, SimpleCode(c, min, max))
    ensures Does(p, x, pc, pc + Len(SimpleCode(c, min, max)), Repeating(a, cc, fwd, x, min, max, true))
  {
    hide Yields;
    hide Arrives;
    hide FlatMap;
    hide At;
    hide Code;
    hide IsSimple;
    if !fwd { BackwardNoChars(a, cc); }
    SimpleParts(p, pc, c, min, max);
    SimpleDoesAt(p, x, pc, a, cc, min, max, Len(c) + 1, CountChars(c));
  }

  lemma SimpleParts(p: Prog, pc: nat, c: seq<Instr>, min: nat, max: nat)
    requires SimpleLen(c) > 0 && At(p, pc, SimpleCode(c, min, max))
    ensures At(p, pc, [SimpleGreedyQuant(Len(c) + 1, min, max, SimpleLen(c))]) && At(p, pc + 17, c + [MatchOp])
    ensures Len(SimpleCode(c, min, max)) == 18 + Len(c)
  {
    var i := SimpleGreedyQuant(Len(c) + 1, min, max, SimpleLen(c));
    AtThree(p, pc, [i], c, [MatchOp]);
    assert [i] + c + [MatchOp] == [i] + (c + [MatchOp]);
    AtConcat(p, pc, [i], c + [MatchOp]);
  }

  lemma SimpleDoesAt(p: Prog, x: Ctx, pc: nat, a: Regex, cc: nat, min: nat, max: nat, off: nat, n: nat)
    requires WellFormed(a) && !x.perIteration && ValidChars(x) && min <= max <= INT32_MAX && 0 < max
    requires SimpleAt(p, pc + 17, a, cc, n) && At(p, pc, [SimpleGreedyQuant(off, min, max, n)])
    ensures Does(p, x, pc, pc + 17 + off, Repeating(a, cc, true, x, min, max, true))
  {
    var rep := Repeating(a, cc, true, x, min, max, true);
    var end := pc + 17 + off;
    forall s: St, stack: seq<int>, base: seq<Saved> | ValidSt(x, s)
      ensures Continues(p, x, s, pc, stack, base, rep(s), end, stack)
    {
      SimpleYields(p, x, pc, a, cc, n, min, max, s, stack, base, off);
    }
  }

  // ----- all quantifiers -----

  lemma QuantNoReset(a: Regex, cc: nat, fwd: bool, x: Ctx, min: nat, max: nat, greedy: bool, s: St)
    requires (min > 0 || NCaps(a) == 0) && ValidSt(x, s)
    ensures Match(Quant(a, min, max, greedy), cc, fwd, x, s) == Rep(a, cc, fwd, x, min, max, greedy, s)
  {
    ResetNothing(s, cc);
  }

  lemma QuantSimpleDoes(p: Prog, x: Ctx, pc: nat, a: Regex, cc: nat, fwd: bool, min: nat, max: nat, c: seq<Instr>)
    requires WellFormed(a) && !x.perIteration && ValidChars(x) && min <= max <= INT32_MAX && 0 < max
    requires c == Code(a, cc, fwd) && SimpleLen(c) > 0 && At(p, pc, SimpleCode(c, min, max))
    ensures Does(p, x, pc, pc + Len(SimpleCode(c, min, max)), After(Quant(a, min, max, true), cc, fwd, x))
  {
    hide Does;
    hide At;
    hide Code;
    hide Rep;
    hide RepNext;
    hide SimpleCode;
    hide IsSimple;
    hide CountChars;
    hide NCaps;
    var f, g := Repeating(a, cc, fwd, x, min, max, true), After(Quant(a, min, max, true), cc, fwd, x);
    SimpleNoCaps(a, cc, fwd);
    SimpleDoes(p, x, pc, a, cc, fwd, min, max, c);
    forall s: St | ValidSt(x, s) ensures f(s) == g(s) {
      QuantNoReset(a, cc, fwd, x, min, max, true, s);
    }
    DoesSame(p, x, pc, pc + Len(SimpleCode(c, min, max)), f, g);
  }

  lemma QuantZeroDoes(p: Prog, x: Ctx, pc: nat, c: seq<Instr>, check: bool, a: Regex, cc: nat, fwd: bool, max: nat,
      greedy: bool)
    requires !x.perIteration && AtomEnv(p, x, c, check, fwd, After(a, cc, fwd, x)) && max <= INT32_MAX
      && cc + NCaps(a) <= x.ncap
    requires At(p, pc, ResetCode(cc, NCaps(a)) + FromZeroCode(c, check, max, greedy))
    ensures Does(p, x, pc, pc + Len(ResetCode(cc, NCaps(a)) + FromZeroCode(c, check, max, greedy)),
                 After(Quant(a, 0, max, greedy), cc, fwd, x))
  {
    hide *;
    RepHolds(a, cc, fwd, x, greedy);
    QuantZeroEquation(a, cc, fwd, x, max, greedy);
    ZeroDoes(p, x, pc, c, check, fwd, After(a, cc, fwd, x), greedy, RepFamily(a, cc, fwd, x, greedy), max, cc, NCaps(a),
             After(Quant(a, 0, max, greedy), cc, fwd, x));
  }

  lemma QuantZeroIs(a: Regex, cc: nat, fwd: bool, x: Ctx, max: nat, greedy: bool, s: St)
    requires !x.perIteration && ValidSt(x, s)
    ensures ValidSt(x, ResetCaps(s, cc, cc + NCaps(a)))
    ensures Match(Quant(a, 0, max, greedy), cc, fwd, x, s)
      == Rep(a, cc, fwd, x, 0, max, greedy, ResetCaps(s, cc, cc + NCaps(a)))
  {
    hide Rep;
  }

  lemma QuantZeroEquation(a: Regex, cc: nat, fwd: bool, x: Ctx, max: nat, greedy: bool)
    requires !x.perIteration
    ensures forall s: St :: ValidSt(x, s) ==>
              After(Quant(a, 0, max, greedy), cc, fwd, x)(s)
                == RepFamily(a, cc, fwd, x, greedy)(max)(ResetCaps(s, cc, cc + NCaps(a)))
  {
    hide Rep;
    hide Match;
    hide ResetCaps;
    hide ValidSt;
    hide NCaps;
    forall s: St | ValidSt(x, s)
      ensures After(Quant(a, 0, max, greedy), cc, fwd, x)(s)
        == RepFamily(a, cc, fwd, x, greedy)(max)(ResetCaps(s, cc, cc + NCaps(a)))
    {
      QuantZeroIs(a, cc, fwd, x, max, greedy, s);
    }
  }

  lemma QuantMoreDoes(p: Prog, x: Ctx, pc: nat, c: seq<Instr>, check: bool, a: Regex, cc: nat, fwd: bool, min: nat,
      max: nat, greedy: bool)
    requires !x.perIteration && AtomEnv(p, x, c, check, fwd, After(a, cc, fwd, x)) && 0 < min <= max <= INT32_MAX
    requires At(p, pc, MoreCode(c, check, min, max, greedy))
    ensures Does(p, x, pc, pc + Len(MoreCode(c, check, min, max, greedy)),
      After(Quant(a, min, max, greedy), cc, fwd, x))
  {
    hide *;
    RepHolds(a, cc, fwd, x, greedy);
    TimesHolds(a, cc, fwd, x);
    MoreDoes(p, x, pc, c, check, fwd, After(a, cc, fwd, x), greedy, RepFamily(a, cc, fwd, x, greedy),
      ExactFamily(a, cc, fwd, x), min, max);
    QuantMoreEquation(a, cc, fwd, x, min, max, greedy);
    DoesSame(p, x, pc, pc + Len(MoreCode(c, check, min, max, greedy)),
             Bind(ExactFamily(a, cc, fwd, x)(min), RepFamily(a, cc, fwd, x, greedy)(Left(min, max))),
             After(Quant(a, min, max, greedy), cc, fwd, x));
  }

  lemma QuantMoreEquation(a: Regex, cc: nat, fwd: bool, x: Ctx, min: nat, max: nat, greedy: bool)
    requires !x.perIteration && 0 < min <= max <= INT32_MAX
    ensures var f := Bind(ExactFamily(a, cc, fwd, x)(min), RepFamily(a, cc, fwd, x, greedy)(Left(min, max)));
            forall s: St :: ValidSt(x, s) ==> f(s) == After(Quant(a, min, max, greedy), cc, fwd, x)(s)
  {
    hide Rep;
    hide Exact;
    hide Match;
    hide FlatMap;
    forall s: St | ValidSt(x, s)
      ensures Bind(ExactFamily(a, cc, fwd, x)(min), RepFamily(a, cc, fwd, x, greedy)(Left(min, max)))(s)
           == After(Quant(a, min, max, greedy), cc, fwd, x)(s)
    {
      RepSplit(a, cc, fwd, x, min, max, greedy, s);
      QuantNoReset(a, cc, fwd, x, min, max, greedy, s);
    }
  }

  /** Whatever shape the emitter chooses, the code of a quantifier yields what the
      quantifier matches. */
  lemma QuantDoes(p: Prog, x: Ctx, pc: nat, a: Regex, cc: nat, fwd: bool, min: nat, max: nat, greedy: bool,
      c: seq<Instr>)
    requires WellFormed(a) && min <= max <= INT32_MAX && !x.perIteration && ValidChars(x) && cc + NCaps(a) <= x.ncap
    requires c == Code(a, cc, fwd)
    requires forall q: nat :: At(p, q, c) ==> DoesAtom(p, x, q, c, After(a, cc, fwd, x))
    requires At(p, pc, QuantCode(c, cc, NCaps(a), min, max, greedy))
    ensures Does(p, x, pc, pc + Len(QuantCode(c, cc, NCaps(a), min, max, greedy)),
      After(Quant(a, min, max, greedy), cc, fwd, x))
  {
    hide *;
    var check := NeedCheckAdvance(c, false);
    QuantCodeIs(c, cc, NCaps(a), min, max, greedy);
    if greedy && max > 0 && SimpleLen(c) > 0 {
      QuantSimpleDoes(p, x, pc, a, cc, fwd, min, max, c);
    } else {
      MakeEnv(p, x, a, cc, fwd, c);
      if min == 0 {
        QuantZeroDoes(p, x, pc, c, check, a, cc, fwd, max, greedy);
      } else {
        QuantMoreDoes(p, x, pc, c, check, a, cc, fwd, min, max, greedy);
      }
    }
  }

  lemma QuantCodeIs(c: seq<Instr>, cc: nat, k: nat, min: nat, max: nat, greedy: bool)
    ensures QuantCode(c, cc, k, min, max, greedy)
         == if greedy && max > 0 && SimpleLen(c) > 0 then SimpleCode(c, min, max)
            else if min == 0 then ResetCode(cc, k) + FromZeroCode(c, NeedCheckAdvance(c, false), max, greedy)
            else MoreCode(c, NeedCheckAdvance(c, false), min, max, greedy)
  {
    hide SimpleCode;
    hide NeedCheckAdvance;
    hide IsSimple;
    hide CountChars;
  }

  lemma MakeEnv(p: Prog, x: Ctx, a: Regex, cc: nat, fwd: bool, c: seq<Instr>)
    requires WellFormed(a) && !x.perIteration && c == Code(a, cc, fwd)
    requires forall q: nat :: At(p, q, c) ==> DoesAtom(p, x, q, c, After(a, cc, fwd, x))
    ensures AtomEnv(p, x, c, NeedCheckAdvance(c, false), fwd, After(a, cc, fwd, x))
  {
    hide At;
    hide DoesAtom;
    hide Code;
    hide NeedCheckAdvance;
    hide After;
    hide KeepsValid;
    hide Advancing;
    hide MovesAlways;
    AfterOnward(a, cc, fwd, x);
    if !NeedCheckAdvance(c, false) {
      ClearedMoves(a, cc, fwd, x);
    }
  }
}
