/** What it means for a piece of code to produce a list of results. */
module RegexYields {
  import opened RegexCode
  import opened RegexMatcher
  import opened RegexVm

  /** `code` lies in the program at address `pc`. */
  ghost predicate At(p: Prog, pc: nat, code: seq<Instr>)
    decreases |code|
  {
    code == []
    || (pc in p.at && p.at[pc] == code[0] && pc + Size(code[0]) <= p.size && At(p, pc + Size(code[0]), code[1..]))
  }

  lemma {:induction false} AtConcat(p: Prog, pc: nat, a: seq<Instr>, b: seq<Instr>)
    ensures At(p, pc, a + b) <==> At(p, pc, a) && At(p, pc + Len(a), b)
    decreases |a|
  {
    if a == [] {
      assert a + b == b;
    } else {
      AtConcat(p, pc + Size(a[0]), a[1..], b);
      assert (a + b)[1..] == a[1..] + b;
    }
  }

  lemma AtThree(p: Prog, pc: nat, a: seq<Instr>, b: seq<Instr>, c: seq<Instr>)
    requires At(p, pc, a + b + c)
    ensures At(p, pc, a) && At(p, pc + Len(a), b) && At(p, pc + Len(a) + Len(b), c)
    ensures Len(a + b + c) == Len(a) + Len(b) + Len(c)
  {
    AtConcat(p, pc, a + b, c);
    AtConcat(p, pc, a, b);
    LenConcat(a + b, c);
    LenConcat(a, b);
  }

  /** The saved states a finished piece of code may leave behind: alternatives, but no
      look-around still open. */
  ghost predicate Choices(states: seq<Saved>) {
    forall i :: 0 <= i < |states| ==> states[i].kind.SplitState? || states[i].kind.GreedyQuantState?
  }

  /** From `c`, the machine arrives at address `pc` once for each state of `out`, in
      order: with the first one at once, and with each later one when everything after
      the previous arrival fails. After the last, the failure reaches `base`. */
  ghost predicate Yields(p: Prog, x: Ctx, c: Cfg, out: seq<St>, pc: nat, stack: seq<int>, base: seq<Saved>)
    decreases |out|
  {
    if out == [] then Reaches(p, x, c, Fail(base))
    else exists left: seq<Saved> :: Arrives(p, x, c, out, pc, stack, base, left)
  }

  ghost predicate Arrives(p: Prog, x: Ctx, c: Cfg, out: seq<St>, pc: nat, stack: seq<int>, base: seq<Saved>,
      left: seq<Saved>)
    requires out != []
    decreases |out|, 0
  {
    && Choices(left)
    && Reaches(p, x, c, Run(pc, out[0], stack, base + left))
    && Yields(p, x, Fail(base + left), out[1..], pc, stack, base)
  }

  lemma YieldsPrefix(p: Prog, x: Ctx, c: Cfg, d: Cfg, out: seq<St>, pc: nat, stack: seq<int>, base: seq<Saved>)
    requires Reaches(p, x, c, d) && Yields(p, x, d, out, pc, stack, base)
    ensures Yields(p, x, c, out, pc, stack, base)
  {
    if out == [] {
      ReachesTrans(p, x, c, d, Fail(base));
    } else {
      var left :| Arrives(p, x, d, out, pc, stack, base, left);
      ReachesTrans(p, x, c, d, Run(pc, out[0], stack, base + left));
      assert Arrives(p, x, c, out, pc, stack, base, left);
    }
  }

  lemma YieldsStep(p: Prog, x: Ctx, c: Cfg, out: seq<St>, pc: nat, stack: seq<int>, base: seq<Saved>)
    requires Yields(p, x, Step(p, x, c), out, pc, stack, base)
    ensures Yields(p, x, c, out, pc, stack, base)
  {
    ReachesStep(p, x, c);
    YieldsPrefix(p, x, c, Step(p, x, c), out, pc, stack, base);
  }

  lemma YieldsNone(p: Prog, x: Ctx, pc: nat, stack: seq<int>, base: seq<Saved>)
    ensures Yields(p, x, Fail(base), [], pc, stack, base)
  {
    ReachesRefl(p, x, Fail(base));
  }

  lemma YieldsOne(p: Prog, x: Ctx, s: St, pc: nat, stack: seq<int>, base: seq<Saved>)
    ensures Yields(p, x, Run(pc, s, stack, base), [s], pc, stack, base)
  {
    var c := Run(pc, s, stack, base);
    ReachesRefl(p, x, c);
    YieldsNone(p, x, pc, stack, base);
    assert base + [] == base;
    assert Arrives(p, x, c, [s], pc, stack, base, []);
  }

  /** Results above some remaining alternatives, then those of the alternatives. */
  lemma {:induction false} YieldsAppend(p: Prog, x: Ctx, c: Cfg, xs: seq<St>, ys: seq<St>,
                                        pc: nat, stack: seq<int>, base: seq<Saved>, left: seq<Saved>)
    requires Choices(left)
    requires Yields(p, x, c, xs, pc, stack, base + left)
    requires Yields(p, x, Fail(base + left), ys, pc, stack, base)
    ensures Yields(p, x, c, xs + ys, pc, stack, base)
    decreases |xs|
  {
    if xs == [] {
      assert xs + ys == ys;
      YieldsPrefix(p, x, c, Fail(base + left), ys, pc, stack, base);
    } else {
      var more :| Arrives(p, x, c, xs, pc, stack, base + left, more);
      YieldsAppend(p, x, Fail(base + left + more), xs[1..], ys, pc, stack, base, left);
      assert base + left + more == base + (left + more);
      assert (xs + ys)[1..] == xs[1..] + ys;
      assert Arrives(p, x, c, xs + ys, pc, stack, base, left + more);
    }
  }

  /** All results of `f` on all of `ss`. */
  function FlatMap(ss: seq<St>, f: St -> seq<St>): seq<St> {
    if ss == [] then [] else f(ss[0]) + FlatMap(ss[1..], f)
  }

  ghost predicate Continues(p: Prog, x: Ctx, s: St, mid: nat, midStack: seq<int>, base: seq<Saved>,
                            out: seq<St>, pc: nat, stack: seq<int>) {
    Yields(p, x, Run(mid, s, midStack, base), out, pc, stack, base)
  }

  /** Code that continues every result of a first part with the results of `f`. */
  lemma {:induction false} YieldsBind(p: Prog, x: Ctx, c: Cfg, ss: seq<St>, mid: nat, midStack: seq<int>,
                                      f: St -> seq<St>, pc: nat, stack: seq<int>, base: seq<Saved>)
    requires Yields(p, x, c, ss, mid, midStack, base)
    requires forall s, b :: s in ss ==> Continues(p, x, s, mid, midStack, b, f(s), pc, stack)
    ensures Yields(p, x, c, FlatMap(ss, f), pc, stack, base)
    decreases |ss|
  {
    if ss != [] {
      var left :| Arrives(p, x, c, ss, mid, midStack, base, left);
      YieldsBind(p, x, Fail(base + left), ss[1..], mid, midStack, f, pc, stack, base);
      assert Continues(p, x, ss[0], mid, midStack, base + left, f(ss[0]), pc, stack);
      YieldsAppend(p, x, Run(mid, ss[0], midStack, base + left), f(ss[0]), FlatMap(ss[1..], f), pc, stack, base, left);
      YieldsPrefix(p, x, c, Run(mid, ss[0], midStack, base + left), FlatMap(ss, f), pc, stack, base);
    }
  }
}
