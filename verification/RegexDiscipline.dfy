/** Stack discipline of whole runs: in every reachable state of a compiled program, also
    after backtracking, the stack is exactly as deep as the linear scan says for that
    address, so it never underflows and never exceeds the recorded size. */
module RegexDiscipline {
  import opened RegexSyntax
  import opened RegexCode
  import opened RegexMatcher
  import opened RegexVm
  import opened RegexYields
  import opened RegexStack

  /** The decoded program is exactly this code. */
  ghost predicate Loaded(p: Prog, code: seq<Instr>) {
    p.size == Len(code) && At(p, 0, code) && forall a :: a in p.at ==> a < Len(code)
  }

  ghost predicate TidyState(code: seq<Instr>, s: Saved) {
    DepthAt(code, s.pc) == Somewhere(|s.stack|)
  }

  ghost predicate TidyStates(code: seq<Instr>, states: seq<Saved>) {
    forall i :: 0 <= i < |states| ==> TidyState(code, states[i])
  }

  /** Every stack, live or saved, has the static depth of the address it belongs to. */
  ghost predicate Tidy(code: seq<Instr>, c: Cfg) {
    match c
    case Run(pc, _, stack, states) => DepthAt(code, pc) == Somewhere(|stack|) && TidyStates(code, states)
    case Fail(states) => TidyStates(code, states)
    case Success(_, states) => TidyStates(code, states)
    case _ => true
  }

  /** The instruction at an address whose depth is known. */
  lemma {:induction false} InstrAt(p: Prog, off: nat, code: seq<Instr>, a: nat, d: int) returns (k: nat)
    requires At(p, off, code) && DepthAt(code, a) == Somewhere(d) && a < Len(code)
    ensures k < |code| && a == Len(code[..k]) && d == Depth(code[..k])
    ensures off + a in p.at && p.at[off + a] == code[k]
    decreases |code|
  {
    if a == 0 {
      k := 0;
      assert code[..0] == [];
    } else {
      var n := Size(code[0]);
      if a < n {
        NegativeIsNowhere(code[1..], a - n);
      }
      var j := InstrAt(p, off + n, code[1..], a - n, d - Delta(code[0]));
      k := j + 1;
      assert code[..k] == [code[0]] + code[1..][..j];
      LenConcat([code[0]], code[1..][..j]);
      DepthConcat([code[0]], code[1..][..j]);
    }
  }

  lemma DepthAfter(code: seq<Instr>, k: nat)
    requires k < |code|
    ensures DepthAt(code, Len(code[..k]) + Size(code[k])) == Somewhere(Depth(code[..k]) + Delta(code[k]))
  {
    var u := code[..k] + [code[k]];
    assert code == u + code[k + 1..];
    LenConcat(code[..k], [code[k]]);
    DepthConcat(code[..k], [code[k]]);
    DepthAtEnd(u, code[k + 1..]);
  }

  /** Where control goes from an instruction, with which depth. */
  lemma SuccessorDepths(p: Prog, code: seq<Instr>, pc: nat, d: nat)
    requires Loaded(p, code) && AllSound(code) && DepthAt(code, pc) == Somewhere(d) && pc in p.at
    ensures var i := p.at[pc];
            d >= Needs(i)
            && DepthAt(code, pc + Size(i)) == Somewhere(d + Delta(i))
            && (Jumps(i) ==> DepthAt(code, pc + Size(i) + i.off) == Somewhere(d))
  {
    var k := InstrAt(p, 0, code, pc, d);
    DepthAfter(code, k);
    assert Sound(code[..k], code[k], code[k + 1..]);
    assert code[..k] + [code[k]] + code[k + 1..] == code;
  }

  lemma RunStaysTidy(p: Prog, x: Ctx, code: seq<Instr>, pc: nat, s: St, stack: seq<int>, states: seq<Saved>)
    requires Loaded(p, code) && AllSound(code) && Tidy(code, Run(pc, s, stack, states)) && pc in p.at && ValidSt(x, s)
    ensures Tidy(code, StepRun(p, x, p.at[pc], pc, s, stack, states))
  {
    hide DepthAt;
    hide AllSound;
    hide At;
    hide Loaded;
    hide RunAtoms;
    SuccessorDepths(p, code, pc, |stack|);
  }

  lemma FailStaysTidy(p: Prog, x: Ctx, code: seq<Instr>, states: seq<Saved>)
    requires Loaded(p, code) && AllSound(code) && TidyStates(code, states)
    ensures Tidy(code, StepFail(p, states))
  {
    hide DepthAt;
    hide AllSound;
    hide At;
    hide Loaded;
    if states != [] {
      var top, rest := states[|states| - 1], states[..|states| - 1];
      assert TidyState(code, top);
      if top.kind.GreedyQuantState? && top.pc in p.at {
        SuccessorDepths(p, code, top.pc, |top.stack|);
      }
    }
  }

  lemma SuccessStaysTidy(p: Prog, x: Ctx, code: seq<Instr>, s: St, states: seq<Saved>)
    requires TidyStates(code, states)
    ensures Tidy(code, StepSuccess(s, states))
  {
    hide DepthAt;
    if states != [] {
      assert TidyState(code, states[|states| - 1]);
    }
  }

  lemma StepStaysTidy(p: Prog, x: Ctx, code: seq<Instr>, c: Cfg)
    requires Loaded(p, code) && AllSound(code) && Tidy(code, c)
    ensures Tidy(code, Step(p, x, c))
  {
    hide DepthAt;
    hide AllSound;
    hide At;
    hide StepRun;
    hide StepFail;
    hide StepSuccess;
    match c
    case Run(pc, s, stack, states) =>
      if pc in p.at && ValidSt(x, s) {
        RunStaysTidy(p, x, code, pc, s, stack, states);
      }
    case Fail(states) => FailStaysTidy(p, x, code, states);
    case Success(s, states) => SuccessStaysTidy(p, x, code, s, states);
    case _ =>
  }

  lemma {:induction false} StepsStayTidy(p: Prog, x: Ctx, code: seq<Instr>, c: Cfg, n: nat)
    requires Loaded(p, code) && AllSound(code) && Tidy(code, c)
    ensures Tidy(code, Steps(p, x, c, n))
    decreases n
  {
    hide Tidy;
    hide AllSound;
    hide Step;
    if n > 0 {
      StepStaysTidy(p, x, code, c);
      StepsStayTidy(p, x, code, Step(p, x, c), n - 1);
    }
  }

  /** Over every run of a compiled program: the depth is the static one, every pop finds
      its entry, and the recorded size is never exceeded. */
  lemma CompiledStackDiscipline(p: Prog, x: Ctx, r: Regex, sticky: bool, s: St, n: nat)
    requires WellFormed(r) && Loaded(p, Program(r, sticky))
    ensures var code := Program(r, sticky);
            var c := Steps(p, x, Run(0, s, [], []), n);
            Tidy(code, c)
            && (c.Run? && c.pc in p.at ==> |c.stack| >= Needs(p.at[c.pc]))
            && (c.Run? && ComputeStackSize(code, 0, 0) >= 0 ==> |c.stack| <= ComputeStackSize(code, 0, 0))
  {
    hide Program;
    hide Steps;
    hide DepthAt;
    var code := Program(r, sticky);
    ProgramBalanced(r, sticky);
    StartIsTidy(code, s);
    StepsStayTidy(p, x, code, Run(0, s, [], []), n);
    var c := Steps(p, x, Run(0, s, [], []), n);
    if c.Run? {
      if c.pc in p.at {
        SuccessorDepths(p, code, c.pc, |c.stack|);
      }
      if ComputeStackSize(code, 0, 0) >= 0 {
        RecordedSizeSuffices(code, c.pc, |c.stack|);
      }
    }
  }

  lemma StartIsTidy(code: seq<Instr>, s: St)
    ensures Tidy(code, Run(0, s, [], []))
  {
  }
}
