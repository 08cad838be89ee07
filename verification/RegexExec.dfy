/** The backtracking interpreter in place: it reads the byte code, writes the capture
    array and the value stack, and saves and restores them on the state stack. Every
    turn of its two loops is one step of the machine. */
module RegexExec {
  import opened Common
  import opened RegexSyntax
  import opened RegexCode
  import opened RegexMatcher
  import opened RegexVm
  import opened RegexStack
  import opened RegexDiscipline
  import opened RegexBytes
  import opened RegexYields
  import opened RegexCorrect

  /** How an instruction ends: interpretation goes on, or unwinding starts after a
      mismatch or after `match`. */
  datatype Status = Goes | Fails | Succeeds

  lemma {:induction false} OperandAt16(b: seq<Byte>, p: nat, n: nat, k: nat)
    requires p + 2 * n <= |b| && k < n
    ensures GetU16s(b, p, n)[k] == GetU16(b, p + 2 * k)
    decreases n
  {
    hide GetU16;
    if k > 0 { OperandAt16(b, p + 2, n - 1, k - 1); }
  }

  lemma {:induction false} OperandAt32(b: seq<Byte>, p: nat, n: nat, k: nat)
    requires p + 4 * n <= |b| && k < n
    ensures GetU32s(b, p, n)[k] == GetU32(b, p + 4 * k)
    decreases n
  {
    hide GetU32;
    if k > 0 { OperandAt32(b, p + 4, n - 1, k - 1); }
  }

  lemma NextAttempt(p: Prog, x: Ctx, pc: nat, s: St, q: nat, max: nat, t: St)
    requires ValidSt(x, s) && RunAtom(p, x, pc, s) == Matched(t) && RunAtoms(p, x, pc, s, q, max).Count?
    ensures RunAtoms(p, x, pc, s, q, max)
         == if q + 1 >= max && max != INT32_MAX then Count(q + 1, t) else RunAtoms(p, x, pc, t, q + 1, max)
    ensures q + 1 < max || max == INT32_MAX ==> t.pos > s.pos
  {
    hide RunAtom;
  }

  lemma FetchOpcode(b: seq<Byte>, pc: nat)
    requires pc < |b| && Fetch(b, pc).Some?
    ensures b[pc] == Opcode(Fetch(b, pc).value)
  {
    hide GetU16;
    hide GetU32;
    hide GetU16s;
    hide GetU32s;
  }

  lemma QuantOperands(b: seq<Byte>, pc: nat)
    requires pc < |b| && Fetch(b, pc).Some? && Fetch(b, pc).value.SimpleGreedyQuant?
    ensures pc + 17 <= |b|
    ensures Fetch(b, pc).value
      == SimpleGreedyQuant(Signed(GetU32(b, pc + 1)), GetU32(b, pc + 5), GetU32(b, pc + 9), GetU32(b, pc + 13))
  {
    hide GetU16;
    hide GetU32;
    hide Signed;
    hide GetU16s;
    hide GetU32s;
  }

  lemma DecodedFetch(b: seq<Byte>, pc: nat)
    ensures Decoded(b).size == |b|
    ensures pc in Decoded(b).at <==> pc < |b| && Fetch(b, pc).Some?
    ensures pc in Decoded(b).at ==> Fetch(b, pc) == Some(Decoded(b).at[pc])
  {
    hide Fetch;
  }

  // ----- what every run keeps -----

  /** No capture lies behind the end of the subject. */
  ghost predicate Low(x: Ctx, s: St) {
    forall k :: 0 <= k < |s.caps| ==> s.caps[k] <= |x.input|
  }

  ghost predicate LowStates(x: Ctx, states: seq<Saved>) {
    forall k :: 0 <= k < |states| ==> Low(x, states[k].st)
  }

  ghost predicate LowCfg(x: Ctx, c: Cfg) {
    match c
    case Run(_, s, _, states) => Low(x, s) && LowStates(x, states)
    case Fail(states) => LowStates(x, states)
    case Success(s, states) => Low(x, s) && LowStates(x, states)
    case _ => true
  }

  lemma RunStaysLow(p: Prog, x: Ctx, i: Instr, pc: nat, s: St, stack: seq<int>, states: seq<Saved>)
    requires ValidSt(x, s) && Low(x, s) && LowStates(x, states)
    ensures LowCfg(x, StepRun(p, x, i, pc, s, stack, states))
  {
    hide RunAtoms;
    hide RangeAccepts;
    if i.SimpleGreedyQuant? {
      AttemptsKeepCaps(p, x, pc + Size(i), s, 0, i.max);
    }
  }

  lemma {:induction false} AtomKeepsCaps(p: Prog, x: Ctx, pc: nat, s: St)
    requires ValidSt(x, s) && RunAtom(p, x, pc, s).Matched?
    ensures RunAtom(p, x, pc, s).st.caps == s.caps
    decreases p.size - pc
  {
    hide RangeAccepts;
    var i := p.at[pc];
    if !i.MatchOp? {
      AtomKeepsCaps(p, x, pc + Size(i), Advance(i, x, s).value);
    }
  }

  lemma {:induction false} AttemptsKeepCaps(p: Prog, x: Ctx, pc: nat, s: St, q: nat, max: nat)
    requires ValidSt(x, s)
    ensures RunAtoms(p, x, pc, s, q, max).Count? ==> RunAtoms(p, x, pc, s, q, max).st.caps == s.caps
    decreases |x.input| - s.pos
  {
    hide RunAtom;
    var r := RunAtom(p, x, pc, s);
    if r.Matched? {
      AtomKeepsCaps(p, x, pc, s);
      if (q + 1 < max || max == INT32_MAX) && r.st.pos > s.pos {
        AttemptsKeepCaps(p, x, pc, r.st, q + 1, max);
      }
    }
  }

  lemma StepStaysLow(p: Prog, x: Ctx, c: Cfg)
    requires LowCfg(x, c)
    ensures LowCfg(x, Step(p, x, c))
  {
    hide StepRun;
    match c
    case Run(pc, s, stack, states) =>
      if pc in p.at && ValidSt(x, s) { RunStaysLow(p, x, p.at[pc], pc, s, stack, states); }
    case _ =>
  }

  /** The run from `c` ends in `final` after `left` more steps, and never needs more than
      `room` entries of the value stack. */
  ghost predicate Ahead(p: Prog, x: Ctx, room: nat, c: Cfg, left: nat, final: Option<St>) {
    && Steps(p, x, c, left) == Done(final)
    && (forall k: nat :: k <= left ==> Roomy(room, Steps(p, x, c, k)))
    && LowCfg(x, c)
  }

  ghost predicate Roomy(room: nat, c: Cfg) {
    c.Run? ==> |c.stack| <= room
  }

  lemma {:induction false} StuckForever(p: Prog, x: Ctx, n: nat)
    ensures Steps(p, x, Stuck, n) == Stuck
    decreases n
  {
    if n > 0 { StuckForever(p, x, n - 1); }
  }

  lemma AheadStep(p: Prog, x: Ctx, room: nat, c: Cfg, left: nat, final: Option<St>)
    requires Ahead(p, x, room, c, left, final) && !c.Done?
    ensures left > 0 && Ahead(p, x, room, Step(p, x, c), left - 1, final)
    ensures Step(p, x, c) != Stuck && Roomy(room, c) && Roomy(room, Step(p, x, c))
    ensures c.Run? ==> c.pc in p.at && ValidSt(x, c.st) && Low(x, c.st)
  {
    hide Step;
    hide LowCfg;
    hide Roomy;
    var d := Step(p, x, c);
    StepStaysLow(p, x, c);
    if d == Stuck { StuckForever(p, x, left - 1); }
    forall k: nat | k <= left - 1 ensures Roomy(room, Steps(p, x, d, k)) {
      assert Steps(p, x, c, k + 1) == Steps(p, x, d, k);
    }
    assert Steps(p, x, c, 0) == c && Steps(p, x, d, 0) == d;
    AheadRun(p, x, c);
  }

  lemma AheadRun(p: Prog, x: Ctx, c: Cfg)
    requires LowCfg(x, c) && Step(p, x, c) != Stuck
    ensures c.Run? ==> c.pc in p.at && ValidSt(x, c.st) && Low(x, c.st)
  {
    hide StepRun;
  }

  lemma AheadDone(p: Prog, x: Ctx, room: nat, c: Cfg, left: nat, final: Option<St>)
    requires Ahead(p, x, room, c, left, final) && c.Done?
    ensures c.res == final
  {
    DoneForever(p, x, c, left);
  }

  lemma RestoredFits(p: Prog, x: Ctx, room: nat, c: Cfg, left: nat, final: Option<St>)
    requires Ahead(p, x, room, c, left, final) && c.Run?
    ensures ValidSt(x, c.st) && |c.stack| <= room
  {
    AheadStep(p, x, room, c, left, final);
  }

  lemma MatchStep(p: Prog, x: Ctx, i: Instr, pc: nat, s: St, stack: seq<int>, states: seq<Saved>)
    requires ValidSt(x, s) && i.MatchOp?
    ensures StepRun(p, x, i, pc, s, stack, states) == Success(s, states)
  {
  }

  lemma AtomStep(p: Prog, x: Ctx, i: Instr, pc: nat, s: St, stack: seq<int>, states: seq<Saved>)
    requires ValidSt(x, s) && (ReadsOneChar(i) || IsAssertion(i))
    ensures StepRun(p, x, i, pc, s, stack, states)
         == match Advance(i, x, s) case None => Fail(states) case Some(t) => Run(pc + Size(i), t, stack, states)
  {
    hide Advance;
  }

  lemma BackRefStep(p: Prog, x: Ctx, i: Instr, pc: nat, s: St, stack: seq<int>, states: seq<Saved>)
    requires ValidSt(x, s) && (i.BackReference? || i.BackwardBackReference?)
    ensures var out := BackRefMatch(i.n, i.BackReference?, x, s);
            StepRun(p, x, i, pc, s, stack, states) == if out == [] then Fail(states)
              else Run(pc + 2, out[0], stack, states)
  {
    hide BackRefMatch;
  }

  lemma PushNeedsRoom(p: Prog, x: Ctx, i: Instr, pc: nat, s: St, stack: seq<int>, states: seq<Saved>)
    requires ValidSt(x, s)
    ensures i.PushI32? || i.PushCharPos? ==>
      StepRun(p, x, i, pc, s, stack, states).Run? && |StepRun(p, x, i, pc, s, stack, states).stack| == |stack| + 1
    ensures Delta(i) > 0 ==> i.PushI32? || i.PushCharPos?
  {
  }

  lemma SearchStep(b: seq<nat>, c: nat, lo: int, hi: int)
    requires |b| % 2 == 0 && 0 <= lo <= hi < |b| / 2
    ensures var m := (lo + hi) / 2;
            lo <= m <= hi
            && RangeSearch(b, c, lo, hi) == if c < b[2 * m] then RangeSearch(b, c, lo, m - 1)
              else if c > b[2 * m + 1] then RangeSearch(b, c, m + 1, hi) else true
  {
  }

  lemma SearchEnd(b: seq<nat>, c: nat, lo: int, hi: int)
    requires |b| % 2 == 0 && 0 <= lo && hi < lo && hi < |b| / 2
    ensures !RangeSearch(b, c, lo, hi)
  {
  }

  lemma SameNone(input: seq<nat>, a: nat, b: nat)
    requires a <= |input| && b <= |input|
    ensures SameText(input, a, b, 0)
  {
  }

  /** Equal texts agree on a prefix and on the character after it. */
  lemma SameSplit(input: seq<nat>, a: nat, b: nat, k: nat, n: nat)
    requires k < n && a + n <= |input|
    ensures SameText(input, a, b, n) ==> b + k < |input| && input[a + k] == input[b + k]
    ensures b + k < |input| && SameText(input, a, b, k) && input[a + k] == input[b + k] ==> SameText(input, a, b, k + 1)
  {
    if SameText(input, a, b, n) {
      assert input[a..a + n][k] == input[a + k] && input[b..b + n][k] == input[b + k];
    }
    if b + k < |input| {
      assert input[a..a + (k + 1)] == input[a..a + k] + [input[a + k]];
      assert input[b..b + (k + 1)] == input[b..b + k] + [input[b + k]];
    }
  }

  /** Equal texts agree on the character before a suffix. */
  lemma SameSplitBack(input: seq<nat>, a: nat, b: nat, k: nat, n: nat)
    requires k < n && a + n <= |input|
    ensures SameText(input, a, b, n) ==> b + n <= |input| && input[a + n - k - 1] == input[b + n - k - 1]
  {
    if SameText(input, a, b, n) {
      assert input[a..a + n][n - k - 1] == input[a + n - k - 1] && input[b..b + n][n - k - 1] == input[b + n - k - 1];
    }
  }

  lemma SameGrows(input: seq<nat>, a: nat, b: nat, k: nat)
    requires SameText(input, a, b, k) && a > 0 && b > 0 && input[a - 1] == input[b - 1]
    ensures SameText(input, a - 1, b - 1, k + 1)
  {
    assert input[a - 1..a + k] == [input[a - 1]] + input[a..a + k];
    assert input[b - 1..b + k] == [input[b - 1]] + input[b..b + k];
    assert a - 1 + (k + 1) == a + k && b - 1 + (k + 1) == b + k;
  }

  class REExecContext {
    const x: Ctx
    const bc: seq<Byte>
    const capture: array<int>
    const stack: array<int>
    var states: seq<Saved>

    constructor (x: Ctx, bc: seq<Byte>, stackSize: nat)
      ensures Valid() && this.x == x && this.bc == bc && states == []
      ensures fresh(capture) && fresh(stack) && capture.Length == 2 * x.ncap && stack.Length == stackSize
      ensures forall i :: 0 <= i < capture.Length ==> capture[i] == UNSET
    {
      this.x := x;
      this.bc := bc;
      capture := new int[2 * x.ncap](i => UNSET);
      stack := new int[stackSize];
      states := [];
    }

    ghost predicate Valid()
      reads this
    {
      capture.Length == 2 * x.ncap && capture != stack
    }

    ghost function Here(cptr: nat): St
      reads this, capture
    {
      St(cptr, capture[..])
    }

    ghost function Running(pc: nat, cptr: nat, stackLen: nat): Cfg
      requires stackLen <= stack.Length
      reads this, capture, stack
    {
      Run(pc, Here(cptr), stack[..stackLen], states)
    }

    /** The machine configuration after an instruction. */
    ghost function After(status: Status, pc: nat, cptr: nat, stackLen: nat): Cfg
      requires stackLen <= stack.Length
      reads this, capture, stack
    {
      match status
      case Goes => Running(pc, cptr, stackLen)
      case Fails => Fail(states)
      case Succeeds => Success(Here(cptr), states)
    }

    // ----- one-character instructions and assertions -----

    /** The binary search of `range` (`q` is the address of the first interval). */
    method InRange16(q: nat, n: nat, c: nat) returns (found: bool)
      requires q + 4 * n <= |bc|
      ensures found == RangeAccepts(GetU16s(bc, q, 2 * n), false, c)
    {
      hide GetU16;
      hide RangeSearch;
      hide GetU16s;
      ghost var b := GetU16s(bc, q, 2 * n);
      if n == 0 { return false; }  // not in compiled code
      OperandAt16(bc, q, 2 * n, 0);
      OperandAt16(bc, q, 2 * n, 2 * n - 1);
      var low := GetU16(bc, q);
      if c < low { return false; }
      var idxMin, idxMax := 0, n - 1;
      var high := GetU16(bc, q + idxMax * 4 + 2);
      if c >= 0xFFFF && high == 0xFFFF { return true; }
      if c > high { return false; }
      while idxMin <= idxMax
        invariant 0 <= idxMin && idxMax < n && 0 <= idxMax
        invariant RangeSearch(b, c, 0, n - 1) == RangeSearch(b, c, idxMin, idxMax)
        decreases idxMax - idxMin
      {
        var idx := (idxMin + idxMax) / 2;
        SearchStep(b, c, idxMin, idxMax);
        OperandAt16(bc, q, 2 * n, 2 * idx);
        OperandAt16(bc, q, 2 * n, 2 * idx + 1);
        low := GetU16(bc, q + idx * 4);
        high := GetU16(bc, q + idx * 4 + 2);
        if c < low {
          idxMax := idx - 1;
        } else if c > high {
          idxMin := idx + 1;
        } else {
          return true;
        }
      }
      SearchEnd(b, c, idxMin, idxMax);
      found := false;
    }

    /** The binary search of `range32`. */
    method InRange32(q: nat, n: nat, c: nat) returns (found: bool)
      requires q + 8 * n <= |bc|
      ensures found == RangeAccepts(GetU32s(bc, q, 2 * n), true, c)
    {
      hide GetU32;
      hide RangeSearch;
      hide GetU32s;
      ghost var b := GetU32s(bc, q, 2 * n);
      if n == 0 { return false; }  // not in compiled code
      OperandAt32(bc, q, 2 * n, 0);
      OperandAt32(bc, q, 2 * n, 2 * n - 1);
      var low := GetU32(bc, q);
      if c < low { return false; }
      var idxMin, idxMax := 0, n - 1;
      var high := GetU32(bc, q + idxMax * 8 + 4);
      if c > high { return false; }
      while idxMin <= idxMax
        invariant 0 <= idxMin && idxMax < n && 0 <= idxMax
        invariant RangeSearch(b, c, 0, n - 1) == RangeSearch(b, c, idxMin, idxMax)
        decreases idxMax - idxMin
      {
        var idx := (idxMin + idxMax) / 2;
        SearchStep(b, c, idxMin, idxMax);
        OperandAt32(bc, q, 2 * n, 2 * idx);
        OperandAt32(bc, q, 2 * n, 2 * idx + 1);
        low := GetU32(bc, q + idx * 8);
        high := GetU32(bc, q + idx * 8 + 4);
        if c < low {
          idxMax := idx - 1;
        } else if c > high {
          idxMin := idx + 1;
        } else {
          return true;
        }
      }
      SearchEnd(b, c, idxMin, idxMax);
      found := false;
    }

    /** A character test or an assertion. */
    method AtomOp(pc: nat, cptr: nat, ghost i: Instr) returns (ok: bool, pc': nat, cptr': nat)
      requires Valid() && cptr <= |x.input|
      requires Fetch(bc, pc) == Some(i) && (ReadsOneChar(i) || IsAssertion(i))
      ensures Advance(i, x, Here(cptr)) == if ok then Some(Here(cptr')) else None
      ensures ok ==> pc' == pc + Size(i) && cptr' <= |x.input|
    {
      hide GetU16;
      hide GetU32;
      hide GetU16s;
      hide GetU32s;
      hide RangeAccepts;
      var opcode := bc[pc];
      pc', cptr' := pc + 1, cptr;
      if opcode == REOP_LINE_START {
        ok := cptr == 0 || (x.multiline && IsLineTerminator(x.input[cptr - 1]));
      } else if opcode == REOP_LINE_END {
        ok := cptr == |x.input| || (x.multiline && IsLineTerminator(x.input[cptr]));
      } else if opcode == REOP_WORD_BOUNDARY || opcode == REOP_NOT_WORD_BOUNDARY {
        var v1, v2 := false, false;
        if cptr != 0 { v1 := IsWordChar(x.input[cptr - 1]); }
        if cptr < |x.input| { v2 := IsWordChar(x.input[cptr]); }
        ok := (v1 != v2) == (opcode == REOP_WORD_BOUNDARY);
      } else if cptr >= |x.input| {
        ok := false;
      } else {
        var c := x.input[cptr];
        cptr' := cptr + 1;
        if opcode == REOP_CHAR8 {
          ok := bc[pc + 1] == c;
          pc' := pc + 2;
        } else if opcode == REOP_CHAR16 {
          ok := GetU16(bc, pc + 1) == c;
          pc' := pc + 3;
        } else if opcode == REOP_CHAR32 {
          ok := GetU32(bc, pc + 1) == c;
          pc' := pc + 5;
        } else if opcode == REOP_DOT {
          ok := !IsLineTerminator(c);
        } else if opcode == REOP_ANY {
          ok := true;
        } else if opcode == REOP_RANGE {
          var n := GetU16(bc, pc + 1);
          ok := InRange16(pc + 3, n, c);
          pc' := pc + 3 + 4 * n;
        } else {
          var n := GetU16(bc, pc + 1);
          ok := InRange32(pc + 3, n, c);
          pc' := pc + 3 + 8 * n;
        }
      }
    }

    /** The nested run without backtracking that `simple_greedy_quant` makes. */
    method ExecNoRecurse(start: nat, from: nat) returns (ok: bool, end: nat)
      requires Valid() && from <= |x.input|
      requires !RunAtom(Decoded(bc), x, start, Here(from)).Broken?
      ensures RunAtom(Decoded(bc), x, start, Here(from)) == if ok then Matched(Here(end)) else Mismatch
    {
      hide Fetch;
      hide Decoded;
      hide Advance;
      ghost var p := Decoded(bc);
      var pc: nat, cptr: nat := start, from;
      while true
        invariant cptr <= |x.input|
        invariant RunAtom(p, x, start, Here(from)) == RunAtom(p, x, pc, Here(cptr))
        decreases |bc| - pc
      {
        DecodedFetch(bc, pc);
        FetchOpcode(bc, pc);
        if bc[pc] == REOP_MATCH { return true, cptr; }
        var ok', pc', cptr' := AtomOp(pc, cptr, p.at[pc]);
        if !ok' { return false, cptr; }
        pc, cptr := pc', cptr';
      }
    }

    /** `simple_greedy_quant`: as many attempts as succeed in a row. */
    method RepeatAtom(start: nat, from: nat, max: nat) returns (q: nat, end: nat)
      requires Valid() && from <= |x.input|
      requires RunAtoms(Decoded(bc), x, start, Here(from), 0, max).Count?
      ensures RunAtoms(Decoded(bc), x, start, Here(from), 0, max) == Count(q, Here(end))
    {
      hide Decoded;
      hide RunAtom;
      q, end := 0, from;
      while true
        invariant end <= |x.input|
        invariant RunAtoms(Decoded(bc), x, start, Here(from), 0, max)
          == RunAtoms(Decoded(bc), x, start, Here(end), q, max)
        decreases |x.input| - end
      {
        var ok, cptr := ExecNoRecurse(start, end);
        if !ok { break; }
        NextAttempt(Decoded(bc), x, start, Here(end), q, max, Here(cptr));
        end := cptr;
        q := q + 1;
        if q >= max && max != INT32_MAX { return; }
      }
    }

    // ----- the instructions -----

    /** `push_state`. */
    method PushState(kind: Kind, count: nat, pc: nat, cptr: nat, stackLen: nat)
      requires stackLen <= stack.Length
      modifies this`states
      ensures states == old(states) + [Saved(kind, count, pc, Here(cptr), stack[..stackLen])]
    {
      states := states + [Saved(kind, count, pc, St(cptr, capture[..]), stack[..stackLen])];
    }

    /** The jumps and the instructions that save a state. */
    method Branch(pc: nat, cptr: nat, stackLen: nat, ghost i: Instr) returns (pc': int)
      requires Valid() && cptr <= |x.input| && stackLen <= stack.Length
      requires Fetch(bc, pc) == Some(i)
        && (i.Goto? || i.SplitGotoFirst? || i.SplitNextFirst? || i.Lookahead? || i.NegativeLookahead?)
      requires StepRun(Decoded(bc), x, i, pc, Here(cptr), stack[..stackLen], states) != Stuck
      modifies this`states
      ensures pc' >= 0
      ensures Running(pc', cptr, stackLen) == old(StepRun(Decoded(bc), x, i, pc, Here(cptr), stack[..stackLen], states))
    {
      hide GetU32;
      hide Signed;
      hide Decoded;
      var opcode := bc[pc];
      var val := Signed(GetU32(bc, pc + 1));
      pc' := pc + 5;
      if opcode == REOP_GOTO {
        pc' := pc' + val;
      } else if opcode == REOP_SPLIT_NEXT_FIRST {
        PushState(SplitState, 0, pc' + val, cptr, stackLen);
      } else if opcode == REOP_SPLIT_GOTO_FIRST {
        PushState(SplitState, 0, pc', cptr, stackLen);
        pc' := pc' + val;
      } else {
        var kind := if opcode == REOP_LOOKAHEAD then LookaheadState else NegativeLookaheadState;
        PushState(kind, 0, pc' + val, cptr, stackLen);
      }
    }

    /** The instructions that write captures. */
    method Save(pc: nat, cptr: nat, stackLen: nat, ghost i: Instr) returns (pc': nat)
      requires Valid() && cptr <= |x.input| && stackLen <= stack.Length
      requires Fetch(bc, pc) == Some(i) && (i.SaveStart? || i.SaveEnd? || i.SaveReset?)
      requires StepRun(Decoded(bc), x, i, pc, Here(cptr), stack[..stackLen], states) != Stuck
      modifies capture
      ensures Running(pc', cptr, stackLen) == old(StepRun(Decoded(bc), x, i, pc, Here(cptr), stack[..stackLen], states))
    {
      hide Decoded;
      var opcode, val := bc[pc], bc[pc + 1];
      if opcode == REOP_SAVE_RESET {
        var val2 := bc[pc + 2];
        pc' := pc + 3;
        var v := val;
        while v <= val2
          invariant val <= v && (v <= val2 + 1 || v == val)
          invariant forall k :: 0 <= k < capture.Length ==>
            capture[k] == if 2 * val <= k < 2 * v then UNSET else old(capture[k])
        {
          capture[2 * v] := UNSET;
          capture[2 * v + 1] := UNSET;
          v := v + 1;
        }
        assert capture[..] == ResetCaps(old(Here(cptr)), val, val2 + 1).caps;
      } else {
        pc' := pc + 2;
        capture[2 * val + opcode - REOP_SAVE_START] := cptr;
        assert capture[..] == SetCap(old(Here(cptr)), 2 * val + opcode - REOP_SAVE_START, cptr).caps;
      }
    }

    /** The instructions of the value stack, and stepping back. */
    method StackOp(pc: nat, cptr: nat, stackLen: nat, ghost i: Instr) returns (status: Status, pc': int, cptr': nat,
        stackLen': nat)
      requires Valid() && cptr <= |x.input| && stackLen <= stack.Length
      requires Fetch(bc, pc) == Some(i)
        && (i.PushI32? || i.PushCharPos? || i.Drop? || i.Loop? || i.CheckAdvance? || i.Prev?)
      requires StepRun(Decoded(bc), x, i, pc, Here(cptr), stack[..stackLen], states) != Stuck
      requires Delta(i) > 0 ==> stackLen < stack.Length
      modifies stack
      ensures pc' >= 0 && stackLen' <= stack.Length
      ensures After(status, pc', cptr', stackLen')
        == old(StepRun(Decoded(bc), x, i, pc, Here(cptr), stack[..stackLen], states))
    {
      hide GetU32;
      hide Signed;
      hide Decoded;
      var opcode := bc[pc];
      status, pc', cptr', stackLen' := Goes, pc + 1, cptr, stackLen;
      ghost var was := stack[..stackLen];
      if opcode == REOP_PUSH_I32 {
        pc' := pc' + 4;
        stack[stackLen] := GetU32(bc, pc + 1);
        stackLen' := stackLen + 1;
        assert stack[..stackLen'] == was + [GetU32(bc, pc + 1)];
      } else if opcode == REOP_PUSH_CHAR_POS {
        stack[stackLen] := cptr;
        stackLen' := stackLen + 1;
        assert stack[..stackLen'] == was + [cptr as int];
      } else if opcode == REOP_DROP {
        stackLen' := stackLen - 1;
        assert stack[..stackLen'] == was[..|was| - 1];
      } else if opcode == REOP_LOOP {
        var val := Signed(GetU32(bc, pc + 1));
        pc' := pc' + 4;
        stack[stackLen - 1] := stack[stackLen - 1] - 1;
        assert stack[..stackLen] == was[..|was| - 1] + [was[|was| - 1] - 1];
        if stack[stackLen - 1] != 0 { pc' := pc' + val; }
      } else if opcode == REOP_CHECK_ADVANCE {
        stackLen' := stackLen - 1;
        assert stack[..stackLen'] == was[..|was| - 1];
        if stack[stackLen'] == cptr { status := Fails; }
      } else {
        if cptr == 0 { status := Fails; } else { cptr' := cptr - 1; }
      }
    }

    /** The two back-reference instructions. */
    method BackRefOp(pc: nat, cptr: nat, ghost i: Instr) returns (status: Status, cptr': nat)
      requires Valid() && cptr <= |x.input| && Low(x, Here(cptr))
      requires Fetch(bc, pc) == Some(i) && (i.BackReference? || i.BackwardBackReference?)
      ensures status != Succeeds
      ensures BackRefMatch(i.n, i.BackReference?, x, Here(cptr)) == if status == Goes then [Here(cptr')] else []
    {
      var opcode, val := bc[pc], bc[pc + 1];
      if val >= x.ncap { return Fails, cptr; }
      var start, end := capture[2 * val], capture[2 * val + 1];
      if start < 0 || end < 0 { return Goes, cptr; }
      var same: bool;
      if opcode == REOP_BACK_REFERENCE {
        same, cptr' := SameForward(start, end, cptr);
      } else {
        same, cptr' := SameBackward(start, end, cptr);
      }
      status := if same then Goes else Fails;
    }

    method SameForward(start: nat, end: nat, cptr: nat) returns (same: bool, cptr': nat)
      requires cptr <= |x.input| && start <= |x.input| && end <= |x.input|
      ensures start < end ==> same == SameText(x.input, start, cptr, end - start)
      ensures end <= start ==> same
      ensures same ==> cptr' == if start < end then cptr + (end - start) else cptr
    {
      hide SameText;
      SameNone(x.input, start, cptr);
      var k := 0;
      cptr' := cptr;
      while start + k < end
        invariant cptr' == cptr + k <= |x.input|
        invariant k > 0 ==> start + k <= end
        invariant SameText(x.input, start, cptr, k)
      {
        if start < end { SameSplit(x.input, start, cptr, k, end - start); }
        if cptr' >= |x.input| { return false, cptr; }
        if x.input[start + k] != x.input[cptr'] { return false, cptr; }
        k, cptr' := k + 1, cptr' + 1;
      }
      same := true;
    }

    method SameBackward(start: nat, end: nat, cptr: nat) returns (same: bool, cptr': nat)
      requires cptr <= |x.input| && start <= |x.input| && end <= |x.input|
      ensures start < end ==>
        same == (end - start <= cptr && SameText(x.input, start, cptr - (end - start), end - start))
      ensures end <= start ==> same
      ensures same ==> cptr' == if start < end then cptr - (end - start) else cptr
    {
      hide SameText;
      SameNone(x.input, end, cptr);
      var k := 0;
      cptr' := cptr;
      while end > start + k
        invariant cptr' == cptr - k && k <= end
        invariant k > 0 ==> start + k <= end
        invariant SameText(x.input, end - k, cptr - k, k)
      {
        if end - start <= cptr { SameSplitBack(x.input, start, cptr - (end - start), k, end - start); }
        if cptr' == 0 { return false, cptr; }
        if x.input[end - k - 1] != x.input[cptr' - 1] { return false, cptr; }
        SameGrows(x.input, end - k, cptr', k);
        k, cptr' := k + 1, cptr' - 1;
      }
      same := true;
    }

    /** `simple_greedy_quant`. */
    method GreedyQuant(pc: nat, cptr: nat, stackLen: nat, ghost i: Instr) returns (status: Status, pc': int, cptr': nat)
      requires Valid() && cptr <= |x.input| && stackLen <= stack.Length
      requires Fetch(bc, pc) == Some(i) && i.SimpleGreedyQuant?
      requires StepRun(Decoded(bc), x, i, pc, Here(cptr), stack[..stackLen], states) != Stuck
      modifies this`states
      ensures pc' >= 0
      ensures After(status, pc', cptr', stackLen)
        == old(StepRun(Decoded(bc), x, i, pc, Here(cptr), stack[..stackLen], states))
    {
      hide GetU32;
      hide Signed;
      hide Decoded;
      hide RunAtoms;
      var nextPos := Signed(GetU32(bc, pc + 1));
      var quantMin := GetU32(bc, pc + 5);
      var quantMax := GetU32(bc, pc + 9);
      var q: nat;
      q, cptr' := RepeatAtom(pc + 17, cptr, quantMax);
      status, pc' := Goes, pc;
      if q < quantMin { return Fails, pc, cptr'; }
      pc' := pc + 17 + nextPos;
      if q > quantMin {
        PushState(GreedyQuantState, q - quantMin, pc, cptr', stackLen);
      }
    }

    /** One turn of the interpreter loop. */
    method Execute(pc: nat, cptr: nat, stackLen: nat, ghost left: nat, ghost final: Option<St>)
      returns (status: Status, pc': nat, cptr': nat, stackLen': nat)
      requires Valid() && stackLen <= stack.Length
      requires Ahead(Decoded(bc), x, stack.Length, Running(pc, cptr, stackLen), left, final)
      modifies this`states, capture, stack
      ensures stackLen' <= stack.Length && left > 0
      ensures Ahead(Decoded(bc), x, stack.Length, After(status, pc', cptr', stackLen'), left - 1, final)
    {
      hide Fetch;
      hide Decoded;
      hide StepRun;
      hide Ahead;
      hide LowCfg;
      ghost var c := Running(pc, cptr, stackLen);
      AheadStep(Decoded(bc), x, stack.Length, c, left, final);
      ghost var i := Decoded(bc).at[pc];
      DecodedFetch(bc, pc);
      FetchOpcode(bc, pc);
      status, pc', cptr', stackLen' := Goes, pc, cptr, stackLen;
      var opcode := bc[pc];
      ghost var d := Step(Decoded(bc), x, c);
      assert d == StepRun(Decoded(bc), x, i, pc, c.st, c.stack, c.states);
      if opcode == REOP_MATCH {
        status := Succeeds;
        MatchStep(Decoded(bc), x, i, pc, c.st, c.stack, c.states);
      } else if opcode in {REOP_GOTO, REOP_SPLIT_GOTO_FIRST, REOP_SPLIT_NEXT_FIRST, REOP_LOOKAHEAD,
        REOP_NEGATIVE_LOOKAHEAD} {
        pc' := Branch(pc, cptr, stackLen, i);
      } else if opcode in {REOP_SAVE_START, REOP_SAVE_END, REOP_SAVE_RESET} {
        pc' := Save(pc, cptr, stackLen, i);
      } else if opcode in {REOP_PUSH_I32, REOP_PUSH_CHAR_POS, REOP_DROP, REOP_LOOP, REOP_CHECK_ADVANCE, REOP_PREV} {
        PushNeedsRoom(Decoded(bc), x, i, pc, c.st, c.stack, c.states);
        status, pc', cptr', stackLen' := StackOp(pc, cptr, stackLen, i);
      } else if opcode == REOP_BACK_REFERENCE || opcode == REOP_BACKWARD_BACK_REFERENCE {
        status, cptr' := BackRefOp(pc, cptr, i);
        pc' := pc + 2;
        BackRefStep(Decoded(bc), x, i, pc, c.st, c.stack, c.states);
      } else if opcode == REOP_SIMPLE_GREEDY_QUANT {
        status, pc', cptr' := GreedyQuant(pc, cptr, stackLen, i);
      } else {
        var ok: bool;
        ok, pc', cptr' := AtomOp(pc, cptr, i);
        status := if ok then Goes else Fails;
        AtomStep(Decoded(bc), x, i, pc, c.st, c.stack, c.states);
      }
    }

    /** `memcpy` of saved values. */
    method CopyTo(a: array<int>, saved: seq<int>)
      requires |saved| <= a.Length
      modifies a
      ensures a[..|saved|] == saved
      ensures |saved| == a.Length ==> a[..] == saved
    {
      for k := 0 to |saved|
        invariant forall j :: 0 <= j < k ==> a[j] == saved[j]
      {
        a[k] := saved[k];
      }
    }

    /** Give back one iteration of the greedy quantifier on top of the state stack. */
    method GiveBack(rs: Saved) returns (pc: nat, cptr: nat)
      requires |states| > 0 && rs == states[|states| - 1] && rs.kind == GreedyQuantState
      requires StepFail(Decoded(bc), states) != Stuck
      modifies this`states
      ensures Run(pc, St(cptr, rs.st.caps), rs.stack, states) == old(StepFail(Decoded(bc), states))
    {
      hide GetU32;
      hide Signed;
      hide Fetch;
      hide Decoded;
      DecodedFetch(bc, rs.pc);
      QuantOperands(bc, rs.pc);
      var charCount := GetU32(bc, rs.pc + 13);
      cptr := rs.st.pos;
      var k := 0;
      while k < charCount
        invariant k <= charCount && cptr + k == rs.st.pos
      {
        cptr := cptr - 1;
        k := k + 1;
      }
      pc := rs.pc + 17 + Signed(GetU32(bc, rs.pc + 1));
      var top := rs.(st := St(cptr, rs.st.caps), count := rs.count - 1);
      states := states[..|states| - 1];
      if top.count != 0 { states := states + [top]; }
    }

    /** The unwinding loop after `match` (`ret`) or after a mismatch. */
    method Unwind(ret0: bool, at: nat, ghost left0: nat, ghost final: Option<St>)
      returns (done: bool, ret: bool, pc: nat, cptr: nat, stackLen: nat, ghost left: nat)
      requires Valid()
      requires Ahead(Decoded(bc), x, stack.Length, if ret0 then Success(Here(at), states)
        else Fail(states), left0, final)
      modifies this`states, capture, stack
      ensures stackLen <= stack.Length
      ensures done ==> ret == final.Some? && (ret ==> capture[..] == final.value.caps)
      ensures !done ==> left < left0 && Ahead(Decoded(bc), x, stack.Length, Running(pc, cptr, stackLen), left, final)
    {
      hide Fetch;
      hide Decoded;
      hide Ahead;
      hide LowCfg;
      ret, left, pc, cptr, stackLen := ret0, left0, 0, at, 0;
      while true
        invariant Valid() && left <= left0
        invariant Ahead(Decoded(bc), x, stack.Length, if ret then Success(Here(at), states)
          else Fail(states), left, final)
        decreases left
      {
        ghost var c := if ret then Success(Here(at), states) else Fail(states);
        AheadStep(Decoded(bc), x, stack.Length, c, left, final);
        left := left - 1;
        if |states| == 0 {
          AheadDone(Decoded(bc), x, stack.Length, Step(Decoded(bc), x, c), left, final);
          return true, ret, pc, cptr, stackLen, left;
        }
        var rs := states[|states| - 1];
        if (rs.kind == SplitState && !ret) || (rs.kind == NegativeLookaheadState && !ret)
          || (rs.kind == LookaheadState && ret) {
          RestoredFits(Decoded(bc), x, stack.Length, Step(Decoded(bc), x, c), left, final);
          pc, cptr, stackLen := rs.pc, rs.st.pos, |rs.stack|;
          if rs.kind != LookaheadState { CopyTo(capture, rs.st.caps); }
          CopyTo(stack, rs.stack);
          states := states[..|states| - 1];
          return false, ret, pc, cptr, stackLen, left;
        } else if rs.kind == GreedyQuantState && !ret {
          RestoredFits(Decoded(bc), x, stack.Length, Step(Decoded(bc), x, c), left, final);
          pc, cptr := GiveBack(rs);
          CopyTo(capture, rs.st.caps);
          stackLen := |rs.stack|;
          CopyTo(stack, rs.stack);
          return false, ret, pc, cptr, stackLen, left;
        } else {
          if rs.kind == NegativeLookaheadState || rs.kind == LookaheadState { ret := false; }
          states := states[..|states| - 1];
        }
      }
    }

    /** `lre_exec_backtrack`: it returns, with the outcome of the machine's run. */
    method ExecBacktrack(start: nat, from: nat, ghost steps: nat, ghost final: Option<St>) returns (ret: bool)
      requires Valid()
      requires Ahead(Decoded(bc), x, stack.Length, Running(start, from, 0), steps, final)
      modifies this`states, capture, stack
      ensures ret == final.Some?
      ensures ret ==> capture[..] == final.value.caps
    {
      hide Fetch;
      hide Decoded;
      hide Ahead;
      var pc: nat, cptr: nat, stackLen: nat := start, from, 0;
      ghost var left := steps;
      while true
        invariant Valid() && stackLen <= stack.Length
        invariant Ahead(Decoded(bc), x, stack.Length, Running(pc, cptr, stackLen), left, final)
        decreases left
      {
        var status;
        status, pc, cptr, stackLen := Execute(pc, cptr, stackLen, left, final);
        left := left - 1;
        if status != Goes {
          var done;
          done, ret, pc, cptr, stackLen, left := Unwind(status == Succeeds, cptr, left, final);
          if done { return; }
        }
      }
    }
  }

  /** The compiled program halts, within the stack that its header records. */
  lemma CompiledRunAhead(b: seq<Byte>, x: Ctx, r: Regex, sticky: bool, from: nat, room: nat) returns (steps: nat)
    requires Fits(x, r, 1) && from <= |x.input| && NCaps(r) <= 254 && Len(Program(r, sticky)) < TWO31
    requires b == EncodeAll(Program(r, sticky)) && room == ComputeStackSize(Program(r, sticky), 0, 0)
    ensures Ahead(Decoded(b), x, room, Run(0, Start(x, from), [], []), steps, Find(r, sticky, x, from))
  {
    hide Program;
    hide Decoded;
    hide Find;
    hide Tidy;
    hide ComputeStackSize;
    hide Step;
    hide EncodeAll;
    hide At;
    hide Fits;
    hide Steps;
    assert WellFormed(r) by { FitsWell(x, r); }
    var p, s := Decoded(b), Start(x, from);
    ProgramDecodes(r, sticky);
    ProgramHalts(p, x, r, sticky, from);
    steps :| Steps(p, x, Run(0, s, [], []), steps) == Done(Find(r, sticky, x, from));
    forall k: nat | k <= steps ensures Roomy(room, Steps(p, x, Run(0, s, [], []), k)) {
      CompiledStackDiscipline(p, x, r, sticky, s, k);
    }
  }

  lemma FitsWell(x: Ctx, r: Regex)
    requires Fits(x, r, 1)
    ensures WellFormed(r)
  {
  }

  /** `lre_exec` on the code of a pattern: it terminates, and finds the match that the
      reference matcher prefers, with its captures. */
  method LreExec(b: seq<Byte>, x: Ctx, from: nat, stackSize: nat, ghost r: Regex, ghost sticky: bool)
    returns (ret: bool, captures: seq<int>)
    requires Fits(x, r, 1) && from <= |x.input| && NCaps(r) <= 254 && Len(Program(r, sticky)) < TWO31
    requires b == EncodeAll(Program(r, sticky)) && stackSize == ComputeStackSize(Program(r, sticky), 0, 0)
    ensures ret == Find(r, sticky, x, from).Some?
    ensures ret ==> captures == Find(r, sticky, x, from).value.caps
  {
    hide Program;
    hide Decoded;
    hide Find;
    hide ComputeStackSize;
    hide EncodeAll;
    hide Ahead;
    var s := new REExecContext(x, b, stackSize);
    ghost var steps := CompiledRunAhead(b, x, r, sticky, from, stackSize);
    assert s.capture[..] == Start(x, from).caps;
    assert s.stack[..0] == [];
    ret := s.ExecBacktrack(0, from, steps, Find(r, sticky, x, from));
    captures := s.capture[..];
  }
}
