/** The backtracking machine: one step per iteration of its interpreter loop or of
    its unwinding loop, over a program decoded from bytes (address to instruction). */
module RegexVm {
  import opened Common
  import opened RegexSyntax
  import opened RegexCode
  import opened RegexMatcher

  /** A decoded program: the instruction at each byte address, and its size in bytes. */
  datatype Prog = Prog(at: map<nat, Instr>, size: nat)

  datatype Kind = SplitState | LookaheadState | NegativeLookaheadState | GreedyQuantState

  /** A saved state. For a greedy quantifier `pc` is the address of its instruction. */
  datatype Saved = Saved(kind: Kind, count: nat, pc: nat, st: St, stack: seq<int>)

  /** `Run` interprets; `Fail` and `Success` unwind the saved states after a mismatch
      and after `match`. A failing machine's captures are dead: every resumption
      restores saved ones. */
  datatype Cfg =
    | Run(pc: nat, st: St, stack: seq<int>, states: seq<Saved>)
    | Fail(states: seq<Saved>)
    | Success(st: St, states: seq<Saved>)
    | Done(res: Option<St>)
    | Stuck


  /** The outcome of an instruction that neither jumps nor touches a stack. */
  function Advance(i: Instr, x: Ctx, s: St): Option<St>
    requires ValidSt(x, s)
    requires ReadsOneChar(i) || IsAssertion(i)
  {
    if IsAssertion(i) then
      if Holds(i, x, s.pos) then Some(s) else None
    else if s.pos < |x.input| && TestChar(i, x.input[s.pos]) then Some(s.(pos := s.pos + 1))
    else None
  }

  predicate Holds(i: Instr, x: Ctx, p: nat)
    requires p <= |x.input|
    requires IsAssertion(i)
  {
    match i
    case LineStartOp => AtLineStart(x, p)
    case LineEndOp => AtLineEnd(x, p)
    case WordBoundaryOp => AtWordBoundary(x, p)
    case NotWordBoundaryOp => !AtWordBoundary(x, p)
  }

  predicate TestChar(i: Instr, c: nat)
    requires ReadsOneChar(i)
  {
    match i
    case Char8(d) => c == d
    case Char16(d) => c == d
    case Char32(d) => c == d
    case DotOp => !IsLineTerminator(c)
    case AnyOp => true
    case Range(b) => RangeAccepts(b, false, c)
    case Range32(b) => RangeAccepts(b, true, c)
  }

  /** The range instructions: two quick tests, then a binary search. */
  predicate RangeAccepts(b: seq<nat>, wide: bool, c: nat) {
    && |b| >= 2
    && |b| % 2 == 0
    && c >= b[0]
    && ((!wide && c >= 0xFFFF && b[|b| - 1] == 0xFFFF)
        || (c <= b[|b| - 1] && RangeSearch(b, c, 0, |b| / 2 - 1)))
  }

  predicate RangeSearch(b: seq<nat>, c: nat, lo: int, hi: int)
    requires |b| % 2 == 0 && 0 <= lo && hi < |b| / 2
    decreases hi - lo + 1
  {
    if lo > hi then false
    else
      var m := (lo + hi) / 2;
      if c < b[2 * m] then RangeSearch(b, c, lo, m - 1)
      else if c > b[2 * m + 1] then RangeSearch(b, c, m + 1, hi)
      else true
  }

  /** One attempt at the atom of a simple quantifier (`no_recurse`): straight-line
      code up to `match`. */
  datatype Attempt = Matched(st: St) | Mismatch | Broken

  function RunAtom(p: Prog, x: Ctx, pc: nat, s: St): (r: Attempt)
    requires ValidSt(x, s)
    ensures r.Matched? ==> ValidSt(x, r.st)
    decreases p.size - pc
  {
    if pc >= p.size || pc !in p.at then Broken
    else
      var i := p.at[pc];
      if i.MatchOp? then Matched(s)
      else if ReadsOneChar(i) || IsAssertion(i) then
        match Advance(i, x, s)
        case None => Mismatch
        case Some(t) => RunAtom(p, x, pc + Size(i), t)
      else Broken
  }

  /** The attempts made by `simple_greedy_quant`: how many succeed in a row, and where
      the last one ends. An atom that does not move would never stop. */
  datatype Attempts = Count(q: nat, st: St) | NoCount

  function RunAtoms(p: Prog, x: Ctx, pc: nat, s: St, q: nat, max: nat): (r: Attempts)
    requires ValidSt(x, s)
    ensures r.Count? ==> ValidSt(x, r.st)
    decreases |x.input| - s.pos
  {
    match RunAtom(p, x, pc, s)
    case Broken => NoCount
    case Mismatch => Count(q, s)
    case Matched(t) =>
      if q + 1 >= max && max != INT32_MAX then Count(q + 1, t)
      else if t.pos <= s.pos then NoCount
      else RunAtoms(p, x, pc, t, q + 1, max)
  }

  function Jump(pc: nat, i: Instr, off: int): int {
    pc + Size(i) + off
  }

  /** Resume at an address, which must not be negative. */
  function Go(pc: int, s: St, stack: seq<int>, states: seq<Saved>): Cfg {
    if pc < 0 then Stuck else Run(pc, s, stack, states)
  }

  function SplitTo(first: int, second: int, s: St, stack: seq<int>, states: seq<Saved>): Cfg {
    if second < 0 then Stuck
    else Go(first, s, stack, states + [Saved(SplitState, 0, second, s, stack)])
  }

  function StepRun(p: Prog, x: Ctx, i: Instr, pc: nat, s: St, stack: seq<int>, states: seq<Saved>): Cfg
    requires ValidSt(x, s)
  {
    var next := pc + Size(i);
    match i
    case MatchOp => Success(s, states)
    case Goto(off) => Go(Jump(pc, i, off), s, stack, states)
    case SplitGotoFirst(off) => SplitTo(Jump(pc, i, off), next, s, stack, states)
    case SplitNextFirst(off) => SplitTo(next, Jump(pc, i, off), s, stack, states)
    case SaveStart(n) => if n >= x.ncap then Stuck else Run(next, SetCap(s, 2 * n, s.pos), stack, states)
    case SaveEnd(n) => if n >= x.ncap then Stuck else Run(next, SetCap(s, 2 * n + 1, s.pos), stack, states)
    case SaveReset(lo, hi) => if hi >= x.ncap then Stuck else Run(next, ResetCaps(s, lo, hi + 1), stack, states)
    case PushI32(v) => Run(next, s, stack + [v], states)
    case PushCharPos => Run(next, s, stack + [s.pos], states)
    case Drop => if stack == [] then Stuck else Run(next, s, stack[..|stack| - 1], states)
    case Loop(off) =>
      if stack == [] then Stuck
      else
        var k := stack[|stack| - 1] - 1;
        var stack' := stack[..|stack| - 1] + [k];
        if k != 0 then Go(Jump(pc, i, off), s, stack', states) else Run(next, s, stack', states)
    case CheckAdvance =>
      if stack == [] then Stuck
      else if stack[|stack| - 1] == s.pos then Fail(states)
      else Run(next, s, stack[..|stack| - 1], states)
    case BackReference(n) => StepBackRef(n, true, x, next, s, stack, states)
    case BackwardBackReference(n) => StepBackRef(n, false, x, next, s, stack, states)
    case Lookahead(off) =>
      if Jump(pc, i, off) < 0 then Stuck
      else Run(next, s, stack, states + [Saved(LookaheadState, 0, Jump(pc, i, off), s, stack)])
    case NegativeLookahead(off) =>
      if Jump(pc, i, off) < 0 then Stuck
      else Run(next, s, stack, states + [Saved(NegativeLookaheadState, 0, Jump(pc, i, off), s, stack)])
    case Prev => if s.pos == 0 then Fail(states) else Run(next, s.(pos := s.pos - 1), stack, states)
    case SimpleGreedyQuant(off, min, max, len) =>
      (match RunAtoms(p, x, next, s, 0, max)
       case NoCount => Stuck
       case Count(q, t) =>
         if q < min then Fail(states)
         else if q > min then
           Go(Jump(pc, i, off), t, stack, states + [Saved(GreedyQuantState, q - min, pc, t, stack)])
         else Go(Jump(pc, i, off), t, stack, states))
    case _ =>
      assert ReadsOneChar(i) || IsAssertion(i);
      (match Advance(i, x, s)
       case None => Fail(states)
       case Some(t) => Run(next, t, stack, states))
  }

  function StepBackRef(n: nat, fwd: bool, x: Ctx, next: nat, s: St, stack: seq<int>, states: seq<Saved>): Cfg
    requires ValidSt(x, s)
  {
    var out := BackRefMatch(n, fwd, x, s);
    if out == [] then Fail(states) else Run(next, out[0], stack, states)
  }

  function StepFail(p: Prog, states: seq<Saved>): Cfg {
    if states == [] then Done(None)
    else
      var top, rest := states[|states| - 1], states[..|states| - 1];
      match top.kind
      case SplitState => Run(top.pc, top.st, top.stack, rest)
      case NegativeLookaheadState => Run(top.pc, top.st, top.stack, rest)
      case LookaheadState => Fail(rest)
      case GreedyQuantState => Retreat(p, top, rest)
  }

  /** Give back one iteration of a greedy quantifier. */
  function Retreat(p: Prog, top: Saved, rest: seq<Saved>): Cfg {
    if top.pc !in p.at || !p.at[top.pc].SimpleGreedyQuant? || top.count == 0
       || top.st.pos < p.at[top.pc].len
    then Stuck
    else
      var i := p.at[top.pc];
      var s := top.st.(pos := top.st.pos - i.len);
      Go(Jump(top.pc, i, i.off), s, top.stack,
         if top.count == 1 then rest else rest + [top.(st := s, count := top.count - 1)])
  }

  function StepSuccess(s: St, states: seq<Saved>): Cfg {
    if states == [] then Done(Some(s))
    else
      var top, rest := states[|states| - 1], states[..|states| - 1];
      match top.kind
      case LookaheadState => Run(top.pc, St(top.st.pos, s.caps), top.stack, rest)
      case NegativeLookaheadState => Fail(rest)
      case _ => Success(s, rest)
  }

  function Step(p: Prog, x: Ctx, c: Cfg): Cfg {
    match c
    case Run(pc, s, stack, states) =>
      if pc in p.at && ValidSt(x, s) then StepRun(p, x, p.at[pc], pc, s, stack, states) else Stuck
    case Fail(states) => StepFail(p, states)
    case Success(s, states) => StepSuccess(s, states)
    case Done(_) => c
    case Stuck => c
  }

  function Steps(p: Prog, x: Ctx, c: Cfg, n: nat): Cfg
    decreases n
  {
    if n == 0 then c else Steps(p, x, Step(p, x, c), n - 1)
  }

  // ----- runs -----

  ghost predicate Reaches(p: Prog, x: Ctx, c: Cfg, d: Cfg) {
    exists n: nat :: Steps(p, x, c, n) == d
  }

  lemma ReachesRefl(p: Prog, x: Ctx, c: Cfg)
    ensures Reaches(p, x, c, c)
  {
    assert Steps(p, x, c, 0) == c;
  }

  lemma ReachesStep(p: Prog, x: Ctx, c: Cfg)
    ensures Reaches(p, x, c, Step(p, x, c))
  {
    assert Steps(p, x, Step(p, x, c), 0) == Step(p, x, c);
    assert Steps(p, x, c, 1) == Step(p, x, c);
  }

  lemma {:induction false} StepsAdd(p: Prog, x: Ctx, c: Cfg, m: nat, n: nat)
    ensures Steps(p, x, c, m + n) == Steps(p, x, Steps(p, x, c, m), n)
    decreases m
  {
    if m > 0 {
      StepsAdd(p, x, Step(p, x, c), m - 1, n);
    }
  }

  lemma ReachesTrans(p: Prog, x: Ctx, a: Cfg, b: Cfg, c: Cfg)
    requires Reaches(p, x, a, b) && Reaches(p, x, b, c)
    ensures Reaches(p, x, a, c)
  {
    var m: nat :| Steps(p, x, a, m) == b;
    var n: nat :| Steps(p, x, b, n) == c;
    StepsAdd(p, x, a, m, n);
  }

  lemma {:induction false} DoneForever(p: Prog, x: Ctx, c: Cfg, n: nat)
    requires c.Done?
    ensures Steps(p, x, c, n) == c
    decreases n
  {
    if n > 0 {
      DoneForever(p, x, c, n - 1);
    }
  }

  /** A machine halts in at most one way. */
  lemma HaltsOnce(p: Prog, x: Ctx, c: Cfg, d: Cfg, e: Cfg)
    requires Reaches(p, x, c, d) && Reaches(p, x, c, e) && d.Done? && e.Done?
    ensures d == e
  {
    var m: nat :| Steps(p, x, c, m) == d;
    var n: nat :| Steps(p, x, c, n) == e;
    StepsAdd(p, x, c, m, n);
    StepsAdd(p, x, c, n, m);
    DoneForever(p, x, d, n);
    DoneForever(p, x, e, m);
  }
}
