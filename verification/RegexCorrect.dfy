/** Compiler correctness: the emitted code yields what the pattern matches, and a
    whole program finds the leftmost, highest-priority match. */
module RegexCorrect {
  import opened Common
  import opened RegexSyntax
  import opened RegexCode
  import opened RegexMatcher
  import opened RegexVm
  import opened RegexYields
  import opened RegexLoops
  import opened RegexRange
  import opened RegexPieces
  import opened RegexQuantifiers

  /** What is asked of the subject: no per-iteration clearing, 16-bit units, and room
      for every group of the pattern. */
  ghost predicate Fits(x: Ctx, r: Regex, cc: nat) {
    WellFormed(r) && !x.perIteration && ValidChars(x) && cc + NCaps(r) <= x.ncap
  }

  lemma AtomDoes(p: Prog, x: Ctx, pc: nat, r: Regex, cc: nat, fwd: bool)
    requires Fits(x, r, cc) && (r.Char? || r.Dot? || r.Class?) && At(p, pc, Code(r, cc, fwd))
    ensures Does(p, x, pc, pc + Len(Code(r, cc, fwd)), After(r, cc, fwd, x))
  {
    hide Yields;
    hide Arrives;
    hide At;
    var i := OneCharCode(r);
    assert Code(r, cc, fwd) == if fwd then [i] else [Prev] + [i] + [Prev];
    LenConcat([Prev] + [i], [Prev]);
    LenConcat([Prev], [i]);
    var g, end := After(r, cc, fwd, x), pc + Len(Code(r, cc, fwd));
    forall s: St, stack: seq<int>, base: seq<Saved> | ValidSt(x, s)
      ensures Continues(p, x, s, pc, stack, base, g(s), end, stack)
    {
      if fwd {
        OneCharForward(p, x, pc, r, s, stack, base);
      } else {
        OneCharBackward(p, x, pc, r, s, stack, base);
      }
    }
  }

  lemma AssertionDoes(p: Prog, x: Ctx, pc: nat, r: Regex, cc: nat, fwd: bool)
    requires Fits(x, r, cc) && (r.LineStart? || r.LineEnd? || r.WordBoundary?) && At(p, pc, Code(r, cc, fwd))
    ensures Does(p, x, pc, pc + Len(Code(r, cc, fwd)), After(r, cc, fwd, x))
  {
    hide Yields;
    hide Arrives;
    var i := Code(r, cc, fwd)[0];
    assert Code(r, cc, fwd) == [i];
    var g, end := After(r, cc, fwd, x), pc + 1;
    forall s: St, stack: seq<int>, base: seq<Saved> | ValidSt(x, s)
      ensures Continues(p, x, s, pc, stack, base, g(s), end, stack)
    {
      AdvanceYields(p, x, pc, i, s, stack, base, g(s));
    }
  }

  lemma BackRefDoes(p: Prog, x: Ctx, pc: nat, n: nat, cc: nat, fwd: bool)
    requires At(p, pc, [if fwd then BackReference(n) else BackwardBackReference(n)])
    ensures Does(p, x, pc, pc + 2, After(BackRef(n), cc, fwd, x))
  {
    hide Yields;
    hide Arrives;
    var g, end := After(BackRef(n), cc, fwd, x), pc + 2;
    forall s: St, stack: seq<int>, base: seq<Saved> | ValidSt(x, s)
      ensures Continues(p, x, s, pc, stack, base, g(s), end, stack)
    {
      BackRefYields(p, x, pc, n, fwd, s, stack, base);
    }
  }

  lemma PairDoes(p: Prog, x: Ctx, pc: nat, mid: nat, end: nat, f: St -> seq<St>, h: St -> seq<St>, g: St -> seq<St>)
    requires Does(p, x, pc, mid, f) && Does(p, x, mid, end, h) && KeepsValid(x, f)
    requires forall s: St :: ValidSt(x, s) ==> g(s) == FlatMap(f(s), h)
    ensures Does(p, x, pc, end, g)
  {
    hide Does;
    hide FlatMap;
    BindDoes(p, x, pc, mid, end, f, h);
    DoesSame(p, x, pc, end, Bind(f, h), g);
  }

  lemma CatDoes(p: Prog, x: Ctx, pc: nat, mid: nat, end: nat, a: Regex, b: Regex, cc: nat, fwd: bool)
    requires Does(p, x, pc, mid, if fwd then After(a, cc, fwd, x) else After(b, cc + NCaps(a), fwd, x))
    requires Does(p, x, mid, end, if fwd then After(b, cc + NCaps(a), fwd, x) else After(a, cc, fwd, x))
    ensures Does(p, x, pc, end, After(Cat(a, b), cc, fwd, x))
  {
    hide *;
    AfterOnward(a, cc, fwd, x);
    AfterOnward(b, cc + NCaps(a), fwd, x);
    CatEquation(a, b, cc, fwd, x);
    var f, h, g := After(a, cc, fwd, x), After(b, cc + NCaps(a), fwd, x), After(Cat(a, b), cc, fwd, x);
    if fwd {
      PairDoes(p, x, pc, mid, end, f, h, g);
    } else {
      PairDoes(p, x, pc, mid, end, h, f, g);
    }
  }

  lemma CatEquation(a: Regex, b: Regex, cc: nat, fwd: bool, x: Ctx)
    ensures var f, h := After(a, cc, fwd, x), After(b, cc + NCaps(a), fwd, x);
            forall s: St :: ValidSt(x, s) ==>
              After(Cat(a, b), cc, fwd, x)(s) == (if fwd then FlatMap(f(s), h) else FlatMap(h(s), f))
  {
    hide Match;
    hide FlatMap;
    var f, h := After(a, cc, fwd, x), After(b, cc + NCaps(a), fwd, x);
    forall s: St | ValidSt(x, s)
      ensures After(Cat(a, b), cc, fwd, x)(s) == (if fwd then FlatMap(f(s), h) else FlatMap(h(s), f))
    {
      CatIsBind(a, b, cc, fwd, x, s);
    }
  }

  lemma CatIsBind(a: Regex, b: Regex, cc: nat, fwd: bool, x: Ctx, s: St)
    requires ValidSt(x, s)
    ensures Match(Cat(a, b), cc, fwd, x, s)
         == if fwd then FlatMap(Match(a, cc, fwd, x, s), After(b, cc + NCaps(a), fwd, x))
            else FlatMap(Match(b, cc + NCaps(a), fwd, x, s), After(a, cc, fwd, x))
  {
    hide FlatMap;
    hide MatchAll;
    hide CloseAll;
    hide Rep;
    hide OneChar;
    hide BackRefMatch;
    if fwd {
      MatchAllIsBind(b, cc + NCaps(a), fwd, x, Match(a, cc, fwd, x, s), Rem(fwd, x, s));
    } else {
      MatchAllIsBind(a, cc, fwd, x, Match(b, cc + NCaps(a), fwd, x, s), Rem(fwd, x, s));
    }
  }

  lemma AltDoes(p: Prog, x: Ctx, pc: nat, ca: seq<Instr>, cb: seq<Instr>, a: Regex, b: Regex, cc: nat, fwd: bool)
    requires At(p, pc, AltCode(ca, cb))
    requires Does(p, x, pc + 5, pc + 5 + Len(ca), After(a, cc, fwd, x))
    requires Does(p, x, pc + 10 + Len(ca), pc + 10 + Len(ca) + Len(cb), After(b, cc + NCaps(a), fwd, x))
    ensures Does(p, x, pc, pc + Len(AltCode(ca, cb)), After(Alt(a, b), cc, fwd, x))
  {
    hide *;
    AfterOnward(a, cc, fwd, x);
    AltEquation(a, b, cc, fwd, x);
    EitherDoes(p, x, pc, ca, cb, After(a, cc, fwd, x), After(b, cc + NCaps(a), fwd, x), After(Alt(a, b), cc, fwd, x));
  }

  lemma AltEquation(a: Regex, b: Regex, cc: nat, fwd: bool, x: Ctx)
    ensures var f, h := After(a, cc, fwd, x), After(b, cc + NCaps(a), fwd, x);
            forall s: St :: ValidSt(x, s) ==> After(Alt(a, b), cc, fwd, x)(s) == f(s) + h(s)
  {
    hide Match;
    hide ValidSt;
    hide NCaps;
    var f, h := After(a, cc, fwd, x), After(b, cc + NCaps(a), fwd, x);
    forall s: St | ValidSt(x, s) ensures After(Alt(a, b), cc, fwd, x)(s) == f(s) + h(s) {
      AltIsBoth(a, b, cc, fwd, x, s);
    }
  }

  lemma EitherDoes(p: Prog, x: Ctx, pc: nat, ca: seq<Instr>, cb: seq<Instr>, f: St -> seq<St>, h: St -> seq<St>,
      g: St -> seq<St>)
    requires At(p, pc, AltCode(ca, cb)) && KeepsValid(x, f)
    requires Does(p, x, pc + 5, pc + 5 + Len(ca), f)
    requires Does(p, x, pc + 10 + Len(ca), pc + 10 + Len(ca) + Len(cb), h)
    requires forall s: St :: ValidSt(x, s) ==> g(s) == f(s) + h(s)
    ensures Does(p, x, pc, pc + Len(AltCode(ca, cb)), g)
  {
    hide Yields;
    hide Arrives;
    hide AltCode;
    hide At;
    var end := pc + Len(AltCode(ca, cb));
    forall s: St, stack: seq<int>, base: seq<Saved> | ValidSt(x, s)
      ensures Continues(p, x, s, pc, stack, base, g(s), end, stack)
    {
      AltYields(p, x, pc, ca, cb, s, stack, base, f, h);
    }
  }

  lemma AltIsBoth(a: Regex, b: Regex, cc: nat, fwd: bool, x: Ctx, s: St)
    requires ValidSt(x, s)
    ensures Match(Alt(a, b), cc, fwd, x, s) == Match(a, cc, fwd, x, s) + Match(b, cc + NCaps(a), fwd, x, s)
  {
    hide Rep;
    hide RepNext;
    hide MatchAll;
    hide CloseAll;
    hide OneChar;
    hide BackRefMatch;
    hide ValidSt;
    hide NCaps;
    hide Onward;
    hide Rem;
  }

  lemma CaptureDoes(p: Prog, x: Ctx, pc: nat, cb: seq<Instr>, b: Regex, cc: nat, fwd: bool)
    requires At(p, pc, CaptureCode(cc, fwd, cb)) && cc < x.ncap
    requires Does(p, x, pc + 2, pc + 2 + Len(cb), After(b, cc + 1, fwd, x))
    ensures Does(p, x, pc, pc + Len(CaptureCode(cc, fwd, cb)), After(Capture(b), cc, fwd, x))
  {
    hide Len;
    hide Continues;
    hide Size;
    hide Onward;
    hide Rem;
    hide SetCap;
    hide KeepsValid;
    hide Yields;
    hide Arrives;
    hide CaptureCode;
    hide At;
    hide Match;
    var f, g := After(b, cc + 1, fwd, x), After(Capture(b), cc, fwd, x);
    var end := pc + Len(CaptureCode(cc, fwd, cb));
    AfterOnward(b, cc + 1, fwd, x);
    forall s: St, stack: seq<int>, base: seq<Saved> | ValidSt(x, s)
      ensures Continues(p, x, s, pc, stack, base, g(s), end, stack)
    {
      CaptureYields(p, x, pc, cb, s, stack, base, f, cc, fwd);
      CaptureIsBind(b, cc, fwd, x, s);
    }
  }

  lemma CaptureIsBind(b: Regex, cc: nat, fwd: bool, x: Ctx, s: St)
    requires ValidSt(x, s)
    ensures ValidSt(x, SetCap(s, 2 * cc + (if fwd then 0 else 1), s.pos))
    ensures Match(Capture(b), cc, fwd, x, s)
         == FlatMap(Match(b, cc + 1, fwd, x, SetCap(s, 2 * cc + (if fwd then 0 else 1), s.pos)),
                    Closing(2 * cc + (if fwd then 1 else 0)))
  {
    var inside := SetCap(s, 2 * cc + (if fwd then 0 else 1), s.pos);
    CloseAllIsBind(cc, fwd, x, Match(b, cc + 1, fwd, x, inside), Rem(fwd, x, s));
  }

  lemma LookDoes(p: Prog, x: Ctx, pc: nat, cb: seq<Instr>, ahead: bool, neg: bool, b: Regex, cc: nat, fwd: bool)
    requires At(p, pc, LookCode(neg, cb))
    requires Does(p, x, pc + 5, pc + 5 + Len(cb), After(b, cc, ahead, x))
    ensures Does(p, x, pc, pc + Len(LookCode(neg, cb)), After(Look(ahead, neg, b), cc, fwd, x))
  {
    hide *;
    AfterOnward(b, cc, ahead, x);
    LookEquation(ahead, neg, b, cc, fwd, x);
    VerdictDoes(p, x, pc, cb, neg, After(b, cc, ahead, x), After(Look(ahead, neg, b), cc, fwd, x));
  }

  lemma LookEquation(ahead: bool, neg: bool, b: Regex, cc: nat, fwd: bool, x: Ctx)
    ensures var f := After(b, cc, ahead, x);
            forall s: St :: ValidSt(x, s) ==> After(Look(ahead, neg, b), cc, fwd, x)(s) == LookResult(neg, s, f(s))
  {
    hide Match;
    hide LookResult;
    hide ValidSt;
    var f := After(b, cc, ahead, x);
    forall s: St | ValidSt(x, s) ensures After(Look(ahead, neg, b), cc, fwd, x)(s) == LookResult(neg, s, f(s)) {
      LookIs(ahead, neg, b, cc, fwd, x, s);
    }
  }

  lemma LookIs(ahead: bool, neg: bool, b: Regex, cc: nat, fwd: bool, x: Ctx, s: St)
    requires ValidSt(x, s)
    ensures Match(Look(ahead, neg, b), cc, fwd, x, s) == LookResult(neg, s, Match(b, cc, ahead, x, s))
  {
    hide Rep;
    hide RepNext;
    hide MatchAll;
    hide CloseAll;
    hide OneChar;
    hide BackRefMatch;
    hide NCaps;
  }

  lemma VerdictDoes(p: Prog, x: Ctx, pc: nat, cb: seq<Instr>, neg: bool, f: St -> seq<St>, g: St -> seq<St>)
    requires At(p, pc, LookCode(neg, cb)) && KeepsValid(x, f)
    requires Does(p, x, pc + 5, pc + 5 + Len(cb), f)
    requires forall s: St :: ValidSt(x, s) ==> g(s) == LookResult(neg, s, f(s))
    ensures Does(p, x, pc, pc + Len(LookCode(neg, cb)), g)
  {
    hide Yields;
    hide Arrives;
    hide LookCode;
    hide At;
    hide LookResult;
    var end := pc + Len(LookCode(neg, cb));
    forall s: St, stack: seq<int>, base: seq<Saved> | ValidSt(x, s)
      ensures Continues(p, x, s, pc, stack, base, g(s), end, stack)
    {
      LookYields(p, x, pc, cb, s, stack, base, f, neg);
    }
  }

  lemma EmptyDoes(p: Prog, x: Ctx, pc: nat, cc: nat, fwd: bool)
    ensures Does(p, x, pc, pc, After(Empty, cc, fwd, x))
  {
    hide Does;
    NothingDoes(p, x, pc, After(Empty, cc, fwd, x));
  }

  /** The code of any pattern, wherever it lies, does what the pattern matches. */
  lemma {:induction false} CodeDoes(p: Prog, x: Ctx, pc: nat, r: Regex, cc: nat, fwd: bool)
    requires Fits(x, r, cc) && At(p, pc, Code(r, cc, fwd))
    ensures Does(p, x, pc, pc + Len(Code(r, cc, fwd)), After(r, cc, fwd, x))
    decreases r, 2
  {
    hide Does;
    hide At;
    hide Match;
    hide Len;
    hide NCaps;
    hide Checked;
    hide ValidChars;
    match r
    case Cat(a, b) => CatCase(p, x, pc, a, b, cc, fwd, Code(a, cc, fwd), Code(b, cc + NCaps(a), fwd));
    case Alt(a, b) => AltCase(p, x, pc, a, b, cc, fwd, Code(a, cc, fwd), Code(b, cc + NCaps(a), fwd));
    case Capture(b) => CaptureCase(p, x, pc, b, cc, fwd, Code(b, cc + 1, fwd));
    case Look(ahead, neg, b) => LookCase(p, x, pc, ahead, neg, b, cc, fwd, Code(b, cc, ahead));
    case Quant(a, min, max, greedy) => QuantCase(p, x, pc, a, min, max, greedy, cc, fwd, Code(a, cc, fwd));
    case _ => LeafDoes(p, x, pc, r, cc, fwd);
  }

  lemma LeafDoes(p: Prog, x: Ctx, pc: nat, r: Regex, cc: nat, fwd: bool)
    requires Fits(x, r, cc) && At(p, pc, Code(r, cc, fwd))
    requires !r.Cat? && !r.Alt? && !r.Capture? && !r.Look? && !r.Quant?
    ensures Does(p, x, pc, pc + Len(Code(r, cc, fwd)), After(r, cc, fwd, x))
  {
    hide Does;
    hide At;
    hide Match;
    match r
    case Empty => EmptyDoes(p, x, pc, cc, fwd);
    case Char(_) => AtomDoes(p, x, pc, r, cc, fwd);
    case Dot(_) => AtomDoes(p, x, pc, r, cc, fwd);
    case Class(_) => AtomDoes(p, x, pc, r, cc, fwd);
    case BackRef(n) => BackRefDoes(p, x, pc, n, cc, fwd);
    case _ => AssertionDoes(p, x, pc, r, cc, fwd);
  }

  lemma CatCase(p: Prog, x: Ctx, pc: nat, a: Regex, b: Regex, cc: nat, fwd: bool, ca: seq<Instr>, cb: seq<Instr>)
    requires Fits(x, Cat(a, b), cc) && ca == Code(a, cc, fwd) && cb == Code(b, cc + NCaps(a), fwd)
    requires At(p, pc, if fwd then ca + cb else cb + ca)
    ensures Does(p, x, pc, pc + Len(if fwd then ca + cb else cb + ca), After(Cat(a, b), cc, fwd, x))
    decreases Cat(a, b), 0
  {
    hide Does;
    hide At;
    hide Match;
    hide Code;
    hide Len;
    if fwd {
      AtConcat(p, pc, ca, cb);
      LenConcat(ca, cb);
      CodeDoes(p, x, pc, a, cc, fwd);
      CodeDoes(p, x, pc + Len(ca), b, cc + NCaps(a), fwd);
      CatDoes(p, x, pc, pc + Len(ca), pc + Len(ca + cb), a, b, cc, fwd);
    } else {
      AtConcat(p, pc, cb, ca);
      LenConcat(cb, ca);
      CodeDoes(p, x, pc, b, cc + NCaps(a), fwd);
      CodeDoes(p, x, pc + Len(cb), a, cc, fwd);
      CatDoes(p, x, pc, pc + Len(cb), pc + Len(cb + ca), a, b, cc, fwd);
    }
  }

  lemma AltParts(p: Prog, pc: nat, ca: seq<Instr>, cb: seq<Instr>)
    requires At(p, pc, AltCode(ca, cb))
    ensures At(p, pc + 5, ca) && At(p, pc + 10 + Len(ca), cb)
  {
    var head := [SplitNextFirst(Len(ca) + 5)];
    AtConcat(p, pc, head + ca + [Goto(Len(cb))], cb);
    LenConcat(head + ca, [Goto(Len(cb))]);
    LenConcat(head, ca);
    AtThree(p, pc, head, ca, [Goto(Len(cb))]);
  }

  lemma AltCase(p: Prog, x: Ctx, pc: nat, a: Regex, b: Regex, cc: nat, fwd: bool, ca: seq<Instr>, cb: seq<Instr>)
    requires Fits(x, Alt(a, b), cc) && ca == Code(a, cc, fwd) && cb == Code(b, cc + NCaps(a), fwd)
    requires At(p, pc, AltCode(ca, cb))
    ensures Does(p, x, pc, pc + Len(AltCode(ca, cb)), After(Alt(a, b), cc, fwd, x))
    decreases Alt(a, b), 0
  {
    hide Does;
    hide At;
    hide Match;
    hide Code;
    hide Len;
    AltParts(p, pc, ca, cb);
    CodeDoes(p, x, pc + 5, a, cc, fwd);
    CodeDoes(p, x, pc + 10 + Len(ca), b, cc + NCaps(a), fwd);
    AltDoes(p, x, pc, ca, cb, a, b, cc, fwd);
  }

  lemma BracketParts(p: Prog, pc: nat, first: Instr, c: seq<Instr>, last: Instr)
    requires At(p, pc, [first] + c + [last])
    ensures At(p, pc, [first]) && At(p, pc + Size(first), c) && At(p, pc + Size(first) + Len(c), [last])
    ensures Len([first] + c + [last]) == Size(first) + Len(c) + Size(last)
  {
    AtThree(p, pc, [first], c, [last]);
  }

  lemma CaptureCase(p: Prog, x: Ctx, pc: nat, b: Regex, cc: nat, fwd: bool, cb: seq<Instr>)
    requires Fits(x, Capture(b), cc) && cb == Code(b, cc + 1, fwd) && At(p, pc, CaptureCode(cc, fwd, cb))
    ensures Does(p, x, pc, pc + Len(CaptureCode(cc, fwd, cb)), After(Capture(b), cc, fwd, x))
    decreases Capture(b), 0
  {
    hide Does;
    hide At;
    hide Match;
    hide Code;
    hide Len;
    BracketParts(p, pc, if fwd then SaveStart(cc) else SaveEnd(cc), cb, if fwd then SaveEnd(cc) else SaveStart(cc));
    CodeDoes(p, x, pc + 2, b, cc + 1, fwd);
    CaptureDoes(p, x, pc, cb, b, cc, fwd);
  }

  lemma LookCase(p: Prog, x: Ctx, pc: nat, ahead: bool, neg: bool, b: Regex, cc: nat, fwd: bool, cb: seq<Instr>)
    requires Fits(x, Look(ahead, neg, b), cc) && cb == Code(b, cc, ahead) && At(p, pc, LookCode(neg, cb))
    ensures Does(p, x, pc, pc + Len(LookCode(neg, cb)), After(Look(ahead, neg, b), cc, fwd, x))
    decreases Look(ahead, neg, b), 0
  {
    hide Does;
    hide At;
    hide Match;
    hide Code;
    hide Len;
    BracketParts(p, pc, if neg then NegativeLookahead(Len(cb) + 1) else Lookahead(Len(cb) + 1), cb, MatchOp);
    CodeDoes(p, x, pc + 5, b, cc, ahead);
    LookDoes(p, x, pc, cb, ahead, neg, b, cc, fwd);
  }

  lemma QuantCase(p: Prog, x: Ctx, pc: nat, a: Regex, min: nat, max: nat, greedy: bool, cc: nat, fwd: bool,
      ca: seq<Instr>)
    requires Fits(x, Quant(a, min, max, greedy), cc) && ca == Code(a, cc, fwd)
    requires At(p, pc, QuantCode(ca, cc, NCaps(a), min, max, greedy))
    ensures Does(p, x, pc, pc + Len(QuantCode(ca, cc, NCaps(a), min, max, greedy)),
      After(Quant(a, min, max, greedy), cc, fwd, x))
    decreases Quant(a, min, max, greedy), 0
  {
    hide Does;
    hide At;
    hide Match;
    hide Code;
    hide QuantCode;
    hide Len;
    forall q: nat | At(p, q, ca) ensures DoesAtom(p, x, q, ca, After(a, cc, fwd, x)) {
      CodeDoes(p, x, q, a, cc, fwd);
    }
    QuantDoes(p, x, pc, a, cc, fwd, min, max, greedy, ca);
  }

  // ----- whole programs -----

  /** The state in which `lre_exec` enters the program. */
  function Start(x: Ctx, from: nat): St {
    St(from, seq(2 * x.ncap, i => UNSET))
  }

  /** The first result at `i`, with group 0 recorded around it. */
  function MatchAt(r: Regex, x: Ctx, i: nat): (out: seq<St>)
    requires i <= |x.input|
  {
    var s := SetCap(Start(x, i), 0, i);
    FlatMap(Match(r, 1, true, x, s), Closing(1))
  }

  /** All results, leftmost start first. */
  function Search(r: Regex, x: Ctx, i: nat): (out: seq<St>)
    requires i <= |x.input|
    decreases |x.input| - i
  {
    MatchAt(r, x, i) + if i < |x.input| then Search(r, x, i + 1) else []
  }

  function First(out: seq<St>): Option<St> {
    if out == [] then None else Some(out[0])
  }

  /** What executing the program of `r` on the subject must return. */
  function Find(r: Regex, sticky: bool, x: Ctx, from: nat): Option<St>
    requires from <= |x.input|
  {
    First(if sticky then MatchAt(r, x, from) else Search(r, x, from))
  }

  function Body(r: Regex): seq<Instr>
    requires WellFormed(r)
  {
    CaptureCode(0, true, Code(r, 1, true))
  }

  lemma ProgramShape(r: Regex, sticky: bool)
    requires WellFormed(r)
    ensures Program(r, sticky) == (if sticky then [] else SEARCH) + Body(r) + [MatchOp]
  {
  }

  /** The body after the search loop. */
  lemma BodyYields(p: Prog, x: Ctx, pc: nat, r: Regex, i: nat, stack: seq<int>, base: seq<Saved>)
    requires Fits(x, r, 1) && At(p, pc, Body(r)) && i <= |x.input|
    ensures Continues(p, x, Start(x, i), pc, stack, base, MatchAt(r, x, i), pc + Len(Body(r)), stack)
  {
    hide Moved;
    hide Continues;
    hide WellFormed;
    hide SetCap;
    hide Closing;
    hide Onward;
    hide Does;
    hide At;
    hide Match;
    hide Code;
    hide Len;
    hide FlatMap;
    hide Yields;
    BracketParts(p, pc, SaveStart(0), Code(r, 1, true), SaveEnd(0));
    CodeDoes(p, x, pc + 2, r, 1, true);
    AfterOnward(r, 1, true, x);
    CaptureYields(p, x, pc, Code(r, 1, true), Start(x, i), stack, base, After(r, 1, true, x), 0, true);
  }

  ghost predicate SearchAt(p: Prog, pc: nat) {
    At(p, pc, [SplitGotoFirst(6)]) && At(p, pc + 5, [AnyOp]) && At(p, pc + 6, [Goto(-11)])
  }

  /** Skipping one character and trying again. */
  lemma SkipYields(p: Prog, x: Ctx, pc: nat, i: nat, stack: seq<int>, base: seq<Saved>, out: seq<St>, end: nat)
    requires SearchAt(p, pc) && i <= |x.input|
    requires if i < |x.input| then Continues(p, x, Start(x, i + 1), pc, stack, base, out, end, stack) else out == []
    ensures Continues(p, x, Start(x, i), pc + 5, stack, base, out, end, stack)
  {
    var s := Start(x, i);
    StepAt(p, x, pc + 5, AnyOp, s, stack, base);
    if i < |x.input| {
      var t := Start(x, i + 1);
      assert t == s.(pos := i + 1);
      StepAt(p, x, pc + 6, Goto(-11), t, stack, base);
      YieldsStep(p, x, Run(pc + 6, t, stack, base), out, end, stack, base);
    } else {
      YieldsNone(p, x, end, stack, base);
    }
    YieldsStep(p, x, Run(pc + 5, s, stack, base), out, end, stack, base);
  }

  /** The search loop tries every start position, from left to right. */
  lemma {:induction false} SearchYields(p: Prog, x: Ctx, pc: nat, r: Regex, i: nat, stack: seq<int>, base: seq<Saved>)
    requires Fits(x, r, 1) && SearchAt(p, pc) && At(p, pc + 11, Body(r)) && i <= |x.input|
    ensures Continues(p, x, Start(x, i), pc, stack, base, Search(r, x, i), pc + 11 + Len(Body(r)), stack)
    decreases |x.input| - i
  {
    hide Yields;
    hide Arrives;
    hide MatchAt;
    hide Body;
    hide Len;
    var end := pc + 11 + Len(Body(r));
    var s := Start(x, i);
    var states := base + [Saved(SplitState, 0, pc + 5, s, stack)];
    var rest := if i < |x.input| then Search(r, x, i + 1) else [];
    BodyYields(p, x, pc + 11, r, i, stack, states);
    if i < |x.input| {
      SearchYields(p, x, pc, r, i + 1, stack, base);
    }
    SkipYields(p, x, pc, i, stack, base, rest, end);
    StepAt(p, x, pc, SplitGotoFirst(6), s, stack, base);
    SplitYields(p, x, Run(pc, s, stack, base), pc + 11, pc + 5, s, stack, base, MatchAt(r, x, i), rest, end, stack);
  }

  lemma ProgramYields(p: Prog, x: Ctx, r: Regex, sticky: bool, from: nat)
    requires Fits(x, r, 1) && At(p, 0, Program(r, sticky)) && from <= |x.input|
    ensures var end := Len(Program(r, sticky)) - 1;
            end >= 0 && At(p, end, [MatchOp])
            && Continues(p, x, Start(x, from), 0, [], [], if sticky then MatchAt(r, x, from)
              else Search(r, x, from), end, [])
  {
    hide At;
    hide WellFormed;
    hide Continues;
    hide MatchAt;
    hide Search;
    hide Body;
    hide Program;
    hide Start;
    ProgramShape(r, sticky);
    AtThree(p, 0, if sticky then [] else SEARCH, Body(r), [MatchOp]);
    if sticky {
      BodyYields(p, x, 0, r, from, [], []);
    } else {
      SearchParts(p, 0);
      SearchYields(p, x, 0, r, from, [], []);
    }
  }

  lemma SearchParts(p: Prog, pc: nat)
    requires At(p, pc, SEARCH)
    ensures SearchAt(p, pc) && Len(SEARCH) == 11
  {
    hide At;
    assert SEARCH == [SplitGotoFirst(6)] + [AnyOp] + [Goto(-11)];
    AtThree(p, pc, [SplitGotoFirst(6)], [AnyOp], [Goto(-11)]);
  }

  /** The captures written by a match at `i` are those of a state of the subject. */
  lemma MatchAtValid(r: Regex, x: Ctx, i: nat)
    requires i <= |x.input|
    ensures AllValid(x, MatchAt(r, x, i))
  {
    var s := SetCap(Start(x, i), 0, i);
    var ss := Match(r, 1, true, x, s);
    CloseAllIsBind(0, true, x, ss, Rem(true, x, s));
  }

  lemma {:induction false} SearchValid(r: Regex, x: Ctx, i: nat)
    requires i <= |x.input|
    ensures AllValid(x, Search(r, x, i))
    decreases |x.input| - i
  {
    hide MatchAt;
    MatchAtValid(r, x, i);
    if i < |x.input| {
      SearchValid(r, x, i + 1);
    }
  }

  /** Main theorem: the machine halts on every compiled pattern and every subject, with
      the match that the reference matcher prefers. */
  lemma ProgramHalts(p: Prog, x: Ctx, r: Regex, sticky: bool, from: nat)
    requires Fits(x, r, 1) && At(p, 0, Program(r, sticky)) && from <= |x.input|
    ensures Reaches(p, x, Run(0, Start(x, from), [], []), Done(Find(r, sticky, x, from)))
  {
    hide Program;
    hide MatchAt;
    hide Search;
    hide Yields;
    hide Arrives;
    hide Reaches;
    var out := if sticky then MatchAt(r, x, from) else Search(r, x, from);
    var c := Run(0, Start(x, from), [], []);
    ProgramYields(p, x, r, sticky, from);
    if sticky { MatchAtValid(r, x, from); } else { SearchValid(r, x, from); }
    LookVerdict(p, x, Start(x, from), 0, [], [], out, Len(Program(r, sticky)) - 1);
    var verdict := if out == [] then Fail([]) else Success(out[0], []);
    ReachesStep(p, x, verdict);
    ReachesTrans(p, x, c, verdict, Done(Find(r, sticky, x, from)));
  }
}
