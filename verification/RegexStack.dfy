/** The static stack depth of emitted code. A linear scan counts pushes and pops; every
    jump of emitted code lands where the count is the one it had at the jump. */
module RegexStack {
  import opened RegexSyntax
  import opened RegexCode

  const STACK_SIZE_MAX: nat := 255

  function Delta(i: Instr): int {
    match i
    case PushI32(_) => 1
    case PushCharPos => 1
    case Drop => -1
    case CheckAdvance => -1
    case _ => 0
  }

  /** Entries that the instruction uses. */
  function Needs(i: Instr): nat {
    match i
    case Drop => 1
    case CheckAdvance => 1
    case Loop(_) => 1
    case _ => 0
  }

  /** The depth after a linear run through `p`. */
  function Depth(p: seq<Instr>): int {
    if p == [] then 0 else Delta(p[0]) + Depth(p[1..])
  }

  /** The scan of `lre_compute_stack_size`: the greatest depth, or -1 beyond 255. */
  function ComputeStackSize(p: seq<Instr>, depth: int, max: int): int
    decreases |p|
  {
    if p == [] then max
    else
      var d := depth + Delta(p[0]);
      if d > max && d > STACK_SIZE_MAX then -1
      else ComputeStackSize(p[1..], d, if d > max then d else max)
  }

  datatype Where = Nowhere | Somewhere(depth: int)

  function Lift(w: Where, d: int): Where {
    match w
    case Nowhere => Nowhere
    case Somewhere(e) => Somewhere(d + e)
  }

  /** The linear depth at byte address `a`, if an instruction starts or the code ends there. */
  function DepthAt(p: seq<Instr>, a: int): Where
    decreases |p|
  {
    if a == 0 then Somewhere(0)
    else if p == [] then Nowhere
    else Lift(DepthAt(p[1..], a - Size(p[0])), Delta(p[0]))
  }

  lemma {:induction false} DepthConcat(p: seq<Instr>, q: seq<Instr>)
    ensures Depth(p + q) == Depth(p) + Depth(q)
    decreases |p|
  {
    if p == [] {
      assert p + q == q;
    } else {
      assert (p + q)[1..] == p[1..] + q;
      DepthConcat(p[1..], q);
    }
  }

  lemma {:induction false} NegativeIsNowhere(p: seq<Instr>, a: int)
    requires a < 0
    ensures DepthAt(p, a).Nowhere?
    decreases |p|
  {
    if p != [] {
      NegativeIsNowhere(p[1..], a - Size(p[0]));
    }
  }

  /** An address inside `q` keeps its depth, raised by that of the code before it. */
  lemma {:induction false} DepthAtShift(u: seq<Instr>, q: seq<Instr>, v: seq<Instr>, a: nat, d: int)
    requires DepthAt(q, a) == Somewhere(d)
    ensures DepthAt(u + q + v, Len(u) + a) == Somewhere(Depth(u) + d)
    decreases |u| + |q|
  {
    if u != [] {
      assert (u + q + v)[1..] == u[1..] + q + v;
      DepthAtShift(u[1..], q, v, a, d);
    } else {
      assert u + q + v == q + v;
      if a != 0 {
        assert (q + v)[1..] == [] + q[1..] + v;
        if a < Size(q[0]) {
          NegativeIsNowhere(q[1..], a - Size(q[0]));
        } else {
          DepthAtShift([], q[1..], v, a - Size(q[0]), d - Delta(q[0]));
        }
      }
    }
  }

  lemma DepthAtEnd(u: seq<Instr>, v: seq<Instr>)
    ensures DepthAt(u + v, Len(u)) == Somewhere(Depth(u))
  {
    DepthAtShift(u, [], v, 0, 0);
    assert u + [] + v == u + v;
  }

  predicate Jumps(i: Instr) {
    i.Goto? || i.SplitGotoFirst? || i.SplitNextFirst? || i.Loop? || i.Lookahead? || i.NegativeLookahead?
      || i.SimpleGreedyQuant?
  }

  /** The instruction `i` of `u + [i] + v` finds the entries it uses, and its jump, if it
      has one, lands at a boundary of the same depth. */
  ghost predicate Sound(u: seq<Instr>, i: Instr, v: seq<Instr>) {
    && Depth(u) >= Needs(i)
    && (Jumps(i) ==> DepthAt(u + [i] + v, Len(u) + Size(i) + i.off) == Somewhere(Depth(u)))
  }

  ghost predicate AllSound(p: seq<Instr>) {
    forall k :: 0 <= k < |p| ==> Sound(p[..k], p[k], p[k + 1..])
  }

  /** Code that leaves the stack as it found it, wherever it jumps inside. */
  ghost predicate Balanced(p: seq<Instr>) {
    Depth(p) == 0 && AllSound(p)
  }

  /** Soundness survives embedding in longer code. */
  lemma SoundInside(u: seq<Instr>, i: Instr, v: seq<Instr>, before: seq<Instr>, after: seq<Instr>)
    requires Sound(u, i, v) && Depth(before) >= 0
    ensures Sound(before + u, i, v + after)
  {
    DepthConcat(before, u);
    LenConcat(before, u);
    if Jumps(i) {
      var q := u + [i] + v;
      var a := Len(u) + Size(i) + i.off;
      if a < 0 { NegativeIsNowhere(q, a); }
      DepthAtShift(before, q, after, a, Depth(u));
      assert before + q + after == (before + u) + [i] + (v + after);
    }
  }

  /** Sound code at a non-negative depth stays sound between any other code. */
  lemma PartSound(before: seq<Instr>, q: seq<Instr>, after: seq<Instr>, k: nat)
    requires AllSound(q) && Depth(before) >= 0 && |before| <= k < |before| + |q|
    ensures var p := before + q + after; Sound(p[..k], p[k], p[k + 1..])
  {
    hide Depth;
    hide Sound;
    hide DepthAt;
    hide Len;
    hide Size;
    var p := before + q + after;
    var j := k - |before|;
    SoundInside(q[..j], q[j], q[j + 1..], before, after);
    assert p[..k] == before + q[..j] && p[k] == q[j] && p[k + 1..] == q[j + 1..] + after;
  }

  lemma BalancedConcat(p: seq<Instr>, q: seq<Instr>)
    requires Balanced(p) && Balanced(q)
    ensures Balanced(p + q)
  {
    DepthConcat(p, q);
    var r := p + q;
    forall k | 0 <= k < |r| ensures Sound(r[..k], r[k], r[k + 1..]) {
      if k < |p| {
        assert [] + p + q == r;
        PartSound([], p, q, k);
      } else {
        assert p + q + [] == r;
        PartSound(p, q, [], k);
      }
    }
  }

  lemma BalancedEmpty()
    ensures Balanced([])
  {
  }

  lemma BalancedOne(i: Instr)
    requires Delta(i) == 0 && Needs(i) == 0 && !Jumps(i)
    ensures Balanced([i])
  {
    assert [i][..0] == [];
  }

  /** A bracket of two instructions around balanced code. */
  lemma BracketBalanced(i: Instr, c: seq<Instr>, j: Instr)
    requires Balanced(c) && Delta(i) >= 0 && Delta(i) + Delta(j) == 0 && Needs(i) == 0 && Needs(j) <= Delta(i)
    requires Jumps(i) ==> Delta(i) == 0 && DepthAt([i] + c + [j], Size(i) + i.off) == Somewhere(0)
    requires Jumps(j) ==> DepthAt([i] + c + [j], Size(i) + Len(c) + Size(j) + j.off) == Somewhere(Delta(i))
    ensures Balanced([i] + c + [j])
  {
    var r := [i] + c + [j];
    DepthConcat([i] + c, [j]);
    DepthConcat([i], c);
    LenConcat([i], c);
    forall k | 0 <= k < |r| ensures Sound(r[..k], r[k], r[k + 1..]) {
      if k == 0 {
        assert r[..0] == [] && [] + [i] + r[1..] == r;
      } else if k <= |c| {
        PartSound([i], c, [j], k);
      } else {
        assert r[..k] == [i] + c && r[k + 1..] == [] && [i] + c + [j] + [] == r;
      }
    }
  }

  /** Prefixing an instruction that may jump over balanced code. */
  lemma PrefixBalanced(i: Instr, c: seq<Instr>)
    requires Balanced(c) && Delta(i) == 0 && Needs(i) == 0
    requires Jumps(i) ==> DepthAt([i] + c, Size(i) + i.off) == Somewhere(0)
    ensures Balanced([i] + c)
  {
    var r := [i] + c;
    DepthConcat([i], c);
    forall k | 0 <= k < |r| ensures Sound(r[..k], r[k], r[k + 1..]) {
      if k == 0 {
        assert r[..0] == [] && [] + [i] + r[1..] == r;
      } else {
        assert [i] + c + [] == r;
        PartSound([i], c, [], k);
      }
    }
  }

  lemma LastSound(c: seq<Instr>, j: Instr)
    requires Depth(c) == 0 && Delta(j) == 0 && Needs(j) == 0
    requires Jumps(j) ==> DepthAt(c + [j], Len(c) + Size(j) + j.off) == Somewhere(0)
    ensures Sound(c, j, []) && Depth(c + [j]) == 0
  {
    hide DepthAt;
    hide Len;
    DepthConcat(c, [j]);
    assert c + [j] + [] == c + [j];
  }

  /** Appending an instruction that may jump back into balanced code. */
  lemma SuffixBalanced(c: seq<Instr>, j: Instr)
    requires Balanced(c) && Delta(j) == 0 && Needs(j) == 0
    requires Jumps(j) ==> DepthAt(c + [j], Len(c) + Size(j) + j.off) == Somewhere(0)
    ensures Balanced(c + [j])
  {
    var r := c + [j];
    LastSound(c, j);
    forall k | 0 <= k < |r| ensures Sound(r[..k], r[k], r[k + 1..]) {
      hide *;
      if k == |c| {
        assert r[..k] == c && r[k + 1..] == [];
      } else {
        assert [] + c + [j] == r;
        PartSound([], c, [j], k);
      }
    }
  }

  // ----- the shapes of the emitter -----

  lemma CheckedBalanced(c: seq<Instr>, check: bool)
    requires Balanced(c)
    ensures Balanced(Checked(c, check))
  {
    if check {
      BracketBalanced(PushCharPos, c, CheckAdvance);
    }
  }

  lemma OverBalanced(b: seq<Instr>)
    requires Balanced(b)
    ensures Balanced([Goto(Len(b))] + b)
  {
    AtVeryEnd([Goto(Len(b))] + b);
    LenConcat([Goto(Len(b))], b);
    DepthConcat([Goto(Len(b))], b);
    PrefixBalanced(Goto(Len(b)), b);
  }

  lemma AltBalanced(a: seq<Instr>, b: seq<Instr>)
    requires Balanced(a) && Balanced(b)
    ensures Balanced(AltCode(a, b))
  {
    hide Balanced;
    var split, goto := SplitNextFirst(Len(a) + 5), Goto(Len(b));
    OverBalanced(b);
    BalancedConcat(a, [goto] + b);
    SecondAlternative(a, b);
    assert [split] + a + [goto] + b == [split] + (a + ([goto] + b));
    PrefixBalanced(split, a + ([goto] + b));
  }

  lemma SecondAlternative(a: seq<Instr>, b: seq<Instr>)
    requires Balanced(a)
    ensures DepthAt([SplitNextFirst(Len(a) + 5)] + (a + ([Goto(Len(b))] + b)), 10 + Len(a)) == Somewhere(0)
  {
    hide Len;
    hide Depth;
    hide DepthAt;
    hide AllSound;
    var split, goto := SplitNextFirst(Len(a) + 5), Goto(Len(b));
    BracketDepth(split, a, goto);
    DepthAtEnd([split] + a + [goto], b);
    assert [split] + a + [goto] + b == [split] + (a + ([goto] + b));
  }

  lemma BracketDepth(i: Instr, c: seq<Instr>, j: Instr)
    ensures Len([i] + c + [j]) == Size(i) + Len(c) + Size(j)
    ensures Depth([i] + c + [j]) == Delta(i) + Depth(c) + Delta(j)
  {
    LenConcat([i] + c, [j]);
    LenConcat([i], c);
    DepthConcat([i] + c, [j]);
    DepthConcat([i], c);
  }

  lemma LookBalanced(neg: bool, b: seq<Instr>)
    requires Balanced(b)
    ensures Balanced(LookCode(neg, b))
  {
    var i := if neg then NegativeLookahead(Len(b) + 1) else Lookahead(Len(b) + 1);
    AtVeryEnd([i] + b + [MatchOp]);
    BracketDepth(i, b, MatchOp);
    BracketBalanced(i, b, MatchOp);
  }

  lemma AtVeryEnd(p: seq<Instr>)
    ensures DepthAt(p, Len(p)) == Somewhere(Depth(p))
  {
    DepthAtEnd(p, []);
    assert p + [] == p;
  }

  lemma SimpleBalanced(c: seq<Instr>, min: nat, max: nat)
    requires Balanced(c) && SimpleLen(c) > 0
    ensures Balanced(SimpleCode(c, min, max))
  {
    var i := SimpleGreedyQuant(Len(c) + 1, min, max, SimpleLen(c));
    AtVeryEnd([i] + c + [MatchOp]);
    BracketDepth(i, c, MatchOp);
    BracketBalanced(i, c, MatchOp);
  }

  lemma OptBalanced(c: seq<Instr>, greedy: bool)
    requires Balanced(c)
    ensures Balanced([SplitExit(greedy, Len(c))] + c)
  {
    var i := SplitExit(greedy, Len(c));
    AtVeryEnd([i] + c);
    LenConcat([i], c);
    DepthConcat([i], c);
    PrefixBalanced(i, c);
  }

  lemma StarBalanced(c: seq<Instr>, greedy: bool)
    requires Balanced(c)
    ensures Balanced([SplitExit(greedy, Len(c) + 5)] + c + [Goto(Back(Len(c) + 10))])
  {
    var i, j := SplitExit(greedy, Len(c) + 5), Goto(Back(Len(c) + 10));
    AtVeryEnd([i] + c + [j]);
    BracketDepth(i, c, j);
    BracketBalanced(i, c, j);
  }

  /** The two instructions that end a counted loop. */
  lemma LoopEndSound(u: seq<Instr>, off: int)
    requires Depth(u) == 1 && DepthAt(u + [Loop(off)], Len(u) + 5 + off) == Somewhere(1)
    ensures Sound(u, Loop(off), [Drop]) && Sound(u + [Loop(off)], Drop, [])
    ensures Depth(u + [Loop(off), Drop]) == 0
  {
    hide DepthAt;
    DepthConcat(u, [Loop(off), Drop]);
    DepthConcat(u, [Loop(off)]);
    var a := Len(u) + 5 + off;
    if a < 0 { NegativeIsNowhere(u + [Loop(off)], a); }
    DepthAtShift([], u + [Loop(off)], [Drop], a, 1);
    assert [] + (u + [Loop(off)]) + [Drop] == u + [Loop(off)] + [Drop];
    assert [Loop(off), Drop][1..] == [Drop];
  }

  /** A loop body with its counter on the stack. */
  lemma CounterBalanced(k: nat, body: seq<Instr>, off: int)
    requires Balanced(body) && DepthAt([PushI32(k)] + body + [Loop(off)], 10 + Len(body) + off) == Somewhere(1)
    ensures Balanced([PushI32(k)] + body + [Loop(off), Drop])
  {
    hide DepthAt;
    hide Depth;
    var u := [PushI32(k)] + body;
    var r := u + [Loop(off), Drop];
    DepthConcat([PushI32(k)], body);
    LenConcat([PushI32(k)], body);
    PushDepth(k);
    LoopEndSound(u, off);
    forall j | 0 <= j < |r| ensures Sound(r[..j], r[j], r[j + 1..]) {
      if j == 0 {
        assert r[..0] == [];
      } else if j <= |body| {
        PartSound([PushI32(k)], body, [Loop(off), Drop], j);
      } else if j == |u| {
        assert r[..j] == u && r[j + 1..] == [Drop];
      } else {
        assert r[..j] == u + [Loop(off)] && r[j + 1..] == [];
      }
    }
  }

  lemma PushDepth(k: nat)
    ensures Depth([PushI32(k)]) == 1 && Len([PushI32(k)]) == 5 && Depth([]) == 0
  {
  }

  lemma TimesBalanced(c: seq<Instr>, k: nat)
    requires Balanced(c)
    ensures Balanced(TimesCode(c, k))
  {
    var off := Back(Len(c) + 5);
    DepthAtEnd([PushI32(k)], c + [Loop(off)]);
    assert [PushI32(k)] + (c + [Loop(off)]) == [PushI32(k)] + c + [Loop(off)];
    CounterBalanced(k, c, off);
  }

  lemma CountBalanced(c: seq<Instr>, check: bool, greedy: bool, k: nat)
    requires Balanced(c)
    ensures Balanced(CountCode(c, check, greedy, k))
  {
    hide Balanced;
    hide Len;
    hide Sound;
    var body := Checked(c, check);
    var w := Len(body);
    CheckedBalanced(c, check);
    var i, off := SplitExit(greedy, w + 5), Back(w + 10);
    CountLoopBalanced(k, i, body, off, w);
    assert [PushI32(k)] + [i] + body + [Loop(off), Drop] == CountCode(c, check, greedy, k);
  }

  /** Push, split over the loop instruction, body, loop, drop. */
  lemma CountLoopBalanced(k: nat, i: Instr, body: seq<Instr>, off: int, w: nat)
    requires Balanced(body) && w == Len(body) && off == Back(w + 10)
    requires i == SplitNextFirst(w + 5) || i == SplitGotoFirst(w + 5)
    ensures Balanced([PushI32(k)] + [i] + body + [Loop(off), Drop])
  {
    hide DepthAt;
    hide Depth;
    hide Len;
    var u := [PushI32(k)] + [i] + body;
    var r := u + [Loop(off), Drop];
    CountLoopFacts(k, i, body, off, w);
    LoopEndSound(u, off);
    forall j | 0 <= j < |r| ensures Sound(r[..j], r[j], r[j + 1..]) {
      if j == 0 {
        assert r[..0] == [];
      } else if j == 1 {
        assert r[..1] == [PushI32(k)] && r[1] == i && r[2..] == body + [Loop(off), Drop];
      } else if j < |u| {
        PartSound([PushI32(k)] + [i], body, [Loop(off), Drop], j);
      } else if j == |u| {
        assert r[..j] == u && r[j + 1..] == [Drop];
      } else {
        assert r[..j] == u + [Loop(off)] && r[j + 1..] == [];
      }
    }
  }

  lemma CountLoopFacts(k: nat, i: Instr, body: seq<Instr>, off: int, w: nat)
    requires Balanced(body) && w == Len(body) && off == Back(w + 10)
    requires i == SplitNextFirst(w + 5) || i == SplitGotoFirst(w + 5)
    ensures var u := [PushI32(k)] + [i] + body;
            Depth(u) == 1 && DepthAt(u + [Loop(off)], Len(u) + 5 + off) == Somewhere(1)
    ensures Sound([PushI32(k)], i, body + [Loop(off), Drop]) && Depth([PushI32(k)] + [i]) == 1 && Depth([]) == 0
  {
    hide AllSound;
    var u := [PushI32(k)] + [i] + body;
    DepthConcat([PushI32(k)] + [i], body);
    DepthConcat([PushI32(k)], [i]);
    LenConcat([PushI32(k)] + [i], body);
    LenConcat([PushI32(k)], [i]);
    DepthConcat(u, [Loop(off)]);
    LenConcat(u, [Loop(off)]);
    DepthAtEnd(u + [Loop(off)], [Drop]);
    DepthAtEnd([PushI32(k)], [i] + body + [Loop(off)]);
    assert [PushI32(k)] + ([i] + body + [Loop(off)]) == u + [Loop(off)];
    assert [PushI32(k)] + [i] + (body + [Loop(off), Drop]) == u + [Loop(off)] + [Drop];
  }

  lemma PlusBalanced(c: seq<Instr>, greedy: bool)
    requires Balanced(c)
    ensures Balanced(PlusCode(c, greedy))
  {
    SuffixBalanced(c, SplitBack(greedy, Back(Len(c) + 5)));
  }

  lemma ResetBalanced(cc: nat, k: nat)
    ensures Balanced(ResetCode(cc, k))
  {
    if k == 0 { BalancedEmpty(); } else { BalancedOne(SaveReset(cc, cc + k - 1)); }
  }

  lemma FromZeroBalanced(c: seq<Instr>, check: bool, max: nat, greedy: bool)
    requires Balanced(c)
    ensures Balanced(FromZeroCode(c, check, max, greedy))
  {
    CheckedBalanced(c, check);
    if max == 0 {
      BalancedEmpty();
    } else if max == 1 {
      OptBalanced(Checked(c, check), greedy);
    } else if max == INT32_MAX {
      StarBalanced(Checked(c, check), greedy);
    } else {
      CountBalanced(c, check, greedy, max);
    }
  }

  lemma TailBalanced(c: seq<Instr>, check: bool, min: nat, max: nat, greedy: bool)
    requires Balanced(c)
    ensures Balanced(TailCode(c, check, min, max, greedy))
  {
    CheckedBalanced(c, check);
    if max == INT32_MAX {
      StarBalanced(Checked(c, check), greedy);
    } else if max > min {
      CountBalanced(c, check, greedy, max - min);
    } else {
      BalancedEmpty();
    }
  }

  lemma QuantBalanced(c: seq<Instr>, cc: nat, k: nat, min: nat, max: nat, greedy: bool)
    requires Balanced(c)
    ensures Balanced(QuantCode(c, cc, k, min, max, greedy))
  {
    hide Balanced;
    hide IsSimple;
    hide CountChars;
    var check := NeedCheckAdvance(c, false);
    if greedy && max > 0 && SimpleLen(c) > 0 {
      SimpleBalanced(c, min, max);
    } else if min == 0 {
      ResetBalanced(cc, k);
      FromZeroBalanced(c, check, max, greedy);
      BalancedConcat(ResetCode(cc, k), FromZeroCode(c, check, max, greedy));
    } else if min == 1 && max == INT32_MAX && !check {
      PlusBalanced(c, greedy);
    } else {
      if min > 1 { TimesBalanced(c, min); }
      TailBalanced(c, check, min, max, greedy);
      BalancedConcat(if min == 1 then c else TimesCode(c, min), TailCode(c, check, min, max, greedy));
    }
  }

  lemma DirectedBalanced(i: Instr, fwd: bool)
    requires Delta(i) == 0 && Needs(i) == 0 && !Jumps(i)
    ensures Balanced(Directed(i, fwd))
  {
    BalancedOne(i);
    if !fwd {
      BracketBalanced(Prev, [i], Prev);
      assert [Prev] + [i] + [Prev] == [Prev, i, Prev];
    }
  }

  lemma CaptureBalanced(cc: nat, fwd: bool, b: seq<Instr>)
    requires Balanced(b)
    ensures Balanced(CaptureCode(cc, fwd, b))
  {
    BracketBalanced(if fwd then SaveStart(cc) else SaveEnd(cc), b, if fwd then SaveEnd(cc) else SaveStart(cc));
  }

  /** The code of every pattern is balanced. */
  lemma {:induction false} CodeBalanced(r: Regex, cc: nat, fwd: bool)
    requires WellFormed(r)
    ensures Balanced(Code(r, cc, fwd))
    decreases r
  {
    hide NCaps;
    hide Directed;
    hide CharCode;
    hide RangeCode;
    hide AltCode;
    hide CaptureCode;
    hide LookCode;
    hide QuantCode;
    hide Delta;
    hide Balanced;
    match r
    case Cat(a, b) =>
      CodeBalanced(a, cc, fwd);
      CodeBalanced(b, cc + NCaps(a), fwd);
      if fwd {
        BalancedConcat(Code(a, cc, fwd), Code(b, cc + NCaps(a), fwd));
      } else {
        BalancedConcat(Code(b, cc + NCaps(a), fwd), Code(a, cc, fwd));
      }
    case Alt(a, b) =>
      CodeBalanced(a, cc, fwd);
      CodeBalanced(b, cc + NCaps(a), fwd);
      AltBalanced(Code(a, cc, fwd), Code(b, cc + NCaps(a), fwd));
    case Capture(b) =>
      CodeBalanced(b, cc + 1, fwd);
      CaptureBalanced(cc, fwd, Code(b, cc + 1, fwd));
    case Look(ahead, neg, b) =>
      CodeBalanced(b, cc, ahead);
      LookBalanced(neg, Code(b, cc, ahead));
    case Quant(a, min, max, greedy) =>
      CodeBalanced(a, cc, fwd);
      QuantBalanced(Code(a, cc, fwd), cc, NCaps(a), min, max, greedy);
    case _ => LeafBalanced(r, cc, fwd);
  }

  lemma LeafBalanced(r: Regex, cc: nat, fwd: bool)
    requires WellFormed(r) && !r.Cat? && !r.Alt? && !r.Capture? && !r.Look? && !r.Quant?
    ensures Balanced(Code(r, cc, fwd))
  {
    hide Balanced;
    match r
    case Empty => BalancedEmpty();
    case Char(c) => DirectedBalanced(CharCode(c), fwd);
    case Dot(all) => DirectedBalanced(if all then AnyOp else DotOp, fwd);
    case Class(pts) => DirectedBalanced(RangeCode(pts), fwd);
    case LineStart => BalancedOne(LineStartOp);
    case LineEnd => BalancedOne(LineEndOp);
    case WordBoundary(neg) => BalancedOne(if neg then NotWordBoundaryOp else WordBoundaryOp);
    case BackRef(n) => BalancedOne(if fwd then BackReference(n) else BackwardBackReference(n));
  }

  lemma SearchBalanced()
    ensures Balanced(SEARCH)
  {
    BalancedOne(AnyOp);
    var i, j := SplitGotoFirst(6), Goto(-11);
    var p := [i] + [AnyOp] + [j];
    LenConcat([i] + [AnyOp], [j]);
    LenConcat([i], [AnyOp]);
    DepthConcat([i] + [AnyOp], [j]);
    DepthConcat([i], [AnyOp]);
    AtVeryEnd(p);
    BracketBalanced(i, [AnyOp], j);
    assert p == SEARCH;
  }

  lemma ProgramParts(head: seq<Instr>, c: seq<Instr>)
    ensures head + CaptureCode(0, true, c) + [MatchOp] == head + [SaveStart(0)] + c + [SaveEnd(0), MatchOp]
  {
    assert [SaveEnd(0)] + [MatchOp] == [SaveEnd(0), MatchOp];
  }

  lemma ProgramBalanced(r: Regex, sticky: bool)
    requires WellFormed(r)
    ensures Balanced(Program(r, sticky))
  {
    hide Balanced;
    hide Code;
    hide CaptureCode;
    CodeBalanced(r, 1, true);
    var c := Code(r, 1, true);
    CaptureBalanced(0, true, c);
    if sticky { BalancedEmpty(); } else { SearchBalanced(); }
    var head := if sticky then [] else SEARCH;
    BalancedConcat(head, CaptureCode(0, true, c));
    BalancedOne(MatchOp);
    BalancedConcat(head + CaptureCode(0, true, c), [MatchOp]);
    ProgramParts(head, c);
  }

  // ----- the recorded maximum -----

  lemma {:induction false} ScanBound(p: seq<Instr>, depth: int, max: int, a: int, d: int)
    requires ComputeStackSize(p, depth, max) >= 0 && depth <= max && DepthAt(p, a) == Somewhere(d)
    ensures depth + d <= ComputeStackSize(p, depth, max) && max <= ComputeStackSize(p, depth, max)
    decreases |p|
  {
    if p != [] {
      var e := depth + Delta(p[0]);
      var m := if e > max then e else max;
      if a != 0 {
        ScanBound(p[1..], e, m, a - Size(p[0]), d - Delta(p[0]));
      } else {
        ScanBound(p[1..], e, m, 0, 0);
      }
    }
  }

  /** No program point is deeper than the recorded stack size. */
  lemma RecordedSizeSuffices(p: seq<Instr>, a: int, d: int)
    requires ComputeStackSize(p, 0, 0) >= 0 && DepthAt(p, a) == Somewhere(d)
    ensures d <= ComputeStackSize(p, 0, 0)
  {
    ScanBound(p, 0, 0, a, d);
  }

  lemma DepthFirst(p: seq<Instr>, k: nat)
    requires 0 < k <= |p|
    ensures Depth(p[..k]) == Delta(p[0]) + Depth(p[1..][..k - 1])
  {
    assert p[..k][1..] == p[1..][..k - 1];
  }

  lemma {:induction false} ScanExact(p: seq<Instr>, depth: int, max: nat)
    requires depth <= max <= 255
    ensures var r := ComputeStackSize(p, depth, max);
            && (r == -1 <==> exists k :: 0 <= k <= |p| && depth + Depth(p[..k]) > 255)
            && (r != -1 ==>
                  && max <= r <= 255 && (forall k :: 0 <= k <= |p| ==> depth + Depth(p[..k]) <= r)
                  && (r == max || exists k :: 0 <= k <= |p| && depth + Depth(p[..k]) == r))
    decreases |p|
  {
    hide Delta;
    assert Depth(p[..0]) == 0;
    if p != [] {
      var d := depth + Delta(p[0]);
      forall k | 0 < k <= |p| ensures depth + Depth(p[..k]) == d + Depth(p[1..][..k - 1]) { DepthFirst(p, k); }
      assert p[1..][..0] == [];
      assert depth + Depth(p[..1]) == d;
      if d <= 255 {
        ScanExact(p[1..], d, if d > max then d else max);
        forall k | 0 <= k <= |p[1..]| ensures depth + Depth(p[..k + 1]) == d + Depth(p[1..][..k]) {
          DepthFirst(p, k + 1);
        }
      }
    }
  }

  /** Nowhere in the code does the stack have more than `n` entries. */
  ghost predicate StackWithin(p: seq<Instr>, n: nat) {
    forall k :: 0 <= k <= |p| ==> Depth(p[..k]) <= n
  }

  /** The recorded size is the greatest depth of the code; there is none if that is above 255. */
  lemma StackSizeExact(p: seq<Instr>)
    ensures var r := ComputeStackSize(p, 0, 0);
            && (r >= 0 <==> StackWithin(p, 255))
            && (r >= 0 ==>
                  && (forall k :: 0 <= k <= |p| ==> Depth(p[..k]) <= r)
                  && exists k :: 0 <= k <= |p| && Depth(p[..k]) == r)
  {
    ScanExact(p, 0, 0);
    var r := ComputeStackSize(p, 0, 0);
    assert Depth(p[..0]) == 0;
    if r < 0 {
      var k :| 0 <= k <= |p| && 0 + Depth(p[..k]) > 255;
      assert Depth(p[..k]) > 255;
    } else if r > 0 {
      var k :| 0 <= k <= |p| && 0 + Depth(p[..k]) == r;
      assert Depth(p[..k]) == r;
    }
  }
}
