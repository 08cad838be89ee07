/** What the two code inspections of the emitter say about matching: an atom that
    `re_need_check_advance` clears always moves, and one that
    `re_is_simple_quantifier` accepts has at most one result, a fixed number of
    characters ahead. */
module RegexAdvance {
  import opened RegexSyntax
  import opened RegexCode
  import opened RegexMatcher

  /** Code without jumps, look-around or loops. */
  predicate Straight(p: seq<Instr>) {
    forall i :: 0 <= i < |p| ==> ReadsOneChar(p[i]) || IsNeutral(p[i])
  }

  predicate HasChar(p: seq<Instr>) {
    exists i :: 0 <= i < |p| && ReadsOneChar(p[i])
  }

  lemma {:induction false} NeedCheckAdvanceMeaning(p: seq<Instr>, found: bool)
    ensures !NeedCheckAdvance(p, found) <==> Straight(p) && (found || HasChar(p))
    decreases |p|
  {
    if p != [] {
      NeedCheckAdvanceMeaning(p[1..], found || ReadsOneChar(p[0]));
      assert p == [p[0]] + p[1..];
      assert Straight(p) <==> (ReadsOneChar(p[0]) || IsNeutral(p[0])) && Straight(p[1..]);
      if HasChar(p[1..]) {
        var i :| 0 <= i < |p[1..]| && ReadsOneChar(p[1..][i]);
        assert ReadsOneChar(p[i + 1]);
      }
      if HasChar(p) && !ReadsOneChar(p[0]) {
        var i :| 0 <= i < |p| && ReadsOneChar(p[i]);
        assert ReadsOneChar(p[1..][i - 1]);
      }
    }
  }

  lemma StraightConcat(p: seq<Instr>, q: seq<Instr>)
    ensures Straight(p + q) <==> Straight(p) && Straight(q)
    ensures HasChar(p + q) <==> HasChar(p) || HasChar(q)
  {
    var r := p + q;
    if Straight(r) {
      forall i | 0 <= i < |q| ensures ReadsOneChar(q[i]) || IsNeutral(q[i]) { assert q[i] == r[|p| + i]; }
      forall i | 0 <= i < |p| ensures ReadsOneChar(p[i]) || IsNeutral(p[i]) { assert p[i] == r[i]; }
    }
    if HasChar(q) {
      var i :| 0 <= i < |q| && ReadsOneChar(q[i]);
      assert ReadsOneChar(r[|p| + i]);
    }
    if HasChar(p) {
      var i :| 0 <= i < |p| && ReadsOneChar(p[i]);
      assert ReadsOneChar(r[i]);
    }
  }

  predicate Stops(i: Instr) {
    i.SplitGotoFirst? || i.SplitNextFirst? || i.Loop? || i.SimpleGreedyQuant? || i.Lookahead? || i.NegativeLookahead?
  }

  lemma StoppedBy(p: seq<Instr>, i: nat)
    requires i < |p| && Stops(p[i])
    ensures !Straight(p)
  {
  }

  lemma FromZeroNotStraight(c: seq<Instr>, check: bool, max: nat, greedy: bool)
    requires max > 0
    ensures !Straight(FromZeroCode(c, check, max, greedy))
  {
    StoppedBy(FromZeroCode(c, check, max, greedy), if max == 1 || max == INT32_MAX then 0 else 1);
  }

  lemma TailNotStraight(c: seq<Instr>, check: bool, min: nat, max: nat, greedy: bool)
    requires max == INT32_MAX || max > min
    ensures !Straight(TailCode(c, check, min, max, greedy))
  {
    StoppedBy(TailCode(c, check, min, max, greedy), if max == INT32_MAX then 0 else 1);
  }

  lemma TimesNotStraight(c: seq<Instr>, k: nat)
    ensures !Straight(TimesCode(c, k))
  {
    assert TimesCode(c, k)[1 + |c|] == Loop(Back(Len(c) + 5));
    StoppedBy(TimesCode(c, k), 1 + |c|);
  }

  /** The quantifiers whose code is still straight: those that run the atom exactly
      once, or not at all. */
  lemma StraightQuant(c: seq<Instr>, cc: nat, k: nat, min: nat, max: nat, greedy: bool)
    requires min <= max && Straight(QuantCode(c, cc, k, min, max, greedy))
    ensures (max == 0 && QuantCode(c, cc, k, min, max, greedy) == ResetCode(cc, k))
         || (min == 1 && max == 1 && QuantCode(c, cc, k, min, max, greedy) == c)
  {
    var q := QuantCode(c, cc, k, min, max, greedy);
    var check := NeedCheckAdvance(c, false);
    if greedy && max > 0 && SimpleLen(c) > 0 {
      StoppedBy(q, 0);
    } else if min == 0 {
      StraightConcat(ResetCode(cc, k), FromZeroCode(c, check, max, greedy));
      if max > 0 {
        FromZeroNotStraight(c, check, max, greedy);
      }
    } else if min == 1 && max == INT32_MAX && !check {
      StoppedBy(q, |c|);
    } else {
      var first := if min == 1 then c else TimesCode(c, min);
      StraightConcat(first, TailCode(c, check, min, max, greedy));
      if min > 1 {
        TimesNotStraight(c, min);
      } else if max == INT32_MAX || max > min {
        TailNotStraight(c, check, min, max, greedy);
      }
    }
  }

  ghost predicate AllMove(r: Regex, cc: nat, fwd: bool, x: Ctx, s: St)
    requires ValidSt(x, s)
  {
    forall o :: o in Match(r, cc, fwd, x, s) ==> o.pos != s.pos
  }

  lemma {:induction false} MatchAllMoves(r: Regex, cc: nat, fwd: bool, x: Ctx, ss: seq<St>, bound: nat, from: St,
      always: bool)
    requires AllValid(x, ss) && ValidSt(x, from) && bound == Rem(fwd, x, from)
    requires forall o :: o in ss ==> Rem(fwd, x, o) <= bound && (always ==> o.pos != from.pos)
    requires !always ==> forall o :: o in ss ==> AllMove(r, cc, fwd, x, o)
    ensures forall o :: o in MatchAll(r, cc, fwd, x, ss, bound) ==> o.pos != from.pos
    decreases |ss|
  {
    if ss != [] {
      assert ss[0] in ss;
      MatchAllMoves(r, cc, fwd, x, ss[1..], bound, from, always);
      assert Onward(fwd, x, ss[0], Match(r, cc, fwd, x, ss[0]));
      assert !always ==> AllMove(r, cc, fwd, x, ss[0]);
    }
  }

  /** Straight code with a character in it moves in every result. */
  lemma {:induction false} StraightMoves(r: Regex, cc: nat, fwd: bool, x: Ctx, s: St)
    requires WellFormed(r) && ValidSt(x, s) && !x.perIteration
    requires Straight(Code(r, cc, fwd)) && HasChar(Code(r, cc, fwd))
    ensures AllMove(r, cc, fwd, x, s)
    decreases r
  {
    match r
    case Cat(a, b) =>
      StraightCat(a, b, cc, fwd, x, s);
    case Alt(a, b) =>
      StoppedBy(Code(r, cc, fwd), 0);
    case Capture(b) =>
      StraightCapture(b, cc, fwd, x, s);
    case Look(ahead, neg, b) =>
      StoppedBy(Code(r, cc, fwd), 0);
    case Quant(a, min, max, greedy) =>
      StraightQuant(Code(a, cc, fwd), cc, NCaps(a), min, max, greedy);
      if max == 1 {
        StraightMoves(a, cc, fwd, x, s);
        OnceIsAtom(a, cc, fwd, x, greedy, s);
      }
    case Char(_) =>
    case Dot(_) =>
    case Class(_) =>
    case _ =>
  }

  lemma StraightCapture(b: Regex, cc: nat, fwd: bool, x: Ctx, s: St)
    requires WellFormed(b) && ValidSt(x, s) && !x.perIteration
    requires Straight(Code(Capture(b), cc, fwd)) && HasChar(Code(Capture(b), cc, fwd))
    ensures AllMove(Capture(b), cc, fwd, x, s)
    decreases Capture(b), 0
  {
    hide WellFormed;
    hide Straight;
    hide IsNeutral;
    hide Directed;
    hide CharCode;
    hide RangeCode;
    hide NCaps;
    hide AltCode;
    hide LookCode;
    hide QuantCode;
    hide AllValid;
    hide CloseAll;
    hide OneChar;
    hide Test;
    hide AtLineStart;
    hide AtLineEnd;
    hide AtWordBoundary;
    hide MatchAll;
    hide BackRefMatch;
    hide Rep;
    hide ResetCaps;
    var cb := Code(b, cc + 1, fwd);
    var first, last := if fwd then SaveStart(cc) else SaveEnd(cc), if fwd then SaveEnd(cc) else SaveStart(cc);
    StraightConcat([first] + cb, [last]);
    StraightConcat([first], cb);
    var inside := SetCap(s, 2 * cc + (if fwd then 0 else 1), s.pos);
    StraightMoves(b, cc + 1, fwd, x, inside);
    CloseAllMoves(cc, fwd, x, Match(b, cc + 1, fwd, x, inside), Rem(fwd, x, s), s);
  }

  lemma StraightCat(a: Regex, b: Regex, cc: nat, fwd: bool, x: Ctx, s: St)
    requires WellFormed(a) && WellFormed(b) && ValidSt(x, s) && !x.perIteration
    requires Straight(Code(Cat(a, b), cc, fwd)) && HasChar(Code(Cat(a, b), cc, fwd))
    ensures AllMove(Cat(a, b), cc, fwd, x, s)
    decreases Cat(a, b), 0
  {
    StraightConcat(Code(a, cc, fwd), Code(b, cc + NCaps(a), fwd));
    StraightConcat(Code(b, cc + NCaps(a), fwd), Code(a, cc, fwd));
    var (r1, c1, r2, c2) := if fwd then (a, cc, b, cc + NCaps(a)) else (b, cc + NCaps(a), a, cc);
    var ss := Match(r1, c1, fwd, x, s);
    var always := HasChar(Code(r1, c1, fwd));
    if always {
      StraightMoves(r1, c1, fwd, x, s);
    } else {
      forall o | o in ss ensures AllMove(r2, c2, fwd, x, o) { StraightMoves(r2, c2, fwd, x, o); }
    }
    MatchAllMoves(r2, c2, fwd, x, ss, Rem(fwd, x, s), s, always);
  }

  lemma {:induction false} CloseAllMoves(cc: nat, fwd: bool, x: Ctx, ss: seq<St>, bound: nat, from: St)
    requires AllValid(x, ss) && forall o :: o in ss ==> Rem(fwd, x, o) <= bound && o.pos != from.pos
    ensures forall o :: o in CloseAll(cc, fwd, x, ss, bound) ==> o.pos != from.pos
    decreases |ss|
  {
    if ss != [] {
      assert ss[0] in ss;
      CloseAllMoves(cc, fwd, x, ss[1..], bound, from);
    }
  }

  lemma {:induction false} RepNextLast(a: Regex, cc: nat, fwd: bool, x: Ctx, greedy: bool, s: St, ss: seq<St>)
    requires ValidSt(x, s) && Onward(fwd, x, s, ss)
    ensures RepNext(a, cc, fwd, x, 1, 1, greedy, s, ss) == ss
    decreases |ss|
  {
    if ss != [] {
      assert ss[0] in ss;
      RepNextLast(a, cc, fwd, x, greedy, s, ss[1..]);
    }
  }

  /** `{1}` is no quantifier at all. */
  lemma OnceIsAtom(a: Regex, cc: nat, fwd: bool, x: Ctx, greedy: bool, s: St)
    requires ValidSt(x, s) && !x.perIteration
    ensures Match(Quant(a, 1, 1, greedy), cc, fwd, x, s) == Match(a, cc, fwd, x, s)
  {
    RepNextLast(a, cc, fwd, x, greedy, s, Match(a, cc, fwd, x, s));
  }

  /** `re_need_check_advance` answers false only for atoms that always move. */
  lemma ClearedAtomMoves(r: Regex, cc: nat, fwd: bool, x: Ctx, s: St)
    requires WellFormed(r) && ValidSt(x, s) && !x.perIteration
    requires !NeedCheckAdvance(Code(r, cc, fwd), false)
    ensures forall o :: o in Match(r, cc, fwd, x, s) ==> o.pos != s.pos
  {
    NeedCheckAdvanceMeaning(Code(r, cc, fwd), false);
    StraightMoves(r, cc, fwd, x, s);
  }
}
