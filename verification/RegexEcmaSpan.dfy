/** The match found by a compiled program is the one that ECMA-262 prescribes, for patterns
    whose back-references refer to settled groups; and a pattern for which it is not. */
module RegexEcmaSpan {
  import opened Common
  import opened RegexSyntax
  import opened RegexMatcher
  import opened RegexYields
  import opened RegexLoops
  import opened RegexCorrect
  import opened RegexEcma

  /** Both engines fail, or both match with the same end and the same captures in `g`. */
  ghost predicate SameMatch(g: Slots, a: Option<St>, b: Option<St>) {
    (a.None? && b.None?) || (a.Some? && b.Some? && Same(g, a.value, b.value))
  }

  function FirstSlots(n: nat): (g: Slots)
    ensures forall k: nat :: k in g <==> k < n
  {
    if n == 0 then {} else FirstSlots(n - 1) + {n - 1}
  }

  /** At first nothing is captured, and all of that is settled. */
  function AllSlots(x: Ctx): Slots {
    FirstSlots(2 * x.ncap)
  }

  /** The span of the match, which is group 0, and the settled groups. */
  function FinalSlots(r: Regex, x: Ctx): Slots {
    Settled(r, 1, true, AllSlots(x)) + {1}
  }

  lemma SpanIsSettled(r: Regex, x: Ctx)
    requires x.ncap >= 1
    ensures 0 in FinalSlots(r, x) && 1 in FinalSlots(r, x)
  {
    SettledKeeps(r, 1, true, AllSlots(x));
    assert 0 in Outside(AllSlots(x), 1, 1 + NCaps(r));
  }

  lemma {:induction false} ClosingAlike(g: Slots, ss: seq<St>, ts: seq<St>)
    requires Alike(g, ss, ts)
    ensures Alike(g + {1}, FlatMap(ss, Closing(1)), FlatMap(ts, Closing(1)))
    decreases |ss|
  {
    hide Alike;
    hide Same;
    AlikeParts(g, ss, ts);
    if ss != [] {
      SetSame(g, ss[0], ts[0], 1);
      OneAlike(g + {1}, Closing(1)(ss[0]), Closing(1)(ts[0]));
      ClosingAlike(g, ss[1..], ts[1..]);
      AlikeConcat(g + {1}, Closing(1)(ss[0]), Closing(1)(ts[0]), FlatMap(ss[1..], Closing(1)),
                  FlatMap(ts[1..], Closing(1)));
    } else {
      OneAlike(g + {1}, [], []);
    }
  }

  lemma MatchAtAgree(r: Regex, x: Ctx, y: Ctx, i: nat)
    requires RefsSettled(r, 1, true, AllSlots(x)) && SameSubject(x, y) && i <= |x.input|
    ensures Alike(FinalSlots(r, x), MatchAt(r, x, i), MatchAt(r, y, i))
  {
    hide Match;
    hide Alike;
    hide Settled;
    hide RefsSettled;
    var s, t := SetCap(Start(x, i), 0, i), SetCap(Start(y, i), 0, i);
    RunsAgree(r, 1, true, x, y, AllSlots(x), s, t);
    ClosingAlike(Settled(r, 1, true, AllSlots(x)), Match(r, 1, true, x, s), Match(r, 1, true, y, t));
  }

  lemma {:induction false} SearchAgree(r: Regex, x: Ctx, y: Ctx, i: nat)
    requires RefsSettled(r, 1, true, AllSlots(x)) && SameSubject(x, y) && i <= |x.input|
    ensures SameMatch(FinalSlots(r, x), First(Search(r, x, i)), First(Search(r, y, i)))
    decreases |x.input| - i
  {
    hide MatchAt;
    hide Alike;
    hide Same;
    hide Settled;
    hide RefsSettled;
    MatchAtAgree(r, x, y, i);
    AlikeParts(FinalSlots(r, x), MatchAt(r, x, i), MatchAt(r, y, i));
    if i < |x.input| {
      SearchAgree(r, x, y, i + 1);
    }
  }

  /** The bytecode's way of clearing captures and the standard's find the same match, with the
      same settled captures, when back-references refer to settled groups only. */
  lemma MatchAsInEcma262(r: Regex, sticky: bool, x: Ctx, y: Ctx, from: nat)
    requires RefsSettled(r, 1, true, AllSlots(x)) && SameSubject(x, y) && from <= |x.input| && x.ncap >= 1
    requires !x.perIteration && y.perIteration
    ensures 0 in FinalSlots(r, x) && 1 in FinalSlots(r, x)
    ensures SameMatch(FinalSlots(r, x), Find(r, sticky, x, from), Find(r, sticky, y, from))
  {
    hide MatchAt;
    hide Alike;
    hide Same;
    SpanIsSettled(r, x);
    if sticky {
      MatchAtAgree(r, x, y, from);
      AlikeParts(FinalSlots(r, x), MatchAt(r, x, from), MatchAt(r, y, from));
    } else {
      SearchAgree(r, x, y, from);
    }
  }

  /** Without back-references the span is always the standard's. */
  lemma SpanAsInEcma262(r: Regex, sticky: bool, x: Ctx, y: Ctx, from: nat)
    requires BackRefFree(r) && SameSubject(x, y) && from <= |x.input| && x.ncap >= 1
    requires !x.perIteration && y.perIteration
    ensures SameMatch({0, 1}, Find(r, sticky, x, from), Find(r, sticky, y, from))
  {
    hide Find;
    NoRefsSettled(r, 1, true, AllSlots(x));
    MatchAsInEcma262(r, sticky, x, y, from);
    if Find(r, sticky, x, from).Some? {
      SameFewer(FinalSlots(r, x), {0, 1}, Find(r, sticky, x, from).value, Find(r, sticky, y, from).value);
    }
  }

  // ----- a back-reference sees the difference -----

  const A_OR_B: Regex := Alt(Capture(Char(97)), Char(98))

  /** `(?:(a)|b)*\1` */
  const WITNESS: Regex := Cat(Quant(A_OR_B, 0, INT32_MAX, true), BackRef(1))

  /** The subject "ab", with room for group 1. */
  function WitnessCtx(perIteration: bool): Ctx { Ctx([97, 98], false, 2, perIteration) }

  function WitnessSt(p: nat, a: int, b: int): St { St(p, [UNSET, UNSET, a, b]) }

  lemma WitnessAtom(x: Ctx, a: int, b: int)
    requires x == WitnessCtx(x.perIteration)
    ensures Match(A_OR_B, 1, true, x, WitnessSt(0, a, b)) == [WitnessSt(1, 0, 1)]
    ensures Match(A_OR_B, 1, true, x, WitnessSt(1, a, b)) == [WitnessSt(2, a, b)]
    ensures Match(A_OR_B, 1, true, x, WitnessSt(2, a, b)) == []
  {
    var s0, s1, s2 := WitnessSt(0, a, b), WitnessSt(1, a, b), WitnessSt(2, a, b);
    var s0', s1', s2' := SetCap(s0, 2, 0), SetCap(s1, 2, 1), SetCap(s2, 2, 2);
    assert Match(Char(97), 2, true, x, s0') == [s0'.(pos := 1)];
    assert Match(Char(97), 2, true, x, s1') == [] && Match(Char(97), 2, true, x, s2') == [];
    assert CloseAll(1, true, x, [s0'.(pos := 1)], 2) == [SetCap(s0'.(pos := 1), 3, 1)] + CloseAll(1, true, x, [], 2);
    assert SetCap(s0'.(pos := 1), 3, 1) == WitnessSt(1, 0, 1);
    assert Match(Capture(Char(97)), 1, true, x, s0) == CloseAll(1, true, x, [s0'.(pos := 1)], 2);
    assert Match(Capture(Char(97)), 1, true, x, s1) == [] && Match(Capture(Char(97)), 1, true, x, s2) == [];
    assert Match(Char(98), 2, true, x, s0) == [] && Match(Char(98), 2, true, x, s1) == [s2]
      && Match(Char(98), 2, true, x, s2) == [];
  }

  function WitnessReset(x: Ctx, s: St): St {
    if x.perIteration then s.(caps := [UNSET, UNSET, UNSET, UNSET]) else s
  }

  /** One unfolding of the loop from a state where the atom has one result. */
  lemma WitnessStep(x: Ctx, s: St, t: St)
    requires x == WitnessCtx(x.perIteration) && ValidSt(x, s) && ValidSt(x, t) && s.pos < t.pos
    requires s.caps[..2] == [UNSET, UNSET]
    requires Match(A_OR_B, 1, true, x, WitnessReset(x, s)) == [t]
    ensures Rep(A_OR_B, 1, true, x, 0, INT32_MAX, true, s) == Rep(A_OR_B, 1, true, x, 0, INT32_MAX, true, t) + [s]
  {
    hide Match;
    assert ResetCaps(s, 1, 1 + NCaps(A_OR_B)).caps == [UNSET, UNSET, UNSET, UNSET];
    assert RepNext(A_OR_B, 1, true, x, 0, INT32_MAX, true, s, [t])
        == Rep(A_OR_B, 1, true, x, 0, INT32_MAX, true, t) + RepNext(A_OR_B, 1, true, x, 0, INT32_MAX, true, s, []);
  }

  lemma WitnessLoop(x: Ctx)
    requires x == WitnessCtx(x.perIteration)
    ensures var last := if x.perIteration then WitnessSt(2, UNSET, UNSET) else WitnessSt(2, 0, 1);
            Rep(A_OR_B, 1, true, x, 0, INT32_MAX, true, WitnessSt(0, UNSET, UNSET))
            == [last, WitnessSt(1, 0, 1), WitnessSt(0, UNSET, UNSET)]
  {
    hide Match;
    hide Rep;
    var s0, s1 := WitnessSt(0, UNSET, UNSET), WitnessSt(1, 0, 1);
    var s2 := if x.perIteration then WitnessSt(2, UNSET, UNSET) else WitnessSt(2, 0, 1);
    WitnessAtom(x, UNSET, UNSET);
    WitnessAtom(x, 0, 1);
    WitnessStep(x, s0, s1);
    WitnessStep(x, s1, s2);
    WitnessEnd(x, s2);
  }

  lemma WitnessEnd(x: Ctx, s: St)
    requires x == WitnessCtx(x.perIteration) && ValidSt(x, s)
    requires s.caps[..2] == [UNSET, UNSET] && Match(A_OR_B, 1, true, x, WitnessReset(x, s)) == []
    ensures Rep(A_OR_B, 1, true, x, 0, INT32_MAX, true, s) == [s]
  {
    hide Match;
    assert ResetCaps(s, 1, 1 + NCaps(A_OR_B)).caps == [UNSET, UNSET, UNSET, UNSET];
  }

  lemma WitnessResults(x: Ctx, ss: seq<St>)
    requires x == WitnessCtx(x.perIteration) && AllValid(x, ss)
    requires Rep(A_OR_B, 1, true, x, 0, INT32_MAX, true, WitnessSt(0, UNSET, UNSET)) == ss
    ensures Match(WITNESS, 1, true, x, WitnessSt(0, UNSET, UNSET)) == FlatMap(ss, After(BackRef(1), 2, true, x))
  {
    hide Rep;
    hide Match;
    hide MatchAll;
    var s := WitnessSt(0, UNSET, UNSET);
    assert ResetCaps(s, 1, 1 + NCaps(A_OR_B)).caps == s.caps;
    QuantIs(A_OR_B, 0, INT32_MAX, true, 1, true, x, s);
    CatIs(Quant(A_OR_B, 0, INT32_MAX, true), BackRef(1), 1, true, x, s);
    MatchAllIsBind(BackRef(1), 2, true, x, ss, Rem(true, x, s));
  }

  lemma WitnessUnsettled(x: Ctx)
    ensures !RefsSettled(WITNESS, 1, true, AllSlots(x))
  {
    hide FirstSlots;
    assert Settled(Quant(A_OR_B, 0, INT32_MAX, true), 1, true, AllSlots(x)) == Outside(AllSlots(x), 1, 2);
  }

  /** On "ab" the standard matches both characters (the second iteration clears group 1,
      so `\1` is empty), while the bytecode keeps "a" in group 1 and backtracks to the
      empty match. */
  lemma BackRefSeesTheDifference()
    ensures var x, y, s := WitnessCtx(false), WitnessCtx(true), WitnessSt(0, UNSET, UNSET);
            !RefsSettled(WITNESS, 1, true, AllSlots(x))
            && Match(WITNESS, 1, true, x, s) == [WitnessSt(0, UNSET, UNSET)]
            && Match(WITNESS, 1, true, y, s) != [] && Match(WITNESS, 1, true, y, s)[0].pos == 2
  {
    hide Match;
    hide Rep;
    hide RefsSettled;
    hide AllSlots;
    var x, y := WitnessCtx(false), WitnessCtx(true);
    WitnessUnsettled(x);
    WitnessLoop(x);
    WitnessLoop(y);
    var xs := [WitnessSt(2, 0, 1), WitnessSt(1, 0, 1), WitnessSt(0, UNSET, UNSET)];
    var ys := [WitnessSt(2, UNSET, UNSET), WitnessSt(1, 0, 1), WitnessSt(0, UNSET, UNSET)];
    WitnessResults(x, xs);
    WitnessResults(y, ys);
    WitnessBackRef(x, xs);
    WitnessBackRefFirst(y, ys);
  }

  lemma WitnessBackRef(x: Ctx, xs: seq<St>)
    requires x == WitnessCtx(false) && xs == [WitnessSt(2, 0, 1), WitnessSt(1, 0, 1), WitnessSt(0, UNSET, UNSET)]
    ensures FlatMap(xs, After(BackRef(1), 2, true, x)) == [WitnessSt(0, UNSET, UNSET)]
  {
    var f := After(BackRef(1), 2, true, x);
    assert f(xs[0]) == [];
    assert x.input[0..1] == [97] && x.input[1..2] == [98];
    assert f(xs[1]) == [];
    assert f(xs[2]) == [xs[2]];
    assert xs[1..] == [xs[1], xs[2]] && xs[1..][1..] == [xs[2]];
    FlatMapOne(xs[2], f);
    assert FlatMap(xs[1..], f) == f(xs[1]) + FlatMap(xs[1..][1..], f);
  }

  lemma WitnessBackRefFirst(y: Ctx, ys: seq<St>)
    requires y == WitnessCtx(true) && ys != [] && ys[0] == WitnessSt(2, UNSET, UNSET)
    ensures FlatMap(ys, After(BackRef(1), 2, true, y)) != []
    ensures FlatMap(ys, After(BackRef(1), 2, true, y))[0].pos == 2
  {
    assert After(BackRef(1), 2, true, y)(ys[0]) == [ys[0]];
  }
}
