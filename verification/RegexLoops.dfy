/** Algebra of the matcher: its recursive lists as `FlatMap`s, and a repetition
    split into its mandatory and its optional part. */
module RegexLoops {
  import opened RegexSyntax
  import opened RegexMatcher
  import opened RegexYields

  /** The results of `r` as a total function. */
  function After(r: Regex, cc: nat, fwd: bool, x: Ctx): St -> seq<St> {
    (o: St) => if ValidSt(x, o) then Match(r, cc, fwd, x, o) else []
  }

  lemma {:induction false} MatchAllIsBind(r: Regex, cc: nat, fwd: bool, x: Ctx, ss: seq<St>, bound: nat)
    requires AllValid(x, ss) && forall o :: o in ss ==> Rem(fwd, x, o) <= bound
    ensures MatchAll(r, cc, fwd, x, ss, bound) == FlatMap(ss, After(r, cc, fwd, x))
    decreases |ss|
  {
    if ss != [] {
      MatchAllIsBind(r, cc, fwd, x, ss[1..], bound);
    }
  }

  function Closing(k: nat): St -> seq<St> {
    (o: St) => [SetCap(o, k, o.pos)]
  }

  lemma {:induction false} CloseAllIsBind(cc: nat, fwd: bool, x: Ctx, ss: seq<St>, bound: nat)
    requires AllValid(x, ss) && forall o :: o in ss ==> Rem(fwd, x, o) <= bound
    ensures CloseAll(cc, fwd, x, ss, bound) == FlatMap(ss, Closing(2 * cc + (if fwd then 1 else 0)))
    decreases |ss|
  {
    if ss != [] {
      CloseAllIsBind(cc, fwd, x, ss[1..], bound);
    }
  }

  /** The results that moved. */
  function Moved(s: St, ss: seq<St>): (out: seq<St>)
    ensures forall o :: o in out ==> o in ss && o.pos != s.pos
  {
    if ss == [] then []
    else if ss[0].pos == s.pos then Moved(s, ss[1..])
    else [ss[0]] + Moved(s, ss[1..])
  }

  function Only(s: St): St -> seq<St> {
    (o: St) => if o.pos == s.pos then [] else [o]
  }

  lemma {:induction false} MovedIsBind(s: St, ss: seq<St>)
    ensures Moved(s, ss) == FlatMap(ss, Only(s))
    decreases |ss|
  {
    if ss != [] {
      MovedIsBind(s, ss[1..]);
    }
  }

  lemma {:induction false} MovedAll(s: St, ss: seq<St>)
    requires forall o :: o in ss ==> o.pos != s.pos
    ensures Moved(s, ss) == ss
    decreases |ss|
  {
    if ss != [] {
      assert ss[0] in ss;
      MovedAll(s, ss[1..]);
    }
  }

  function Repeating(a: Regex, cc: nat, fwd: bool, x: Ctx, min: nat, max: nat, greedy: bool): St -> seq<St> {
    (o: St) => if ValidSt(x, o) then Rep(a, cc, fwd, x, min, max, greedy, o) else []
  }

  lemma {:induction false} RepNextZero(a: Regex, cc: nat, fwd: bool, x: Ctx, max: nat, greedy: bool, s: St, ss: seq<St>)
    requires ValidSt(x, s) && Onward(fwd, x, s, ss)
    ensures RepNext(a, cc, fwd, x, 0, max, greedy, s, ss)
         == FlatMap(Moved(s, ss), Repeating(a, cc, fwd, x, 0, Less(max), greedy))
    decreases |ss|
  {
    hide Rem;
    if ss != [] {
      assert ss[0] in ss;
      RepNextZero(a, cc, fwd, x, max, greedy, s, ss[1..]);
      var f := Repeating(a, cc, fwd, x, 0, Less(max), greedy);
      assert ss[0].pos != s.pos ==> Moved(s, ss)[1..] == Moved(s, ss[1..]);
    }
  }

  lemma {:induction false} RepNextMore(a: Regex, cc: nat, fwd: bool, x: Ctx, min: nat, max: nat, greedy: bool, s: St,
      ss: seq<St>)
    requires ValidSt(x, s) && Onward(fwd, x, s, ss) && min > 0
    ensures RepNext(a, cc, fwd, x, min, max, greedy, s, ss)
         == FlatMap(ss, Repeating(a, cc, fwd, x, min - 1, Less(max), greedy))
    decreases |ss|
  {
    if ss != [] {
      assert ss[0] in ss;
      RepNextMore(a, cc, fwd, x, min, max, greedy, s, ss[1..]);
    }
  }

  /** Exactly `k` iterations. */
  function Exact(a: Regex, cc: nat, fwd: bool, x: Ctx, k: nat, s: St): (out: seq<St>)
    requires ValidSt(x, s)
    ensures Onward(fwd, x, s, out)
    decreases k, 1, 0
  {
    if k == 0 then [s] else ExactAll(a, cc, fwd, x, k - 1, s, Match(a, cc, fwd, x, s))
  }

  function ExactAll(a: Regex, cc: nat, fwd: bool, x: Ctx, k: nat, s: St, ss: seq<St>): (out: seq<St>)
    requires ValidSt(x, s) && Onward(fwd, x, s, ss)
    ensures Onward(fwd, x, s, out)
    decreases k, 2, |ss|
  {
    if ss == [] then [] else Exact(a, cc, fwd, x, k, ss[0]) + ExactAll(a, cc, fwd, x, k, s, ss[1..])
  }

  function Exactly(a: Regex, cc: nat, fwd: bool, x: Ctx, k: nat): St -> seq<St> {
    (o: St) => if ValidSt(x, o) then Exact(a, cc, fwd, x, k, o) else []
  }

  lemma {:induction false} ExactAllIsBind(a: Regex, cc: nat, fwd: bool, x: Ctx, k: nat, s: St, ss: seq<St>)
    requires ValidSt(x, s) && Onward(fwd, x, s, ss)
    ensures ExactAll(a, cc, fwd, x, k, s, ss) == FlatMap(ss, Exactly(a, cc, fwd, x, k))
    decreases |ss|
  {
    if ss != [] {
      assert ss[0] in ss;
      ExactAllIsBind(a, cc, fwd, x, k, s, ss[1..]);
    }
  }

  lemma {:induction false} FlatMapAppend(xs: seq<St>, ys: seq<St>, f: St -> seq<St>)
    ensures FlatMap(xs + ys, f) == FlatMap(xs, f) + FlatMap(ys, f)
    decreases |xs|
  {
    if xs == [] {
      assert xs + ys == ys;
    } else {
      FlatMapAppend(xs[1..], ys, f);
      assert (xs + ys)[1..] == xs[1..] + ys;
    }
  }

  lemma FlatMapOne(s: St, f: St -> seq<St>)
    ensures FlatMap([s], f) == f(s)
  {
    assert FlatMap([], f) == [];
  }

  /** The iterations left after `min` of them. */
  function Left(min: nat, max: nat): nat
    requires min <= max
  {
    if max == INT32_MAX then max else max - min
  }

  /** A repetition is its minimum number of iterations, each result followed by a
      repetition with minimum zero. */
  lemma {:induction false} RepSplit(a: Regex, cc: nat, fwd: bool, x: Ctx, min: nat, max: nat, greedy: bool, s: St)
    requires ValidSt(x, s) && min <= max <= INT32_MAX && !x.perIteration
    ensures Rep(a, cc, fwd, x, min, max, greedy, s)
         == FlatMap(Exact(a, cc, fwd, x, min, s), Repeating(a, cc, fwd, x, 0, Left(min, max), greedy))
    decreases min, 1, 0
  {
    hide ResetCaps;
    hide RepNext;
    hide ExactAll;
    hide Match;
    hide FlatMap;
    if min == 0 {
      FlatMapOne(s, Repeating(a, cc, fwd, x, 0, max, greedy));
    } else {
      RepSplitAll(a, cc, fwd, x, min - 1, Less(max), Left(min, max), greedy, Match(a, cc, fwd, x, s));
      RepNextMore(a, cc, fwd, x, min, max, greedy, s, Match(a, cc, fwd, x, s));
      ExactAllIsBind(a, cc, fwd, x, min - 1, s, Match(a, cc, fwd, x, s));
    }
  }

  lemma {:induction false} RepSplitAll(a: Regex, cc: nat, fwd: bool, x: Ctx, min: nat, max: nat, left: nat,
      greedy: bool, ss: seq<St>)
    requires AllValid(x, ss) && min <= max <= INT32_MAX && !x.perIteration && left == Left(min, max)
    ensures FlatMap(ss, Repeating(a, cc, fwd, x, min, max, greedy))
         == FlatMap(FlatMap(ss, Exactly(a, cc, fwd, x, min)), Repeating(a, cc, fwd, x, 0, left, greedy))
    decreases min, 2, |ss|
  {
    if ss != [] {
      assert ss[0] in ss;
      RepSplit(a, cc, fwd, x, min, max, greedy, ss[0]);
      RepSplitAll(a, cc, fwd, x, min, max, left, greedy, ss[1..]);
      FlatMapAppend(Exact(a, cc, fwd, x, min, ss[0]), FlatMap(ss[1..], Exactly(a, cc, fwd, x, min)),
                    Repeating(a, cc, fwd, x, 0, left, greedy));
    }
  }
}
