/** What a pattern matches, said without a matcher: which stretches of the subject, by
    quantifiers over positions and numbers of iterations. The matcher, in either direction,
    reaches exactly the ends of these stretches. */
module RegexSpans {
  import opened RegexSyntax
  import opened RegexMatcher
  import opened RegexEcma

  ghost predicate Terminator(x: Ctx, i: int) {
    0 <= i < |x.input| && x.input[i] in {0x0A, 0x0D, 0x2028, 0x2029}
  }

  /** `[0-9A-Z_a-z]` */
  const WORD: seq<nat> := ['0' as nat, '9' as nat + 1, 'A' as nat, 'Z' as nat + 1, '_' as nat, '_' as nat + 1,
                           'a' as nat, 'z' as nat + 1]

  ghost predicate WordAt(x: Ctx, i: int) {
    0 <= i < |x.input| && InSet(WORD, x.input[i])
  }

  /** The pattern matches the characters from `i` to `j`. */
  ghost predicate Spans(r: Regex, x: Ctx, i: nat, j: nat)
    decreases r, 0, 0
  {
    i <= j <= |x.input|
    && match r
      case Empty => i == j
      case Char(c) => j == i + 1 && x.input[i] == c
      case Dot(all) => j == i + 1 && (all || !Terminator(x, i))
      case Class(pts) => j == i + 1 && InSet(pts, x.input[i])
      case LineStart => i == j && (i == 0 || (x.multiline && Terminator(x, i - 1)))
      case LineEnd => i == j && (i == |x.input| || (x.multiline && Terminator(x, i)))
      case WordBoundary(neg) => i == j && (neg <==> (WordAt(x, i - 1) <==> WordAt(x, i)))
      case Cat(a, b) => exists k: nat :: Spans(a, x, i, k) && Spans(b, x, k, j)
      case Alt(a, b) => Spans(a, x, i, j) || Spans(b, x, i, j)
      case Capture(b) => Spans(b, x, i, j)
      case BackRef(_) => false
      case Look(ahead, neg, b) =>
        i == j && (neg <==> forall k: nat :: !(if ahead then Spans(b, x, i, k) else Spans(b, x, k, i)))
      case Quant(a, min, max, _) => exists n: nat :: Allows(min, max, n) && Times(a, x, n, i, j)
  }

  /** `n` stretches of the pattern one after the other. */
  ghost predicate Times(a: Regex, x: Ctx, n: nat, i: nat, j: nat)
    decreases a, 1, n
  {
    if n == 0 then i == j <= |x.input|
    else exists k: nat :: Spans(a, x, i, k) && Times(a, x, n - 1, k, j)
  }

  predicate Allows(min: nat, max: nat, n: nat) {
    min <= n && (n <= max || max == INT32_MAX)
  }

  /** From `i` in the direction of matching to `j`. */
  ghost predicate Leads(r: Regex, fwd: bool, x: Ctx, i: nat, j: nat) {
    if fwd then Spans(r, x, i, j) else Spans(r, x, j, i)
  }

  ghost predicate Repeats(a: Regex, fwd: bool, x: Ctx, n: nat, i: nat, j: nat) {
    if fwd then Times(a, x, n, i, j) else Times(a, x, n, j, i)
  }

  ghost predicate Reaches(out: seq<St>, j: nat) {
    exists o :: o in out && o.pos == j
  }

  // ----- repetitions from either end -----

  lemma {:induction false} TimesSnoc(a: Regex, x: Ctx, n: nat, i: nat, k: nat, j: nat)
    requires Times(a, x, n, i, k) && Spans(a, x, k, j)
    ensures Times(a, x, n + 1, i, j)
    decreases n
  {
    hide Spans;
    if n == 0 {
      SpanBounds(a, x, k, j);
      assert Times(a, x, 0, j, j);
    } else {
      var m: nat :| Spans(a, x, i, m) && Times(a, x, n - 1, m, k);
      TimesSnoc(a, x, n - 1, m, k, j);
    }
  }

  lemma SpanBounds(a: Regex, x: Ctx, i: nat, j: nat)
    requires Spans(a, x, i, j)
    ensures i <= j <= |x.input|
  {
  }

  lemma {:induction false} TimesLast(a: Regex, x: Ctx, n: nat, i: nat, j: nat) returns (k: nat)
    requires n > 0 && Times(a, x, n, i, j)
    ensures Times(a, x, n - 1, i, k) && Spans(a, x, k, j)
    decreases n
  {
    hide Spans;
    var m: nat :| Spans(a, x, i, m) && Times(a, x, n - 1, m, j);
    SpanBounds(a, x, i, m);
    if n == 1 {
      k := i;
    } else {
      k := TimesLast(a, x, n - 1, m, j);
    }
  }

  lemma RepeatsMore(a: Regex, fwd: bool, x: Ctx, n: nat, i: nat, k: nat, j: nat)
    requires Leads(a, fwd, x, i, k) && Repeats(a, fwd, x, n, k, j)
    ensures Repeats(a, fwd, x, n + 1, i, j)
  {
    hide Spans;
    if !fwd { TimesSnoc(a, x, n, j, k, i); }
  }

  lemma RepeatsFirst(a: Regex, fwd: bool, x: Ctx, n: nat, i: nat, j: nat) returns (k: nat)
    requires n > 0 && Repeats(a, fwd, x, n, i, j)
    ensures Leads(a, fwd, x, i, k) && Repeats(a, fwd, x, n - 1, k, j)
  {
    hide Spans;
    if fwd {
      assert Times(a, x, n, i, j);
      k :| Spans(a, x, i, k) && Times(a, x, n - 1, k, j);
    } else {
      k := TimesLast(a, x, n, j, i);
    }
  }

  lemma RepeatsNone(a: Regex, fwd: bool, x: Ctx, i: nat, j: nat)
    requires i <= |x.input|
    ensures Repeats(a, fwd, x, 0, i, j) <==> i == j
  {
  }

  // ----- the theorem -----

  /** The matcher reaches exactly the ends of the stretches that start (or, backwards, end)
      where it stands, whatever the captures hold. */
  lemma {:induction false} MatchSpans(r: Regex, cc: nat, fwd: bool, x: Ctx, s: St, j: nat)
    requires WellFormed(r) && BackRefFree(r) && ValidSt(x, s)
    ensures Reaches(Match(r, cc, fwd, x, s), j) <==> Leads(r, fwd, x, s.pos, j)
    decreases r, 1, 0, 0
  {
    hide Match;
    match r
    case Cat(a, b) => CatSpans(a, b, cc, fwd, x, s, j);
    case Alt(a, b) =>
      AltIs(a, b, cc, fwd, x, s);
      MatchSpans(a, cc, fwd, x, s, j);
      MatchSpans(b, cc + NCaps(a), fwd, x, s, j);
    case Capture(b) => CaptureSpans(b, cc, fwd, x, s, j);
    case Look(ahead, neg, b) => LookSpans(ahead, neg, b, cc, fwd, x, s, j);
    case Quant(a, min, max, greedy) => QuantSpans(a, min, max, greedy, cc, fwd, x, s, j);
    case _ => LeafSpans(r, cc, fwd, x, s, j);
  }

  lemma WordAtIs(x: Ctx, i: int)
    ensures WordAt(x, i) <==> 0 <= i < |x.input| && IsWordChar(x.input[i])
  {
    if 0 <= i < |x.input| && IsWordChar(x.input[i]) {
      var c := x.input[i];
      var k := if c <= 57 then 0 else if c <= 90 then 1 else if c == 95 then 2 else 3;
      assert 0 <= k < |WORD| / 2 && WORD[2 * k] <= c < WORD[2 * k + 1];
    }
  }

  lemma LeafSpans(r: Regex, cc: nat, fwd: bool, x: Ctx, s: St, j: nat)
    requires WellFormed(r) && BackRefFree(r) && ValidSt(x, s)
    requires !r.Cat? && !r.Alt? && !r.Capture? && !r.Look? && !r.Quant?
    ensures Reaches(Match(r, cc, fwd, x, s), j) <==> Leads(r, fwd, x, s.pos, j)
  {
    hide InSet;
    hide WordAt;
    hide IsWordChar;
    if r.WordBoundary? {
      WordAtIs(x, s.pos - 1);
      WordAtIs(x, s.pos);
    }
    var out := Match(r, cc, fwd, x, s);
    if out != [] { assert out[0] in out; }
  }

  lemma CatMiddle(a: Regex, b: Regex, x: Ctx, i: nat, j: nat) returns (k: nat)
    requires Spans(Cat(a, b), x, i, j)
    ensures Spans(a, x, i, k) && Spans(b, x, k, j)
  {
    k :| Spans(a, x, i, k) && Spans(b, x, k, j);
  }

  lemma CatJoin(a: Regex, b: Regex, x: Ctx, i: nat, k: nat, j: nat)
    requires Spans(a, x, i, k) && Spans(b, x, k, j)
    ensures Spans(Cat(a, b), x, i, j)
  {
    SpanBounds(a, x, i, k);
    SpanBounds(b, x, k, j);
  }

  /** From `i` over `k` to `j`, by the second part first when matching backwards. */
  ghost predicate Through(a: Regex, b: Regex, fwd: bool, x: Ctx, i: nat, k: nat, j: nat) {
    if fwd then Spans(a, x, i, k) && Spans(b, x, k, j) else Spans(b, x, k, i) && Spans(a, x, j, k)
  }

  lemma LeadsCat(a: Regex, b: Regex, fwd: bool, x: Ctx, i: nat, j: nat)
    ensures Leads(Cat(a, b), fwd, x, i, j) <==> exists k: nat :: Through(a, b, fwd, x, i, k, j)
  {
    hide Spans;
    var lo, hi := if fwd then i else j, if fwd then j else i;
    if Spans(Cat(a, b), x, lo, hi) {
      var k := CatMiddle(a, b, x, lo, hi);
      assert Through(a, b, fwd, x, i, k, j);
    }
    if k: nat :| Through(a, b, fwd, x, i, k, j) { CatJoin(a, b, x, lo, k, hi); }
  }

  lemma {:induction false} CatSpans(a: Regex, b: Regex, cc: nat, fwd: bool, x: Ctx, s: St, j: nat)
    requires WellFormed(Cat(a, b)) && BackRefFree(Cat(a, b)) && ValidSt(x, s)
    ensures Reaches(Match(Cat(a, b), cc, fwd, x, s), j) <==> Leads(Cat(a, b), fwd, x, s.pos, j)
    decreases Cat(a, b), 0, 0, 0
  {
    hide Match;
    hide MatchAll;
    hide Spans;
    hide Rem;
    CatIs(a, b, cc, fwd, x, s);
    var p, pc := if fwd then a else b, if fwd then cc else cc + NCaps(a);
    var q, qc := if fwd then b else a, if fwd then cc + NCaps(a) else cc;
    var ss := Match(p, pc, fwd, x, s);
    MatchAllSpans(q, qc, fwd, x, ss, Rem(fwd, x, s), j);
    LeadsCat(a, b, fwd, x, s.pos, j);
    if k: nat :| Through(a, b, fwd, x, s.pos, k, j) {
      MatchSpans(p, pc, fwd, x, s, k);
    }
    if o :| o in ss && Leads(q, fwd, x, o.pos, j) {
      MatchSpans(p, pc, fwd, x, s, o.pos);
      assert Reaches(ss, o.pos) && Through(a, b, fwd, x, s.pos, o.pos, j);
    }
  }

  lemma {:induction false} MatchAllSpans(r: Regex, cc: nat, fwd: bool, x: Ctx, ss: seq<St>, bound: nat, j: nat)
    requires WellFormed(r) && BackRefFree(r)
    requires AllValid(x, ss) && forall o :: o in ss ==> Rem(fwd, x, o) <= bound
    ensures Reaches(MatchAll(r, cc, fwd, x, ss, bound), j) <==> exists o :: o in ss && Leads(r, fwd, x, o.pos, j)
    decreases r, 2, |ss|, 0
  {
    hide Match;
    hide Leads;
    hide Rem;
    if ss != [] {
      assert ss[0] in ss;
      MatchSpans(r, cc, fwd, x, ss[0], j);
      MatchAllSpans(r, cc, fwd, x, ss[1..], bound, j);
      ReachesEither(Match(r, cc, fwd, x, ss[0]), MatchAll(r, cc, fwd, x, ss[1..], bound), j);
      assert forall o :: o in ss <==> o == ss[0] || o in ss[1..];
    }
  }

  lemma NoneReached(j: nat)
    ensures !Reaches([], j)
  {
  }

  lemma SameRem(fwd: bool, x: Ctx, s: St, t: St)
    requires ValidSt(x, s) && ValidSt(x, t) && s.pos == t.pos
    ensures Rem(fwd, x, t) == Rem(fwd, x, s)
  {
  }

  lemma ReachesEither(a: seq<St>, b: seq<St>, j: nat)
    ensures Reaches(a + b, j) <==> Reaches(a, j) || Reaches(b, j)
  {
  }

  lemma {:induction false} CaptureSpans(b: Regex, cc: nat, fwd: bool, x: Ctx, s: St, j: nat)
    requires WellFormed(b) && BackRefFree(b) && ValidSt(x, s)
    ensures Reaches(Match(Capture(b), cc, fwd, x, s), j) <==> Leads(Capture(b), fwd, x, s.pos, j)
    decreases Capture(b), 0, 0, 0
  {
    hide Match;
    hide CloseAll;
    hide Rem;
    CaptureIs(b, cc, fwd, x, s);
    var inside := SetCap(s, 2 * cc + (if fwd then 0 else 1), s.pos);
    SameRem(fwd, x, s, inside);
    MatchSpans(b, cc + 1, fwd, x, inside, j);
    CloseReaches(cc, fwd, x, Match(b, cc + 1, fwd, x, inside), Rem(fwd, x, s), j);
  }

  lemma {:induction false} CloseReaches(cc: nat, fwd: bool, x: Ctx, ss: seq<St>, bound: nat, j: nat)
    requires AllValid(x, ss) && forall o :: o in ss ==> Rem(fwd, x, o) <= bound
    ensures Reaches(CloseAll(cc, fwd, x, ss, bound), j) <==> Reaches(ss, j)
    decreases |ss|
  {
    hide Rem;
    if ss != [] {
      CloseReaches(cc, fwd, x, ss[1..], bound, j);
      var k := 2 * cc + (if fwd then 1 else 0);
      ReachesEither([SetCap(ss[0], k, ss[0].pos)], CloseAll(cc, fwd, x, ss[1..], bound), j);
      ReachesEither([ss[0]], ss[1..], j);
      assert [ss[0]] + ss[1..] == ss;
      assert ss[0] in [ss[0]] && SetCap(ss[0], k, ss[0].pos) in [SetCap(ss[0], k, ss[0].pos)];
    }
  }

  lemma LookSpan(ahead: bool, neg: bool, b: Regex, x: Ctx, i: nat, j: nat)
    ensures Spans(Look(ahead, neg, b), x, i, j)
       <==> i == j <= |x.input| && (neg <==> forall k: nat :: !Leads(b, ahead, x, i, k))
  {
    if ahead {
      assert forall k: nat :: Leads(b, ahead, x, i, k) <==> Spans(b, x, i, k);
    } else {
      assert forall k: nat :: Leads(b, ahead, x, i, k) <==> Spans(b, x, k, i);
    }
  }

  lemma {:induction false} LookSpans(ahead: bool, neg: bool, b: Regex, cc: nat, fwd: bool, x: Ctx, s: St, j: nat)
    requires WellFormed(b) && BackRefFree(b) && ValidSt(x, s)
    ensures Reaches(Match(Look(ahead, neg, b), cc, fwd, x, s), j) <==> Leads(Look(ahead, neg, b), fwd, x, s.pos, j)
    decreases Look(ahead, neg, b), 0, 0, 0
  {
    hide Match;
    hide Spans;
    LookSpan(ahead, neg, b, x, s.pos, j);
    LookSpan(ahead, neg, b, x, j, s.pos);
    LookIs(ahead, neg, b, cc, fwd, x, s);
    var out := Match(b, cc, ahead, x, s);
    if out != [] {
      MatchSpans(b, cc, ahead, x, s, out[0].pos);
      assert Reaches(out, out[0].pos);
    }
    if k: nat :| Leads(b, ahead, x, s.pos, k) {
      MatchSpans(b, cc, ahead, x, s, k);
    }
    assert out == [] <==> forall k: nat :: !Leads(b, ahead, x, s.pos, k);
    var res := Match(Look(ahead, neg, b), cc, fwd, x, s);
    if res != [] { assert res[0] in res; }
  }

  // ----- repetition -----

  lemma {:induction false} QuantSpans(a: Regex, min: nat, max: nat, greedy: bool, cc: nat, fwd: bool, x: Ctx, s: St,
      j: nat)
    requires WellFormed(Quant(a, min, max, greedy)) && BackRefFree(a) && ValidSt(x, s)
    ensures Reaches(Match(Quant(a, min, max, greedy), cc, fwd, x, s), j)
       <==> Leads(Quant(a, min, max, greedy), fwd, x, s.pos, j)
    decreases Quant(a, min, max, greedy), 0, 0, 0
  {
    hide Match;
    hide Rep;
    QuantIs(a, min, max, greedy, cc, fwd, x, s);
    var e := QuantEntry(a, min, cc, x, s);
    RepSound(a, cc, fwd, x, min, max, greedy, e, j);
    if Leads(Quant(a, min, max, greedy), fwd, x, s.pos, j) {
      var n: nat :| Allows(min, max, n) && Repeats(a, fwd, x, n, s.pos, j);
      RepComplete(a, cc, fwd, x, min, max, greedy, e, j, n);
    }
    if n: nat :| Allows(min, max, n) && Repeats(a, fwd, x, n, s.pos, j) {
      RepeatsBounds(a, fwd, x, n, s.pos, j);
    }
  }

  lemma {:induction false} RepeatsBounds(a: Regex, fwd: bool, x: Ctx, n: nat, i: nat, j: nat)
    requires Repeats(a, fwd, x, n, i, j)
    ensures if fwd then i <= j <= |x.input| else j <= i <= |x.input|
  {
    hide Spans;
    if fwd { TimesBounds(a, x, n, i, j); } else { TimesBounds(a, x, n, j, i); }
  }

  lemma {:induction false} TimesBounds(a: Regex, x: Ctx, n: nat, i: nat, j: nat)
    requires Times(a, x, n, i, j)
    ensures i <= j <= |x.input|
    decreases n
  {
    hide Spans;
    if n > 0 {
      var k: nat :| Spans(a, x, i, k) && Times(a, x, n - 1, k, j);
      SpanBounds(a, x, i, k);
      TimesBounds(a, x, n - 1, k, j);
    }
  }

  /** The ways on from a state of a loop: leave it, or go on from a result of the atom. */
  lemma RepReaches(a: Regex, cc: nat, fwd: bool, x: Ctx, min: nat, max: nat, greedy: bool, s: St, j: nat)
    requires ValidSt(x, s) && max != 0
    ensures var ss := Match(a, cc, fwd, x, Entry(a, cc, x, s));
            Onward(fwd, x, s, ss)
            && (Reaches(Rep(a, cc, fwd, x, min, max, greedy, s), j) <==>
                (min == 0 && j == s.pos)
                || exists o :: o in ss && Reaches(Again(a, cc, fwd, x, min, max, greedy, s, o), j))
  {
    hide Match;
    hide Rep;
    hide RepNext;
    hide Again;
    hide Onward;
    RepIs(a, cc, fwd, x, min, max, greedy, s);
    var ss := Match(a, cc, fwd, x, Entry(a, cc, x, s));
    var more := RepNext(a, cc, fwd, x, min, max, greedy, s, ss);
    NextReaches(a, cc, fwd, x, min, max, greedy, s, ss, j);
    ReachesEither(more, [s], j);
    ReachesEither([s], more, j);
    assert s in [s];
  }

  lemma {:induction false} NextReaches(a: Regex, cc: nat, fwd: bool, x: Ctx, min: nat, max: nat, greedy: bool, s: St,
      ss: seq<St>, j: nat)
    requires ValidSt(x, s) && Onward(fwd, x, s, ss)
    ensures forall o :: o in ss ==> ValidSt(x, o)
    ensures Reaches(RepNext(a, cc, fwd, x, min, max, greedy, s, ss), j)
       <==> exists o :: o in ss && Reaches(Again(a, cc, fwd, x, min, max, greedy, s, o), j)
    decreases |ss|
  {
    hide Rep;
    hide RepNext;
    hide Again;
    hide Reaches;
    if ss == [] {
      NoNext(a, cc, fwd, x, min, max, greedy, s);
      NoneReached(j);
    } else {
      NextIs(a, cc, fwd, x, min, max, greedy, s, ss);
      NextReaches(a, cc, fwd, x, min, max, greedy, s, ss[1..], j);
      ReachesEither(Again(a, cc, fwd, x, min, max, greedy, s, ss[0]),
                    RepNext(a, cc, fwd, x, min, max, greedy, s, ss[1..]), j);
      assert forall o :: o in ss <==> o == ss[0] || o in ss[1..];
    }
  }

  function Less0(min: nat): nat { if min == 0 then 0 else min - 1 }

  lemma {:induction false} RepSound(a: Regex, cc: nat, fwd: bool, x: Ctx, min: nat, max: nat, greedy: bool, s: St,
      j: nat)
    requires WellFormed(a) && BackRefFree(a) && min <= max <= INT32_MAX && ValidSt(x, s)
    ensures Reaches(Rep(a, cc, fwd, x, min, max, greedy, s), j) ==>
              exists n: nat :: Allows(min, max, n) && Repeats(a, fwd, x, n, s.pos, j)
    decreases a, 3, min, Rem(fwd, x, s)
  {
    hide Match;
    hide Rep;
    hide Leads;
    hide Repeats;
    RepeatsNone(a, fwd, x, s.pos, j);
    if Reaches(Rep(a, cc, fwd, x, min, max, greedy, s), j) {
      if max == 0 {
        NoRep(a, cc, fwd, x, min, greedy, s);
        assert Allows(min, max, 0);
      } else {
        RepReaches(a, cc, fwd, x, min, max, greedy, s, j);
        if min == 0 && j == s.pos {
          assert Allows(min, max, 0);
        } else {
          EntryRem(a, cc, fwd, x, s);
          var e := Entry(a, cc, x, s);
          var ss := Match(a, cc, fwd, x, e);
          var o :| o in ss && Reaches(Again(a, cc, fwd, x, min, max, greedy, s, o), j);
          assert Reaches(ss, o.pos);
          MatchSpans(a, cc, fwd, x, e, o.pos);
          RepSound(a, cc, fwd, x, Less0(min), Less(max), greedy, o, j);
          var n: nat :| Allows(Less0(min), Less(max), n) && Repeats(a, fwd, x, n, o.pos, j);
          RepeatsMore(a, fwd, x, n, s.pos, o.pos, j);
          assert Allows(min, max, n + 1);
        }
      }
    }
  }

  lemma {:induction false} RepComplete(a: Regex, cc: nat, fwd: bool, x: Ctx, min: nat, max: nat, greedy: bool, s: St,
      j: nat, n: nat)
    requires WellFormed(a) && BackRefFree(a) && min <= max <= INT32_MAX && ValidSt(x, s)
    requires Allows(min, max, n) && Repeats(a, fwd, x, n, s.pos, j)
    ensures Reaches(Rep(a, cc, fwd, x, min, max, greedy, s), j)
    decreases a, 3, n, 0
  {
    hide Match;
    hide Rep;
    hide Leads;
    hide Repeats;
    RepeatsNone(a, fwd, x, s.pos, j);
    if max == 0 {
      NoRep(a, cc, fwd, x, min, greedy, s);
      assert s in [s];
    } else {
      RepReaches(a, cc, fwd, x, min, max, greedy, s, j);
      if n > 0 {
        var k := RepeatsFirst(a, fwd, x, n, s.pos, j);
        if min == 0 && k == s.pos {
          RepComplete(a, cc, fwd, x, min, max, greedy, s, j, n - 1);
        } else {
          EntryRem(a, cc, fwd, x, s);
          var e := Entry(a, cc, x, s);
          MatchSpans(a, cc, fwd, x, e, k);
          var o :| o in Match(a, cc, fwd, x, e) && o.pos == k;
          RepComplete(a, cc, fwd, x, Less0(min), Less(max), greedy, o, j, n - 1);
        }
      }
    }
  }
}
