/** Agreement with ECMA-262. The bytecode clears captures once before a loop where the
    standard clears them in every iteration (RepeatMatcher, section 22.2.2.3.1). As long as
    back-references only refer to what is settled either way, this is invisible: all results
    end at the same positions, in the same order, with the same settled captures. */
module RegexEcma {
  import opened RegexSyntax
  import opened RegexMatcher

  /** Slots of the capture array: those of group `n` are `2n` and `2n + 1`. */
  type Slots = set<nat>

  function Outside(g: Slots, lo: nat, hi: nat): Slots {
    set k | k in g && !(2 * lo <= k < 2 * hi)
  }

  /** The slots that a group sets when it opens and when it closes. */
  function Opening(cc: nat, fwd: bool): nat { 2 * cc + (if fwd then 0 else 1) }

  function Ending(cc: nat, fwd: bool): nat { 2 * cc + (if fwd then 1 else 0) }

  /** The slots that are settled behind `r` when those of `g` are before it: however captures
      are cleared, they are the same. */
  function Settled(r: Regex, cc: nat, fwd: bool, g: Slots): Slots {
    match r
    case Cat(a, b) =>
      if fwd then Settled(b, cc + NCaps(a), fwd, Settled(a, cc, fwd, g))
      else Settled(a, cc, fwd, Settled(b, cc + NCaps(a), fwd, g))
    case Alt(a, b) => Settled(a, cc, fwd, g) * Settled(b, cc + NCaps(a), fwd, g)
    case Capture(b) => Settled(b, cc + 1, fwd, g + {Opening(cc, fwd)}) + {Ending(cc, fwd)}
    case Look(ahead, neg, b) => if neg then g else Settled(b, cc, ahead, g)
    case Quant(a, min, max, _) =>
      if min == 0 || max == 0 then Outside(g, cc, cc + NCaps(a))
      else Settled(a, cc, fwd, Outside(g, cc, cc + NCaps(a)))
    case _ => g
  }

  /** Back-references refer to settled groups only. */
  predicate RefsSettled(r: Regex, cc: nat, fwd: bool, g: Slots) {
    match r
    case Cat(a, b) =>
      if fwd then RefsSettled(a, cc, fwd, g) && RefsSettled(b, cc + NCaps(a), fwd, Settled(a, cc, fwd, g))
      else RefsSettled(b, cc + NCaps(a), fwd, g) && RefsSettled(a, cc, fwd, Settled(b, cc + NCaps(a), fwd, g))
    case Alt(a, b) => RefsSettled(a, cc, fwd, g) && RefsSettled(b, cc + NCaps(a), fwd, g)
    case Capture(b) => RefsSettled(b, cc + 1, fwd, g + {Opening(cc, fwd)})
    case BackRef(n) => 2 * n in g && 2 * n + 1 in g
    case Look(ahead, _, b) => RefsSettled(b, cc, ahead, g)
    case Quant(a, _, _, _) => RefsSettled(a, cc, fwd, Outside(g, cc, cc + NCaps(a)))
    case _ => true
  }

  /** Without back-references nothing is asked for. */
  lemma {:induction false} NoRefsSettled(r: Regex, cc: nat, fwd: bool, g: Slots)
    requires BackRefFree(r)
    ensures RefsSettled(r, cc, fwd, g)
    decreases r
  {
    match r
    case Cat(a, b) =>
      NoRefsSettled(a, cc, fwd, if fwd then g else Settled(b, cc + NCaps(a), fwd, g));
      NoRefsSettled(b, cc + NCaps(a), fwd, if fwd then Settled(a, cc, fwd, g) else g);
    case Alt(a, b) =>
      NoRefsSettled(a, cc, fwd, g);
      NoRefsSettled(b, cc + NCaps(a), fwd, g);
    case Capture(b) => NoRefsSettled(b, cc + 1, fwd, g + {Opening(cc, fwd)});
    case Look(ahead, _, b) => NoRefsSettled(b, cc, ahead, g);
    case Quant(a, _, _, _) => NoRefsSettled(a, cc, fwd, Outside(g, cc, cc + NCaps(a)));
    case _ =>
  }

  lemma OutsideTwice(g: Slots, h: Slots, lo: nat, mid: nat, hi: nat)
    requires lo <= mid <= hi
    ensures Outside(g, lo, mid) <= h ==> Outside(g, lo, hi) <= Outside(h, mid, hi)
    ensures Outside(g, mid, hi) <= h ==> Outside(g, lo, hi) <= Outside(h, lo, mid)
  {
  }

  lemma OutsideMore(g: Slots, h: Slots, lo: nat, hi: nat, lo': nat, hi': nat)
    requires lo <= lo' && hi' <= hi && g <= h
    ensures Outside(g, lo, hi) <= Outside(h, lo', hi')
    ensures Outside(g, lo, hi) <= g
  {
  }

  /** Only the slots of a pattern's own groups can stop being settled. */
  lemma {:induction false} SettledKeeps(r: Regex, cc: nat, fwd: bool, g: Slots)
    ensures Outside(g, cc, cc + NCaps(r)) <= Settled(r, cc, fwd, g)
    decreases r
  {
    hide Outside;
    match r
    case Cat(a, b) =>
      var mid := cc + NCaps(a);
      var h := if fwd then Settled(a, cc, fwd, g) else Settled(b, mid, fwd, g);
      OutsideTwice(g, h, cc, mid, mid + NCaps(b));
      SettledKeeps(a, cc, fwd, if fwd then g else h);
      SettledKeeps(b, mid, fwd, if fwd then h else g);
    case Alt(a, b) =>
      var mid := cc + NCaps(a);
      SettledKeeps(a, cc, fwd, g);
      SettledKeeps(b, mid, fwd, g);
      OutsideMore(g, g, cc, mid + NCaps(b), cc, mid);
      OutsideMore(g, g, cc, mid + NCaps(b), mid, mid + NCaps(b));
    case Capture(b) =>
      var h := g + {Opening(cc, fwd)};
      SettledKeeps(b, cc + 1, fwd, h);
      OutsideMore(g, h, cc, cc + NCaps(r), cc + 1, cc + 1 + NCaps(b));
    case Look(ahead, neg, b) =>
      SettledKeeps(b, cc, ahead, g);
      OutsideMore(g, g, cc, cc + NCaps(b), cc, cc + NCaps(b));
    case Quant(a, min, max, _) =>
      SettledKeeps(a, cc, fwd, Outside(g, cc, cc + NCaps(a)));
      OutsideOnce(g, cc, cc + NCaps(a));
    case _ => OutsideMore(g, g, cc, cc + NCaps(r), cc, cc + NCaps(r));
  }

  lemma OutsideOnce(g: Slots, lo: nat, hi: nat)
    ensures Outside(Outside(g, lo, hi), lo, hi) == Outside(g, lo, hi)
  {
  }

  /** States that cannot be told apart by position and by the captures in `g`. */
  ghost predicate Same(g: Slots, s: St, t: St) {
    s.pos == t.pos && |s.caps| == |t.caps| && forall k :: k in g && k < |s.caps| ==> s.caps[k] == t.caps[k]
  }

  ghost predicate Alike(g: Slots, a: seq<St>, b: seq<St>) {
    |a| == |b| && forall i :: 0 <= i < |a| ==> Same(g, a[i], b[i])
  }

  lemma AlikeConcat(g: Slots, a: seq<St>, b: seq<St>, c: seq<St>, d: seq<St>)
    requires Alike(g, a, b) && Alike(g, c, d)
    ensures Alike(g, a + c, b + d)
  {
    hide Same;
  }

  lemma AlikeParts(g: Slots, a: seq<St>, b: seq<St>)
    requires Alike(g, a, b)
    ensures a == [] <==> b == []
    ensures a != [] ==> Same(g, a[0], b[0]) && Alike(g, a[1..], b[1..])
  {
    hide Same;
  }

  lemma AlikeFewer(g: Slots, h: Slots, a: seq<St>, b: seq<St>)
    requires Alike(g, a, b) && h <= g
    ensures Alike(h, a, b)
  {
    forall i | 0 <= i < |a| ensures Same(h, a[i], b[i]) { assert Same(g, a[i], b[i]); }
  }

  lemma SameFewer(g: Slots, h: Slots, s: St, t: St)
    requires Same(g, s, t) && h <= g
    ensures Same(h, s, t)
  {
  }

  lemma OneAlike(g: Slots, a: seq<St>, b: seq<St>)
    requires |a| == |b| <= 1 && (a != [] ==> Same(g, a[0], b[0]))
    ensures Alike(g, a, b)
  {
    hide Same;
  }

  /** Setting a slot to the position settles it. */
  lemma SetSame(g: Slots, s: St, t: St, k: nat)
    requires Same(g, s, t)
    ensures Same(g + {k}, SetCap(s, k, s.pos), SetCap(t, k, t.pos))
  {
  }

  /** Clearing groups on either side keeps what is settled outside of them. */
  lemma ResetSame(g: Slots, s: St, t: St, lo: nat, hi: nat)
    requires Same(g, s, t)
    ensures var h := Outside(g, lo, hi);
            Same(h, ResetCaps(s, lo, hi), t) && Same(h, s, ResetCaps(t, lo, hi))
            && Same(h, ResetCaps(s, lo, hi), ResetCaps(t, lo, hi)) && Same(h, s, t)
  {
  }

  ghost predicate SameSubject(x: Ctx, y: Ctx) {
    x.input == y.input && x.multiline == y.multiline && x.ncap == y.ncap
  }

  /** Two ways of clearing captures give the same results, as far as positions and settled
      captures go, when back-references refer to settled groups only. */
  lemma {:induction false} RunsAgree(r: Regex, cc: nat, fwd: bool, x: Ctx, y: Ctx, g: Slots, s: St, t: St)
    requires RefsSettled(r, cc, fwd, g) && SameSubject(x, y) && ValidSt(x, s) && ValidSt(y, t) && Same(g, s, t)
    ensures Alike(Settled(r, cc, fwd, g), Match(r, cc, fwd, x, s), Match(r, cc, fwd, y, t))
    decreases r, 1, 0, 0, 0, 0
  {
    hide Match;
    hide Alike;
    hide Same;
    match r
    case Cat(a, b) => CatAgree(a, b, cc, fwd, x, y, g, s, t);
    case Alt(a, b) =>
      RunsAgree(a, cc, fwd, x, y, g, s, t);
      RunsAgree(b, cc + NCaps(a), fwd, x, y, g, s, t);
      AltAgree(a, b, cc, fwd, x, y, g, s, t);
    case Capture(b) => CaptureAgree(b, cc, fwd, x, y, g, s, t);
    case Look(ahead, neg, b) =>
      RunsAgree(b, cc, ahead, x, y, g, s, t);
      LookAgree(b, ahead, neg, cc, fwd, x, y, g, s, t);
    case Quant(a, min, max, greedy) => QuantAgree(a, min, max, greedy, cc, fwd, x, y, g, s, t);
    case _ => LeafAgree(r, cc, fwd, x, y, g, s, t);
  }

  lemma CatIs(a: Regex, b: Regex, cc: nat, fwd: bool, x: Ctx, s: St)
    requires ValidSt(x, s)
    ensures Match(Cat(a, b), cc, fwd, x, s)
         == if fwd then MatchAll(b, cc + NCaps(a), fwd, x, Match(a, cc, fwd, x, s), Rem(fwd, x, s))
            else MatchAll(a, cc, fwd, x, Match(b, cc + NCaps(a), fwd, x, s), Rem(fwd, x, s))
  {
    hide Rep;
    hide MatchAll;
    hide CloseAll;
  }

  lemma AltIs(a: Regex, b: Regex, cc: nat, fwd: bool, x: Ctx, s: St)
    requires ValidSt(x, s)
    ensures Match(Alt(a, b), cc, fwd, x, s) == Match(a, cc, fwd, x, s) + Match(b, cc + NCaps(a), fwd, x, s)
  {
    hide Rep;
    hide MatchAll;
    hide CloseAll;
    hide OneChar;
    hide BackRefMatch;
  }

  lemma AltAgree(a: Regex, b: Regex, cc: nat, fwd: bool, x: Ctx, y: Ctx, g: Slots, s: St, t: St)
    requires ValidSt(x, s) && ValidSt(y, t)
    requires Alike(Settled(a, cc, fwd, g), Match(a, cc, fwd, x, s), Match(a, cc, fwd, y, t))
    requires Alike(Settled(b, cc + NCaps(a), fwd, g), Match(b, cc + NCaps(a), fwd, x, s),
                   Match(b, cc + NCaps(a), fwd, y, t))
    ensures Alike(Settled(Alt(a, b), cc, fwd, g), Match(Alt(a, b), cc, fwd, x, s), Match(Alt(a, b), cc, fwd, y, t))
  {
    hide Alike;
    hide Match;
    AltIs(a, b, cc, fwd, x, s);
    AltIs(a, b, cc, fwd, y, t);
    var h := Settled(Alt(a, b), cc, fwd, g);
    AlikeFewer(Settled(a, cc, fwd, g), h, Match(a, cc, fwd, x, s), Match(a, cc, fwd, y, t));
    AlikeFewer(Settled(b, cc + NCaps(a), fwd, g), h, Match(b, cc + NCaps(a), fwd, x, s),
               Match(b, cc + NCaps(a), fwd, y, t));
    AlikeConcat(h, Match(a, cc, fwd, x, s), Match(a, cc, fwd, y, t),
                Match(b, cc + NCaps(a), fwd, x, s), Match(b, cc + NCaps(a), fwd, y, t));
  }

  lemma LookIs(ahead: bool, neg: bool, b: Regex, cc: nat, fwd: bool, x: Ctx, s: St)
    requires ValidSt(x, s)
    ensures var out := Match(b, cc, ahead, x, s);
            Match(Look(ahead, neg, b), cc, fwd, x, s)
            == if neg then Test(out == [], s) else if out == [] then [] else [s.(caps := out[0].caps)]
  {
    hide Rep;
    hide MatchAll;
    hide CloseAll;
  }

  lemma CaptureIs(b: Regex, cc: nat, fwd: bool, x: Ctx, s: St)
    requires ValidSt(x, s)
    ensures var inside := SetCap(s, 2 * cc + (if fwd then 0 else 1), s.pos);
            && ValidSt(x, inside)
            && Match(Capture(b), cc, fwd, x, s)
               == CloseAll(cc, fwd, x, Match(b, cc + 1, fwd, x, inside), Rem(fwd, x, s))
  {
    hide Rep;
    hide MatchAll;
    hide CloseAll;
  }

  lemma {:induction false} CaptureAgree(b: Regex, cc: nat, fwd: bool, x: Ctx, y: Ctx, g: Slots, s: St, t: St)
    requires RefsSettled(Capture(b), cc, fwd, g) && SameSubject(x, y) && ValidSt(x, s) && ValidSt(y, t) && Same(g, s, t)
    ensures Alike(Settled(Capture(b), cc, fwd, g), Match(Capture(b), cc, fwd, x, s), Match(Capture(b), cc, fwd, y, t))
    decreases Capture(b), 0, 0, 0, 0, 0
  {
    hide Alike;
    hide Match;
    hide Same;
    hide CloseAll;
    CaptureIs(b, cc, fwd, x, s);
    CaptureIs(b, cc, fwd, y, t);
    var k := Opening(cc, fwd);
    var s', t', h := SetCap(s, k, s.pos), SetCap(t, k, t.pos), g + {k};
    SetSame(g, s, t, k);
    SamePos(g, s, t);
    RunsAgree(b, cc + 1, fwd, x, y, h, s', t');
    CloseAgree(cc, fwd, x, y, Settled(b, cc + 1, fwd, h), Match(b, cc + 1, fwd, x, s'), Match(b, cc + 1, fwd, y, t'),
               Rem(fwd, x, s));
  }

  lemma SamePos(g: Slots, s: St, t: St)
    requires Same(g, s, t)
    ensures s.pos == t.pos
  {
  }

  lemma LookAgree(b: Regex, ahead: bool, neg: bool, cc: nat, fwd: bool, x: Ctx, y: Ctx, g: Slots, s: St, t: St)
    requires ValidSt(x, s) && ValidSt(y, t) && Same(g, s, t)
    requires Alike(Settled(b, cc, ahead, g), Match(b, cc, ahead, x, s), Match(b, cc, ahead, y, t))
    ensures Alike(Settled(Look(ahead, neg, b), cc, fwd, g), Match(Look(ahead, neg, b), cc, fwd, x, s),
                  Match(Look(ahead, neg, b), cc, fwd, y, t))
  {
    hide Match;
    hide Alike;
    LookIs(ahead, neg, b, cc, fwd, x, s);
    LookIs(ahead, neg, b, cc, fwd, y, t);
    AlikeParts(Settled(b, cc, ahead, g), Match(b, cc, ahead, x, s), Match(b, cc, ahead, y, t));
    OneAlike(Settled(Look(ahead, neg, b), cc, fwd, g), Match(Look(ahead, neg, b), cc, fwd, x, s),
             Match(Look(ahead, neg, b), cc, fwd, y, t));
  }

  /** At most one result on either side. */
  ghost predicate AtMostOne(g: Slots, a: seq<St>, b: seq<St>) {
    |a| == |b| <= 1 && (a != [] ==> Same(g, a[0], b[0]))
  }

  lemma CharAgree(r: Regex, fwd: bool, x: Ctx, y: Ctx, g: Slots, s: St, t: St)
    requires SameSubject(x, y) && ValidSt(x, s) && ValidSt(y, t) && Same(g, s, t)
    ensures AtMostOne(g, OneChar(r, fwd, x, s), OneChar(r, fwd, y, t))
  {
    hide Accepts;
  }

  lemma BackRefAgree(n: nat, fwd: bool, x: Ctx, y: Ctx, g: Slots, s: St, t: St)
    requires 2 * n in g && 2 * n + 1 in g
    requires SameSubject(x, y) && ValidSt(x, s) && ValidSt(y, t) && Same(g, s, t)
    ensures AtMostOne(g, BackRefMatch(n, fwd, x, s), BackRefMatch(n, fwd, y, t))
  {
    hide SameText;
  }

  lemma LeafAgree(r: Regex, cc: nat, fwd: bool, x: Ctx, y: Ctx, g: Slots, s: St, t: St)
    requires !r.Cat? && !r.Alt? && !r.Capture? && !r.Look? && !r.Quant?
    requires RefsSettled(r, cc, fwd, g) && SameSubject(x, y) && ValidSt(x, s) && ValidSt(y, t) && Same(g, s, t)
    ensures Alike(Settled(r, cc, fwd, g), Match(r, cc, fwd, x, s), Match(r, cc, fwd, y, t))
  {
    hide Rep;
    hide MatchAll;
    hide CloseAll;
    hide Alike;
    hide OneChar;
    hide BackRefMatch;
    CharAgree(r, fwd, x, y, g, s, t);
    if r.BackRef? { BackRefAgree(r.group, fwd, x, y, g, s, t); }
    OneAlike(g, Match(r, cc, fwd, x, s), Match(r, cc, fwd, y, t));
  }

  /** The state in which a loop starts. */
  function QuantEntry(a: Regex, min: nat, cc: nat, x: Ctx, s: St): (e: St)
    ensures e.pos == s.pos && |e.caps| == |s.caps|
  {
    if min == 0 && !x.perIteration then ResetCaps(s, cc, cc + NCaps(a)) else s
  }

  lemma QuantIs(a: Regex, min: nat, max: nat, greedy: bool, cc: nat, fwd: bool, x: Ctx, s: St)
    requires ValidSt(x, s)
    ensures var e := QuantEntry(a, min, cc, x, s);
            ValidSt(x, e)
            && Match(Quant(a, min, max, greedy), cc, fwd, x, s) == Rep(a, cc, fwd, x, min, max, greedy, e)
  {
    hide Rep;
    hide MatchAll;
    hide CloseAll;
  }

  lemma {:induction false} QuantAgree(a: Regex, min: nat, max: nat, greedy: bool, cc: nat, fwd: bool, x: Ctx, y: Ctx,
      g: Slots, s: St, t: St)
    requires RefsSettled(a, cc, fwd, Outside(g, cc, cc + NCaps(a)))
    requires SameSubject(x, y) && ValidSt(x, s) && ValidSt(y, t) && Same(g, s, t)
    ensures Alike(Settled(Quant(a, min, max, greedy), cc, fwd, g), Match(Quant(a, min, max, greedy), cc, fwd, x, s),
                  Match(Quant(a, min, max, greedy), cc, fwd, y, t))
    decreases Quant(a, min, max, greedy), 0, 0, 0, 0, 0
  {
    hide Alike;
    hide Match;
    hide Rep;
    hide Same;
    hide ResetCaps;
    var h := Outside(g, cc, cc + NCaps(a));
    ResetSame(g, s, t, cc, cc + NCaps(a));
    SettledOutside(a, cc, fwd, g);
    assert h * Settled(a, cc, fwd, h) == h;
    QuantIs(a, min, max, greedy, cc, fwd, x, s);
    QuantIs(a, min, max, greedy, cc, fwd, y, t);
    RepAgree(a, cc, fwd, x, y, g, h, min, max, greedy, QuantEntry(a, min, cc, x, s), QuantEntry(a, min, cc, y, t));
  }

  lemma CatParts(a: Regex, b: Regex, cc: nat, fwd: bool, g: Slots)
    requires RefsSettled(Cat(a, b), cc, fwd, g)
    ensures var mid := cc + NCaps(a);
            if fwd then
              RefsSettled(a, cc, fwd, g) && RefsSettled(b, mid, fwd, Settled(a, cc, fwd, g))
              && Settled(Cat(a, b), cc, fwd, g) == Settled(b, mid, fwd, Settled(a, cc, fwd, g))
            else
              RefsSettled(b, mid, fwd, g) && RefsSettled(a, cc, fwd, Settled(b, mid, fwd, g))
              && Settled(Cat(a, b), cc, fwd, g) == Settled(a, cc, fwd, Settled(b, mid, fwd, g))
  {
  }

  lemma {:induction false} CatAgree(a: Regex, b: Regex, cc: nat, fwd: bool, x: Ctx, y: Ctx, g: Slots, s: St, t: St)
    requires RefsSettled(Cat(a, b), cc, fwd, g)
    requires SameSubject(x, y) && ValidSt(x, s) && ValidSt(y, t) && Same(g, s, t)
    ensures Alike(Settled(Cat(a, b), cc, fwd, g), Match(Cat(a, b), cc, fwd, x, s), Match(Cat(a, b), cc, fwd, y, t))
    decreases Cat(a, b), 0, 0, 0, 0, 0
  {
    hide Match;
    hide MatchAll;
    hide Alike;
    hide Settled;
    hide RefsSettled;
    SamePos(g, s, t);
    hide Same;
    CatParts(a, b, cc, fwd, g);
    CatIs(a, b, cc, fwd, x, s);
    CatIs(a, b, cc, fwd, y, t);
    var mid := cc + NCaps(a);
    if fwd {
      RunsAgree(a, cc, fwd, x, y, g, s, t);
      MatchAllAgree(b, mid, fwd, x, y, Settled(a, cc, fwd, g), Match(a, cc, fwd, x, s), Match(a, cc, fwd, y, t),
                    Rem(fwd, x, s));
    } else {
      RunsAgree(b, mid, fwd, x, y, g, s, t);
      MatchAllAgree(a, cc, fwd, x, y, Settled(b, mid, fwd, g), Match(b, mid, fwd, x, s), Match(b, mid, fwd, y, t),
                    Rem(fwd, x, s));
    }
  }

  ghost predicate Bounded(fwd: bool, x: Ctx, ss: seq<St>, bound: nat) {
    AllValid(x, ss) && forall o :: o in ss ==> Rem(fwd, x, o) <= bound
  }

  lemma {:induction false} MatchAllAgree(r: Regex, cc: nat, fwd: bool, x: Ctx, y: Ctx, g: Slots, ss: seq<St>,
      ts: seq<St>, bound: nat)
    requires RefsSettled(r, cc, fwd, g) && SameSubject(x, y) && Alike(g, ss, ts)
    requires Bounded(fwd, x, ss, bound) && Bounded(fwd, y, ts, bound)
    ensures Alike(Settled(r, cc, fwd, g), MatchAll(r, cc, fwd, x, ss, bound), MatchAll(r, cc, fwd, y, ts, bound))
    decreases r, 2, 0, 0, 0, |ss|
  {
    hide Alike;
    hide Match;
    hide Same;
    hide Settled;
    hide RefsSettled;
    AlikeParts(g, ss, ts);
    var h := Settled(r, cc, fwd, g);
    if ss != [] {
      assert ss[0] in ss && ts[0] in ts;
      RunsAgree(r, cc, fwd, x, y, g, ss[0], ts[0]);
      MatchAllAgree(r, cc, fwd, x, y, g, ss[1..], ts[1..], bound);
      AlikeConcat(h, Match(r, cc, fwd, x, ss[0]), Match(r, cc, fwd, y, ts[0]),
                  MatchAll(r, cc, fwd, x, ss[1..], bound), MatchAll(r, cc, fwd, y, ts[1..], bound));
    } else {
      OneAlike(h, [], []);
    }
  }

  lemma {:induction false} CloseAgree(cc: nat, fwd: bool, x: Ctx, y: Ctx, g: Slots, ss: seq<St>, ts: seq<St>,
      bound: nat)
    requires SameSubject(x, y) && Alike(g, ss, ts) && Bounded(fwd, x, ss, bound) && Bounded(fwd, y, ts, bound)
    ensures Alike(g + {Ending(cc, fwd)}, CloseAll(cc, fwd, x, ss, bound), CloseAll(cc, fwd, y, ts, bound))
    decreases |ss|
  {
    hide Alike;
    hide Same;
    hide SetCap;
    AlikeParts(g, ss, ts);
    var k := Ending(cc, fwd);
    if ss != [] {
      assert ss[0] in ss && ts[0] in ts;
      SetSame(g, ss[0], ts[0], k);
      var u, v := [SetCap(ss[0], k, ss[0].pos)], [SetCap(ts[0], k, ts[0].pos)];
      OneAlike(g + {k}, u, v);
      CloseAgree(cc, fwd, x, y, g, ss[1..], ts[1..], bound);
      AlikeConcat(g + {k}, u, v, CloseAll(cc, fwd, x, ss[1..], bound), CloseAll(cc, fwd, y, ts[1..], bound));
    } else {
      OneAlike(g + {k}, [], []);
    }
  }

  /** What is settled when a loop is left: after an iteration, what the atom settles; without
      one, no more than before. */
  function LoopSettled(a: Regex, cc: nat, fwd: bool, g: Slots, h: Slots, min: nat, max: nat): Slots {
    if min == 0 || max == 0 then h * Settled(a, cc, fwd, Outside(g, cc, cc + NCaps(a)))
    else Settled(a, cc, fwd, Outside(g, cc, cc + NCaps(a)))
  }

  /** The state in which an iteration starts. */
  function Entry(a: Regex, cc: nat, x: Ctx, s: St): (e: St)
    ensures e.pos == s.pos && |e.caps| == |s.caps|
  {
    if x.perIteration then ResetCaps(s, cc, cc + NCaps(a)) else s
  }

  /** Before each iteration at least `h` is settled. */
  lemma {:induction false} RepAgree(a: Regex, cc: nat, fwd: bool, x: Ctx, y: Ctx, g: Slots, h: Slots, min: nat,
      max: nat, greedy: bool, s: St, t: St)
    requires RefsSettled(a, cc, fwd, Outside(g, cc, cc + NCaps(a))) && Outside(g, cc, cc + NCaps(a)) <= h
    requires SameSubject(x, y) && ValidSt(x, s) && ValidSt(y, t) && Same(h, s, t)
    ensures Alike(LoopSettled(a, cc, fwd, g, h, min, max), Rep(a, cc, fwd, x, min, max, greedy, s),
                  Rep(a, cc, fwd, y, min, max, greedy, t))
    decreases a, 3, min, Rem(fwd, x, s), 1, 0
  {
    hide Match;
    hide Rep;
    hide RepNext;
    hide WithExit;
    hide Entry;
    hide Same;
    hide Alike;
    hide RefsSettled;
    hide Settled;
    hide Outside;
    var g0, k := Outside(g, cc, cc + NCaps(a)), LoopSettled(a, cc, fwd, g, h, min, max);
    SameFewer(h, h * Settled(a, cc, fwd, g0), s, t);
    if min == 0 || max == 0 { OneAlike(k, [s], [t]); }
    if max == 0 {
      NoRep(a, cc, fwd, x, min, greedy, s);
      NoRep(a, cc, fwd, y, min, greedy, t);
    } else {
      var s', t' := Entry(a, cc, x, s), Entry(a, cc, y, t);
      var ss, ts := Match(a, cc, fwd, x, s'), Match(a, cc, fwd, y, t');
      EntrySame(a, cc, x, y, g, h, s, t);
      EntryRem(a, cc, fwd, x, s);
      RunsAgree(a, cc, fwd, x, y, g0, s', t');
      SamePos(h, s, t);
      NextAgree(a, cc, fwd, x, y, g, min, max, greedy, s, t, ss, ts);
      RepIs(a, cc, fwd, x, min, max, greedy, s);
      RepIs(a, cc, fwd, y, min, max, greedy, t);
      var m, n := RepNext(a, cc, fwd, x, min, max, greedy, s, ss), RepNext(a, cc, fwd, y, min, max, greedy, t, ts);
      AlikeFewer(Settled(a, cc, fwd, g0), k, m, n);
      ExitAlike(k, min, greedy, s, t, m, n);
    }
  }

  /** The exit of a loop among further iterations. */
  function WithExit(min: nat, greedy: bool, s: St, more: seq<St>): seq<St> {
    if min > 0 then more else if greedy then more + [s] else [s] + more
  }

  lemma ExitAlike(g: Slots, min: nat, greedy: bool, s: St, t: St, m: seq<St>, n: seq<St>)
    requires Alike(g, m, n) && (min == 0 ==> Alike(g, [s], [t]))
    ensures Alike(g, WithExit(min, greedy, s, m), WithExit(min, greedy, t, n))
  {
    hide Alike;
    if min == 0 {
      AlikeConcat(g, m, n, [s], [t]);
      AlikeConcat(g, [s], [t], m, n);
    }
  }

  lemma NoRep(a: Regex, cc: nat, fwd: bool, x: Ctx, min: nat, greedy: bool, s: St)
    requires ValidSt(x, s)
    ensures Rep(a, cc, fwd, x, min, 0, greedy, s) == [s]
  {
  }

  lemma EntryRem(a: Regex, cc: nat, fwd: bool, x: Ctx, s: St)
    requires ValidSt(x, s)
    ensures ValidSt(x, Entry(a, cc, x, s)) && Rem(fwd, x, Entry(a, cc, x, s)) == Rem(fwd, x, s)
  {
  }

  lemma RepIs(a: Regex, cc: nat, fwd: bool, x: Ctx, min: nat, max: nat, greedy: bool, s: St)
    requires ValidSt(x, s) && max != 0
    ensures var ss := Match(a, cc, fwd, x, Entry(a, cc, x, s));
            Onward(fwd, x, s, ss)
            && Rep(a, cc, fwd, x, min, max, greedy, s)
               == WithExit(min, greedy, s, RepNext(a, cc, fwd, x, min, max, greedy, s, ss))
  {
    hide Match;
    hide RepNext;
    EntryRem(a, cc, fwd, x, s);
  }

  lemma EntrySame(a: Regex, cc: nat, x: Ctx, y: Ctx, g: Slots, h: Slots, s: St, t: St)
    requires Same(h, s, t) && Outside(g, cc, cc + NCaps(a)) <= h
    ensures Same(Outside(g, cc, cc + NCaps(a)), Entry(a, cc, x, s), Entry(a, cc, y, t))
  {
    hide ResetCaps;
    hide Same;
    var lo, hi := cc, cc + NCaps(a);
    ResetSame(h, s, t, lo, hi);
    SameFewer(Outside(h, lo, hi), Outside(g, lo, hi), Entry(a, cc, x, s), Entry(a, cc, y, t));
  }

  lemma {:induction false} NextAgree(a: Regex, cc: nat, fwd: bool, x: Ctx, y: Ctx, g: Slots, min: nat, max: nat,
      greedy: bool, s: St, t: St, ss: seq<St>, ts: seq<St>)
    requires RefsSettled(a, cc, fwd, Outside(g, cc, cc + NCaps(a))) && max != 0
    requires SameSubject(x, y) && ValidSt(x, s) && ValidSt(y, t) && s.pos == t.pos
    requires Onward(fwd, x, s, ss) && Onward(fwd, y, t, ts)
    requires Alike(Settled(a, cc, fwd, Outside(g, cc, cc + NCaps(a))), ss, ts)
    ensures Alike(Settled(a, cc, fwd, Outside(g, cc, cc + NCaps(a))),
                  RepNext(a, cc, fwd, x, min, max, greedy, s, ss), RepNext(a, cc, fwd, y, min, max, greedy, t, ts))
    decreases a, 3, min, Rem(fwd, x, s), 0, |ss|
  {
    hide Same;
    hide Alike;
    hide RefsSettled;
    hide Settled;
    hide Outside;
    hide Match;
    hide Rep;
    hide RepNext;
    var g0 := Outside(g, cc, cc + NCaps(a));
    var h := Settled(a, cc, fwd, g0);
    AlikeParts(h, ss, ts);
    if ss == [] {
      NoNext(a, cc, fwd, x, min, max, greedy, s);
      NoNext(a, cc, fwd, y, min, max, greedy, t);
      OneAlike(h, [], []);
    } else {
      NextIs(a, cc, fwd, x, min, max, greedy, s, ss);
      NextIs(a, cc, fwd, y, min, max, greedy, t, ts);
      SamePos(h, ss[0], ts[0]);
      var u, v := Again(a, cc, fwd, x, min, max, greedy, s, ss[0]), Again(a, cc, fwd, y, min, max, greedy, t, ts[0]);
      if min == 0 && ss[0].pos == s.pos {
        OneAlike(h, u, v);
      } else {
        SettledOutside(a, cc, fwd, g);
        RepAgree(a, cc, fwd, x, y, g, h, if min == 0 then 0 else min - 1, Less(max), greedy, ss[0], ts[0]);
        assert h * h == h;
      }
      NextAgree(a, cc, fwd, x, y, g, min, max, greedy, s, t, ss[1..], ts[1..]);
      AlikeConcat(h, u, v, RepNext(a, cc, fwd, x, min, max, greedy, s, ss[1..]),
        RepNext(a, cc, fwd, y, min, max, greedy, t, ts[1..]));
    }
  }

  /** What follows one result of the atom. */
  function Again(a: Regex, cc: nat, fwd: bool, x: Ctx, min: nat, max: nat, greedy: bool, s: St, o: St): seq<St>
    requires ValidSt(x, s) && ValidSt(x, o)
  {
    if min == 0 && o.pos == s.pos then []
    else Rep(a, cc, fwd, x, if min == 0 then 0 else min - 1, Less(max), greedy, o)
  }

  lemma NextIs(a: Regex, cc: nat, fwd: bool, x: Ctx, min: nat, max: nat, greedy: bool, s: St, ss: seq<St>)
    requires ValidSt(x, s) && Onward(fwd, x, s, ss) && ss != []
    ensures ss[0] in ss && ValidSt(x, ss[0]) && Rem(fwd, x, ss[0]) <= Rem(fwd, x, s)
    ensures (min == 0 && ss[0].pos != s.pos ==> Rem(fwd, x, ss[0]) < Rem(fwd, x, s)) && Onward(fwd, x, s, ss[1..])
    ensures RepNext(a, cc, fwd, x, min, max, greedy, s, ss)
         == Again(a, cc, fwd, x, min, max, greedy, s, ss[0]) + RepNext(a, cc, fwd, x, min, max, greedy, s, ss[1..])
  {
    hide Rep;
  }

  lemma NoNext(a: Regex, cc: nat, fwd: bool, x: Ctx, min: nat, max: nat, greedy: bool, s: St)
    requires ValidSt(x, s)
    ensures RepNext(a, cc, fwd, x, min, max, greedy, s, []) == []
  {
  }

  lemma SettledOutside(a: Regex, cc: nat, fwd: bool, g: Slots)
    ensures Outside(g, cc, cc + NCaps(a)) <= Settled(a, cc, fwd, Outside(g, cc, cc + NCaps(a)))
  {
    SettledKeeps(a, cc, fwd, Outside(g, cc, cc + NCaps(a)));
    OutsideOnce(g, cc, cc + NCaps(a));
  }

  // ----- groups -----

  /** The two states agree on every group outside `lo .. hi-1`. */
  ghost predicate SameOutside(s: St, t: St, lo: nat, hi: nat) {
    |s.caps| == |t.caps| && forall k :: 0 <= k < |s.caps| && !(2 * lo <= k < 2 * hi) ==> s.caps[k] == t.caps[k]
  }

  ghost predicate AllSameOutside(s: St, out: seq<St>, lo: nat, hi: nat) {
    forall o :: o in out ==> SameOutside(s, o, lo, hi)
  }

  lemma AllSameWiden(s: St, t: St, out: seq<St>, lo: nat, hi: nat, lo': nat, hi': nat)
    requires SameOutside(s, t, lo', hi') && AllSameOutside(t, out, lo, hi) && lo' <= lo && hi <= hi'
    ensures AllSameOutside(s, out, lo', hi')
  {
    forall o | o in out ensures SameOutside(s, o, lo', hi') { assert SameOutside(t, o, lo, hi); }
  }

  lemma AllSameConcat(s: St, a: seq<St>, b: seq<St>, lo: nat, hi: nat)
    requires AllSameOutside(s, a, lo, hi) && AllSameOutside(s, b, lo, hi)
    ensures AllSameOutside(s, a + b, lo, hi)
  {
  }

  /** A pattern writes no group but its own. */
  lemma {:induction false} OwnGroupsOnly(r: Regex, cc: nat, fwd: bool, x: Ctx, s: St)
    requires ValidSt(x, s)
    ensures AllSameOutside(s, Match(r, cc, fwd, x, s), cc, cc + NCaps(r))
    decreases r, 1, 0, 0, 0, 0
  {
    hide Match;
    hide AllSameOutside;
    match r
    case Cat(a, b) => CatOwn(a, b, cc, fwd, x, s);
    case Alt(a, b) => AltOwn(a, b, cc, fwd, x, s);
    case Capture(b) => CaptureOwn(b, cc, fwd, x, s);
    case Look(ahead, neg, b) => LookOwn(ahead, neg, b, cc, fwd, x, s);
    case Quant(a, min, max, greedy) => QuantOwn(a, min, max, greedy, cc, fwd, x, s);
    case _ => LeafOwn(r, cc, fwd, x, s);
  }

  lemma {:induction false} QuantOwn(a: Regex, min: nat, max: nat, greedy: bool, cc: nat, fwd: bool, x: Ctx, s: St)
    requires ValidSt(x, s)
    ensures AllSameOutside(s, Match(Quant(a, min, max, greedy), cc, fwd, x, s), cc,
                           cc + NCaps(Quant(a, min, max, greedy)))
    decreases Quant(a, min, max, greedy), 0, 0, 0, 0, 0
  {
    hide Rep;
    hide Match;
    QuantIs(a, min, max, greedy, cc, fwd, x, s);
    RepOwn(a, cc, fwd, x, min, max, greedy, s, QuantEntry(a, min, cc, x, s));
  }

  lemma LeafOwn(r: Regex, cc: nat, fwd: bool, x: Ctx, s: St)
    requires ValidSt(x, s) && !r.Cat? && !r.Alt? && !r.Capture? && !r.Look? && !r.Quant?
    ensures AllSameOutside(s, Match(r, cc, fwd, x, s), cc, cc + NCaps(r))
  {
    hide Rep;
    hide MatchAll;
    hide CloseAll;
  }

  lemma {:induction false} CatOwn(a: Regex, b: Regex, cc: nat, fwd: bool, x: Ctx, s: St)
    requires ValidSt(x, s)
    ensures AllSameOutside(s, Match(Cat(a, b), cc, fwd, x, s), cc, cc + NCaps(Cat(a, b)))
    decreases Cat(a, b), 0, 0, 0, 0, 0
  {
    hide Match;
    hide MatchAll;
    hide AllSameOutside;
    CatIs(a, b, cc, fwd, x, s);
    var hi := cc + NCaps(Cat(a, b));
    if fwd {
      OwnGroupsOnly(a, cc, fwd, x, s);
      AllSameWiden(s, s, Match(a, cc, fwd, x, s), cc, cc + NCaps(a), cc, hi);
      MatchAllOwn(b, cc + NCaps(a), fwd, x, s, Match(a, cc, fwd, x, s), Rem(fwd, x, s), cc, hi);
    } else {
      OwnGroupsOnly(b, cc + NCaps(a), fwd, x, s);
      AllSameWiden(s, s, Match(b, cc + NCaps(a), fwd, x, s), cc + NCaps(a), hi, cc, hi);
      MatchAllOwn(a, cc, fwd, x, s, Match(b, cc + NCaps(a), fwd, x, s), Rem(fwd, x, s), cc, hi);
    }
  }

  lemma {:induction false} MatchAllOwn(r: Regex, cc: nat, fwd: bool, x: Ctx, s: St, ss: seq<St>, bound: nat, lo: nat,
      hi: nat)
    requires Bounded(fwd, x, ss, bound) && AllSameOutside(s, ss, lo, hi) && lo <= cc && cc + NCaps(r) <= hi
    ensures AllSameOutside(s, MatchAll(r, cc, fwd, x, ss, bound), lo, hi)
    decreases r, 2, 0, 0, 0, |ss|
  {
    hide Match;
    hide SameOutside;
    if ss != [] {
      assert ss[0] in ss;
      OwnGroupsOnly(r, cc, fwd, x, ss[0]);
      AllSameWiden(s, ss[0], Match(r, cc, fwd, x, ss[0]), cc, cc + NCaps(r), lo, hi);
      MatchAllOwn(r, cc, fwd, x, s, ss[1..], bound, lo, hi);
      AllSameConcat(s, Match(r, cc, fwd, x, ss[0]), MatchAll(r, cc, fwd, x, ss[1..], bound), lo, hi);
    }
  }

  lemma {:induction false} AltOwn(a: Regex, b: Regex, cc: nat, fwd: bool, x: Ctx, s: St)
    requires ValidSt(x, s)
    ensures AllSameOutside(s, Match(Alt(a, b), cc, fwd, x, s), cc, cc + NCaps(Alt(a, b)))
    decreases Alt(a, b), 0, 0, 0, 0, 0
  {
    hide Match;
    hide AllSameOutside;
    AltIs(a, b, cc, fwd, x, s);
    OwnGroupsOnly(a, cc, fwd, x, s);
    OwnGroupsOnly(b, cc + NCaps(a), fwd, x, s);
    var ma, mb, end := Match(a, cc, fwd, x, s), Match(b, cc + NCaps(a), fwd, x, s), cc + NCaps(a) + NCaps(b);
    AllSameWiden(s, s, ma, cc, cc + NCaps(a), cc, end);
    AllSameWiden(s, s, mb, cc + NCaps(a), end, cc, end);
    AllSameConcat(s, ma, mb, cc, end);
  }

  lemma {:induction false} LookOwn(ahead: bool, neg: bool, b: Regex, cc: nat, fwd: bool, x: Ctx, s: St)
    requires ValidSt(x, s)
    ensures AllSameOutside(s, Match(Look(ahead, neg, b), cc, fwd, x, s), cc, cc + NCaps(Look(ahead, neg, b)))
    decreases Look(ahead, neg, b), 0, 0, 0, 0, 0
  {
    hide Match;
    LookIs(ahead, neg, b, cc, fwd, x, s);
    OwnGroupsOnly(b, cc, ahead, x, s);
    var out := Match(b, cc, ahead, x, s);
    if out != [] { assert out[0] in out; }
  }

  lemma {:induction false} CaptureOwn(b: Regex, cc: nat, fwd: bool, x: Ctx, s: St)
    requires ValidSt(x, s)
    ensures AllSameOutside(s, Match(Capture(b), cc, fwd, x, s), cc, cc + NCaps(Capture(b)))
    decreases Capture(b), 0, 0, 0, 0, 0
  {
    hide Match;
    hide CloseAll;
    CaptureIs(b, cc, fwd, x, s);
    var inside := SetCap(s, 2 * cc + (if fwd then 0 else 1), s.pos);
    var ss := Match(b, cc + 1, fwd, x, inside);
    OwnGroupsOnly(b, cc + 1, fwd, x, inside);
    AllSameWiden(s, inside, ss, cc + 1, cc + 1 + NCaps(b), cc, cc + 1 + NCaps(b));
    CloseOwn(cc, fwd, x, s, ss, Rem(fwd, x, s), cc + 1 + NCaps(b));
  }

  lemma {:induction false} CloseOwn(cc: nat, fwd: bool, x: Ctx, s: St, ss: seq<St>, bound: nat, hi: nat)
    requires Bounded(fwd, x, ss, bound) && AllSameOutside(s, ss, cc, hi) && cc < hi
    ensures AllSameOutside(s, CloseAll(cc, fwd, x, ss, bound), cc, hi)
    decreases |ss|
  {
    if ss != [] {
      assert ss[0] in ss;
      CloseOwn(cc, fwd, x, s, ss[1..], bound, hi);
    }
  }

  lemma {:induction false} RepOwn(a: Regex, cc: nat, fwd: bool, x: Ctx, min: nat, max: nat, greedy: bool, s0: St, s: St)
    requires ValidSt(x, s) && SameOutside(s0, s, cc, cc + NCaps(a))
    ensures AllSameOutside(s0, Rep(a, cc, fwd, x, min, max, greedy, s), cc, cc + NCaps(a))
    decreases a, 3, min, Rem(fwd, x, s), 1, 0
  {
    hide Match;
    hide RepNext;
    if max != 0 {
      var e := Entry(a, cc, x, s);
      OwnGroupsOnly(a, cc, fwd, x, e);
      AllSameWiden(s0, e, Match(a, cc, fwd, x, e), cc, cc + NCaps(a), cc, cc + NCaps(a));
      NextOwn(a, cc, fwd, x, min, max, greedy, s0, s, Match(a, cc, fwd, x, e));
    }
  }

  lemma {:induction false} NextOwn(a: Regex, cc: nat, fwd: bool, x: Ctx, min: nat, max: nat, greedy: bool,
                                   s0: St, s: St, ss: seq<St>)
    requires ValidSt(x, s) && Onward(fwd, x, s, ss) && AllSameOutside(s0, ss, cc, cc + NCaps(a))
    ensures AllSameOutside(s0, RepNext(a, cc, fwd, x, min, max, greedy, s, ss), cc, cc + NCaps(a))
    decreases a, 3, min, Rem(fwd, x, s), 0, |ss|
  {
    hide Rep;
    hide RepNext;
    hide Match;
    hide SameOutside;
    if ss == [] {
      NoNext(a, cc, fwd, x, min, max, greedy, s);
    } else {
      NextIs(a, cc, fwd, x, min, max, greedy, s, ss);
      if !(min == 0 && ss[0].pos == s.pos) {
        RepOwn(a, cc, fwd, x, if min == 0 then 0 else min - 1, Less(max), greedy, s0, ss[0]);
      }
      NextOwn(a, cc, fwd, x, min, max, greedy, s0, s, ss[1..]);
      AllSameConcat(s0, Again(a, cc, fwd, x, min, max, greedy, s, ss[0]),
                    RepNext(a, cc, fwd, x, min, max, greedy, s, ss[1..]), cc, cc + NCaps(a));
    }
  }
}
