/** Laws of the matcher: each kind of pattern by means of others, and what the search finds by
    means of spans. */
module RegexLaws {
  import opened Common
  import opened RegexSyntax
  import opened RegexMatcher
  import opened RegexYields
  import opened RegexLoops
  import opened RegexCorrect
  import opened RegexEcma
  import opened RegexSpans

  /** `[0-9A-Z_a-z]` */
  const WORD_CLASS: Regex := Class([48, 58, 65, 91, 95, 96, 97, 123])

  /** `[\n\r\u2028\u2029]` */
  const TERMINATOR_CLASS: Regex := Class([10, 11, 13, 14, 0x2028, 0x202A])

  // ----- assertions by look-arounds -----

  lemma InWordClass(c: nat)
    ensures Accepts(WORD_CLASS, c) <==> IsWordChar(c)
  {
    var p := WORD_CLASS.points;
    if IsWordChar(c) {
      var k := if c <= 57 then 0 else if c <= 90 then 1 else if c == 95 then 2 else 3;
      assert 0 <= k < |p| / 2 && p[2 * k] <= c < p[2 * k + 1];
    }
  }

  lemma InTerminatorClass(c: nat)
    ensures Accepts(TERMINATOR_CLASS, c) <==> IsLineTerminator(c)
  {
    var p := TERMINATOR_CLASS.points;
    if IsLineTerminator(c) {
      var k := if c == 10 then 0 else if c == 13 then 1 else 2;
      assert 0 <= k < |p| / 2 && p[2 * k] <= c < p[2 * k + 1];
    }
  }

  /** Whether there is a character of the class behind the position, or ahead of it. */
  predicate Beside(ahead: bool, r: Regex, cc: nat, fwd: bool, x: Ctx, s: St)
    requires ValidSt(x, s)
  {
    Match(Look(ahead, false, r), cc, fwd, x, s) != []
  }

  lemma BesideChar(ahead: bool, r: Regex, cc: nat, fwd: bool, x: Ctx, s: St)
    requires ValidSt(x, s) && (r.Class? || r.Dot?)
    ensures Beside(ahead, r, cc, fwd, x, s)
       <==> if ahead then s.pos < |x.input| && Accepts(r, x.input[s.pos])
            else s.pos > 0 && Accepts(r, x.input[s.pos - 1])
  {
    hide Accepts;
    RegexEcma.LookIs(ahead, false, r, cc, fwd, x, s);
  }

  /** `\b` holds where exactly one of the characters around is a word character, `\B` elsewhere. */
  lemma WordBoundaryLooks(neg: bool, cc: nat, fwd: bool, x: Ctx, s: St)
    requires ValidSt(x, s)
    ensures var behind, ahead := Beside(false, WORD_CLASS, cc, fwd, x, s), Beside(true, WORD_CLASS, cc, fwd, x, s);
            Match(WordBoundary(neg), cc, fwd, x, s) == if neg <==> (behind <==> ahead) then [s] else []
  {
    hide Accepts;
    hide IsWordChar;
    hide Beside;
    BesideChar(false, WORD_CLASS, cc, fwd, x, s);
    BesideChar(true, WORD_CLASS, cc, fwd, x, s);
    if s.pos > 0 { InWordClass(x.input[s.pos - 1]); }
    if s.pos < |x.input| { InWordClass(x.input[s.pos]); }
  }

  /** `^` holds where there is no character before, in multiline mode also after a terminator. */
  lemma LineStartLooks(cc: nat, fwd: bool, x: Ctx, s: St)
    requires ValidSt(x, s)
    ensures Match(LineStart, cc, fwd, x, s)
         == if !Beside(false, Dot(true), cc, fwd, x, s)
               || (x.multiline && Beside(false, TERMINATOR_CLASS, cc, fwd, x, s)) then [s] else []
  {
    hide IsLineTerminator;
    hide Beside;
    BesideChar(false, Dot(true), cc, fwd, x, s);
    BesideChar(false, TERMINATOR_CLASS, cc, fwd, x, s);
    if s.pos > 0 { InTerminatorClass(x.input[s.pos - 1]); }
  }

  lemma LineEndLooks(cc: nat, fwd: bool, x: Ctx, s: St)
    requires ValidSt(x, s)
    ensures Match(LineEnd, cc, fwd, x, s)
         == if !Beside(true, Dot(true), cc, fwd, x, s)
               || (x.multiline && Beside(true, TERMINATOR_CLASS, cc, fwd, x, s)) then [s] else []
  {
    hide IsLineTerminator;
    hide Beside;
    BesideChar(true, Dot(true), cc, fwd, x, s);
    BesideChar(true, TERMINATOR_CLASS, cc, fwd, x, s);
    if s.pos < |x.input| { InTerminatorClass(x.input[s.pos]); }
  }

  /** `.` is any character but a terminator, unless it matches all. */
  lemma DotLooks(cc: nat, fwd: bool, x: Ctx, s: St)
    requires ValidSt(x, s)
    ensures Match(Dot(false), cc, fwd, x, s)
         == if Beside(fwd, TERMINATOR_CLASS, cc, fwd, x, s) then [] else Match(Dot(true), cc, fwd, x, s)
  {
    hide IsLineTerminator;
    hide Beside;
    BesideChar(fwd, TERMINATOR_CLASS, cc, fwd, x, s);
    if s.pos > 0 { InTerminatorClass(x.input[s.pos - 1]); }
    if s.pos < |x.input| { InTerminatorClass(x.input[s.pos]); }
  }

  // ----- groups -----

  /** A group is recorded from the lesser to the greater end of what it matched, in either
      direction. */
  lemma CaptureEnds(b: Regex, cc: nat, fwd: bool, x: Ctx, s: St)
    requires ValidSt(x, s) && cc < x.ncap
    ensures forall o :: o in Match(Capture(b), cc, fwd, x, s) ==>
              |o.caps| == 2 * x.ncap
              && o.caps[2 * cc] == (if fwd then s.pos else o.pos)
              && o.caps[2 * cc + 1] == (if fwd then o.pos else s.pos)
  {
    hide Match;
    hide CloseAll;
    CaptureIs(b, cc, fwd, x, s);
    var inside := SetCap(s, 2 * cc + (if fwd then 0 else 1), s.pos);
    var ss := Match(b, cc + 1, fwd, x, inside);
    OwnGroupsOnly(b, cc + 1, fwd, x, inside);
    forall o | o in ss ensures o.caps[2 * cc + (if fwd then 0 else 1)] == s.pos {
      assert SameOutside(inside, o, cc + 1, cc + 1 + NCaps(b));
    }
    CloseEnds(cc, fwd, x, ss, Rem(fwd, x, s), s.pos);
  }

  lemma {:induction false} CloseEnds(cc: nat, fwd: bool, x: Ctx, ss: seq<St>, bound: nat, p: nat)
    requires AllValid(x, ss) && cc < x.ncap && forall o :: o in ss ==> Rem(fwd, x, o) <= bound
    requires forall o :: o in ss ==> o.caps[2 * cc + (if fwd then 0 else 1)] == p
    ensures forall o :: o in CloseAll(cc, fwd, x, ss, bound) ==>
              |o.caps| == 2 * x.ncap
              && o.caps[2 * cc] == (if fwd then p else o.pos) && o.caps[2 * cc + 1] == (if fwd then o.pos else p)
    decreases |ss|
  {
    hide Rem;
    if ss != [] {
      assert ss[0] in ss;
      CloseEnds(cc, fwd, x, ss[1..], bound, p);
    }
  }

  /** The pattern of a text. */
  function Literal(w: seq<nat>): Regex {
    if w == [] then Empty else Cat(Char(w[0]), Literal(w[1..]))
  }

  /** Where a text starts that is read from or up to the position. */
  function TextStart(w: seq<nat>, fwd: bool, s: St): int {
    if fwd then s.pos else s.pos - |w|
  }

  predicate TextThere(w: seq<nat>, fwd: bool, x: Ctx, s: St) {
    var p := TextStart(w, fwd, s);
    0 <= p && p + |w| <= |x.input| && x.input[p..p + |w|] == w
  }

  function TextEnd(w: seq<nat>, fwd: bool, x: Ctx, s: St): St
    requires TextThere(w, fwd, x, s)
  {
    s.(pos := if fwd then s.pos + |w| else s.pos - |w|)
  }

  /** A text is there if its first character is and, after it, the others are. */
  lemma TextAhead(w: seq<nat>, x: Ctx, s: St)
    requires w != []
    ensures TextThere(w, true, x, s)
       <==> s.pos < |x.input| && x.input[s.pos] == w[0] && TextThere(w[1..], true, x, s.(pos := s.pos + 1))
  {
    var p, v := s.pos, w[1..];
    assert w == [w[0]] + v;
    if p + |w| <= |x.input| {
      assert x.input[p..p + |w|] == [x.input[p]] + x.input[p + 1..p + 1 + |v|];
      assert x.input[p..p + |w|][1..] == x.input[p + 1..p + 1 + |v|];
    }
  }

  lemma TextBehind(w: seq<nat>, x: Ctx, s: St)
    requires w != [] && s.pos <= |x.input|
    ensures TextThere(w, false, x, s)
       <==> TextThere(w[1..], false, x, s) && s.pos >= |w| && x.input[s.pos - |w|] == w[0]
  {
    var p, v := s.pos - |w|, w[1..];
    assert w == [w[0]] + v;
    if p >= 0 {
      assert x.input[p..s.pos] == [x.input[p]] + x.input[p + 1..s.pos];
      assert x.input[p..s.pos][1..] == x.input[p + 1..s.pos];
    }
  }

  lemma NoText(cc: nat, fwd: bool, x: Ctx, s: St)
    requires ValidSt(x, s)
    ensures TextThere([], fwd, x, s) && Match(Literal([]), cc, fwd, x, s) == [TextEnd([], fwd, x, s)]
  {
  }

  lemma OneCharIs(c: nat, cc: nat, fwd: bool, x: Ctx, s: St)
    requires ValidSt(x, s)
    ensures Match(Char(c), cc, fwd, x, s)
         == if fwd then if s.pos < |x.input| && x.input[s.pos] == c then [s.(pos := s.pos + 1)] else []
            else if s.pos > 0 && x.input[s.pos - 1] == c then [s.(pos := s.pos - 1)] else []
  {
  }

  lemma {:induction false} LiteralMatch(w: seq<nat>, cc: nat, fwd: bool, x: Ctx, s: St)
    requires ValidSt(x, s)
    ensures Match(Literal(w), cc, fwd, x, s) == if TextThere(w, fwd, x, s) then [TextEnd(w, fwd, x, s)] else []
    decreases |w|
  {
    hide Match;
    hide MatchAll;
    hide TextThere;
    if w == [] {
      NoText(cc, fwd, x, s);
    } else {
      var c, v := Char(w[0]), w[1..];
      OneCharIs(w[0], cc, fwd, x, s);
      CatIs(c, Literal(v), cc, fwd, x, s);
      var ss := if fwd then Match(c, cc, fwd, x, s) else Match(Literal(v), cc + NCaps(c), fwd, x, s);
      if fwd {
        TextAhead(w, x, s);
        if ss != [] { LiteralMatch(v, cc + NCaps(c), fwd, x, ss[0]); }
        AllOfOne(Literal(v), cc + NCaps(c), fwd, x, ss, Rem(fwd, x, s));
      } else {
        TextBehind(w, x, s);
        LiteralMatch(v, cc + NCaps(c), fwd, x, s);
        if ss != [] { OneCharIs(w[0], cc, fwd, x, ss[0]); }
        AllOfOne(c, cc, fwd, x, ss, Rem(fwd, x, s));
      }
    }
  }

  lemma AllOfOne(r: Regex, cc: nat, fwd: bool, x: Ctx, ss: seq<St>, bound: nat)
    requires AllValid(x, ss) && (forall o :: o in ss ==> Rem(fwd, x, o) <= bound) && |ss| <= 1
    ensures ss != [] ==> ss[0] in ss
    ensures MatchAll(r, cc, fwd, x, ss, bound) == if ss == [] then [] else Match(r, cc, fwd, x, ss[0])
  {
    hide Match;
  }

  /** What a group stands for in a back-reference: nothing if it is unset. */
  function Captured(n: nat, x: Ctx, s: St): seq<nat>
    requires ValidSt(x, s) && n < x.ncap
  {
    var a, b := s.caps[2 * n], s.caps[2 * n + 1];
    if 0 <= a <= b <= |x.input| then x.input[a..b] else []
  }

  lemma BackRefIs(n: nat, cc: nat, fwd: bool, x: Ctx, s: St)
    requires ValidSt(x, s) && n < x.ncap && s.caps[2 * n] <= |x.input| && s.caps[2 * n + 1] <= |x.input|
    ensures var w := Captured(n, x, s);
            Match(BackRef(n), cc, fwd, x, s) == if TextThere(w, fwd, x, s) then [TextEnd(w, fwd, x, s)] else []
  {
    hide Literal;
  }

  /** A back-reference matches like the text that the group has captured, in either direction. */
  lemma BackRefLiteral(n: nat, cc: nat, fwd: bool, x: Ctx, s: St)
    requires ValidSt(x, s) && n < x.ncap && s.caps[2 * n] <= |x.input| && s.caps[2 * n + 1] <= |x.input|
    ensures Match(BackRef(n), cc, fwd, x, s) == Match(Literal(Captured(n, x, s)), cc, fwd, x, s)
  {
    hide TextThere;
    LiteralMatch(Captured(n, x, s), cc, fwd, x, s);
    BackRefIs(n, cc, fwd, x, s);
  }

  /** A quantifier without a minimum forgets what the groups in it held: they are unset in its
      empty match, and make no difference otherwise. */
  lemma QuantForgets(a: Regex, max: nat, greedy: bool, cc: nat, fwd: bool, x: Ctx, s: St, t: St)
    requires ValidSt(x, s) && ValidSt(x, t) && !x.perIteration
    requires s.pos == t.pos && SameOutside(s, t, cc, cc + NCaps(a))
    ensures Match(Quant(a, 0, max, greedy), cc, fwd, x, s) == Match(Quant(a, 0, max, greedy), cc, fwd, x, t)
    ensures (forall k :: 2 * cc <= k < 2 * (cc + NCaps(a)) && k < |t.caps| ==> t.caps[k] == UNSET) ==>
              t in Match(Quant(a, 0, max, greedy), cc, fwd, x, s)
  {
    hide Rep;
    hide Match;
    QuantIs(a, 0, max, greedy, cc, fwd, x, s);
    QuantIs(a, 0, max, greedy, cc, fwd, x, t);
    var e := QuantEntry(a, 0, cc, x, s);
    assert e.caps == QuantEntry(a, 0, cc, x, t).caps;
    if max == 0 { NoRep(a, cc, fwd, x, 0, greedy, e); } else { RepIs(a, cc, fwd, x, 0, max, greedy, e); }
    if forall k :: 2 * cc <= k < 2 * (cc + NCaps(a)) && k < |t.caps| ==> t.caps[k] == UNSET {
      assert e.caps == t.caps;
    }
  }

  // ----- priorities -----

  /** The left alternative is preferred. */
  lemma LeftFirst(a: Regex, b: Regex, cc: nat, fwd: bool, x: Ctx, s: St)
    requires ValidSt(x, s)
    ensures First(Match(Alt(a, b), cc, fwd, x, s))
         == if Match(a, cc, fwd, x, s) != [] then Some(Match(a, cc, fwd, x, s)[0])
            else First(Match(b, cc + NCaps(a), fwd, x, s))
  {
    hide Match;
    AltIs(a, b, cc, fwd, x, s);
  }

  /** The pattern has at most one result from any state. */
  ghost predicate OneWay(a: Regex, cc: nat, fwd: bool, x: Ctx) {
    forall s: St :: ValidSt(x, s) ==> |Match(a, cc, fwd, x, s)| <= 1
  }

  /** The results are farther and farther behind, or ahead. */
  predicate Ordered(greedy: bool, fwd: bool, x: Ctx, out: seq<St>)
    requires AllValid(x, out)
  {
    forall i, j :: 0 <= i < j < |out| ==>
      out[i] in out && out[j] in out
      && if greedy then Rem(fwd, x, out[i]) < Rem(fwd, x, out[j]) else Rem(fwd, x, out[i]) > Rem(fwd, x, out[j])
  }

  /** A greedy quantifier tries the longest repetition first, a lazy one the shortest. */
  lemma GreedyLongestFirst(a: Regex, min: nat, max: nat, greedy: bool, cc: nat, fwd: bool, x: Ctx, s: St)
    requires OneWay(a, cc, fwd, x) && ValidSt(x, s)
    ensures AllValid(x, Match(Quant(a, min, max, greedy), cc, fwd, x, s))
    ensures Ordered(greedy, fwd, x, Match(Quant(a, min, max, greedy), cc, fwd, x, s))
  {
    hide Rep;
    hide Match;
    hide Ordered;
    hide OneWay;
    QuantIs(a, min, max, greedy, cc, fwd, x, s);
    RepOrdered(a, cc, fwd, x, min, max, greedy, QuantEntry(a, min, cc, x, s));
  }

  lemma CharsOneWay(a: Regex, cc: nat, fwd: bool, x: Ctx)
    requires a.Char? || a.Dot? || a.Class?
    ensures OneWay(a, cc, fwd, x)
  {
    hide Accepts;
  }

  lemma OrderedExit(min: nat, greedy: bool, fwd: bool, x: Ctx, s: St, more: seq<St>)
    requires ValidSt(x, s) && Onward(fwd, x, s, more) && AllValid(x, more) && Ordered(greedy, fwd, x, more)
    requires min == 0 ==> forall o :: o in more ==> Rem(fwd, x, o) < Rem(fwd, x, s)
    ensures var out := WithExit(min, greedy, s, more);
            Onward(fwd, x, s, out) && AllValid(x, out) && Ordered(greedy, fwd, x, out)
  {
    hide Rem;
    var out := WithExit(min, greedy, s, more);
    forall o | o in out ensures o == s || o in more {}
    var k := |more|;
    assert min == 0 && greedy ==> out[k] == s && forall i :: 0 <= i < k ==> out[i] == more[i];
    assert min == 0 && !greedy ==> out[0] == s && forall i :: 0 < i <= k ==> out[i] == more[i - 1];
  }

  lemma {:induction false} RepOrdered(a: Regex, cc: nat, fwd: bool, x: Ctx, min: nat, max: nat, greedy: bool, s: St)
    requires OneWay(a, cc, fwd, x) && ValidSt(x, s)
    ensures Onward(fwd, x, s, Rep(a, cc, fwd, x, min, max, greedy, s))
    ensures AllValid(x, Rep(a, cc, fwd, x, min, max, greedy, s))
    ensures Ordered(greedy, fwd, x, Rep(a, cc, fwd, x, min, max, greedy, s))
    decreases min, Rem(fwd, x, s)
  {
    hide Rep;
    hide RepNext;
    hide Match;
    hide Rem;
    hide Ordered;
    hide WithExit;
    if max == 0 {
      NoRep(a, cc, fwd, x, min, greedy, s);
      OneOrdered(greedy, fwd, x, [s]);
    } else {
      RepIs(a, cc, fwd, x, min, max, greedy, s);
      EntryRem(a, cc, fwd, x, s);
      var ss := Match(a, cc, fwd, x, Entry(a, cc, x, s));
      var more := RepNext(a, cc, fwd, x, min, max, greedy, s, ss);
      NoNext(a, cc, fwd, x, min, max, greedy, s);
      OneOrdered(greedy, fwd, x, []);
      if ss != [] {
        NextIs(a, cc, fwd, x, min, max, greedy, s, ss);
        assert ss[1..] == [];
        assert more == Again(a, cc, fwd, x, min, max, greedy, s, ss[0]);
        if !(min == 0 && ss[0].pos == s.pos) {
          RepOrdered(a, cc, fwd, x, Less0(min), Less(max), greedy, ss[0]);
        }
      }
      OrderedExit(min, greedy, fwd, x, s, more);
    }
  }

  lemma OneOrdered(greedy: bool, fwd: bool, x: Ctx, out: seq<St>)
    requires AllValid(x, out) && |out| <= 1
    ensures Ordered(greedy, fwd, x, out)
  {
  }

  // ----- the search -----

  lemma {:induction false} CloseFirst(ss: seq<St>)
    ensures var out := FlatMap(ss, Closing(1));
            if ss == [] then out == [] else out != [] && out[0] == SetCap(ss[0], 1, ss[0].pos)
  {
  }

  lemma MatchAtSpans(r: Regex, x: Ctx, i: nat)
    requires WellFormed(r) && BackRefFree(r) && i <= |x.input| && x.ncap >= 1
    ensures MatchAt(r, x, i) == [] <==> forall j: nat :: !Spans(r, x, i, j)
    ensures MatchAt(r, x, i) != [] ==>
              var t := MatchAt(r, x, i)[0];
              |t.caps| == 2 * x.ncap && t.caps[0] == i && t.caps[1] >= 0 && Spans(r, x, i, t.caps[1])
  {
    hide Match;
    hide Spans;
    var s := SetCap(Start(x, i), 0, i);
    var ss := Match(r, 1, true, x, s);
    CloseFirst(ss);
    OwnGroupsOnly(r, 1, true, x, s);
    if ss != [] {
      assert ss[0] in ss && SameOutside(s, ss[0], 1, 1 + NCaps(r));
      MatchSpans(r, 1, true, x, s, ss[0].pos);
      assert Reaches(ss, ss[0].pos);
      assert Spans(r, x, i, ss[0].pos);
    } else {
      forall j: nat ensures !Spans(r, x, i, j) {
        MatchSpans(r, 1, true, x, s, j);
        assert !Reaches(ss, j) && s.pos == i;
      }
    }
  }

  /** Nothing is found if there is nothing to find; otherwise a span of the pattern is, at the
      first place where there is any. */
  ghost predicate FindsSpan(r: Regex, sticky: bool, x: Ctx, from: nat, found: Option<seq<int>>) {
    match found
    case None => forall i: nat, j: nat :: from <= i && (sticky ==> i == from) ==> !Spans(r, x, i, j)
    case Some(caps) =>
      && |caps| == 2 * x.ncap >= 2 && from <= caps[0] && caps[1] >= 0 && Spans(r, x, caps[0], caps[1])
      && (sticky ==> caps[0] == from)
      && forall i: nat, j: nat :: from <= i < caps[0] ==> !Spans(r, x, i, j)
  }

  function CapsFound(r: Regex, sticky: bool, x: Ctx, from: nat): Option<seq<int>>
    requires from <= |x.input|
  {
    match Find(r, sticky, x, from) case None => None case Some(s) => Some(s.caps)
  }

  lemma {:induction false} FindSpans(r: Regex, sticky: bool, x: Ctx, from: nat)
    requires WellFormed(r) && BackRefFree(r) && from <= |x.input| && x.ncap >= 1
    ensures FindsSpan(r, sticky, x, from, CapsFound(r, sticky, x, from))
    decreases |x.input| - from
  {
    hide MatchAt;
    hide Spans;
    MatchAtSpans(r, x, from);
    if sticky {
      if MatchAt(r, x, from) == [] {
        forall i: nat, j: nat | i == from ensures !Spans(r, x, i, j) {}
      }
    } else if MatchAt(r, x, from) != [] {
      assert Search(r, x, from)[0] == MatchAt(r, x, from)[0];
    } else {
      if from < |x.input| {
        FindSpans(r, sticky, x, from + 1);
        FindsLater(r, x, from, CapsFound(r, sticky, x, from + 1));
      } else {
        forall i: nat, j: nat | from <= i ensures !Spans(r, x, i, j) {
          if Spans(r, x, i, j) { SpanBounds(r, x, i, j); }
        }
        assert Find(r, sticky, x, from).None?;
      }
    }
  }

  lemma FindsLater(r: Regex, x: Ctx, from: nat, found: Option<seq<int>>)
    requires FindsSpan(r, false, x, from + 1, found) && forall j: nat :: !Spans(r, x, from, j)
    ensures FindsSpan(r, false, x, from, found)
  {
    hide Spans;
  }
}
