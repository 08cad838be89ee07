/** The image of a character set under the case folding of regular expressions. The case
    table is any sorted table of runs, with a folding function for each run. */
module UniCase {
  import opened Common
  import opened UniRange
  import SortOrder
  import SortQuick

  // ----- the folding function of a table -----

  /** The characters from `code` on, `len` of them. */
  datatype Run = Run(code: Word32, len: nat)

  predicate Holds(r: Run, c: int) { r.code <= c < r.code + r.len }

  /** Runs in order, without overlap. */
  predicate SortedRuns(table: seq<Run>) {
    forall i, j :: 0 <= i < j < |table| ==> table[i].code + table[i].len <= table[j].code
  }

  /** How the characters of each run fold: character and index of the run. */
  type Folding = (Word32, nat) -> Word32

  /** The run that holds `c`, or -1. */
  function RunOf(table: seq<Run>, c: int): (i: int)
    ensures -1 <= i < |table| && (i >= 0 ==> Holds(table[i], c))
    ensures i == -1 ==> forall k :: 0 <= k < |table| ==> !Holds(table[k], c)
    decreases |table|
  {
    if table == [] then -1
    else if Holds(table[|table| - 1], c) then |table| - 1
    else RunOf(table[..|table| - 1], c)
  }

  function Fold(table: seq<Run>, f: Folding, c: Word32): Word32 {
    var i := RunOf(table, c);
    if i >= 0 then f(c, i) else c
  }

  lemma OneRun(table: seq<Run>, c: int, i: nat)
    requires SortedRuns(table) && i < |table| && Holds(table[i], c)
    ensures RunOf(table, c) == i
  {
  }

  /** The folding of one character, by binary search. */
  method LreCanonicalize(table: seq<Run>, f: Folding, c: Word32, isUnicode: bool) returns (r: Word32)
    requires SortedRuns(table)
    requires forall x: Word32 :: x < 128 ==> Fold(table, f, x) == AsciiFold(x, isUnicode)
    ensures r == Fold(table, f, c)
  {
    if c < 128 {
      r := c;
      if isUnicode {
        if 'A' as int <= c <= 'Z' as int { r := c - 'A' as int + 'a' as int; }
      } else {
        if 'a' as int <= c <= 'z' as int { r := c - 'a' as int + 'A' as int; }
      }
      return;
    }
    var idxMin, idxMax := 0, |table| - 1;
    while idxMin <= idxMax
      invariant 0 <= idxMin <= |table| && -1 <= idxMax < |table|
      invariant forall k :: 0 <= k < idxMin ==> !Holds(table[k], c)
      invariant forall k :: idxMax < k < |table| ==> !Holds(table[k], c)
    {
      var idx := (idxMax + idxMin) / 2;
      if c < table[idx].code {
        idxMax := idx - 1;
      } else if c >= table[idx].code + table[idx].len {
        forall k | 0 <= k <= idx ensures !Holds(table[k], c) {
          if k < idx { assert table[k].code + table[k].len <= table[idx].code; }
        }
        idxMin := idx + 1;
      } else {
        OneRun(table, c, idx);
        return f(c, idx);
      }
    }
    return c;
  }

  /** The fast case for ASCII. */
  function AsciiFold(c: Word32, isUnicode: bool): Word32 {
    if isUnicode && 'A' as int <= c <= 'Z' as int then c + 32
    else if !isUnicode && 'a' as int <= c <= 'z' as int then c - 32
    else c
  }

  // ----- lists of intervals in any order -----

  /** Some interval of the list holds `d`. */
  ghost predicate Covered(pts: seq<Word32>, d: int) { exists k: nat :: InInterval(pts, k, d) }

  lemma CoveredJoin(a: seq<Word32>, b: seq<Word32>, d: int)
    requires Even(a)
    ensures Covered(a + b, d) <==> Covered(a, d) || Covered(b, d)
  {
    var h := |a| / 2;
    if Covered(a + b, d) {
      var k: nat :| InInterval(a + b, k, d);
      if k < h { assert InInterval(a, k, d); } else { assert InInterval(b, k - h, d); }
    }
    if Covered(a, d) {
      var k: nat :| InInterval(a, k, d);
      assert InInterval(a + b, k, d);
    }
    if Covered(b, d) {
      var k: nat :| InInterval(b, k, d);
      assert InInterval(a + b, k + h, d);
    }
  }

  lemma CoveredOne(x: Word32, y: Word32, d: int)
    ensures Covered([x, y], d) <==> x <= d < y
  {
    if x <= d < y { assert InInterval([x, y], 0, d); }
  }

  /** Every interval holds a character, */
  ghost predicate Proper(pts: seq<Word32>) {
    forall k :: 0 <= k && 2 * k + 1 < |pts| ==> pts[2 * k] < pts[2 * k + 1]
  }

  /** or at least none ends before it starts. */
  ghost predicate Forward(pts: seq<Word32>) {
    forall k :: 0 <= k && 2 * k + 1 < |pts| ==> pts[2 * k] <= pts[2 * k + 1]
  }

  ghost predicate Started(pts: seq<Word32>) {
    forall k, l :: 0 <= k < l && 2 * l + 1 < |pts| ==> pts[2 * k] <= pts[2 * l]
  }

  // ----- removing the overlaps -----

  /** The output so far and the intervals still to come, in the order of their starts; all
      of them proper if `proper` says so. */
  ghost predicate Removing(was: seq<Word32>, out: seq<Word32>, tail: seq<Word32>, proper: bool) {
    && Even(out) && Even(tail) && Sorted(out) && Forward(tail) && Started(tail)
    && (proper ==> Increasing(out) && Proper(tail))
    && (out != [] && tail != [] ==> out[|out| - 1] < tail[0])
    && (forall d: int :: Covered(was, d) <==> Covered(out, d) || Covered(tail, d))
  }

  /** The same with one interval between the two. */
  ghost predicate Merging(was: seq<Word32>, out: seq<Word32>, start: Word32, end: Word32, tail: seq<Word32>,
      proper: bool) {
    && Even(out) && Even(tail) && Sorted(out) && Forward(tail) && Started(tail) && start <= end
    && (proper ==> Increasing(out) && Proper(tail) && start < end)
    && (out != [] ==> out[|out| - 1] < start) && (tail != [] ==> start <= tail[0])
    && (forall d: int :: Covered(was, d) <==> Covered(out, d) || start <= d < end || Covered(tail, d))
  }

  lemma TailParts(tail: seq<Word32>)
    requires |tail| >= 2 && Even(tail) && Forward(tail) && Started(tail)
    ensures Even(tail[2..]) && Forward(tail[2..]) && Started(tail[2..]) && tail[0] <= tail[1]
    ensures Proper(tail) ==> Proper(tail[2..]) && tail[0] < tail[1]
    ensures |tail| > 2 ==> tail[0] <= tail[2]
    ensures forall d: int :: Covered(tail, d) <==> tail[0] <= d < tail[1] || Covered(tail[2..], d)
  {
    hide Covered;
    var rest := tail[2..];
    assert tail[2 * 0] <= tail[2 * 0 + 1];
    forall k | 0 <= k && 2 * k + 1 < |rest| ensures rest[2 * k] <= rest[2 * k + 1] {
      assert tail[2 * (k + 1)] <= tail[2 * (k + 1) + 1];
    }
    forall k, l | 0 <= k < l && 2 * l + 1 < |rest| ensures rest[2 * k] <= rest[2 * l] {
      assert tail[2 * (k + 1)] <= tail[2 * (l + 1)];
    }
    if |tail| > 2 { assert tail[2 * 0] <= tail[2 * 1]; }
    if Proper(tail) { TailProper(tail); }
    assert tail == [tail[0], tail[1]] + rest;
    forall d: int ensures Covered(tail, d) <==> tail[0] <= d < tail[1] || Covered(rest, d) {
      CoveredJoin([tail[0], tail[1]], rest, d);
      CoveredOne(tail[0], tail[1], d);
    }
  }

  lemma TailProper(tail: seq<Word32>)
    requires |tail| >= 2 && Proper(tail)
    ensures Proper(tail[2..]) && tail[0] < tail[1]
  {
    var rest := tail[2..];
    assert tail[2 * 0] < tail[2 * 0 + 1];
    forall k | 0 <= k && 2 * k + 1 < |rest| ensures rest[2 * k] < rest[2 * k + 1] {
      assert tail[2 * (k + 1)] < tail[2 * (k + 1) + 1];
    }
  }

  lemma TakeInterval(was: seq<Word32>, out: seq<Word32>, tail: seq<Word32>, proper: bool)
    requires |tail| >= 2 && Removing(was, out, tail, proper)
    ensures Merging(was, out, tail[0], tail[1], tail[2..], proper)
  {
    hide Covered;
    hide Proper;
    hide Forward;
    hide Started;
    TailParts(tail);
  }

  lemma AbsorbInterval(was: seq<Word32>, out: seq<Word32>, start: Word32, end: Word32, tail: seq<Word32>, proper: bool)
    requires |tail| >= 2 && Merging(was, out, start, end, tail, proper) && tail[0] <= end
    ensures Merging(was, out, start, if tail[1] <= end then end else tail[1], tail[2..], proper)
  {
    hide Covered;
    hide Proper;
    hide Forward;
    hide Started;
    TailParts(tail);
  }

  lemma EmitInterval(was: seq<Word32>, out: seq<Word32>, start: Word32, end: Word32, tail: seq<Word32>, proper: bool)
    requires Merging(was, out, start, end, tail, proper) && (tail != [] ==> tail[0] > end)
    ensures Removing(was, out + [start, end], tail, proper)
  {
    hide Covered;
    hide Proper;
    hide Forward;
    hide Started;
    forall d: int ensures Covered(out + [start, end], d) <==> Covered(out, d) || start <= d < end {
      CoveredJoin(out, [start, end], d);
      CoveredOne(start, end, d);
    }
  }

  // ----- the sort -----

  function PointCmp(p: (Word32, Word32), q: (Word32, Word32)): int {
    (if p.0 > q.0 then 1 else 0) - (if p.0 < q.0 then 1 else 0)
  }

  lemma PointCmpOrders()
    ensures SortOrder.TotalPreorder(PointCmp)
  {
  }

  /** The points, two by two. */
  function Pairs(pts: seq<Word32>): (ps: seq<(Word32, Word32)>)
    ensures |ps| == |pts| / 2 && forall k :: 0 <= k < |ps| ==> ps[k] == (pts[2 * k], pts[2 * k + 1])
  {
    seq(|pts| / 2, k requires 0 <= k < |pts| / 2 => (pts[2 * k], pts[2 * k + 1]))
  }

  lemma PairsCover(a: seq<Word32>, b: seq<Word32>)
    requires Even(a) && |a| == |b| && multiset(Pairs(a)) == multiset(Pairs(b))
    ensures forall d: int :: Covered(a, d) ==> Covered(b, d)
    ensures Proper(a) ==> Proper(b)
    ensures Forward(a) ==> Forward(b)
  {
    forall d: int | Covered(a, d) ensures Covered(b, d) {
      var k: nat :| InInterval(a, k, d);
      assert Pairs(a)[k] in multiset(Pairs(b));
      var l: nat :| l < |Pairs(b)| && Pairs(b)[l] == Pairs(a)[k];
      assert InInterval(b, l, d);
    }
    if Proper(a) {
      forall l | 0 <= l && 2 * l + 1 < |b| ensures b[2 * l] < b[2 * l + 1] {
        assert Pairs(b)[l] in multiset(Pairs(a));
        var k :| 0 <= k < |Pairs(a)| && Pairs(a)[k] == Pairs(b)[l];
      }
    }
    if Forward(a) {
      forall l | 0 <= l && 2 * l + 1 < |b| ensures b[2 * l] <= b[2 * l + 1] {
        assert Pairs(b)[l] in multiset(Pairs(a));
        var k :| 0 <= k < |Pairs(a)| && Pairs(a)[k] == Pairs(b)[l];
      }
    }
  }

  /** The points, taken as an array of pairs. */
  method LoadPairs(cr: CharRange) returns (ps: array<(Word32, Word32)>)
    requires cr.Valid()
    ensures fresh(ps) && ps[..] == Pairs(cr.Points())
  {
    var n := cr.len / 2;
    ps := new (Word32, Word32)[n];
    for k := 0 to n
      invariant forall l :: 0 <= l < k ==> ps[l] == Pairs(cr.Points())[l]
    {
      ps[k] := (cr.points[2 * k], cr.points[2 * k + 1]);
    }
  }

  method StorePairs(cr: CharRange, ps: array<(Word32, Word32)>)
    requires cr.Valid() && cr.len == 2 * ps.Length
    modifies cr.points
    ensures cr.Valid() && Pairs(cr.Points()) == ps[..]
  {
    for k := 0 to ps.Length
      invariant forall l :: 0 <= l < k ==> (cr.points[2 * l], cr.points[2 * l + 1]) == ps[l]
    {
      cr.points[2 * k] := ps[k].0;
      cr.points[2 * k + 1] := ps[k].1;
    }
  }

  lemma PairsStarted(pts: seq<Word32>)
    requires SortOrder.SortedFrom(PointCmp, Pairs(pts), 0, |Pairs(pts)|)
    ensures Started(pts)
  {
    forall k, l | 0 <= k < l && 2 * l + 1 < |pts| ensures pts[2 * k] <= pts[2 * l] {
      assert SortOrder.Le(PointCmp, Pairs(pts)[k], Pairs(pts)[l]);
    }
  }

  /** The intervals are sorted by their starts. */
  method SortPairs(cr: CharRange)
    requires cr.Valid() && Even(cr.Points()) && Forward(cr.Points())
    modifies cr.points
    ensures cr.Valid() && Even(cr.Points()) && Forward(cr.Points()) && Started(cr.Points())
    ensures Proper(old(cr.Points())) ==> Proper(cr.Points())
    ensures forall d: int :: Covered(cr.Points(), d) <==> Covered(old(cr.Points()), d)
  {
    hide Proper;
    hide Forward;
    hide Started;
    hide Pairs;
    hide Covered;
    hide SortOrder.SortedFrom;
    ghost var was := cr.Points();
    var ps := LoadPairs(cr);
    PointCmpOrders();
    assert |Pairs(was)| == |was| / 2;
    SortQuick.RqSort(ps, PointCmp);
    assert |ps[..]| == |was| / 2;
    StorePairs(cr, ps);
    PairsCover(was, cr.Points());
    PairsCover(cr.Points(), was);
    PairsStarted(cr.Points());
  }

  // ----- the removal -----

  /** In the buffer, the output stands before `j` and the intervals to come at `i`. */
  ghost predicate RemovingAt(was: seq<Word32>, p: seq<Word32>, j: nat, i: nat, n: nat, proper: bool) {
    j <= i <= n <= |p| && Removing(was, p[..j], p[i..n], proper)
  }

  ghost predicate MergingAt(was: seq<Word32>, p: seq<Word32>, j: nat, start: Word32, end: Word32, i: nat, n: nat,
      proper: bool) {
    j + 2 <= i <= n <= |p| && Merging(was, p[..j], start, end, p[i..n], proper)
  }

  lemma RemoveStart(p: seq<Word32>, n: nat, proper: bool)
    requires n <= |p| && n % 2 == 0 && Forward(p[..n]) && Started(p[..n]) && (proper ==> Proper(p[..n]))
    ensures RemovingAt(p[..n], p, 0, 0, n, proper)
  {
    hide Proper;
    assert p[..0] == [] && p[0..n] == p[..n];
    forall d: int ensures !Covered([], d) {}
  }

  lemma RemoveTake(was: seq<Word32>, p: seq<Word32>, j: nat, i: nat, n: nat, proper: bool)
    requires RemovingAt(was, p, j, i, n, proper) && i < n
    ensures i + 2 <= n && MergingAt(was, p, j, p[i], p[i + 1], i + 2, n, proper)
  {
    hide Merging;
    TakeInterval(was, p[..j], p[i..n], proper);
    assert p[i..n][2..] == p[i + 2..n];
  }

  lemma RemoveAbsorb(was: seq<Word32>, p: seq<Word32>, j: nat, start: Word32, end: Word32, i: nat, n: nat, proper: bool)
    requires MergingAt(was, p, j, start, end, i, n, proper) && i < n && p[i] <= end
    ensures i + 2 <= n && MergingAt(was, p, j, start, if p[i + 1] <= end then end else p[i + 1], i + 2, n, proper)
  {
    AbsorbInterval(was, p[..j], start, end, p[i..n], proper);
    assert p[i..n][2..] == p[i + 2..n];
  }

  lemma RemoveEmit(was: seq<Word32>, p: seq<Word32>, j: nat, start: Word32, end: Word32, i: nat, n: nat, proper: bool)
    requires MergingAt(was, p, j, start, end, i, n, proper) && (i < n ==> p[i] > end)
    ensures RemovingAt(was, p[j := start][j + 1 := end], j + 2, i, n, proper)
  {
    hide Removing;
    EmitInterval(was, p[..j], start, end, p[i..n], proper);
    var q := p[j := start][j + 1 := end];
    assert q[..j + 2] == p[..j] + [start, end];
    assert q[i..n] == p[i..n];
  }

  lemma RemoveEnd(was: seq<Word32>, p: seq<Word32>, j: nat, n: nat, proper: bool)
    requires RemovingAt(was, p, j, n, n, proper)
    ensures j <= |p| && Sorted(p[..j]) && Even(p[..j]) && forall d: int :: Member(p[..j], d) <==> Covered(was, d)
    ensures proper ==> Increasing(p[..j])
  {
    var out := p[..j];
    assert p[n..n] == [];
    forall d: int ensures Member(out, d) <==> Covered(was, d) {
      MemberExact(out, d);
      assert !Covered([], d);
    }
  }

  /** Sorts the intervals and merges those that overlap or meet: sorted points for the same
      characters, strictly increasing if no interval was empty. */
  method SortAndRemoveOverlap(cr: CharRange)
    requires cr.Valid() && Even(cr.Points()) && Forward(cr.Points())
    modifies cr.points, cr`len
    ensures cr.Valid() && Sorted(cr.Points()) && Even(cr.Points())
    ensures Proper(old(cr.Points())) ==> Increasing(cr.Points())
    ensures forall d: int :: Member(cr.Points(), d) <==> Covered(old(cr.Points()), d)
  {
    hide Covered;
    hide Proper;
    hide Forward;
    hide Started;
    ghost var proper := Proper(cr.Points());
    SortPairs(cr);
    ghost var was, n := cr.Points(), cr.len;
    assert cr.points[..][..n] == was;
    RemoveStart(cr.points[..], n, proper);
    hide RemovingAt;
    hide MergingAt;
    var j, i := 0, 0;
    while i < cr.len
      invariant j <= i <= cr.len == n <= cr.points.Length
      invariant RemovingAt(was, cr.points[..], j, i, n, proper)
    {
      ghost var p := cr.points[..];
      RemoveTake(was, p, j, i, n, proper);
      var start, end := cr.points[i], cr.points[i + 1];
      i := i + 2;
      while i < cr.len
        invariant j + 2 <= i <= cr.len == n <= cr.points.Length && p == cr.points[..]
        invariant MergingAt(was, p, j, start, end, i, n, proper)
      {
        var start1 := cr.points[i];
        if start1 > end { break; }
        RemoveAbsorb(was, p, j, start, end, i, n, proper);
        var end1 := cr.points[i + 1];
        if end1 <= end {
          i := i + 2;
        } else {
          end := end1;
          i := i + 2;
        }
      }
      RemoveEmit(was, p, j, start, end, i, n, proper);
      cr.points[j] := start;
      cr.points[j + 1] := end;
      assert cr.points[..] == p[j := start][j + 1 := end];
      j := j + 2;
    }
    RemoveEnd(was, cr.points[..], j, n, proper);
    assert cr.points[..j] == cr.points[..][..j];
    cr.len := j;
  }

  // ----- the image -----

  /** `d` is the folding of a character of the set below `limit`. */
  ghost predicate Folded(table: seq<Run>, f: Folding, pts: seq<Word32>, limit: int, d: int) {
    exists c: Word32 :: c < limit && Member(pts, c) && Fold(table, f, c) == d
  }

  /** The intervals and the one being built hold exactly the foldings so far. */
  ghost predicate Collected(table: seq<Run>, f: Folding, pts: seq<Word32>, limit: int, out: seq<Word32>,
      dStart: Word32, dEnd: Word32) {
    && Even(out) && Proper(out) && (dStart != UINT32_MAX ==> dStart < dEnd)
    && (forall d: int ::
          Folded(table, f, pts, limit, d) <==> Covered(out, d) || (dStart != UINT32_MAX && dStart <= d < dEnd))
  }

  lemma FoldedNext(table: seq<Run>, f: Folding, pts: seq<Word32>, c: Word32, d: int)
    requires Member(pts, c)
    ensures Folded(table, f, pts, c + 1, d) <==> Folded(table, f, pts, c, d) || d == Fold(table, f, c)
  {
  }

  lemma ProperMore(out: seq<Word32>, x: Word32, y: Word32)
    requires Even(out) && Proper(out) && x < y
    ensures Proper(out + [x, y])
    ensures forall d: int :: Covered(out + [x, y], d) <==> Covered(out, d) || x <= d < y
  {
    forall d: int ensures Covered(out + [x, y], d) <==> Covered(out, d) || x <= d < y {
      CoveredJoin(out, [x, y], d);
      CoveredOne(x, y, d);
    }
  }

  /** A finished interval is added to the list. */
  lemma CollectEmit(table: seq<Run>, f: Folding, pts: seq<Word32>, limit: int, out: seq<Word32>, dStart: Word32,
      dEnd: Word32)
    requires Collected(table, f, pts, limit, out, dStart, dEnd) && dStart != UINT32_MAX
    ensures Collected(table, f, pts, limit, out + [dStart, dEnd], UINT32_MAX, UINT32_MAX)
  {
    hide Folded;
    hide Covered;
    hide Proper;
    ProperMore(out, dStart, dEnd);
    var more := out + [dStart, dEnd];
    assert Even(more) && Proper(more);
    forall d: int ensures Folded(table, f, pts, limit, d) <==> Covered(more, d) {}
  }

  /** One folded character starts an interval, or is merged with the one being built. */
  lemma CollectNext(table: seq<Run>, f: Folding, pts: seq<Word32>, c: Word32, out: seq<Word32>, dStart: Word32,
      dEnd: Word32)
    requires Member(pts, c) && Collected(table, f, pts, c, out, dStart, dEnd) && Fold(table, f, c) < UINT32_MAX
    ensures var d := Fold(table, f, c);
            && (dStart == UINT32_MAX ==> Collected(table, f, pts, c + 1, out, d, d + 1))
            && (dStart != UINT32_MAX && dEnd == d ==> Collected(table, f, pts, c + 1, out, dStart, dEnd + 1))
  {
    hide Folded;
    hide Covered;
    hide Fold;
    hide Member;
    hide Proper;
    var d := Fold(table, f, c);
    var next: int := c + 1;
    forall x: int ensures Folded(table, f, pts, next, x) <==> Folded(table, f, pts, c, x) || x == d {
      FoldedNext(table, f, pts, c, x);
    }
    if dStart != UINT32_MAX && dEnd == d {
      forall x: int ensures Folded(table, f, pts, next, x) <==> Covered(out, x) || dStart <= x < dEnd + 1 {
        assert Folded(table, f, pts, next, x) <==> Folded(table, f, pts, c, x) || x == d;
      }
    }
  }

  /** No character of the set lies in between. */
  lemma CollectSkip(table: seq<Run>, f: Folding, pts: seq<Word32>, c: int, limit: int, out: seq<Word32>,
      dStart: Word32, dEnd: Word32)
    requires Collected(table, f, pts, c, out, dStart, dEnd) && c <= limit && forall x: int :: c <= x < limit ==>
      !Member(pts, x)
    ensures Collected(table, f, pts, limit, out, dStart, dEnd)
  {
    hide Covered;
    hide Fold;
    hide Member;
    hide Proper;
    forall d: int ensures Folded(table, f, pts, limit, d) <==> Folded(table, f, pts, c, d) {}
  }

  /** The run of the next character is at or after the current one. */
  method FindRun(table: seq<Run>, c: Word32, idx0: nat) returns (idx: nat)
    requires SortedRuns(table) && idx0 < |table| && RunOf(table, c) >= idx0
    ensures idx == RunOf(table, c)
  {
    idx := idx0;
    while !(c >= table[idx].code && c < table[idx].code + table[idx].len)
      invariant idx <= RunOf(table, c)
      decreases |table| - idx
    {
      idx := idx + 1;
    }
    OneRun(table, c, idx);
  }

  /** Runs do not go back. */
  lemma RunsAscend(table: seq<Run>, c: int, d: int)
    requires SortedRuns(table) && c <= d && RunOf(table, c) >= 0 && RunOf(table, d) >= 0
    ensures RunOf(table, c) <= RunOf(table, d)
  {
  }

  /** In a list of strictly increasing points, the `k`-th interval and the gap after it. */
  lemma Interval(pts: seq<Word32>, k: nat, c: int)
    requires Increasing(pts) && Even(pts) && 2 * k + 1 < |pts|
    ensures pts[2 * k] <= c < pts[2 * k + 1] ==> Member(pts, c)
    ensures pts[2 * k + 1] <= c && (2 * k + 2 < |pts| ==> c < pts[2 * k + 2]) ==> !Member(pts, c)
    ensures c < pts[0] ==> !Member(pts, c)
  {
    if c < pts[0] { BelowSplit(pts, c, 0); }
    if pts[2 * k] <= c < pts[2 * k + 1] { BelowSplit(pts, c, 2 * k + 1); }
    if pts[2 * k + 1] <= c && (2 * k + 2 < |pts| ==> c < pts[2 * k + 2]) { BelowSplit(pts, c, 2 * k + 2); }
  }

  /** What the folding needs of its table and of the set: every character has a run, and folds
      to a code point. */
  ghost predicate Foldable(table: seq<Run>, f: Folding, pts: seq<Word32>) {
    && SortedRuns(table) && table != []
    && (forall c: Word32 :: Member(pts, c) ==> RunOf(table, c) >= 0)
    && (forall c: Word32 :: c < UINT32_MAX ==> Fold(table, f, c) < UINT32_MAX)
  }

  lemma CollectNone(table: seq<Run>, f: Folding, pts: seq<Word32>)
    ensures Collected(table, f, pts, 0, [], UINT32_MAX, UINT32_MAX)
  {
    forall d: int ensures !Covered([], d) {}
  }

  /** The folding of one interval. */
  method FoldInterval(cr: CharRange, table: seq<Run>, f: Folding, ghost pts: seq<Word32>, start: Word32, end: Word32,
                      dStart0: Word32, dEnd0: Word32, idx0: nat)
    returns (dStart: Word32, dEnd: Word32, idx: nat)
    requires cr.Valid() && start < end && Foldable(table, f, pts) && forall c: int :: start <= c < end ==>
      Member(pts, c)
    requires Collected(table, f, pts, start, cr.Points(), dStart0, dEnd0)
    requires idx0 < |table| && idx0 <= RunOf(table, start)
    modifies cr, cr.points
    ensures cr.Valid() && (cr.points == old(cr.points) || fresh(cr.points))
    ensures Collected(table, f, pts, end, cr.Points(), dStart, dEnd)
    ensures idx < |table| && idx <= RunOf(table, end - 1)
  {
    hide Collected;
    hide Member;
    hide SortedRuns;
    hide RunOf;
    dStart, dEnd, idx := dStart0, dEnd0, idx0;
    var c := start;
    while c < end
      invariant start <= c <= end && cr.Valid() && (cr.points == old(cr.points) || fresh(cr.points))
      invariant Collected(table, f, pts, c, cr.Points(), dStart, dEnd)
      invariant idx < |table| && idx <= RunOf(table, if c == start then start else c - 1)
    {
      if c > start { RunsAscend(table, c - 1, c); }
      assert Member(pts, c);
      idx := FindRun(table, c, idx);
      var d := f(c, idx);
      assert d == Fold(table, f, c);
      if dStart == UINT32_MAX {
        CollectNext(table, f, pts, c, cr.Points(), dStart, dEnd);
        dStart := d;
        dEnd := d + 1;
      } else if dEnd == d {
        CollectNext(table, f, pts, c, cr.Points(), dStart, dEnd);
        dEnd := dEnd + 1;
      } else {
        CollectEmit(table, f, pts, c, cr.Points(), dStart, dEnd);
        CollectNext(table, f, pts, c, cr.Points() + [dStart, dEnd], UINT32_MAX, UINT32_MAX);
        cr.AddInterval(dStart, dEnd);
        dStart := d;
        dEnd := d + 1;
      }
      c := c + 1;
    }
  }

  /** The folding of a whole set: a list of intervals, in any order, for its image. */
  method FoldSet(cr: CharRange, table: seq<Run>, f: Folding, inter: CharRange)
    requires cr.Valid() && cr.Points() == [] && inter.Valid() && inter != cr && inter.points != cr.points
    requires Increasing(inter.Points()) && Even(inter.Points()) && Foldable(table, f, inter.Points())
    modifies cr, cr.points
    ensures cr.Valid() && (cr.points == old(cr.points) || fresh(cr.points))
    ensures Even(cr.Points()) && Proper(cr.Points())
    ensures forall d: int ::
              Covered(cr.Points(), d) <==> exists c: Word32 :: Member(inter.Points(), c) && Fold(table, f, c) == d
  {
    hide Collected;
    hide Foldable;
    hide Folded;
    ghost var pts := inter.Points();
    var dStart: Word32, dEnd: Word32 := UINT32_MAX, UINT32_MAX;
    var idx: nat := 0;
    CollectNone(table, f, pts);
    RunsExist(table, f, pts);
    var i := 0;
    while i < inter.len
      invariant cr.Valid() && (cr.points == old(cr.points) || fresh(cr.points)) && inter.points != cr.points
      invariant inter.Valid() && inter.Points() == pts && i <= inter.len && i % 2 == 0
      invariant Collected(table, f, pts, if i == 0 then 0 else pts[i - 1], cr.Points(), dStart, dEnd)
      invariant idx < |table| && (i == 0 ==> idx == 0)
      invariant i > 0 ==> pts[i - 1] > 0 && Member(pts, pts[i - 1] - 1) && idx <= RunOf(table, pts[i - 1] - 1)
    {
      var start, end := inter.points[i], inter.points[i + 1];
      assert start == pts[i] && end == pts[i + 1];
      SkipGap(table, f, pts, i / 2, cr.Points(), dStart, dEnd);
      if i > 0 { RunsAscendIn(table, f, pts, pts[i - 1] - 1, start); } else { RunAt(table, f, pts, start); }
      dStart, dEnd, idx := FoldInterval(cr, table, f, pts, start, end, dStart, dEnd, idx);
      i := i + 2;
    }
    SkipEnd(table, f, pts, cr.Points(), dStart, dEnd);
    ghost var e := if dStart == UINT32_MAX then dEnd else UINT32_MAX;
    if dStart != UINT32_MAX {
      CollectEmit(table, f, pts, UINT32_MAX + 1, cr.Points(), dStart, dEnd);
      cr.AddInterval(dStart, dEnd);
    }
    CollectedAll(table, f, pts, cr.Points(), e);
  }

  lemma RunsExist(table: seq<Run>, f: Folding, pts: seq<Word32>)
    requires Foldable(table, f, pts)
    ensures |table| > 0
  {
  }

  lemma RunAt(table: seq<Run>, f: Folding, pts: seq<Word32>, c: Word32)
    requires Foldable(table, f, pts) && Member(pts, c)
    ensures RunOf(table, c) >= 0
  {
  }

  lemma RunsAscendIn(table: seq<Run>, f: Folding, pts: seq<Word32>, c: Word32, d: Word32)
    requires Foldable(table, f, pts) && c <= d && Member(pts, c) && Member(pts, d)
    ensures 0 <= RunOf(table, c) <= RunOf(table, d)
  {
    RunsAscend(table, c, d);
  }

  /** From the end of one interval to the start of the next. */
  lemma SkipGap(table: seq<Run>, f: Folding, pts: seq<Word32>, k: nat, out: seq<Word32>, dStart: Word32, dEnd: Word32)
    requires Increasing(pts) && Even(pts) && 2 * k + 1 < |pts|
    requires Collected(table, f, pts, if k == 0 then 0 else pts[2 * k - 1], out, dStart, dEnd)
    ensures Collected(table, f, pts, pts[2 * k], out, dStart, dEnd)
    ensures pts[2 * k] < pts[2 * k + 1] && forall c: int :: pts[2 * k] <= c < pts[2 * k + 1] ==> Member(pts, c)
  {
    hide Collected;
    hide Member;
    forall c: int | pts[2 * k] <= c < pts[2 * k + 1] ensures Member(pts, c) { Interval(pts, k, c); }
    var from: int := if k == 0 then 0 else pts[2 * k - 1];
    forall c: int | from <= c < pts[2 * k] ensures !Member(pts, c) { Interval(pts, if k == 0 then 0 else k - 1, c); }
    CollectSkip(table, f, pts, from, pts[2 * k], out, dStart, dEnd);
  }

  lemma SkipEnd(table: seq<Run>, f: Folding, pts: seq<Word32>, out: seq<Word32>, dStart: Word32, dEnd: Word32)
    requires Increasing(pts) && Even(pts)
    requires Collected(table, f, pts, if pts == [] then 0 else pts[|pts| - 1], out, dStart, dEnd)
    ensures Collected(table, f, pts, UINT32_MAX + 1, out, dStart, dEnd)
  {
    hide Collected;
    hide Member;
    var from: int := if pts == [] then 0 else pts[|pts| - 1];
    forall c: int | from <= c < UINT32_MAX + 1 ensures !Member(pts, c) {
      if pts == [] { NoPoints(c); } else { Interval(pts, |pts| / 2 - 1, c); }
    }
    CollectSkip(table, f, pts, from, UINT32_MAX + 1, out, dStart, dEnd);
  }

  lemma NoPoints(c: int)
    ensures !Member([], c)
  {
  }

  lemma CollectedAll(table: seq<Run>, f: Folding, pts: seq<Word32>, out: seq<Word32>, e: Word32)
    requires Collected(table, f, pts, UINT32_MAX + 1, out, UINT32_MAX, e)
    ensures Even(out) && Proper(out)
    ensures forall d: int :: Covered(out, d) <==> exists c: Word32 :: Member(pts, c) && Fold(table, f, c) == d
  {
    hide Covered;
    hide Member;
    hide Fold;
    hide Proper;
    forall d: int ensures Covered(out, d) <==> exists c: Word32 :: Member(pts, c) && Fold(table, f, c) == d {
      assert Covered(out, d) <==> Folded(table, f, pts, UINT32_MAX + 1, d);
    }
  }

  // ----- canonicalization -----

  /** A case table and its mask: no character folds to the greatest word, and the mask holds
      characters of the runs only, and all that folding changes. */
  ghost predicate CaseTable(table: seq<Run>, f: Folding, mask: seq<Word32>) {
    && SortedRuns(table) && table != []
    && (forall c: Word32 :: c < UINT32_MAX ==> Fold(table, f, c) < UINT32_MAX)
    && Masks(table, f, mask)
  }

  ghost predicate Masks(table: seq<Run>, f: Folding, mask: seq<Word32>) {
    && (forall c: Word32 :: Member(mask, c) ==> RunOf(table, c) >= 0)
    && (forall c: Word32 :: Fold(table, f, c) != c ==> Member(mask, c))
  }

  /** Every run ends below the greatest word. */
  predicate Bounded(table: seq<Run>) {
    forall k :: 0 <= k < |table| ==> table[k].code + table[k].len <= UINT32_MAX
  }

  /** The ends of the runs, as points. */
  function RunPoints(table: seq<Run>): (pts: seq<Word32>)
    requires Bounded(table)
    ensures |pts| == 2 * |table|
    ensures forall k :: 0 <= k < |table| ==>
              pts[2 * k] == table[k].code && pts[2 * k + 1] == table[k].code + table[k].len
    decreases |table|
  {
    if table == [] then []
    else
      var r := table[|table| - 1];
      RunPoints(table[..|table| - 1]) + [r.code, r.code + r.len]
  }

  /** Every table of runs that folds to code points has a mask: the characters of its runs. */
  lemma TableHasMask(table: seq<Run>, f: Folding)
    requires SortedRuns(table) && Bounded(table) && table != []
    requires forall c: Word32 :: c < UINT32_MAX ==> Fold(table, f, c) < UINT32_MAX
    ensures Sorted(RunPoints(table)) && Even(RunPoints(table)) && CaseTable(table, f, RunPoints(table))
  {
    hide RunPoints;
    hide Member;
    var pts := RunPoints(table);
    RunPointsSorted(table);
    forall c: Word32 ensures Member(pts, c) <==> RunOf(table, c) >= 0 {
      MemberExact(pts, c);
      if Member(pts, c) {
        var k: nat :| InInterval(pts, k, c);
        assert Holds(table[k], c);
      }
      if RunOf(table, c) >= 0 { assert InInterval(pts, RunOf(table, c), c); }
    }
  }

  lemma RunPointsSorted(table: seq<Run>)
    requires SortedRuns(table) && Bounded(table)
    ensures Sorted(RunPoints(table))
  {
    hide RunPoints;
    var pts := RunPoints(table);
    forall i, j | 0 <= i < j < |pts| ensures pts[i] <= pts[j] {
      assert i == 2 * (i / 2) + i % 2 && j == 2 * (j / 2) + j % 2;
      if i / 2 < j / 2 { assert table[i / 2].code + table[i / 2].len <= table[j / 2].code; }
    }
  }

  const UPPER: string := "ABCDEFGHIJKLMNOPQRSTUVWXYZ"
  const LOWER: string := "abcdefghijklmnopqrstuvwxyz"

  lemma Letters(k: nat)
    requires k < 26
    ensures UPPER[k] as int == 0x41 + k && LOWER[k] as int == 0x61 + k
  {
  }

  lemma AsciiLetters(isUnicode: bool, k: nat)
    requires k < 26
    ensures AsciiFold(UPPER[k] as int, isUnicode) == (if isUnicode then LOWER[k] else UPPER[k]) as int
    ensures AsciiFold(LOWER[k] as int, isUnicode) == (if isUnicode then LOWER[k] else UPPER[k]) as int
  {
    Letters(k);
  }

  /** The letters of ASCII are such a table, in either way of folding: to lower case for Unicode
      patterns, to upper case for others. */
  lemma LettersFold(isUnicode: bool) returns (table: seq<Run>, f: Folding)
    ensures table == [Run(if isUnicode then 0x41 else 0x61, 26)]
    ensures forall k: nat :: k < 26 ==>
              && Fold(table, f, UPPER[k] as int) == (if isUnicode then LOWER[k] else UPPER[k]) as int
              && Fold(table, f, LOWER[k] as int) == (if isUnicode then LOWER[k] else UPPER[k]) as int
    ensures forall c: Word32 :: c < 0x41 || 0x5A < c < 0x61 || 0x7A < c ==> Fold(table, f, c) == c
    ensures Bounded(table) && Sorted(RunPoints(table)) && Even(RunPoints(table))
    ensures CaseTable(table, f, RunPoints(table))
    ensures forall c: Word32 :: Fold(table, f, c) == AsciiFold(c, isUnicode)
  {
    table := [Run(if isUnicode then 'A' as int else 'a' as int, 26)];
    f := (c, i) => AsciiFold(c, isUnicode);
    forall c: Word32 ensures Fold(table, f, c) == AsciiFold(c, isUnicode) {
      if Holds(table[0], c) { OneRun(table, c, 0); }
    }
    forall k: nat | k < 26
      ensures Fold(table, f, UPPER[k] as int) == (if isUnicode then LOWER[k] else UPPER[k]) as int
      ensures Fold(table, f, LOWER[k] as int) == (if isUnicode then LOWER[k] else UPPER[k]) as int
    {
      AsciiLetters(isUnicode, k);
    }
    hide Fold;
    TableHasMask(table, f);
  }

  /** The set becomes exactly its image under folding. */
  method CrRegexpCanonicalize(cr: CharRange, crMask: CharRange, table: seq<Run>, f: Folding)
    requires cr.Valid() && Sorted(cr.Points()) && Even(cr.Points())
    requires crMask.Valid() && Sorted(crMask.Points()) && Even(crMask.Points())
    requires crMask != cr && crMask.points != cr.points
    requires CaseTable(table, f, crMask.Points())
    modifies cr, cr.points, crMask, crMask.points
    ensures cr.Valid() && Increasing(cr.Points()) && Even(cr.Points())
    ensures forall d: int :: Member(cr.Points(), d) <==>
      exists c: Word32 :: Member(old(cr.Points()), c) && Fold(table, f, c) == d
  {
    hide Member;
    hide Increasing;
    hide Fold;
    hide RunOf;
    hide SortedRuns;
    hide Covered;
    hide Proper;
    hide Forward;
    hide Masks;
    hide Foldable;
    ghost var set0, mask := cr.Points(), crMask.Points();
    IncreasingSorted();
    var crInter := new CharRange();
    var crResult := new CharRange();
    var crSub := new CharRange();
    var pts := cr.points[..cr.len];
    crInter.CrOp(crMask.points[..crMask.len], pts, INTER);
    ghost var inter := crInter.Points();
    crMask.Invert();
    crSub.CrOp(crMask.points[..crMask.len], pts, INTER);
    ghost var sub := crSub.Points();
    MaskedFoldable(table, f, mask, set0, inter);
    FoldSet(crResult, table, f, crInter);
    ProperForward(crResult.Points());
    SortAndRemoveOverlap(crResult);
    ghost var res := crResult.Points();
    cr.len := 0;
    cr.CrOp(crResult.points[..crResult.len], crSub.points[..crSub.len], UNION);
    ImageOfSet(table, f, mask, set0, inter, sub, res, cr.Points());
  }

  lemma MaskedFoldable(table: seq<Run>, f: Folding, mask: seq<Word32>, set0: seq<Word32>, inter: seq<Word32>)
    requires CaseTable(table, f, mask)
    requires forall c: int :: Member(inter, c) <==> Member(mask, c) && Member(set0, c)
    ensures Foldable(table, f, inter)
  {
    hide Member;
    hide Fold;
    hide RunOf;
    hide SortedRuns;
  }

  lemma ImageOfSet(table: seq<Run>, f: Folding, mask: seq<Word32>, set0: seq<Word32>, inter: seq<Word32>,
      sub: seq<Word32>, res: seq<Word32>, end: seq<Word32>)
    requires Masks(table, f, mask) && Even(set0)
    requires forall c: int :: Member(inter, c) <==> Member(mask, c) && Member(set0, c)
    requires forall c: int :: Member(sub, c) <==> 0 <= c < UINT32_MAX && !Member(mask, c) && Member(set0, c)
    requires forall d: int :: Member(res, d) <==> exists c: Word32 :: Member(inter, c) && Fold(table, f, c) == d
    requires forall d: int :: Member(end, d) <==> Member(res, d) || Member(sub, d)
    ensures forall d: int :: Member(end, d) <==> exists c: Word32 :: Member(set0, c) && Fold(table, f, c) == d
  {
    hide Member;
    hide Fold;
    hide Masks;
    forall d: int ensures Member(end, d) <==> exists c: Word32 :: Member(set0, c) && Fold(table, f, c) == d {
      ImageSplit(table, f, mask, set0, inter, sub, res, d);
    }
  }

  lemma ProperForward(pts: seq<Word32>)
    requires Proper(pts)
    ensures Forward(pts)
  {
  }

  lemma IncreasingSorted()
    ensures forall pts :: Increasing(pts) ==> Sorted(pts)
  {
  }

  /** The image of a set is the image of its masked part and the rest of it. */
  lemma ImageSplit(table: seq<Run>, f: Folding, mask: seq<Word32>, set0: seq<Word32>, inter: seq<Word32>,
      sub: seq<Word32>, res: seq<Word32>, d: int)
    requires Masks(table, f, mask) && Even(set0)
    requires forall c: int :: Member(inter, c) <==> Member(mask, c) && Member(set0, c)
    requires forall c: int :: Member(sub, c) <==> 0 <= c < UINT32_MAX && !Member(mask, c) && Member(set0, c)
    requires Member(res, d) <==> exists c: Word32 :: Member(inter, c) && Fold(table, f, c) == d
    ensures Member(res, d) || Member(sub, d) <==> exists c: Word32 :: Member(set0, c) && Fold(table, f, c) == d
  {
    hide Member;
    hide Fold;
    if Member(sub, d) {
      var c: Word32 := d;
      assert Member(set0, c) && Fold(table, f, c) == d;
    }
    forall c: Word32 | Member(set0, c) && Fold(table, f, c) == d ensures Member(res, d) || Member(sub, d) {
      if Member(mask, c) {
        assert Member(inter, c);
      } else {
        MemberRange(set0, c);
      }
    }
  }

  /** The end of the word range is in no set. */
  lemma MemberRange(pts: seq<Word32>, c: int)
    requires Even(pts) && Member(pts, c)
    ensures 0 <= c < UINT32_MAX
  {
    if c < 0 {
      BelowNone(pts, c);
    } else if c >= UINT32_MAX {
      BelowAll(pts, c);
    }
  }
}
