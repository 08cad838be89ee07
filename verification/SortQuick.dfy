/** `rqsort`: quicksort with an explicit stack of fifty entries, heap sort beyond fifty
    levels, insertion sort for short segments. */
module SortQuick {
  import opened SortOrder
  import opened SortHeap
  import opened SortPartition

  const MAX_DEPTH: nat := 50

  datatype Segment = Segment(base: nat, count: nat, depth: nat)

  // ----- segments still to be sorted -----

  predicate Inside(g: Segment, i: int) {
    g.base <= i < g.base + g.count
  }

  predicate Apart(g: Segment, h: Segment) {
    g.base + g.count <= h.base || h.base + h.count <= g.base
  }

  /** The segments lie in the array and do not overlap. */
  ghost predicate Separate(segs: seq<Segment>, n: nat) {
    (forall k :: 0 <= k < |segs| ==> segs[k].base + segs[k].count <= n)
    && (forall k, l :: 0 <= k < l < |segs| ==> Apart(segs[k], segs[l]))
  }

  ghost predicate Together(segs: seq<Segment>, i: int, j: int) {
    exists k :: 0 <= k < |segs| && Inside(segs[k], i) && Inside(segs[k], j)
  }

  /** Two elements are in order, unless they lie in the same pending segment. */
  ghost predicate OrderedAcross<T>(cmp: Comparator<T>, s: seq<T>, segs: seq<Segment>) {
    forall i, j :: 0 <= i < j < |s| ==> Le(cmp, s[i], s[j]) || Together(segs, i, j)
  }

  lemma AllPending<T>(cmp: Comparator<T>, s: seq<T>, g: Segment)
    requires g.base == 0 && g.count == |s|
    ensures OrderedAcross(cmp, s, [g]) && Separate([g], |s|)
  {
    forall i, j | 0 <= i < j < |s| ensures Together([g], i, j) {
      assert Inside([g][0], i) && Inside([g][0], j);
    }
  }

  lemma NothingPending<T>(cmp: Comparator<T>, s: seq<T>)
    requires OrderedAcross(cmp, s, [])
    ensures SortedFrom(cmp, s, 0, |s|)
  {
  }

  /** Elements of different pending segments, or of none, stay in order when one segment is
      rearranged. */
  lemma AcrossKept<T>(cmp: Comparator<T>, s: seq<T>, t: seq<T>, segs: seq<Segment>, g: Segment, i: nat, j: nat)
    requires Separate(segs + [g], |s|) && OrderedAcross(cmp, s, segs + [g])
      && Rearranged(s, t, g.base, g.base + g.count)
    requires i < j < |s| && !(Inside(g, i) && Inside(g, j))
    ensures Le(cmp, t[i], t[j]) || Together(segs, i, j)
  {
    hide Rearranged;
    hide Le;
    var all := segs + [g];
    var x: nat, y: nat := i, j;
    if Inside(g, i) {
      x := RearrangedFrom(s, t, g.base, g.base + g.count, i);
    } else {
      RearrangedOutside(s, t, g.base, g.base + g.count, i);
    }
    if Inside(g, j) {
      y := RearrangedFrom(s, t, g.base, g.base + g.count, j);
    } else {
      RearrangedOutside(s, t, g.base, g.base + g.count, j);
    }
    assert x < y && Inside(g, x) == Inside(g, i) && Inside(g, y) == Inside(g, j);
    if Together(all, x, y) {
      var k :| 0 <= k < |all| && Inside(all[k], x) && Inside(all[k], y);
      assert k < |segs|;
      assert all[|segs|] == g && Apart(all[k], all[|segs|]);
      assert Inside(segs[k], i) && Inside(segs[k], j);
    }
  }

  /** A sorted segment is no longer pending. */
  lemma SegmentDone<T>(cmp: Comparator<T>, s: seq<T>, t: seq<T>, segs: seq<Segment>, g: Segment)
    requires Separate(segs + [g], |s|) && OrderedAcross(cmp, s, segs + [g])
      && Rearranged(s, t, g.base, g.base + g.count)
    requires SortedFrom(cmp, t, g.base, g.base + g.count)
    ensures OrderedAcross(cmp, t, segs)
  {
    hide Rearranged;
    assert |t| == |s| by { SameLength(s, t, g.base, g.base + g.count); }
    forall i, j | 0 <= i < j < |t| ensures Le(cmp, t[i], t[j]) || Together(segs, i, j) {
      if !(Inside(g, i) && Inside(g, j)) { AcrossKept(cmp, s, t, segs, g, i, j); }
    }
  }

  lemma SameLength<T>(s: seq<T>, t: seq<T>, lo: nat, hi: nat)
    requires Rearranged(s, t, lo, hi)
    ensures |s| == |t|
  {
  }

  /** Different zones are in order. */
  lemma ZonesOrdered<T(!new)>(cmp: Comparator<T>, p: T, s: seq<T>, lo: nat, lt: int, gt: int, hi: int, i: nat, j: nat)
    requires TotalPreorder(cmp) && ThreeZones(cmp, p, s, lo, lt, gt, hi) && lo <= i < j < hi && !(j < lt) && !(gt <= i)
    ensures Le(cmp, s[i], s[j])
  {
    assert Le(cmp, s[i], p) by { LeTotal(cmp, s[i], p); LeTotal(cmp, p, s[i]); }
    assert Le(cmp, p, s[j]) by { LeTotal(cmp, p, s[j]); }
    LeTrans(cmp, s[i], p, s[j]);
  }

  /** A partitioned segment leaves two smaller ones. */
  lemma SegmentSplit<T(!new)>(cmp: Comparator<T>, p: T, s: seq<T>, t: seq<T>, segs: seq<Segment>, g: Segment,
      low: Segment, high: Segment, gt: nat)
    requires TotalPreorder(cmp)
    requires Separate(segs + [g], |s|) && OrderedAcross(cmp, s, segs + [g])
      && Rearranged(s, t, g.base, g.base + g.count)
    requires ThreeZones(cmp, p, t, g.base, g.base + low.count, g.base + gt, g.base + g.count)
    requires low.base == g.base && high.base == g.base + gt && high.count == g.count - gt
    ensures OrderedAcross(cmp, t, segs + [low, high]) && OrderedAcross(cmp, t, segs + [high, low])
  {
    hide Rearranged;
    hide TotalPreorder;
    hide ThreeZones;
    assert |t| == |s| by { SameLength(s, t, g.base, g.base + g.count); }
    ZoneSizes(cmp, p, t, g.base, g.base + low.count, g.base + gt, g.base + g.count);
    forall i, j | 0 <= i < j < |t|
      ensures Le(cmp, t[i], t[j]) || (Together(segs + [low, high], i, j) && Together(segs + [high, low], i, j))
    {
      if !(Inside(g, i) && Inside(g, j)) {
        AcrossKept(cmp, s, t, segs, g, i, j);
        if Together(segs, i, j) { StillTogether(segs, [low, high], i, j); StillTogether(segs, [high, low], i, j); }
      } else if j < g.base + low.count {
        InEither(segs, low, high, low, i, j);
      } else if g.base + gt <= i {
        InEither(segs, low, high, high, i, j);
      } else {
        ZonesOrdered(cmp, p, t, g.base, g.base + low.count, g.base + gt, g.base + g.count, i, j);
      }
    }
  }

  lemma ZoneSizes<T>(cmp: Comparator<T>, p: T, s: seq<T>, lo: nat, lt: int, gt: int, hi: int)
    requires ThreeZones(cmp, p, s, lo, lt, gt, hi)
    ensures lo <= lt < gt <= hi <= |s|
  {
  }

  lemma StillTogether(segs: seq<Segment>, more: seq<Segment>, i: int, j: int)
    requires Together(segs, i, j)
    ensures Together(segs + more, i, j)
  {
    var k :| 0 <= k < |segs| && Inside(segs[k], i) && Inside(segs[k], j);
    assert Inside((segs + more)[k], i) && Inside((segs + more)[k], j);
  }

  lemma InEither(segs: seq<Segment>, low: Segment, high: Segment, g: Segment, i: int, j: int)
    requires (g == low || g == high) && Inside(g, i) && Inside(g, j)
    ensures Together(segs + [low, high], i, j) && Together(segs + [high, low], i, j)
  {
    var n := |segs|;
    var x, y := segs + [low, high], segs + [high, low];
    if g == low {
      assert Inside(x[n], i) && Inside(x[n], j) && Inside(y[n + 1], i) && Inside(y[n + 1], j);
    } else {
      assert Inside(x[n + 1], i) && Inside(x[n + 1], j) && Inside(y[n], i) && Inside(y[n], j);
    }
  }

  /** The two pieces of a segment are apart from the others and from each other. */
  lemma SplitSeparate(segs: seq<Segment>, g: Segment, x: Segment, y: Segment, n: nat)
    requires Separate(segs + [g], n)
    requires g.base <= x.base && x.base + x.count <= g.base + g.count && g.base <= y.base
      && y.base + y.count <= g.base + g.count
    requires Apart(x, y)
    ensures Separate(segs + [x, y], n)
  {
    var all, new' := segs + [g], segs + [x, y];
    var m := |segs|;
    assert all[m] == g && new'[m] == x && new'[m + 1] == y;
    forall k | 0 <= k < |new'| ensures new'[k].base + new'[k].count <= n {
      assert k < m ==> new'[k] == all[k];
    }
    forall k, l | 0 <= k < l < |new'| ensures Apart(new'[k], new'[l]) {
      if k < m {
        assert new'[k] == all[k] && Apart(all[k], all[m]);
        if l < m { assert new'[l] == all[l] && Apart(all[k], all[l]); }
      }
    }
  }

  // ----- the stack -----

  /** Depths grow from the bottom of the stack to its top; only the first segment of all
      has depth zero, and it is alone. */
  ghost predicate DepthsGrow(segs: seq<Segment>) {
    (forall k, l :: 0 <= k < l < |segs| ==> segs[k].depth < segs[l].depth)
    && (forall k :: 0 <= k < |segs| ==> segs[k].depth <= MAX_DEPTH && (segs[k].depth == 0 ==> |segs| == 1))
  }

  /** Growing depths between 1 and 50 leave room for at most fifty entries. */
  lemma {:induction false} DepthBound(segs: seq<Segment>, k: nat)
    requires DepthsGrow(segs) && k < |segs| && |segs| > 1
    ensures k < segs[k].depth
    decreases k
  {
    if k > 0 { DepthBound(segs, k - 1); }
  }

  /** Room for one more entry, and the stack discipline with it. */
  lemma PushFits(segs: seq<Segment>, g: Segment)
    requires DepthsGrow(segs) && (forall k :: 0 <= k < |segs| ==> 1 <= segs[k].depth < g.depth)
      && 1 <= g.depth <= MAX_DEPTH
    ensures DepthsGrow(segs + [g]) && |segs| < MAX_DEPTH
  {
    var all := segs + [g];
    if |segs| > 0 {
      DepthBound(all, |all| - 1);
    }
  }

  /** The work left: every pending element, and one more for every segment. */
  function Work(segs: seq<Segment>): nat {
    if segs == [] then 0 else Work(segs[..|segs| - 1]) + segs[|segs| - 1].count + 1
  }

  lemma WorkPush(segs: seq<Segment>, g: Segment)
    ensures Work(segs + [g]) == Work(segs) + g.count + 1
  {
    assert (segs + [g])[..|segs|] == segs;
  }

  // ----- insertion sort -----

  /** The elements of `[lo, i]` are in order, but for the one at `j`, which may be smaller
      than those before it. */
  ghost predicate Sinking<T>(cmp: Comparator<T>, s: seq<T>, lo: nat, i: nat, j: nat) {
    i < |s| && lo <= j <= i && forall x, y :: lo <= x < y <= i && y != j ==> Le(cmp, s[x], s[y])
  }

  lemma SinkStep<T(!new)>(cmp: Comparator<T>, s: seq<T>, lo: nat, i: nat, j: nat)
    requires TotalPreorder(cmp) && Sinking(cmp, s, lo, i, j) && j > lo && cmp(s[j - 1], s[j]) > 0
    ensures Sinking(cmp, Swapped(s, j, j - 1), lo, i, j - 1)
  {
    var t := Swapped(s, j, j - 1);
    LeTotal(cmp, s[j], s[j - 1]);
    LeTotal(cmp, s[j - 1], s[j]);
    forall x, y | lo <= x < y <= i && y != j - 1 ensures Le(cmp, t[x], t[y]) {
      if y == j {
        if x < j - 1 { assert Le(cmp, s[x], s[j - 1]); }
      }
    }
  }

  lemma SinkStop<T(!new)>(cmp: Comparator<T>, s: seq<T>, lo: nat, i: nat, j: nat)
    requires TotalPreorder(cmp) && Sinking(cmp, s, lo, i, j) && (j > lo ==> cmp(s[j - 1], s[j]) <= 0)
    ensures SortedFrom(cmp, s, lo, i + 1)
  {
    forall x, y | lo <= x < y < i + 1 ensures Le(cmp, s[x], s[y]) {
      if y == j && x < j - 1 { LeTrans(cmp, s[x], s[j - 1], s[j]); }
    }
  }

  /** One element sinks into the sorted elements before it. */
  method Insert<T(!new)>(a: array<T>, lo: nat, i: nat, hi: nat, cmp: Comparator<T>)
    requires TotalPreorder(cmp) && lo <= i < hi <= a.Length && SortedFrom(cmp, a[..], lo, i)
    modifies a
    ensures Rearranged(old(a[..]), a[..], lo, hi) && SortedFrom(cmp, a[..], lo, i + 1)
  {
    hide Rearranged;
    hide TotalPreorder;
    ghost var s0 := a[..];
    RearrangedSelf(s0, lo, hi);
    var j := i;
    assert Sinking(cmp, a[..], lo, i, j);
    hide Sinking;
    while j > lo && cmp(a[j - 1], a[j]) > 0
      invariant lo <= j <= i && Rearranged(s0, a[..], lo, hi) && Sinking(cmp, a[..], lo, i, j)
    {
      ghost var s := a[..];
      SinkStep(cmp, s, lo, i, j);
      Swap(a, j, j - 1, lo, hi);
      RearrangedTrans(s0, s, a[..], lo, hi);
      j := j - 1;
    }
    SinkStop(cmp, a[..], lo, i, j);
  }

  method InsertionSort<T(!new)>(a: array<T>, lo: nat, n: nat, cmp: Comparator<T>)
    requires TotalPreorder(cmp) && lo + n <= a.Length
    modifies a
    ensures Rearranged(old(a[..]), a[..], lo, lo + n) && SortedFrom(cmp, a[..], lo, lo + n)
  {
    hide Rearranged;
    hide TotalPreorder;
    ghost var s0 := a[..];
    RearrangedSelf(s0, lo, lo + n);
    var i := lo + 1;
    while i < lo + n
      invariant lo < i && (i <= lo + n || (n == 0 && i == lo + 1)) && Rearranged(s0, a[..], lo, lo + n)
      invariant SortedFrom(cmp, a[..], lo, if i <= lo + n then i else lo + n)
    {
      ghost var s := a[..];
      Insert(a, lo, i, lo + n, cmp);
      RearrangedTrans(s0, s, a[..], lo, lo + n);
      i := i + 1;
    }
  }

  // ----- the whole sort -----

  /** What holds between two turns: the array is a rearrangement, and every pair is in order
      unless it is pending on the stack or in the segment at hand. */
  ghost predicate Sorting<T>(cmp: Comparator<T>, s0: seq<T>, s: seq<T>, segs: seq<Segment>, g: Segment) {
    |s| == |s0| && Rearranged(s0, s, 0, |s0|) && Separate(segs + [g], |s|) && OrderedAcross(cmp, s, segs + [g])
  }

  lemma ResortSegment<T>(cmp: Comparator<T>, s0: seq<T>, s: seq<T>, t: seq<T>, segs: seq<Segment>, g: Segment)
    requires Sorting(cmp, s0, s, segs, g) && Rearranged(s, t, g.base, g.base + g.count)
      && SortedFrom(cmp, t, g.base, g.base + g.count)
    ensures |t| == |s0| && Rearranged(s0, t, 0, |s0|) && Separate(segs, |t|) && OrderedAcross(cmp, t, segs)
  {
    hide Rearranged;
    hide OrderedAcross;
    SegmentDone(cmp, s, t, segs, g);
    SameLength(s, t, g.base, g.base + g.count);
    assert (segs + [g])[|segs|] == g;
    RearrangedWider(s, t, g.base, g.base + g.count, 0, |s0|);
    RearrangedTrans(s0, s, t, 0, |s0|);
    FewerSeparate(segs, g, |t|);
  }

  lemma FewerSeparate(segs: seq<Segment>, g: Segment, n: nat)
    requires Separate(segs + [g], n)
    ensures Separate(segs, n)
  {
    var all := segs + [g];
    forall k | 0 <= k < |segs| ensures segs[k].base + segs[k].count <= n { assert all[k] == segs[k]; }
    forall k, l | 0 <= k < l < |segs| ensures Apart(segs[k], segs[l]) { assert all[k] == segs[k] && all[l] == segs[l]; }
  }

  /** After the partition: the larger piece is stacked, the smaller one is at hand. */
  lemma SortingSplit<T(!new)>(cmp: Comparator<T>, p: T, s0: seq<T>, s: seq<T>, t: seq<T>, segs: seq<Segment>,
      g: Segment, low: Segment, high: Segment, gt: nat)
    requires TotalPreorder(cmp) && Sorting(cmp, s0, s, segs, g) && Rearranged(s, t, g.base, g.base + g.count)
    requires ThreeZones(cmp, p, t, g.base, g.base + low.count, g.base + gt, g.base + g.count)
    requires low.base == g.base && high.base == g.base + gt && high.count == g.count - gt
    ensures Sorting(cmp, s0, t, segs + [low], high) && Sorting(cmp, s0, t, segs + [high], low)
  {
    hide Rearranged;
    hide OrderedAcross;
    hide TotalPreorder;
    hide ThreeZones;
    SegmentSplit(cmp, p, s, t, segs, g, low, high, gt);
    SameLength(s, t, g.base, g.base + g.count);
    ZoneSizes(cmp, p, t, g.base, g.base + low.count, g.base + gt, g.base + g.count);
    assert (segs + [g])[|segs|] == g;
    RearrangedWider(s, t, g.base, g.base + g.count, 0, |s0|);
    RearrangedTrans(s0, s, t, 0, |s0|);
    SplitSeparate(segs, g, low, high, |t|);
    SplitSeparate(segs, g, high, low, |t|);
    assert segs + [low] + [high] == segs + [low, high] && segs + [high] + [low] == segs + [high, low];
  }

  /** The inner loop: partition until the segment at hand is short, stacking the larger
      pieces; then sort it. */
  method SortSegment<T(!new)>(a: array<T>, cmp: Comparator<T>, stack: array<Segment>, sp0: nat, g0: Segment,
      ghost s0: seq<T>)
    returns (sp: nat)
    requires TotalPreorder(cmp) && stack.Length == MAX_DEPTH && sp0 < MAX_DEPTH && a as object != stack
    requires Sorting(cmp, s0, a[..], stack[..sp0], g0)
    requires DepthsGrow(stack[..sp0]) && (forall k :: 0 <= k < sp0 ==> 1 <= stack[k].depth <= g0.depth)
      && g0.depth <= MAX_DEPTH
    modifies a, stack
    ensures sp <= MAX_DEPTH && DepthsGrow(stack[..sp]) && Work(stack[..sp]) <= Work(old(stack[..sp0])) + g0.count
    ensures Separate(stack[..sp], a.Length) && OrderedAcross(cmp, a[..], stack[..sp]) && Rearranged(s0, a[..], 0, |s0|)
  {
    hide TotalPreorder;
    hide OrderedAcross;
    hide Rearranged;
    hide ThreeZones;
    hide Separate;
    hide DepthsGrow;
    hide Work;
    var g := g0;
    sp := sp0;
    ghost var before := Work(stack[..sp0]);
    while g.count > 6
      invariant sp <= MAX_DEPTH && g.depth <= MAX_DEPTH
      invariant Sorting(cmp, s0, a[..], stack[..sp], g)
      invariant DepthsGrow(stack[..sp]) && forall k :: 0 <= k < sp ==> 1 <= stack[k].depth <= g.depth
      invariant Work(stack[..sp]) + g.count <= before + g0.count
      decreases g.count
    {
      ghost var s, segs := a[..], stack[..sp];
      SegmentInside(s, segs, g);
      var depth := g.depth + 1;
      if depth > MAX_DEPTH {
        // the depth limit: no quadratic time
        HeapSortX(a, g.base, g.count, cmp);
        ResortSegment(cmp, s0, s, a[..], segs, g);
        return;
      }
      var lt, gt, p := Partition(a, g.base, g.count, cmp);
      ZoneSizes(cmp, p, a[..], g.base, g.base + lt, g.base + gt, g.base + g.count);
      var low := Segment(g.base, lt, depth);
      var high := Segment(g.base + gt, g.count - gt, depth);
      SortingSplit(cmp, p, s0, s, a[..], segs, g, low, high, gt);
      var larger, smaller := if lt > g.count - gt then low else high, if lt > g.count - gt then high else low;
      assert forall k :: 0 <= k < |segs| ==> segs[k] == stack[k];
      PushFits(segs, larger);
      WorkPush(segs, larger);
      stack[sp] := larger;
      sp := sp + 1;
      assert stack[..sp] == segs + [larger];
      g := smaller;
    }
    ghost var s, segs := a[..], stack[..sp];
    SegmentInside(s, segs, g);
    InsertionSort(a, g.base, g.count, cmp);
    ResortSegment(cmp, s0, s, a[..], segs, g);
  }

  lemma SegmentInside<T>(s: seq<T>, segs: seq<Segment>, g: Segment)
    requires Separate(segs + [g], |s|)
    ensures g.base + g.count <= |s|
  {
    assert (segs + [g])[|segs|] == g;
  }

  lemma PopDepths(segs: seq<Segment>)
    requires segs != [] && DepthsGrow(segs)
    ensures var n := |segs| - 1;
            DepthsGrow(segs[..n]) && segs[n].depth <= MAX_DEPTH && forall k :: 0 <= k < n ==>
              1 <= segs[k].depth <= segs[n].depth
  {
    var n := |segs| - 1;
    forall k | 0 <= k < n ensures 1 <= segs[k].depth <= segs[n].depth {
      assert segs[k].depth < segs[n].depth;
    }
  }

  lemma LastApart<T>(s: seq<T>)
    requires s != []
    ensures s == s[..|s| - 1] + [s[|s| - 1]]
  {
  }

  lemma PopParts(segs: seq<Segment>)
    requires segs != [] && DepthsGrow(segs)
    ensures var n := |segs| - 1;
            segs == segs[..n] + [segs[n]] && DepthsGrow(segs[..n]) && segs[n].depth <= MAX_DEPTH
            && (forall k :: 0 <= k < n ==> 1 <= segs[k].depth <= segs[n].depth)
            && Work(segs) == Work(segs[..n]) + segs[n].count + 1
  {
    hide DepthsGrow;
    PopDepths(segs);
    LastApart(segs);
  }

  /** `rqsort`: the array ends up sorted, with the elements it had; the fifty entries of the
      stack are enough. */
  method RqSort<T(!new)>(a: array<T>, cmp: Comparator<T>)
    requires TotalPreorder(cmp)
    modifies a
    ensures SortedFrom(cmp, a[..], 0, a.Length)
    ensures multiset(a[..]) == multiset(old(a[..]))
  {
    hide TotalPreorder;
    hide OrderedAcross;
    hide Separate;
    hide DepthsGrow;
    hide Work;
    hide Rearranged;
    var n := a.Length;
    if n < 2 { return; }
    ghost var s0 := a[..];
    var stack := new Segment[MAX_DEPTH](i => Segment(0, 0, 0));
    stack[0] := Segment(0, n, 0);
    var sp: nat := 1;
    assert stack[..1] == [Segment(0, n, 0)];
    AllPending(cmp, s0, Segment(0, n, 0));
    RearrangedSelf(s0, 0, n);
    OneSegmentGrows(Segment(0, n, 0));
    while sp > 0
      invariant sp <= MAX_DEPTH && DepthsGrow(stack[..sp])
      invariant Separate(stack[..sp], n) && OrderedAcross(cmp, a[..], stack[..sp]) && Rearranged(s0, a[..], 0, n)
      decreases Work(stack[..sp])
    {
      ghost var segs := stack[..sp];
      PopParts(segs);
      sp := sp - 1;
      var g := stack[sp];
      assert segs[..sp] == stack[..sp] && segs[sp] == g;
      assert forall k :: 0 <= k < sp ==> stack[k] == segs[k];
      sp := SortSegment(a, cmp, stack, sp, g, s0);
    }
    assert stack[..0] == [];
    NothingPending(cmp, a[..]);
    WholePermutation(s0, a[..]);
  }

  lemma OneSegmentGrows(g: Segment)
    requires g.depth == 0
    ensures DepthsGrow([g])
  {
  }

  lemma WholePermutation<T>(s: seq<T>, t: seq<T>)
    requires Rearranged(s, t, 0, |s|)
    ensures multiset(s) == multiset(t)
  {
    assert s[0..|s|] == s && t[0..|s|] == t;
  }
}
