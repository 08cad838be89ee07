/** The heap sort that `rqsort` falls back on. */
module SortHeap {
  import opened SortOrder

  function Parent(c: nat): (p: nat)
    requires c >= 1
    ensures p < c
  {
    (c - 1) / 2
  }

  /** Every child in `[0, n)` whose parent is at least `i` is not greater than it. */
  ghost predicate IsHeap<T>(cmp: Comparator<T>, u: seq<T>, i: nat, n: nat)
    requires n <= |u|
  {
    forall c :: 1 <= c < n && Parent(c) >= i ==> Le(cmp, u[c], u[Parent(c)])
  }

  /** A heap but for the element at `r`, which may be smaller than its children; they are
      not greater than its parent. */
  ghost predicate HeapBut<T>(cmp: Comparator<T>, u: seq<T>, i: nat, n: nat, r: nat)
    requires n <= |u|
  {
    (forall c :: 1 <= c < n && Parent(c) >= i && Parent(c) != r ==> Le(cmp, u[c], u[Parent(c)]))
    && (forall c :: 1 <= c < n && Parent(c) == r && r >= 1 && Parent(r) >= i ==> Le(cmp, u[c], u[Parent(r)]))
  }

  /** The larger child of `r`. */
  ghost predicate BigChild<T>(cmp: Comparator<T>, u: seq<T>, n: nat, r: nat, c: nat)
    requires n <= |u|
  {
    1 <= c < n && Parent(c) == r && forall d :: 1 <= d < n && Parent(d) == r ==> Le(cmp, u[d], u[c])
  }

  lemma SiftStep<T(!new)>(cmp: Comparator<T>, u: seq<T>, i: nat, n: nat, r: nat, c: nat)
    requires TotalPreorder(cmp) && n <= |u| && HeapBut(cmp, u, i, n, r) && BigChild(cmp, u, n, r, c) && i <= r
    requires Le(cmp, u[r], u[c])
    ensures HeapBut(cmp, Swapped(u, r, c), i, n, c)
  {
    var v := Swapped(u, r, c);
    forall d | 1 <= d < n && Parent(d) >= i && Parent(d) != c ensures Le(cmp, v[d], v[Parent(d)]) {
      if d == r {
        assert Le(cmp, u[c], u[Parent(r)]);
      }
    }
    forall d | 1 <= d < n && Parent(d) == c && c >= 1 && Parent(c) >= i ensures Le(cmp, v[d], v[Parent(c)]) {
      assert Le(cmp, u[d], u[c]);
    }
  }

  lemma SiftStop<T(!new)>(cmp: Comparator<T>, u: seq<T>, i: nat, n: nat, r: nat, c: nat)
    requires TotalPreorder(cmp) && n <= |u| && HeapBut(cmp, u, i, n, r) && BigChild(cmp, u, n, r, c)
    requires Le(cmp, u[c], u[r])
    ensures IsHeap(cmp, u, i, n)
  {
    forall d | 1 <= d < n && Parent(d) >= i ensures Le(cmp, u[d], u[Parent(d)]) {
      if Parent(d) == r { LeTrans(cmp, u[d], u[c], u[r]); }
    }
  }

  lemma NoChildren<T>(cmp: Comparator<T>, u: seq<T>, i: nat, n: nat, r: nat)
    requires n <= |u| && HeapBut(cmp, u, i, n, r) && 2 * r + 1 >= n
    ensures IsHeap(cmp, u, i, n)
  {
  }

  lemma ChildIsBig<T(!new)>(cmp: Comparator<T>, u: seq<T>, n: nat, r: nat, c: nat)
    requires TotalPreorder(cmp) && n <= |u| && 2 * r + 1 < n
    requires c == if 2 * r + 1 < n - 1 && cmp(u[2 * r + 1], u[2 * r + 2]) <= 0 then 2 * r + 2 else 2 * r + 1
    ensures BigChild(cmp, u, n, r, c)
  {
    forall d | 1 <= d < n && Parent(d) == r ensures Le(cmp, u[d], u[c]) {
      assert d == 2 * r + 1 || d == 2 * r + 2;
      LeTotal(cmp, u[d], u[c]);
    }
  }

  method SwapInHeap<T>(a: array<T>, lo: nat, m: nat, n: nat, r: nat, c: nat)
    requires lo + m <= a.Length && n <= m && r < n && c < n
    modifies a
    ensures a[lo..lo + m] == Swapped(old(a[lo..lo + m]), r, c)
    ensures Rearranged(old(a[..]), a[..], lo, lo + m) && Rearranged(old(a[lo..lo + m]), a[lo..lo + m], 0, n)
  {
    hide Rearranged;
    ghost var u := a[lo..lo + m];
    Swap(a, lo + r, lo + c, lo, lo + m);
    assert a[lo..lo + m] == Swapped(u, r, c);
    SwappedRearranged(u, r, c, 0, n);
  }

  /** The inner loop: the element at `r0` sinks to its place among the first `n`. */
  method SiftDown<T(!new)>(a: array<T>, lo: nat, m: nat, n: nat, r0: nat, cmp: Comparator<T>, ghost i: nat)
    requires TotalPreorder(cmp) && lo + m <= a.Length && n <= m && i <= r0 < m
    requires HeapBut(cmp, a[lo..lo + m], i, n, r0)
    modifies a
    ensures Rearranged(old(a[..]), a[..], lo, lo + m) && Rearranged(old(a[lo..lo + m]), a[lo..lo + m], 0, n)
    ensures IsHeap(cmp, a[lo..lo + m], i, n)
  {
    hide TotalPreorder;
    hide Parent;
    hide Le;
    hide HeapBut;
    hide IsHeap;
    hide BigChild;
    hide Rearranged;
    ghost var s0, u0 := a[..], a[lo..lo + m];
    RearrangedSelf(s0, lo, lo + m);
    RearrangedSelf(u0, 0, n);
    var r := r0;
    while 2 * r + 1 < n
      invariant i <= r < m && HeapBut(cmp, a[lo..lo + m], i, n, r)
      invariant Rearranged(s0, a[..], lo, lo + m) && Rearranged(u0, a[lo..lo + m], 0, n)
      decreases n - r
    {
      var c := 2 * r + 1;
      ghost var s, u := a[..], a[lo..lo + m];
      if c < n - 1 && cmp(a[lo + c], a[lo + c + 1]) <= 0 { c := c + 1; }
      ChildIsBig(cmp, u, n, r, c);
      if cmp(a[lo + r], a[lo + c]) > 0 {
        LeTotal(cmp, u[c], u[r]);
        SiftStop(cmp, u, i, n, r, c);
        return;
      }
      SiftStep(cmp, u, i, n, r, c);
      SwapInHeap(a, lo, m, n, r, c);
      RearrangedTrans(s0, s, a[..], lo, lo + m);
      RearrangedTrans(u0, u, a[lo..lo + m], 0, n);
      r := c;
    }
    NoChildren(cmp, a[lo..lo + m], i, n, r);
  }

  /** The root of a heap is its greatest element. */
  lemma {:induction false} RootIsGreatest<T(!new)>(cmp: Comparator<T>, u: seq<T>, n: nat, c: nat)
    requires TotalPreorder(cmp) && n <= |u| && IsHeap(cmp, u, 0, n) && c < n
    ensures Le(cmp, u[c], u[0])
    decreases c
  {
    if c == 0 {
      LeTotal(cmp, u[0], u[0]);
    } else {
      RootIsGreatest(cmp, u, n, Parent(c));
      LeTrans(cmp, u[c], u[Parent(c)], u[0]);
    }
  }

  /** Between the two phases: a heap of the first `n`, then the greatest, in order. */
  ghost predicate HalfSorted<T>(cmp: Comparator<T>, u: seq<T>, n: nat)
    requires n <= |u|
  {
    IsHeap(cmp, u, 0, n) && SortedFrom(cmp, u, n, |u|)
    && forall x, y :: 0 <= x < n <= y < |u| ==> Le(cmp, u[x], u[y])
  }

  /** Taking the root out of the heap. */
  lemma RootMoves<T(!new)>(cmp: Comparator<T>, u: seq<T>, i: nat)
    requires TotalPreorder(cmp) && 0 < i < |u| && HalfSorted(cmp, u, i + 1)
    ensures var v := Swapped(u, 0, i);
            HeapBut(cmp, v, 0, i, 0) && SortedFrom(cmp, v, i, |v|) && forall x, y :: 0 <= x < i <= y < |v| ==>
              Le(cmp, v[x], v[y])
  {
    var v := Swapped(u, 0, i);
    forall x | 0 <= x <= i ensures Le(cmp, u[x], u[0]) { RootIsGreatest(cmp, u, i + 1, x); }
    forall c | 1 <= c < i && Parent(c) != 0 ensures Le(cmp, v[c], v[Parent(c)]) {
      assert Le(cmp, u[c], u[Parent(c)]);
    }
  }

  /** Rearranging the heap part keeps it below the sorted part. */
  lemma StillBelow<T(!new)>(cmp: Comparator<T>, u: seq<T>, v: seq<T>, i: nat)
    requires Rearranged(u, v, 0, i) && SortedFrom(cmp, u, i, |u|)
    requires forall x, y :: 0 <= x < i <= y < |u| ==> Le(cmp, u[x], u[y])
    ensures SortedFrom(cmp, v, i, |v|) && forall x, y :: 0 <= x < i <= y < |v| ==> Le(cmp, v[x], v[y])
  {
    forall y | i <= y < |v| ensures v[y] == u[y] { RearrangedOutside(u, v, 0, i, y); }
    forall x, y | 0 <= x < i <= y < |v| ensures Le(cmp, v[x], v[y]) {
      var k := RearrangedFrom(u, v, 0, i, x);
    }
  }

  /** The first loop: parents sink, from the last one to the root. */
  method BuildHeap<T(!new)>(a: array<T>, lo: nat, m: nat, cmp: Comparator<T>)
    requires TotalPreorder(cmp) && lo + m <= a.Length && m > 1
    modifies a
    ensures Rearranged(old(a[..]), a[..], lo, lo + m) && IsHeap(cmp, a[lo..lo + m], 0, m)
  {
    hide HeapBut;
    hide IsHeap;
    hide Rearranged;
    ghost var s0 := a[..];
    RearrangedSelf(s0, lo, lo + m);
    var i := m / 2;
    LeavesAreHeap(cmp, a[lo..lo + m], i, m);
    while i > 0
      invariant 0 <= i < m && IsHeap(cmp, a[lo..lo + m], i, m) && Rearranged(s0, a[..], lo, lo + m)
    {
      ghost var s := a[..];
      HeapGrows(cmp, a[lo..lo + m], i, m);
      i := i - 1;
      SiftDown(a, lo, m, m, i, cmp, i);
      RearrangedTrans(s0, s, a[..], lo, lo + m);
    }
  }

  /** One turn of the second loop: the root goes behind the heap. */
  method ExtractRoot<T(!new)>(a: array<T>, lo: nat, m: nat, i: nat, cmp: Comparator<T>)
    requires TotalPreorder(cmp) && lo + m <= a.Length && 0 < i < m && HalfSorted(cmp, a[lo..lo + m], i + 1)
    modifies a
    ensures Rearranged(old(a[..]), a[..], lo, lo + m) && HalfSorted(cmp, a[lo..lo + m], i)
  {
    hide HeapBut;
    hide IsHeap;
    hide Rearranged;
    hide SortedFrom;
    ghost var s0, u := a[..], a[lo..lo + m];
    RootMoves(cmp, u, i);
    SwapInHeap(a, lo, m, i + 1, 0, i);
    ghost var s1, u1 := a[..], a[lo..lo + m];
    SiftDown(a, lo, m, i, 0, cmp, 0);
    StillBelow(cmp, u1, a[lo..lo + m], i);
    RearrangedTrans(s0, s1, a[..], lo, lo + m);
  }

  /** `heapsortx` on the `m` elements from `lo`. */
  method HeapSortX<T(!new)>(a: array<T>, lo: nat, m: nat, cmp: Comparator<T>)
    requires TotalPreorder(cmp) && lo + m <= a.Length
    modifies a
    ensures Rearranged(old(a[..]), a[..], lo, lo + m) && SortedFrom(cmp, a[..], lo, lo + m)
  {
    hide IsHeap;
    hide Rearranged;
    hide HalfSorted;
    ghost var s0 := a[..];
    RearrangedSelf(s0, lo, lo + m);
    if m <= 1 { return; }
    BuildHeap(a, lo, m, cmp);
    HeapIsHalf(cmp, a[lo..lo + m]);
    var i := m - 1;
    while i > 0
      invariant 0 <= i < m && Rearranged(s0, a[..], lo, lo + m) && HalfSorted(cmp, a[lo..lo + m], i + 1)
    {
      ghost var s := a[..];
      ExtractRoot(a, lo, m, i, cmp);
      RearrangedTrans(s0, s, a[..], lo, lo + m);
      i := i - 1;
    }
    SortedStretch(cmp, a[..], lo, m);
  }

  lemma HeapIsHalf<T>(cmp: Comparator<T>, u: seq<T>)
    requires IsHeap(cmp, u, 0, |u|)
    ensures HalfSorted(cmp, u, |u|)
  {
  }

  lemma LeavesAreHeap<T>(cmp: Comparator<T>, u: seq<T>, i: nat, m: nat)
    requires m <= |u| && i == m / 2
    ensures IsHeap(cmp, u, i, m)
  {
  }

  lemma HeapGrows<T>(cmp: Comparator<T>, u: seq<T>, i: nat, m: nat)
    requires m <= |u| && i > 0 && IsHeap(cmp, u, i, m)
    ensures HeapBut(cmp, u, i - 1, m, i - 1)
  {
  }

  lemma SortedStretch<T(!new)>(cmp: Comparator<T>, s: seq<T>, lo: nat, m: nat)
    requires lo + m <= |s| && m >= 1 && HalfSorted(cmp, s[lo..lo + m], 1)
    ensures SortedFrom(cmp, s, lo, lo + m)
  {
    var u := s[lo..lo + m];
    forall i, j | lo <= i < j < lo + m ensures Le(cmp, s[i], s[j]) {
      assert s[i] == u[i - lo] && s[j] == u[j - lo];
    }
  }
}
