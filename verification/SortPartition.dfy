/** The partition of `rqsort`: four zones while scanning, three after the block swaps. */
module SortPartition {
  import opened SortOrder

  /** Every element of `[i, j)` compares with the pivot as `sign` says: the pivot is
      greater (1), equal (0) or less (-1). */
  ghost predicate Zone<T>(cmp: Comparator<T>, p: T, s: seq<T>, i: int, j: int, sign: int) {
    0 <= i && j <= |s| && forall k :: i <= k < j ==> SignOf(cmp(p, s[k])) == sign
  }

  function SignOf(c: int): int {
    if c > 0 then 1 else if c < 0 then -1 else 0
  }

  /** Equal, smaller, unknown, greater, equal. */
  ghost predicate FourZones<T>(cmp: Comparator<T>, p: T, s: seq<T>, lo: nat, lt: int, i: int, j: int, gt: int,
      hi: int) {
    lo < lt <= i <= j <= gt <= hi <= |s| && s[lo] == p
    && Zone(cmp, p, s, lo, lt, 0) && Zone(cmp, p, s, lt, i, 1) && Zone(cmp, p, s, j, gt, -1)
      && Zone(cmp, p, s, gt, hi, 0)
  }

  /** One of the other two is not greater, the other one not less. */
  ghost predicate IsMedian<T>(cmp: Comparator<T>, s: seq<T>, x: nat, y: nat, z: nat, m: nat)
    requires x < |s| && y < |s| && z < |s| && m < |s|
  {
    exists u, v | u in {x, y, z} && v in {x, y, z} && multiset{u, m, v} == multiset{x, y, z} ::
      Le(cmp, s[u], s[m]) && Le(cmp, s[m], s[v])
  }

  /** The median of three positions. */
  method Med3<T(!new)>(a: array<T>, x: nat, y: nat, z: nat, cmp: Comparator<T>) returns (m: nat)
    requires TotalPreorder(cmp) && x < a.Length && y < a.Length && z < a.Length
    ensures m == x || m == y || m == z
    ensures IsMedian(cmp, a[..], x, y, z, m)
  {
    if cmp(a[x], a[y]) < 0 {
      if cmp(a[y], a[z]) < 0 {
        m := y;
        assert multiset{x, m, z} == multiset{x, y, z};
      } else if cmp(a[x], a[z]) < 0 {
        m := z;
        assert multiset{x, m, y} == multiset{x, y, z};
        LeTotal(cmp, a[z], a[y]);
        LeTotal(cmp, a[y], a[z]);
      } else {
        m := x;
        assert multiset{z, m, y} == multiset{x, y, z};
        LeTotal(cmp, a[x], a[z]);
        LeTotal(cmp, a[z], a[x]);
      }
    } else {
      LeTotal(cmp, a[x], a[y]);
      LeTotal(cmp, a[y], a[x]);
      LeTotal(cmp, a[y], a[z]);
      LeTotal(cmp, a[z], a[y]);
      LeTotal(cmp, a[x], a[z]);
      LeTotal(cmp, a[z], a[x]);
      if cmp(a[y], a[z]) > 0 {
        m := y;
        assert multiset{z, m, x} == multiset{x, y, z};
      } else if cmp(a[x], a[z]) < 0 {
        m := x;
        assert multiset{y, m, z} == multiset{x, y, z};
      } else {
        m := z;
        assert multiset{y, m, x} == multiset{x, y, z};
      }
    }
  }

  /** One element of the left scan. */
  lemma LeftStep<T>(cmp: Comparator<T>, p: T, s: seq<T>, lo: nat, lt: int, i: int, j: int, gt: int, hi: int)
    requires FourZones(cmp, p, s, lo, lt, i, j, gt, hi) && i < j && cmp(p, s[i]) >= 0
    ensures cmp(p, s[i]) == 0 ==> FourZones(cmp, p, Swapped(s, lt, i), lo, lt + 1, i + 1, j, gt, hi)
    ensures cmp(p, s[i]) > 0 ==> FourZones(cmp, p, s, lo, lt, i + 1, j, gt, hi)
  {
  }

  /** The first inner loop: past smaller elements, collecting equal ones on the left. */
  method ScanRight<T>(a: array<T>, lo: nat, lt0: nat, i0: nat, j: nat, gt: nat, hi: nat, cmp: Comparator<T>, ghost p: T)
    returns (lt: nat, i: nat)
    requires FourZones(cmp, p, a[..], lo, lt0, i0, j, gt, hi)
    modifies a
    ensures FourZones(cmp, p, a[..], lo, lt, i, j, gt, hi) && Rearranged(old(a[..]), a[..], lo, hi)
    ensures i >= i0 && (i < j ==> i < a.Length && cmp(p, a[i]) < 0)
  {
    hide Rearranged;
    hide FourZones;
    ghost var s0 := a[..];
    ZoneBounds(cmp, p, s0, lo, lt0, i0, j, gt, hi);
    RearrangedSelf(s0, lo, hi);
    lt, i := lt0, i0;
    while i < j && cmp(a[lo], a[i]) >= 0
      invariant lt <= i <= j && a[lo] == p
      invariant FourZones(cmp, p, a[..], lo, lt, i, j, gt, hi) && Rearranged(s0, a[..], lo, hi) && i >= i0
      decreases j - i
    {
      ghost var s := a[..];
      LeftStep(cmp, p, s, lo, lt, i, j, gt, hi);
      if cmp(a[lo], a[i]) == 0 {
        Swap(a, lt, i, lo, hi);
        RearrangedTrans(s0, s, a[..], lo, hi);
        lt := lt + 1;
      }
      i := i + 1;
      ZoneBounds(cmp, p, a[..], lo, lt, i, j, gt, hi);
    }
  }

  lemma RightStep<T>(cmp: Comparator<T>, p: T, s: seq<T>, lo: nat, lt: int, i: int, j: int, gt: int, hi: int)
    requires FourZones(cmp, p, s, lo, lt, i, j, gt, hi) && i < j && cmp(p, s[j - 1]) <= 0
    ensures cmp(p, s[j - 1]) == 0 ==> FourZones(cmp, p, Swapped(s, gt - 1, j - 1), lo, lt, i, j - 1, gt - 1, hi)
    ensures cmp(p, s[j - 1]) < 0 ==> FourZones(cmp, p, s, lo, lt, i, j - 1, gt, hi)
  {
  }

  /** An element that is not smaller than the pivot; an equal one goes to the far right. */
  method PassGreater<T>(a: array<T>, lo: nat, lt: nat, i: nat, j: nat, gt0: nat, hi: nat, cmp: Comparator<T>,
      ghost p: T)
    returns (gt: nat)
    requires FourZones(cmp, p, a[..], lo, lt, i, j + 1, gt0, hi) && i < j && cmp(p, a[j]) <= 0 && cmp(p, a[i]) < 0
    modifies a
    ensures Rearranged(old(a[..]), a[..], lo, hi)
    ensures FourZones(cmp, p, a[..], lo, lt, i, j, gt, hi) && cmp(p, a[i]) < 0 && a[lo] == p && lo < i && j <= gt <= hi
  {
    hide Rearranged;
    hide FourZones;
    hide Zone;
    gt := gt0;
    ghost var s := a[..];
    ZoneBounds(cmp, p, s, lo, lt, i, j + 1, gt, hi);
    RearrangedSelf(s, lo, hi);
    RightStep(cmp, p, s, lo, lt, i, j + 1, gt, hi);
    if cmp(a[lo], a[j]) == 0 {
      gt := gt - 1;
      Swap(a, gt, j, lo, hi);
    }
    ZoneBounds(cmp, p, a[..], lo, lt, i, j, gt, hi);
  }

  /** The second inner loop: the pointer steps back before each comparison, so it ends on
      an element to exchange, or not behind the left pointer. */
  method ScanLeft<T>(a: array<T>, lo: nat, lt: nat, i: nat, j0: nat, gt0: nat, hi: nat, cmp: Comparator<T>, ghost p: T)
    returns (j: int, gt: nat)
    requires FourZones(cmp, p, a[..], lo, lt, i, j0, gt0, hi) && (i < j0 ==> cmp(p, a[i]) < 0)
    modifies a
    ensures Rearranged(old(a[..]), a[..], lo, hi) && j < j0
    ensures i < j ==> FourZones(cmp, p, a[..], lo, lt, i, j + 1, gt, hi) && cmp(p, a[j]) > 0 && cmp(p, a[i]) < 0
    ensures i >= j ==> FourZones(cmp, p, a[..], lo, lt, i, i, gt, hi)
  {
    hide Rearranged;
    hide FourZones;
    ghost var s0 := a[..];
    ZoneBounds(cmp, p, s0, lo, lt, i, j0, gt0, hi);
    RearrangedSelf(s0, lo, hi);
    j, gt := j0 - 1, gt0;
    while i < j && cmp(a[lo], a[j]) <= 0
      invariant lo < i && i - 1 <= j < j0 && j < gt <= hi && a[lo] == p && (j == i - 1 ==> i == j0)
      invariant FourZones(cmp, p, a[..], lo, lt, i, j + 1, gt, hi) && Rearranged(s0, a[..], lo, hi)
      invariant i <= j ==> cmp(p, a[i]) < 0
      decreases j - i
    {
      ghost var s := a[..];
      gt := PassGreater(a, lo, lt, i, j, gt, hi, cmp, p);
      RearrangedTrans(s0, s, a[..], lo, hi);
      j := j - 1;
    }
    if i == j { LastGreater(cmp, p, a[..], lo, lt, i, gt, hi); }
  }

  lemma LastGreater<T>(cmp: Comparator<T>, p: T, s: seq<T>, lo: nat, lt: int, i: int, gt: int, hi: int)
    requires FourZones(cmp, p, s, lo, lt, i, i + 1, gt, hi) && cmp(p, s[i]) < 0
    ensures FourZones(cmp, p, s, lo, lt, i, i, gt, hi)
  {
  }

  lemma ExchangeStep<T>(cmp: Comparator<T>, p: T, s: seq<T>, lo: nat, lt: int, i: int, j: int, gt: int, hi: int)
    requires FourZones(cmp, p, s, lo, lt, i, j + 1, gt, hi) && i < j && cmp(p, s[i]) < 0 && cmp(p, s[j]) > 0
    ensures FourZones(cmp, p, Swapped(s, i, j), lo, lt, i + 1, j, gt, hi)
  {
  }

  /** One turn of the scanning loop. */
  method ScanTurn<T>(a: array<T>, lo: nat, lt0: nat, i0: nat, j0: nat, gt0: nat, hi: nat, cmp: Comparator<T>,
      ghost p: T)
    returns (done: bool, lt: nat, i: nat, j: int, gt: nat)
    requires FourZones(cmp, p, a[..], lo, lt0, i0, j0, gt0, hi)
    modifies a
    ensures Rearranged(old(a[..]), a[..], lo, hi)
    ensures done ==> FourZones(cmp, p, a[..], lo, lt, i, i, gt, hi)
    ensures !done ==> FourZones(cmp, p, a[..], lo, lt, i, j, gt, hi) && j - i < j0 - i0
  {
    hide Rearranged;
    hide Zone;
    ghost var s := a[..];
    lt, i := ScanRight(a, lo, lt0, i0, j0, gt0, hi, cmp, p);
    ghost var s1 := a[..];
    j, gt := ScanLeft(a, lo, lt, i, j0, gt0, hi, cmp, p);
    RearrangedTrans(s, s1, a[..], lo, hi);
    done := i >= j;
    if !done {
      ghost var s2 := a[..];
      ExchangeStep(cmp, p, s2, lo, lt, i, j, gt, hi);
      Swap(a, i, j, lo, hi);
      RearrangedTrans(s, s2, a[..], lo, hi);
      i := i + 1;
    }
  }

  /** The scanning loop. */
  method Scan<T>(a: array<T>, lo: nat, hi: nat, cmp: Comparator<T>, ghost p: T) returns (lt: nat, i: nat, gt: nat)
    requires lo < hi <= a.Length && a[lo] == p && cmp(p, p) == 0
    modifies a
    ensures FourZones(cmp, p, a[..], lo, lt, i, i, gt, hi) && Rearranged(old(a[..]), a[..], lo, hi)
  {
    hide Rearranged;
    ghost var s0 := a[..];
    RearrangedSelf(s0, lo, hi);
    lt, i, gt := lo + 1, lo + 1, hi;
    var j: int := hi;
    assert FourZones(cmp, p, a[..], lo, lt, i, j, gt, hi);
    hide Zone;
    hide FourZones;
    while true
      invariant FourZones(cmp, p, a[..], lo, lt, i, j, gt, hi) && Rearranged(s0, a[..], lo, hi)
      decreases j - i
    {
      ghost var s := a[..];
      ZoneBounds(cmp, p, s, lo, lt, i, j, gt, hi);
      var done: bool;
      done, lt, i, j, gt := ScanTurn(a, lo, lt, i, j, gt, hi, cmp, p);
      RearrangedTrans(s0, s, a[..], lo, hi);
      if done { break; }
    }
  }

  lemma ZoneBounds<T>(cmp: Comparator<T>, p: T, s: seq<T>, lo: nat, lt: int, i: int, j: int, gt: int, hi: int)
    requires FourZones(cmp, p, s, lo, lt, i, j, gt, hi)
    ensures lo < lt <= i <= j <= gt <= hi <= |s| && s[lo] == p
  {
  }

  // ----- moving the equal elements to the middle -----

  /** Ranges `[x, x + n)` and `[y, y + n)` exchanged. */
  ghost predicate BlockSwapped<T>(s: seq<T>, t: seq<T>, x: nat, y: nat, n: nat) {
    x + n <= y && y + n <= |s| && |t| == |s|
    && (forall k :: 0 <= k < |s| && !(x <= k < x + n) && !(y <= k < y + n) ==> t[k] == s[k])
    && (forall k :: x <= k < x + n ==> t[k] == s[k + (y - x)])
    && (forall k :: y <= k < y + n ==> t[k] == s[k - (y - x)])
  }

  /** `swap_block`. */
  method SwapBlock<T>(a: array<T>, x: nat, y: nat, n: nat, ghost lo: nat, ghost hi: nat)
    requires lo <= x && x + n <= y && y + n <= hi <= a.Length
    modifies a
    ensures BlockSwapped(old(a[..]), a[..], x, y, n) && Rearranged(old(a[..]), a[..], lo, hi)
  {
    hide Swapped;
    hide Rearranged;
    ghost var s0 := a[..];
    RearrangedSelf(s0, lo, hi);
    var k := 0;
    while k < n
      invariant k <= n && Rearranged(s0, a[..], lo, hi)
      invariant BlockSwapped(s0, a[..], x, y, k)
    {
      ghost var s := a[..];
      Swap(a, x + k, y + k, lo, hi);
      RearrangedTrans(s0, s, a[..], lo, hi);
      BlockGrows(s0, s, a[..], x, y, k);
      k := k + 1;
    }
  }

  lemma BlockGrows<T>(s0: seq<T>, s: seq<T>, t: seq<T>, x: nat, y: nat, k: nat)
    requires BlockSwapped(s0, s, x, y, k) && x + k < y && y + k < |s| && t == Swapped(s, x + k, y + k)
    ensures BlockSwapped(s0, t, x, y, k + 1)
  {
  }

  /** Zones `[lo, m)` and `[m, hi)` change places when the shorter one is exchanged with the
      far end of the longer one. */
  lemma ZonesExchanged<T>(cmp: Comparator<T>, p: T, s: seq<T>, t: seq<T>, lo: nat, m: nat, hi: nat, n: nat, first: int,
      second: int)
    requires lo <= m <= hi <= |s| && Zone(cmp, p, s, lo, m, first) && Zone(cmp, p, s, m, hi, second)
    requires n == (if m - lo <= hi - m then m - lo else hi - m) && BlockSwapped(s, t, lo, hi - n, n)
    ensures Zone(cmp, p, t, lo, lo + (hi - m), second) && Zone(cmp, p, t, lo + (hi - m), hi, first)
  {
  }

  /** Smaller, equal, greater. */
  ghost predicate ThreeZones<T>(cmp: Comparator<T>, p: T, s: seq<T>, lo: nat, lt: int, gt: int, hi: int) {
    lo <= lt < gt <= hi <= |s|
    && Zone(cmp, p, s, lo, lt, 1) && Zone(cmp, p, s, lt, gt, 0) && Zone(cmp, p, s, gt, hi, -1)
  }

  lemma ZoneUntouched<T>(cmp: Comparator<T>, p: T, s: seq<T>, t: seq<T>, x: nat, y: nat, n: nat, i: int, j: int,
      sign: int)
    requires BlockSwapped(s, t, x, y, n) && Zone(cmp, p, s, i, j, sign) && (j <= x || y + n <= i)
    ensures Zone(cmp, p, t, i, j, sign)
  {
  }

  lemma ZonesJoin<T>(cmp: Comparator<T>, p: T, s: seq<T>, i: int, j: int, k: int, sign: int)
    requires Zone(cmp, p, s, i, j, sign) && Zone(cmp, p, s, j, k, sign) && i <= j <= k
    ensures Zone(cmp, p, s, i, k, sign)
  {
  }

  lemma SelfEqual<T(!new)>(cmp: Comparator<T>, x: T)
    requires TotalPreorder(cmp)
    ensures cmp(x, x) == 0
  {
  }

  /** The partition of the elements of `[lo, lo + n)` around a median of three. */
  method Partition<T(!new)>(a: array<T>, lo: nat, n: nat, cmp: Comparator<T>) returns (lt: nat, gt: nat, ghost p: T)
    requires TotalPreorder(cmp) && n > 6 && lo + n <= a.Length
    modifies a
    ensures Rearranged(old(a[..]), a[..], lo, lo + n)
    ensures ThreeZones(cmp, p, a[..], lo, lo + lt, lo + gt, lo + n)
  {
    hide Rearranged;
    hide Zone;
    hide FourZones;
    hide ThreeZones;
    hide IsMedian;
    hide TotalPreorder;
    hide Swapped;
    ghost var s0 := a[..];
    var m4, hi := n / 4, lo + n;
    var m := Med3(a, lo + m4, lo + 2 * m4, lo + 3 * m4, cmp);
    Swap(a, lo, m, lo, hi);
    p := a[lo];
    SelfEqual(cmp, p);
    ghost var s1 := a[..];
    var plt, i, pgt := Scan(a, lo, hi, cmp, p);
    RearrangedTrans(s0, s1, a[..], lo, hi);
    ghost var s2 := a[..];
    ZoneBounds(cmp, p, s2, lo, plt, i, i, pgt, hi);
    lt, gt := EqualToMiddle(a, lo, plt, i, pgt, hi, cmp, p);
    RearrangedTrans(s0, s2, a[..], lo, hi);
  }

  /** The two block swaps. */
  method EqualToMiddle<T>(a: array<T>, lo: nat, plt: nat, i: nat, pgt: nat, hi: nat, cmp: Comparator<T>,
      ghost p: T) returns (lt: nat, gt: nat)
    requires FourZones(cmp, p, a[..], lo, plt, i, i, pgt, hi)
    modifies a
    ensures Rearranged(old(a[..]), a[..], lo, hi)
    ensures ThreeZones(cmp, p, a[..], lo, lo + lt, lo + gt, hi)
  {
    hide SignOf;
    hide Rearranged;
    hide Zone;
    hide BlockSwapped;
    ghost var s0 := a[..];
    var span, span2 := plt - lo, i - plt;
    lt := i - plt;
    if span > span2 { span := span2; }
    SwapBlock(a, lo, i - span, span, lo, hi);
    ghost var s1 := a[..];
    ZonesExchanged(cmp, p, s0, s1, lo, plt, i, span, 0, 1);
    ZoneUntouched(cmp, p, s0, s1, lo, i - span, span, i, pgt, -1);
    ZoneUntouched(cmp, p, s0, s1, lo, i - span, span, pgt, hi, 0);
    span, span2 := hi - pgt, pgt - i;
    gt := hi - (pgt - i) - lo;
    if span > span2 { span := span2; }
    SwapBlock(a, i, hi - span, span, lo, hi);
    ghost var s2 := a[..];
    ZonesExchanged(cmp, p, s1, s2, i, pgt, hi, span, -1, 0);
    ZoneUntouched(cmp, p, s1, s2, i, hi - span, span, lo, lo + lt, 1);
    ZoneUntouched(cmp, p, s1, s2, i, hi - span, span, lo + lt, i, 0);
    ZonesJoin(cmp, p, s2, lo + lt, i, lo + gt, 0);
    RearrangedTrans(s0, s1, s2, lo, hi);
  }
}
