/** What sorting is about: a comparator that is a total preorder, sortedness, and
    rearranging a stretch of a sequence. */
module SortOrder {

  type Comparator<!T> = (T, T) -> int

  /** Signs are opposite when the arguments are exchanged, and "not greater" is
      transitive: any two elements are comparable, ties allowed. */
  ghost predicate TotalPreorder<T(!new)>(cmp: Comparator<T>) {
    && (forall x, y :: cmp(x, y) > 0 <==> cmp(y, x) < 0)
    && (forall x, y, z :: cmp(x, y) <= 0 && cmp(y, z) <= 0 ==> cmp(x, z) <= 0)
  }

  predicate Le<T>(cmp: Comparator<T>, x: T, y: T) {
    cmp(x, y) <= 0
  }

  ghost predicate SortedFrom<T>(cmp: Comparator<T>, s: seq<T>, lo: nat, hi: nat)
    requires lo <= hi <= |s|
  {
    forall i, j :: lo <= i < j < hi ==> Le(cmp, s[i], s[j])
  }

  lemma LeTotal<T(!new)>(cmp: Comparator<T>, x: T, y: T)
    requires TotalPreorder(cmp)
    ensures Le(cmp, x, y) || Le(cmp, y, x)
    ensures !Le(cmp, x, y) ==> cmp(y, x) < 0
    ensures Le(cmp, x, x)
  {
  }

  lemma LeTrans<T(!new)>(cmp: Comparator<T>, x: T, y: T, z: T)
    requires TotalPreorder(cmp) && Le(cmp, x, y) && Le(cmp, y, z)
    ensures Le(cmp, x, z)
  {
  }

  /** `t` is `s` with the elements of `[lo, hi)` rearranged. */
  ghost predicate Rearranged<T>(s: seq<T>, t: seq<T>, lo: nat, hi: nat) {
    |s| == |t| && lo <= hi <= |s| && s[..lo] == t[..lo] && s[hi..] == t[hi..]
    && multiset(s[lo..hi]) == multiset(t[lo..hi])
  }

  lemma RearrangedTrans<T>(r: seq<T>, s: seq<T>, t: seq<T>, lo: nat, hi: nat)
    requires Rearranged(r, s, lo, hi) && Rearranged(s, t, lo, hi)
    ensures Rearranged(r, t, lo, hi)
  {
  }

  lemma RearrangedSelf<T>(s: seq<T>, lo: nat, hi: nat)
    requires lo <= hi <= |s|
    ensures Rearranged(s, s, lo, hi)
  {
  }

  /** Rearranging less is rearranging. */
  lemma RearrangedWider<T>(s: seq<T>, t: seq<T>, lo: nat, hi: nat, lo': nat, hi': nat)
    requires Rearranged(s, t, lo, hi) && lo' <= lo && hi <= hi' <= |s|
    ensures Rearranged(s, t, lo', hi')
  {
    assert s[lo'..hi'] == s[lo'..lo] + s[lo..hi] + s[hi..hi'];
    assert t[lo'..hi'] == t[lo'..lo] + t[lo..hi] + t[hi..hi'];
    assert s[lo'..lo] == s[..lo][lo'..] == t[..lo][lo'..] == t[lo'..lo];
    assert s[hi..hi'] == s[hi..][..hi' - hi] == t[hi..][..hi' - hi] == t[hi..hi'];
    assert s[..lo'] == s[..lo][..lo'] == t[..lo][..lo'] == t[..lo'];
    assert s[hi'..] == s[hi..][hi' - hi..] == t[hi..][hi' - hi..] == t[hi'..];
  }

  /** The elements of a rearranged stretch are those it had. */
  lemma RearrangedFrom<T>(s: seq<T>, t: seq<T>, lo: nat, hi: nat, i: nat) returns (k: nat)
    requires Rearranged(s, t, lo, hi) && lo <= i < hi
    ensures lo <= k < hi && t[i] == s[k]
  {
    assert t[i] in multiset(t[lo..hi]) by { assert t[lo..hi][i - lo] == t[i]; }
    assert t[i] in s[lo..hi];
    var j :| 0 <= j < |s[lo..hi]| && s[lo..hi][j] == t[i];
    k := lo + j;
  }

  lemma RearrangedOutside<T>(s: seq<T>, t: seq<T>, lo: nat, hi: nat, i: nat)
    requires Rearranged(s, t, lo, hi) && i < |s| && !(lo <= i < hi)
    ensures t[i] == s[i]
  {
    if i < lo {
      assert s[..lo][i] == t[..lo][i];
    } else {
      assert s[hi..][i - hi] == t[hi..][i - hi];
    }
  }

  function Swapped<T>(s: seq<T>, i: nat, j: nat): (t: seq<T>)
    requires i < |s| && j < |s|
  {
    s[i := s[j]][j := s[i]]
  }

  lemma SwappedRearranged<T>(s: seq<T>, i: nat, j: nat, lo: nat, hi: nat)
    requires lo <= i < hi <= |s| && lo <= j < hi
    ensures Rearranged(s, Swapped(s, i, j), lo, hi)
  {
    var t := Swapped(s, i, j);
    var u, v := s[lo..hi], t[lo..hi];
    assert v == u[i - lo := u[j - lo]][j - lo := u[i - lo]];
    SwappedMultiset(u, i - lo, j - lo);
  }

  lemma SwappedMultiset<T>(u: seq<T>, i: nat, j: nat)
    requires i < |u| && j < |u|
    ensures multiset(u[i := u[j]][j := u[i]]) == multiset(u)
  {
  }

  /** The exchange of two elements. */
  method Swap<T>(a: array<T>, i: nat, j: nat, ghost lo: nat, ghost hi: nat)
    requires lo <= i < hi <= a.Length && lo <= j < hi
    modifies a
    ensures a[..] == Swapped(old(a[..]), i, j)
    ensures Rearranged(old(a[..]), a[..], lo, hi)
  {
    SwappedRearranged(a[..], i, j, lo, hi);
    a[i], a[j] := a[j], a[i];
  }
}
