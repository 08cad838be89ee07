/** A character class and the range instruction emitted for it accept the same
    characters. */
module RegexRange {
  import opened Common
  import opened RegexSyntax
  import opened RegexCode
  import opened RegexMatcher
  import opened RegexVm

  predicate Hit(b: seq<nat>, c: nat, k: int)
    requires |b| % 2 == 0
  {
    0 <= k < |b| / 2 && b[2 * k] <= c <= b[2 * k + 1]
  }

  /** Inclusive intervals in increasing order, without overlap. */
  predicate SortedBounds(b: seq<nat>) {
    && |b| % 2 == 0
    && (forall i, j :: 0 <= i < j < |b| ==> if i % 2 == 0 then b[i] <= b[j] else b[i] < b[j])
  }

  lemma Separated(b: seq<nat>, k: nat, m: nat)
    requires SortedBounds(b) && k < m < |b| / 2
    ensures b[2 * k + 1] < b[2 * m]
  {
  }

  /** A probe below or above `c` leaves the interval of `c` in the half searched next. */
  lemma ProbeSide(b: seq<nat>, c: nat, k: int, m: nat)
    requires SortedBounds(b) && Hit(b, c, k) && m < |b| / 2
    ensures c < b[2 * m] ==> k < m
    ensures c > b[2 * m + 1] ==> m < k
  {
    if m < k {
      Separated(b, m, k);
    } else if k < m {
      Separated(b, k, m);
    }
  }

  /** The binary search finds the interval of `c` whenever there is one. */
  lemma {:induction false} SearchFinds(b: seq<nat>, c: nat, lo: int, hi: int, k: int)
    requires SortedBounds(b) && 0 <= lo <= k <= hi < |b| / 2
    requires Hit(b, c, k)
    ensures RangeSearch(b, c, lo, hi)
    decreases hi - lo + 1
  {
    hide SortedBounds;
    var m := (lo + hi) / 2;
    ProbeSide(b, c, k, m);
    if c < b[2 * m] {
      SearchFinds(b, c, lo, m - 1, k);
    } else if c > b[2 * m + 1] {
      SearchFinds(b, c, m + 1, hi, k);
    }
  }

  /** What the binary search finds is an interval of `c`. */
  lemma {:induction false} SearchFound(b: seq<nat>, c: nat, lo: int, hi: int) returns (k: int)
    requires |b| % 2 == 0 && 0 <= lo && hi < |b| / 2
    requires RangeSearch(b, c, lo, hi)
    ensures Hit(b, c, k)
    decreases hi - lo + 1
  {
    var m := (lo + hi) / 2;
    if c < b[2 * m] {
      k := SearchFound(b, c, lo, m - 1);
    } else if c > b[2 * m + 1] {
      k := SearchFound(b, c, m + 1, hi);
    } else {
      k := m;
    }
  }

  lemma BoundsSorted(pts: seq<nat>, wide: bool)
    requires SortedPoints(pts) && pts != []
    requires wide || HighPoint(pts) <= 0xFFFF
    ensures SortedBounds(Bounds(pts, wide))
  {
    var b := Bounds(pts, wide);
    var n := |pts|;
    forall i, j | 0 <= i < j < n
      ensures if i % 2 == 0 then b[i] <= b[j] else b[i] < b[j]
    {
      assert pts[i] < pts[j];
      assert i < n - 2 ==> pts[i] < pts[n - 2];
      assert i < n - 1 ==> pts[i] < pts[n - 1];
    }
  }

  /** Membership in the set, in terms of the emitted bounds. */
  lemma BoundsHit(pts: seq<nat>, wide: bool, c: nat, k: nat)
    requires SortedPoints(pts) && 2 * k + 1 < |pts| && c < 0xFFFF_FFFE
    ensures var b := Bounds(pts, wide);
            pts[2 * k] <= c < pts[2 * k + 1]
            <==> (Hit(b, c, k) && (!wide && pts[2 * k + 1] == UINT32_MAX ==> c <= 0xFFFF))
                 || (!wide && pts[2 * k + 1] == UINT32_MAX && pts[2 * k] <= c && c >= 0xFFFF)
  {
  }

  lemma Ends(b: seq<nat>, k: nat)
    requires SortedBounds(b) && k < |b| / 2
    ensures b[0] <= b[2 * k] && b[2 * k + 1] <= b[|b| - 1]
  {
    assert k > 0 ==> b[0] <= b[2 * k];
    assert 2 * k + 1 < |b| - 1 ==> b[2 * k + 1] <= b[|b| - 1];
  }

  /** Only the last point can be infinite. */
  lemma InfiniteIsLast(pts: seq<nat>, k: nat)
    requires SortedPoints(pts) && 2 * k + 1 < |pts| && pts[2 * k + 1] == UINT32_MAX
    ensures 2 * k + 1 == |pts| - 1
  {
    assert pts[|pts| - 1] <= UINT32_MAX;
  }

  lemma HitAccepted(b: seq<nat>, wide: bool, c: nat, k: nat)
    requires SortedBounds(b) && Hit(b, c, k)
    ensures RangeAccepts(b, wide, c)
  {
    Ends(b, k);
    SearchFinds(b, c, 0, |b| / 2 - 1, k);
  }

  lemma AcceptedHit(b: seq<nat>, wide: bool, c: nat) returns (k: nat)
    requires RangeAccepts(b, wide, c)
    ensures Hit(b, c, k) || (!wide && c >= 0xFFFF && b[|b| - 1] == 0xFFFF && k == |b| / 2 - 1)
  {
    k := |b| / 2 - 1;
    if !(!wide && c >= 0xFFFF && b[|b| - 1] == 0xFFFF) {
      k := SearchFound(b, c, 0, k);
    }
  }

  lemma MemberAccepted(pts: seq<nat>, wide: bool, c: nat, k: nat)
    requires SortedPoints(pts) && pts != [] && c <= 0x10FFFF
    requires wide || HighPoint(pts) <= 0xFFFF
    requires 2 * k + 1 < |pts| && pts[2 * k] <= c < pts[2 * k + 1]
    ensures RangeAccepts(Bounds(pts, wide), wide, c)
  {
    var b := Bounds(pts, wide);
    BoundsSorted(pts, wide);
    BoundsHit(pts, wide, c, k);
    if Hit(b, c, k) {
      HitAccepted(b, wide, c, k);
    } else {
      InfiniteIsLast(pts, k);
      Ends(b, k);
    }
  }

  lemma AcceptedMember(pts: seq<nat>, wide: bool, c: nat) returns (k: nat)
    requires SortedPoints(pts) && pts != [] && c <= 0x10FFFF
    requires wide || HighPoint(pts) <= 0xFFFF
    requires RangeAccepts(Bounds(pts, wide), wide, c)
    ensures 2 * k + 1 < |pts| && pts[2 * k] <= c < pts[2 * k + 1]
  {
    var b := Bounds(pts, wide);
    k := AcceptedHit(b, wide, c);
    BoundsHit(pts, wide, c, k);
  }

  /** The range instruction of a class accepts exactly its members. */
  lemma ClassTest(pts: seq<nat>, c: nat)
    requires SortedPoints(pts) && c <= 0x10FFFF
    ensures TestChar(RangeCode(pts), c) <==> InSet(pts, c)
  {
    if pts != [] {
      var wide := HighPoint(pts) > 0xFFFF;
      if InSet(pts, c) {
        var k :| 0 <= k < |pts| / 2 && pts[2 * k] <= c < pts[2 * k + 1];
        MemberAccepted(pts, wide, c, k);
      }
      if TestChar(RangeCode(pts), c) {
        var k := AcceptedMember(pts, wide, c);
        assert k < |pts| / 2;
      }
    }
  }

  /** The instruction of a one-character atom tests what the atom accepts. */
  function OneCharCode(r: Regex): (i: Instr)
    requires WellFormed(r) && (r.Char? || r.Dot? || r.Class?)
    ensures ReadsOneChar(i)
  {
    match r
    case Char(c) => CharCode(c)
    case Dot(all) => if all then AnyOp else DotOp
    case Class(pts) => RangeCode(pts)
  }

  lemma OneCharTest(r: Regex, c: nat)
    requires WellFormed(r) && (r.Char? || r.Dot? || r.Class?) && c <= 0x10FFFF
    ensures TestChar(OneCharCode(r), c) <==> Accepts(r, c)
  {
    if r.Class? {
      ClassTest(r.points, c);
    }
  }
}
