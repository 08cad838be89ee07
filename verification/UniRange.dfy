/** Character sets as sorted lists of points: a character is in the set when an odd number of
    points are at or below it. */
module UniRange {
  import opened Common

  // ----- what a list of points means -----

  /** How many points are at or below `c`. */
  function Below(pts: seq<Word32>, c: int): nat
    decreases |pts|
  {
    if pts == [] then 0 else Below(pts[..|pts| - 1], c) + if pts[|pts| - 1] <= c then 1 else 0
  }

  predicate Member(pts: seq<Word32>, c: int) { Below(pts, c) % 2 == 1 }

  predicate Sorted(pts: seq<Word32>) { forall i, j :: 0 <= i < j < |pts| ==> pts[i] <= pts[j] }

  predicate Increasing(pts: seq<Word32>) { forall i, j :: 0 <= i < j < |pts| ==> pts[i] < pts[j] }

  predicate Even(pts: seq<Word32>) { |pts| % 2 == 0 }

  /** The two lists stand for the same set. */
  ghost predicate SameSet(a: seq<Word32>, b: seq<Word32>) { forall c: int :: Member(a, c) <==> Member(b, c) }

  lemma {:induction false} BelowJoin(a: seq<Word32>, b: seq<Word32>, c: int)
    ensures Below(a + b, c) == Below(a, c) + Below(b, c)
    decreases |b|
  {
    if b == [] {
      assert a + b == a;
    } else {
      assert (a + b)[..|a + b| - 1] == a + b[..|b| - 1];
      BelowJoin(a, b[..|b| - 1], c);
    }
  }

  lemma BelowOne(x: Word32, c: int)
    ensures Below([x], c) == if x <= c then 1 else 0
  {
    assert [x][..0] == [];
  }

  lemma BelowTwo(x: Word32, y: Word32, c: int)
    ensures Below([x, y], c) == (if x <= c then 1 else 0) + if y <= c then 1 else 0
  {
    assert [x, y] == [x] + [y];
    BelowJoin([x], [y], c);
    BelowOne(x, c);
    BelowOne(y, c);
  }

  lemma {:induction false} BelowAll(pts: seq<Word32>, c: int)
    requires forall i :: 0 <= i < |pts| ==> pts[i] <= c
    ensures Below(pts, c) == |pts|
    decreases |pts|
  {
    if pts != [] { BelowAll(pts[..|pts| - 1], c); }
  }

  lemma {:induction false} BelowNone(pts: seq<Word32>, c: int)
    requires forall i :: 0 <= i < |pts| ==> c < pts[i]
    ensures Below(pts, c) == 0
    decreases |pts|
  {
    if pts != [] { BelowNone(pts[..|pts| - 1], c); }
  }

  /** In a sorted list, `k` points are at or below `c` when `c` lies between the points around
      position `k`. */
  lemma BelowSplit(pts: seq<Word32>, c: int, k: nat)
    requires Sorted(pts) && k <= |pts| && (k > 0 ==> pts[k - 1] <= c) && (k < |pts| ==> c < pts[k])
    ensures Below(pts, c) == k
  {
    hide Below;
    assert pts == pts[..k] + pts[k..];
    BelowJoin(pts[..k], pts[k..], c);
    forall i | 0 <= i < k ensures pts[..k][i] <= c { if i < k - 1 { assert pts[i] <= pts[k - 1]; } }
    BelowAll(pts[..k], c);
    forall i | 0 <= i < |pts| - k ensures c < pts[k..][i] { if i > 0 { assert pts[k] <= pts[k + i]; } }
    BelowNone(pts[k..], c);
  }

  /** The character lies in the `k`-th interval. */
  predicate InInterval(pts: seq<Word32>, k: nat, c: int) { 2 * k + 1 < |pts| && pts[2 * k] <= c < pts[2 * k + 1] }

  /** A sorted list of an even number of points stands for the union of its intervals. */
  lemma MemberExact(pts: seq<Word32>, c: int)
    requires Sorted(pts) && Even(pts)
    ensures Member(pts, c) <==> exists k: nat :: InInterval(pts, k, c)
  {
    var n: nat := 0;
    while n < |pts| && pts[n] <= c
      invariant n <= |pts| && (n > 0 ==> pts[n - 1] <= c)
    {
      n := n + 1;
    }
    BelowSplit(pts, c, n);
    if n % 2 == 1 {
      assert InInterval(pts, n / 2, c);
    }
    forall k: nat | InInterval(pts, k, c) ensures n == 2 * k + 1 {
      BelowSplit(pts, c, 2 * k + 1);
    }
  }

  // ----- the buffer of points -----

  /** `CharRange`: the first `len` entries of a buffer that grows. */
  class CharRange {
    var points: array<Word32>
    var len: nat

    ghost predicate Valid()
      reads this
    {
      len <= points.Length
    }

    ghost function Points(): seq<Word32>
      requires Valid()
      reads this, points
    {
      points[..len]
    }

    constructor ()
      ensures Valid() && fresh(points) && Points() == []
    {
      points := new Word32[0];
      len := 0;
    }

    method Realloc(size: nat)
      requires Valid()
      modifies this
      ensures Valid() && len == old(len) && size <= points.Length
      ensures points == old(points) || fresh(points)
      ensures points[..len] == old(points[..len])
    {
      if size > points.Length {
        var newSize := if size > points.Length * 3 / 2 then size else points.Length * 3 / 2;
        var old_pt := points;
        var buf := new Word32[newSize];
        forall i | 0 <= i < old_pt.Length { buf[i] := old_pt[i]; }
        points := buf;
      }
    }

    method AddPoint(v: Word32)
      requires Valid()
      modifies this, points
      ensures Valid() && Points() == old(Points()) + [v]
      ensures points == old(points) || fresh(points)
    {
      if len >= points.Length { Realloc(len + 1); }
      points[len] := v;
      len := len + 1;
    }

    method AddInterval(c1: Word32, c2: Word32)
      requires Valid()
      modifies this, points
      ensures Valid() && Points() == old(Points()) + [c1, c2]
      ensures points == old(points) || fresh(points)
    {
      if len + 2 > points.Length { Realloc(len + 2); }
      points[len] := c1;
      len := len + 1;
      points[len] := c2;
      len := len + 1;
    }

    /** The last point pair of the intervals that meet one after the other from `i`. */
    method MeetingEnd(i: nat) returns (j: nat)
      requires Valid() && i + 1 < len && (len - i) % 2 == 0
      ensures i <= j && j + 1 < len && (j - i) % 2 == 0
      ensures Joined(points[..][i..j + 2])
      ensures j + 3 < len ==> points[j + 1] != points[j + 2]
    {
      hide Joined;
      j := i;
      ghost var p := points[..];
      JoinNone(p[i], p[i + 1]);
      assert p[i..i + 2] == [p[i], p[i + 1]];
      while j + 3 < len && points[j + 1] == points[j + 2]
        invariant i <= j && j + 1 < len && (j - i) % 2 == 0
        invariant p == points[..] && Joined(p[i..j + 2])
      {
        JoinMore(p[i..j + 2], p[j + 2], p[j + 3]);
        assert p[i..j + 4] == p[i..j + 2] + [p[j + 2], p[j + 3]];
        j := j + 2;
      }
    }

    /** The intervals that meet from `i` on become one at `k`. */
    method KeepMeeting(i: nat, k: nat, ghost was: seq<Word32>, ghost n: nat) returns (i': nat)
      requires Valid() && len == n && i + 1 < len && (len - i) % 2 == 0 && points[i] != points[i + 1]
      requires Compressing(was, points[..], k, i, n)
      modifies points
      ensures i < i' <= len && (len - i') % 2 == 0 && k + 2 <= i'
      ensures Compressing(was, points[..], k + 2, i', n)
    {
      hide Joined;
      hide Compressed;
      ghost var p := points[..];
      var j := MeetingEnd(i);
      JoinDone(was, p, k, i, j, n);
      points[k] := points[i];
      points[k + 1] := points[j + 1];
      assert points[..] == p[k := p[i]][k + 1 := p[j + 1]];
      i' := j + 2;
    }

    /** Merges consecutive intervals and removes empty ones, in place: the same set, with
        strictly increasing points. */
    method Compress()
      requires Valid() && Sorted(Points()) && Even(Points())
      modifies points, `len
      ensures Valid() && Increasing(Points()) && Even(Points()) && SameSet(Points(), old(Points()))
    {
      ghost var was, n := Points(), len;
      var i, k := 0, 0;
      assert points[..][..n] == was;
      CompressStart(points[..], n);
      hide Compressing;
      hide Joined;
      hide SameSet;
      hide Increasing;
      hide Sorted;
      while i + 1 < len
        invariant 0 <= k <= i <= len == n <= points.Length && k % 2 == 0 && (len - i) % 2 == 0
        invariant Compressing(was, points[..], k, i, n)
      {
        if points[i] == points[i + 1] {
          DropEmpty(was, points[..], k, i, n);
          i := i + 2;
        } else {
          i := KeepMeeting(i, k, was, n);
          k := k + 2;
        }
      }
      CompressEnd(was, points[..], k, n);
      assert points[..k] == points[..][..k];
      len := k;
    }

    /** Union, intersection or symmetric difference of two sets, into an empty one. */
    method CrOp(a: seq<Word32>, b: seq<Word32>, op: Op)
      requires Valid() && len == 0
      requires Sorted(a) && Even(a) && Sorted(b) && Even(b)
      modifies this, points
      ensures Valid() && Increasing(Points()) && Even(Points())
      ensures op == UNION ==> forall c: int :: Member(Points(), c) <==> Member(a, c) || Member(b, c)
      ensures op == INTER ==> forall c: int :: Member(Points(), c) <==> Member(a, c) && Member(b, c)
      ensures op == XOR ==> forall c: int :: Member(Points(), c) <==> (Member(a, c) <==> !Member(b, c))
      ensures points == old(points) || fresh(points)
    {
      var i, j := 0, 0;
      while i < |a| || j < |b|
        invariant Valid() && i <= |a| && j <= |b|
        invariant points == old(points) || fresh(points)
        invariant Merged(Points(), a, i, b, j, op)
        decreases |a| - i + |b| - j
      {
        var v: Word32;
        ghost var i0, j0 := i, j;
        if i < |a| && j < |b| {
          if a[i] < b[j] {
            v, i := a[i], i + 1;
          } else if a[i] == b[j] {
            v, i, j := a[i], i + 1, j + 1;
          } else {
            v, j := b[j], j + 1;
          }
        } else if i < |a| {
          v, i := a[i], i + 1;
        } else {
          v, j := b[j], j + 1;
        }
        MergeStep(Points(), a, i0, i, b, j0, j, op, v);
        var isIn := Apply(op, i % 2 == 1, j % 2 == 1);
        if isIn != (len % 2 == 1) {
          AddPoint(v);
        }
      }
      MergeEnd(Points(), a, b, op);
      ghost var merged := Points();
      Compress();
    }

    method Union1(b: seq<Word32>)
      requires Valid() && Sorted(Points()) && Even(Points()) && Sorted(b) && Even(b)
      modifies this
      ensures Valid() && fresh(points) && Increasing(Points()) && Even(Points())
      ensures forall c: int :: Member(Points(), c) <==> Member(old(Points()), c) || Member(b, c)
    {
      var a := points[..len];
      len := 0;
      points := new Word32[0];
      CrOp(a, b, UNION);
    }

    /** Adds the characters from `c1` to `c2`, none if `c1` is just past `c2`. */
    method UnionInterval(c1: Word32, c2: Word32)
      requires Valid() && Sorted(Points()) && Even(Points())
      requires c1 <= c2 + 1 <= UINT32_MAX
      modifies this
      ensures Valid() && fresh(points) && Increasing(Points()) && Even(Points())
      ensures forall c: int :: Member(Points(), c) <==> Member(old(Points()), c) || c1 <= c <= c2
    {
      var b: seq<Word32> := [c1, (c2 + 1) % 0x1_0000_0000];
      Union1(b);
      forall c: int ensures Member(b, c) <==> c1 <= c <= c2 { BelowTwo(c1, c2 + 1, c); }
    }

    /** Adds a point before all others and one after them. */
    method Widen()
      requires Valid()
      modifies this, points
      ensures Valid() && Points() == [0] + old(Points()) + [UINT32_MAX]
      ensures points == old(points) || fresh(points)
    {
      var n := len;
      Realloc(n + 2);
      forall i | 0 <= i < n { points[i + 1] := points[i]; }
      points[0] := 0;
      points[n + 1] := UINT32_MAX;
      len := n + 2;
    }

    /** The complement, up to the end of the word range. */
    method Invert()
      requires Valid() && Sorted(Points()) && Even(Points())
      modifies this, points
      ensures Valid() && Increasing(Points()) && Even(Points())
      ensures forall c: int :: Member(Points(), c) <==> 0 <= c < UINT32_MAX && !Member(old(Points()), c)
      ensures points == old(points) || fresh(points)
    {
      ghost var was := Points();
      Widen();
      hide Member;
      ghost var wider := [0] + was + [UINT32_MAX];
      forall c: int ensures Member(wider, c) <==> 0 <= c < UINT32_MAX && !Member(was, c) { Complemented(was, c); }
      Compress();
    }
  }

  // ----- the proof of the compression -----

  lemma MemberJoin(a: seq<Word32>, b: seq<Word32>, c: int)
    ensures Member(a + b, c) <==> Member(a, c) != Member(b, c)
  {
    BelowJoin(a, b, c);
  }

  lemma MemberTwo(x: Word32, y: Word32, c: int)
    ensures Member([x, y], c) <==> (x <= c) != (y <= c)
  {
    BelowTwo(x, y, c);
  }

  /** The output so far, strictly increasing, and the input still to come, sorted and after
      it, have together the parity of the whole. */
  ghost predicate Compressed(was: seq<Word32>, out: seq<Word32>, tail: seq<Word32>) {
    && Even(out) && Even(tail) && Increasing(out) && Sorted(tail)
    && (out != [] && tail != [] ==> out[|out| - 1] < tail[0])
    && (forall c: int :: Member(was, c) <==> Member(out, c) != Member(tail, c))
  }

  lemma TailDrop(was: seq<Word32>, out: seq<Word32>, tail: seq<Word32>)
    requires |tail| > 1 && tail[0] == tail[1] && Compressed(was, out, tail)
    ensures Compressed(was, out, tail[2..])
  {
    hide Member;
    var rest := tail[2..];
    assert tail == [tail[0], tail[1]] + rest;
    forall c: int ensures Member(was, c) <==> Member(out, c) != Member(rest, c) {
      MemberJoin([tail[0], tail[1]], rest, c);
      MemberTwo(tail[0], tail[1], c);
    }
  }

  /** These intervals stand for one interval. */
  ghost predicate Joined(seg: seq<Word32>) {
    |seg| >= 2 && SameSet(seg, [seg[0], seg[|seg| - 1]])
  }

  lemma JoinNone(x: Word32, y: Word32)
    ensures Joined([x, y])
  {
  }

  lemma JoinMore(seg: seq<Word32>, x: Word32, y: Word32)
    requires Joined(seg) && seg[|seg| - 1] == x
    ensures Joined(seg + [x, y])
  {
    hide Member;
    var long, pair := seg + [x, y], [seg[0], y];
    forall c: int ensures Member(long, c) <==> Member(pair, c) {
      MemberJoin(seg, [x, y], c);
      MemberTwo(x, y, c);
      MemberTwo(seg[0], x, c);
      MemberTwo(seg[0], y, c);
    }
  }

  lemma TailJoin(was: seq<Word32>, out: seq<Word32>, tail: seq<Word32>, n: nat)
    requires 2 <= n <= |tail| && n % 2 == 0 && Compressed(was, out, tail) && Joined(tail[..n])
    requires tail[0] != tail[1] && (n < |tail| ==> tail[n - 1] != tail[n])
    ensures Compressed(was, out + [tail[0], tail[n - 1]], tail[n..])
  {
    hide Member;
    var seg, rest := tail[..n], tail[n..];
    var pair := [tail[0], tail[n - 1]];
    var more := out + pair;
    assert tail == seg + rest;
    assert tail[0] < tail[1] <= tail[n - 1];
    forall c: int ensures Member(was, c) <==> Member(more, c) != Member(rest, c) {
      MemberJoin(seg, rest, c);
      MemberJoin(out, pair, c);
    }
  }

  /** In the buffer, the output stands before `k` and the input still to come at `i`. */
  ghost predicate Compressing(was: seq<Word32>, p: seq<Word32>, k: nat, i: nat, n: nat) {
    k <= i <= n <= |p| && Compressed(was, p[..k], p[i..n])
  }

  lemma CompressStart(p: seq<Word32>, n: nat)
    requires n <= |p| && Sorted(p[..n]) && n % 2 == 0
    ensures Compressing(p[..n], p, 0, 0, n)
  {
    assert p[..0] == [] && p[0..n] == p[..n];
    TailStart(p[..n]);
  }

  lemma DropEmpty(was: seq<Word32>, p: seq<Word32>, k: nat, i: nat, n: nat)
    requires Compressing(was, p, k, i, n) && i + 1 < n && p[i] == p[i + 1]
    ensures Compressing(was, p, k, i + 2, n)
  {
    hide Compressed;
    TailDrop(was, p[..k], p[i..n]);
    assert p[i..n][2..] == p[i + 2..n];
  }

  lemma JoinDone(was: seq<Word32>, p: seq<Word32>, k: nat, i: nat, j: nat, n: nat)
    requires Compressing(was, p, k, i, n) && i <= j && j + 1 < n && (j - i) % 2 == 0 && p[i] != p[i + 1]
    requires Joined(p[i..j + 2]) && (j + 2 < n ==> p[j + 1] != p[j + 2])
    ensures Compressing(was, p[k := p[i]][k + 1 := p[j + 1]], k + 2, j + 2, n)
  {
    hide Compressed;
    hide Joined;
    var tail := p[i..n];
    assert p[i..j + 2] == tail[..j + 2 - i];
    TailJoin(was, p[..k], tail, j + 2 - i);
    var q := p[k := p[i]][k + 1 := p[j + 1]];
    assert q[..k + 2] == p[..k] + [p[i], p[j + 1]];
    assert q[j + 2..n] == tail[j + 2 - i..];
  }

  lemma CompressEnd(was: seq<Word32>, p: seq<Word32>, k: nat, n: nat)
    requires Compressing(was, p, k, n, n)
    ensures k <= |p| && SameSet(p[..k], was) && Increasing(p[..k]) && Even(p[..k])
  {
    assert p[n..n] == [];
  }

  lemma TailStart(was: seq<Word32>)
    requires Sorted(was) && Even(was)
    ensures Compressed(was, [], was)
  {
  }

  // ----- the proof of the complement -----

  lemma Complemented(was: seq<Word32>, c: int)
    requires Even(was)
    ensures var wider := [0] + was + [UINT32_MAX];
            Member(wider, c) <==> 0 <= c < UINT32_MAX && !Member(was, c)
  {
    MemberJoin([0] + was, [UINT32_MAX], c);
    MemberJoin([0], was, c);
    BelowOne(0, c);
    BelowOne(UINT32_MAX, c);
    if c < 0 {
      BelowNone(was, c);
    } else if c >= UINT32_MAX {
      BelowAll(was, c);
    }
  }

  // ----- the proof of the merge -----

  datatype Op = UNION | INTER | XOR

  predicate Apply(op: Op, x: bool, y: bool) {
    match op
    case UNION => x || y
    case INTER => x && y
    case XOR => x != y
  }

  /** After `i` points of `a` and `j` points of `b`: the output stands for the combination of
      the points consumed, and all of these are at or below the remaining ones. */
  ghost predicate Merged(out: seq<Word32>, a: seq<Word32>, i: nat, b: seq<Word32>, j: nat, op: Op)
    requires i <= |a| && j <= |b|
  {
    && Sorted(out) && (|out| % 2 == 1 <==> Apply(op, i % 2 == 1, j % 2 == 1))
    && (forall c: int :: Member(out, c) <==> Apply(op, Member(a[..i], c), Member(b[..j], c)))
    && (i > 0 && j < |b| ==> a[i - 1] <= b[j]) && (j > 0 && i < |a| ==> b[j - 1] <= a[i])
    && (forall k :: 0 <= k < |out| ==> (i < |a| ==> out[k] <= a[i]) && (j < |b| ==> out[k] <= b[j]))
  }

  predicate Consumed(a: seq<Word32>, i0: nat, i: nat, v: Word32) {
    i0 <= i <= |a| && i <= i0 + 1 && (i == i0 + 1 ==> a[i0] == v) && (i0 < |a| ==> v <= a[i0])
  }

  /** Seen from at or above `v` all points consumed count; seen from below, none of the new
      ones does. */
  lemma ConsumedBelow(a: seq<Word32>, i0: nat, i: nat, v: Word32, c: int)
    requires Sorted(a) && Consumed(a, i0, i, v) && (i0 > 0 ==> a[i0 - 1] <= v)
    ensures c >= v ==> Below(a[..i], c) == i
    ensures c < v ==> Below(a[..i], c) == Below(a[..i0], c)
  {
    hide Below;
    if i == i0 + 1 {
      assert a[..i] == a[..i0] + [v];
      BelowJoin(a[..i0], [v], c);
      BelowOne(v, c);
    }
    if c >= v {
      forall k | 0 <= k < |a[..i0]| ensures a[..i0][k] <= c { if k < i0 - 1 { assert a[k] <= a[i0 - 1]; } }
      BelowAll(a[..i0], c);
    }
  }

  /** The point `v` is kept exactly when the combination changes there. */
  lemma MergePoint(out: seq<Word32>, a: seq<Word32>, i0: nat, i: nat, b: seq<Word32>, j0: nat, j: nat, op: Op,
      v: Word32, c: int)
    requires Sorted(a) && Sorted(b) && i0 <= |a| && j0 <= |b|
    requires Consumed(a, i0, i, v) && (i0 > 0 ==> a[i0 - 1] <= v)
    requires Consumed(b, j0, j, v) && (j0 > 0 ==> b[j0 - 1] <= v)
    requires forall k :: 0 <= k < |out| ==> out[k] <= v
    requires Member(out, c) <==> Apply(op, Member(a[..i0], c), Member(b[..j0], c))
    ensures var more := if Apply(op, i % 2 == 1, j % 2 == 1) != (|out| % 2 == 1) then out + [v] else out;
            Member(more, c) <==> Apply(op, Member(a[..i], c), Member(b[..j], c))
  {
    hide Below;
    hide Apply;
    ConsumedBelow(a, i0, i, v, c);
    ConsumedBelow(b, j0, j, v, c);
    BelowJoin(out, [v], c);
    BelowOne(v, c);
    if c >= v { BelowAll(out, c); }
  }

  lemma MergeStep(out: seq<Word32>, a: seq<Word32>, i0: nat, i: nat, b: seq<Word32>, j0: nat, j: nat, op: Op, v: Word32)
    requires Sorted(a) && Sorted(b) && i0 <= |a| && j0 <= |b| && Merged(out, a, i0, b, j0, op)
    requires Consumed(a, i0, i, v) && Consumed(b, j0, j, v) && (i > i0 || j > j0)
    ensures Merged(if Apply(op, i % 2 == 1, j % 2 == 1) != (|out| % 2 == 1) then out + [v] else out, a, i, b, j, op)
  {
    hide Member;
    hide Apply;
    var more := if Apply(op, i % 2 == 1, j % 2 == 1) != (|out| % 2 == 1) then out + [v] else out;
    forall c: int ensures Member(more, c) <==> Apply(op, Member(a[..i], c), Member(b[..j], c)) {
      MergePoint(out, a, i0, i, b, j0, j, op, v, c);
    }
  }

  lemma MergeEnd(out: seq<Word32>, a: seq<Word32>, b: seq<Word32>, op: Op)
    requires Even(a) && Even(b) && Merged(out, a, |a|, b, |b|, op)
    ensures Sorted(out) && Even(out)
    ensures forall c: int :: Member(out, c) <==> Apply(op, Member(a, c), Member(b, c))
  {
    assert a[..|a|] == a && b[..|b|] == b;
  }
}
