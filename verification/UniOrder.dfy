/** Canonical ordering: every run of combining characters is sorted by class, ties kept in
    order, and characters of class 0 (the starters) stay where they are. */
module UniOrder {

  type Class = k: nat | k < 256

  /** The combining class of a character. */
  type Classes = int -> Class

  // ----- what the order is -----

  /** No combining character stands before one of a smaller class other than 0. */
  ghost predicate Ordered(cc: Classes, s: seq<int>) {
    forall i, j :: 0 <= i < j < |s| && j == i + 1 ==> cc(s[j]) == 0 || cc(s[i]) <= cc(s[j])
  }

  /** The starters and the characters of class `k`, in order. */
  function Proj(cc: Classes, s: seq<int>, k: Class): seq<int>
    decreases |s|
  {
    if s == [] then [] else (if cc(s[0]) == 0 || cc(s[0]) == k then [s[0]] else []) + Proj(cc, s[1..], k)
  }

  /** The same starters, and between them the same characters of every class in the same
      order: the texts differ only in how classes are mixed. */
  ghost predicate Alike(cc: Classes, s: seq<int>, t: seq<int>) {
    forall k: Class :: Proj(cc, s, k) == Proj(cc, t, k)
  }

  lemma {:induction false} ProjJoin(cc: Classes, s: seq<int>, t: seq<int>, k: Class)
    ensures Proj(cc, s + t, k) == Proj(cc, s, k) + Proj(cc, t, k)
    decreases |s|
  {
    if s == [] {
      assert s + t == t;
    } else {
      assert (s + t)[1..] == s[1..] + t;
      ProjJoin(cc, s[1..], t, k);
    }
  }

  lemma ProjOne(cc: Classes, c: int, k: Class)
    ensures Proj(cc, [c], k) == if cc(c) == 0 || cc(c) == k then [c] else []
  {
    assert [c][1..] == [];
  }

  // ----- insertion -----

  /** `c` put behind the last character whose class is not above its own. */
  function Insert(cc: Classes, t: seq<int>, c: int): (r: seq<int>)
    ensures |r| == |t| + 1
    decreases |t|
  {
    if t == [] || cc(c) == 0 || cc(t[|t| - 1]) <= cc(c) then t + [c]
    else Insert(cc, t[..|t| - 1], c) + [t[|t| - 1]]
  }

  function SortCc(cc: Classes, s: seq<int>): (t: seq<int>)
    ensures |t| == |s|
    decreases |s|
  {
    if s == [] then [] else Insert(cc, SortCc(cc, s[..|s| - 1]), s[|s| - 1])
  }

  lemma {:induction false} InsertOrdered(cc: Classes, t: seq<int>, c: int)
    requires Ordered(cc, t)
    ensures Ordered(cc, Insert(cc, t, c))
    ensures var r := Insert(cc, t, c);
            r[|r| - 1] == c || (t != [] && r[|r| - 1] == t[|t| - 1] && cc(c) < cc(t[|t| - 1]) && cc(c) > 0)
    decreases |t|
  {
    var r := Insert(cc, t, c);
    if t == [] || cc(c) == 0 || cc(t[|t| - 1]) <= cc(c) {
    } else {
      InsertOrdered(cc, t[..|t| - 1], c);
      var front := Insert(cc, t[..|t| - 1], c);
      assert r == front + [t[|t| - 1]];
      if |t| > 1 { assert cc(t[|t| - 1]) == 0 || cc(t[|t| - 2]) <= cc(t[|t| - 1]); }
    }
  }

  lemma {:induction false} InsertAlike(cc: Classes, t: seq<int>, c: int, k: Class)
    ensures Proj(cc, Insert(cc, t, c), k) == Proj(cc, t + [c], k)
    decreases |t|
  {
    if t == [] || cc(c) == 0 || cc(t[|t| - 1]) <= cc(c) {
    } else {
      var front, last := t[..|t| - 1], t[|t| - 1];
      InsertAlike(cc, front, c, k);
      ProjJoin(cc, Insert(cc, front, c), [last], k);
      ProjJoin(cc, front, [c], k);
      assert t == front + [last];
      ProjJoin(cc, t, [c], k);
      ProjJoin(cc, front, [last], k);
      ProjOne(cc, c, k);
      ProjOne(cc, last, k);
    }
  }

  lemma {:induction false} SortCcSorts(cc: Classes, s: seq<int>)
    ensures Ordered(cc, SortCc(cc, s)) && Alike(cc, SortCc(cc, s), s)
    decreases |s|
  {
    if s != [] {
      var front, c := s[..|s| - 1], s[|s| - 1];
      SortCcSorts(cc, front);
      var t := SortCc(cc, front);
      InsertOrdered(cc, t, c);
      assert s == front + [c];
      forall k: Class ensures Proj(cc, SortCc(cc, s), k) == Proj(cc, s, k) {
        InsertAlike(cc, t, c, k);
        ProjJoin(cc, t, [c], k);
        ProjJoin(cc, front, [c], k);
        assert Proj(cc, t, k) == Proj(cc, front, k);
      }
    }
  }

  // ----- the ordered text is unique -----

  /** In an ordered text that begins with a combining character, none of a smaller class
      comes before the first starter. */
  lemma {:induction false} FirstOfClass(cc: Classes, u: seq<int>, k: Class)
    requires Ordered(cc, u) && u != [] && cc(u[0]) > 0 && Proj(cc, u, k) != [] && cc(Proj(cc, u, k)[0]) > 0
    ensures k >= cc(u[0])
    decreases |u|
  {
    if cc(u[0]) != k {
      var v := u[1..];
      assert Proj(cc, u, k) == Proj(cc, v, k);
      assert v != [];
      assert cc(u[1]) == 0 || cc(u[0]) <= cc(u[1]);
      assert Ordered(cc, v) by {
        forall i, j | 0 <= i < j < |v| && j == i + 1 ensures cc(v[j]) == 0 || cc(v[i]) <= cc(v[j]) {
          assert cc(u[j + 1]) == 0 || cc(u[i + 1]) <= cc(u[j + 1]);
        }
      }
      FirstOfClass(cc, v, k);
    }
  }

  lemma ProjHead(cc: Classes, s: seq<int>, k: Class)
    requires s != []
    ensures cc(s[0]) == 0 || cc(s[0]) == k ==> Proj(cc, s, k) == [s[0]] + Proj(cc, s[1..], k)
    ensures !(cc(s[0]) == 0 || cc(s[0]) == k) ==> Proj(cc, s, k) == Proj(cc, s[1..], k)
  {
  }

  lemma SameProjected(cc: Classes, t: seq<int>, u: seq<int>, k: Class)
    requires t != [] && u != [] && Proj(cc, t, k) == Proj(cc, u, k)
    requires (cc(t[0]) == 0 || cc(t[0]) == k) && (cc(u[0]) == 0 || cc(u[0]) == k)
    ensures t[0] == u[0]
  {
    assert Proj(cc, t, k)[0] == t[0] && Proj(cc, u, k)[0] == u[0];
  }

  lemma SameHead(cc: Classes, t: seq<int>, u: seq<int>)
    requires Ordered(cc, t) && Ordered(cc, u) && Alike(cc, t, u) && t != []
    ensures u != [] && t[0] == u[0]
  {
    var k := cc(t[0]);
    ProjHead(cc, t, k);
    assert Proj(cc, t, k) == Proj(cc, u, k);
    assert u != [];
    var l := cc(u[0]);
    ProjHead(cc, u, l);
    assert Proj(cc, t, l) == Proj(cc, u, l);
    if l == 0 || l == k {
      SameProjected(cc, t, u, k);
    } else if k == 0 {
      SameProjected(cc, t, u, l);
    } else {
      FirstOfClass(cc, u, k);
      FirstOfClass(cc, t, l);
    }
  }

  lemma {:induction false} OrderedUnique(cc: Classes, t: seq<int>, u: seq<int>)
    requires Ordered(cc, t) && Ordered(cc, u) && Alike(cc, t, u)
    ensures t == u
    decreases |t|
  {
    if t == [] {
      if u != [] { SameHead(cc, u, t); }
    } else {
      SameHead(cc, t, u);
      TailOrdered(cc, t);
      TailOrdered(cc, u);
      forall k: Class ensures Proj(cc, t[1..], k) == Proj(cc, u[1..], k) {
        ProjHead(cc, t, k);
        ProjHead(cc, u, k);
        assert Proj(cc, t, k) == Proj(cc, u, k);
        if cc(t[0]) == 0 || cc(t[0]) == k {
          assert Proj(cc, t, k)[1..] == Proj(cc, t[1..], k) && Proj(cc, u, k)[1..] == Proj(cc, u[1..], k);
        }
      }
      OrderedUnique(cc, t[1..], u[1..]);
      assert t == [t[0]] + t[1..] && u == [u[0]] + u[1..];
    }
  }

  lemma TailOrdered(cc: Classes, t: seq<int>)
    requires t != [] && Ordered(cc, t)
    ensures Ordered(cc, t[1..])
  {
    var v := t[1..];
    forall i, j | 0 <= i < j < |v| && j == i + 1 ensures cc(v[j]) == 0 || cc(v[i]) <= cc(v[j]) {
      assert cc(t[j + 1]) == 0 || cc(t[i + 1]) <= cc(t[j + 1]);
    }
  }

  /** The sorted text is the one ordered text that is like the given one. */
  lemma SortCcExact(cc: Classes, s: seq<int>, t: seq<int>)
    ensures t == SortCc(cc, s) <==> Ordered(cc, t) && Alike(cc, t, s)
  {
    SortCcSorts(cc, s);
    if Ordered(cc, t) && Alike(cc, t, s) {
      OrderedUnique(cc, t, SortCc(cc, s));
    }
  }

  /** Texts are sorted to the same text exactly when they are alike. */
  lemma SortCcDecides(cc: Classes, s: seq<int>, t: seq<int>)
    ensures SortCc(cc, s) == SortCc(cc, t) <==> Alike(cc, s, t)
  {
    SortCcSorts(cc, s);
    SortCcSorts(cc, t);
    hide Proj;
    hide SortCc;
    if Alike(cc, s, t) {
      OrderedUnique(cc, SortCc(cc, s), SortCc(cc, t));
    }
    if SortCc(cc, s) == SortCc(cc, t) {
      forall k: Class ensures Proj(cc, s, k) == Proj(cc, t, k) {
        assert Proj(cc, SortCc(cc, s), k) == Proj(cc, s, k);
      }
    }
  }

  /** Starters stay at their positions. */
  lemma {:induction false} StartersFixed(cc: Classes, s: seq<int>, i: nat)
    requires i < |s|
    ensures cc(SortCc(cc, s)[i]) == 0 <==> cc(s[i]) == 0
    ensures cc(s[i]) == 0 ==> SortCc(cc, s)[i] == s[i]
    decreases |s|
  {
    var front, c := s[..|s| - 1], s[|s| - 1];
    if i < |front| { StartersFixed(cc, front, i); }
    InsertStarters(cc, SortCc(cc, front), c, i);
  }

  lemma {:induction false} InsertStarters(cc: Classes, t: seq<int>, c: int, i: nat)
    requires i <= |t|
    ensures var r := Insert(cc, t, c);
            if i == |t| then (cc(r[i]) == 0 <==> cc(c) == 0) && (cc(c) == 0 ==> r[i] == c)
            else (cc(r[i]) == 0 <==> cc(t[i]) == 0) && (cc(t[i]) == 0 ==> r[i] == t[i])
    decreases |t|
  {
    if t == [] || cc(c) == 0 || cc(t[|t| - 1]) <= cc(c) {
    } else if i < |t| {
      InsertStarters(cc, t[..|t| - 1], c, i);
    }
  }

  // ----- the sort in place -----

  lemma InsertAt(cc: Classes, t: seq<int>, c: int, n: nat)
    requires n < |t| && cc(c) > 0 && forall k :: n <= k < |t| ==> cc(t[k]) > cc(c)
    ensures Insert(cc, t, c) == Insert(cc, t[..n], c) + t[n..]
    decreases |t|
  {
    var front, last := t[..|t| - 1], t[|t| - 1];
    if n < |front| {
      InsertAt(cc, front, c, n);
      assert front[..n] == t[..n] && t[n..] == front[n..] + [last];
    } else {
      assert t[..n] == front && t[n..] == [last];
    }
  }

  /** One character is moved down to its place. */
  method InsertInPlace(cc: Classes, buf: array<int>, start: nat, j: nat, ghost t: seq<int>)
    requires start <= j < buf.Length && buf[..j] == t && cc(buf[j]) > 0
    requires start == 0 || cc(t[start - 1]) == 0
    modifies buf
    ensures buf[..j + 1] == Insert(cc, t, old(buf[j]))
    ensures buf[j + 1..] == old(buf[j + 1..])
  {
    hide Insert;
    var ch1 := buf[j];
    var cc1 := cc(ch1);
    var k: int := j - 1;
    assert forall x :: 0 <= x < j ==> buf[x] == t[x];
    while k >= start
      invariant start - 1 <= k < j
      invariant forall x :: 0 <= x <= k ==> buf[x] == t[x]
      invariant forall x :: k + 2 <= x <= j ==> buf[x] == t[x - 1]
      invariant forall x :: k + 1 <= x < j ==> cc(t[x]) > cc1
      invariant buf[j + 1..] == old(buf[j + 1..])
    {
      if cc(buf[k]) <= cc1 { break; }
      buf[k + 1] := buf[k];
      k := k - 1;
    }
    buf[k + 1] := ch1;
    InsertStops(cc, t, ch1, k + 1);
    Assembled(buf[..], t, ch1, k + 1);
    assert buf[..j + 1] == buf[..][..j + 1];
  }

  lemma Assembled(p: seq<int>, t: seq<int>, c: int, n: nat)
    requires n <= |t| < |p| && p[n] == c
    requires forall x :: 0 <= x < n ==> p[x] == t[x]
    requires forall x :: n < x <= |t| ==> p[x] == t[x - 1]
    ensures p[..|t| + 1] == t[..n] + [c] + t[n..]
  {
  }

  lemma InsertStops(cc: Classes, t: seq<int>, c: int, n: nat)
    requires n <= |t| && cc(c) > 0 && (forall k :: n <= k < |t| ==> cc(t[k]) > cc(c))
      && (n > 0 ==> cc(t[n - 1]) <= cc(c))
    ensures Insert(cc, t, c) == t[..n] + [c] + t[n..]
  {
    if n < |t| { InsertAt(cc, t, c, n); } else { assert t[..n] == t; }
  }

  lemma SortCcNext(cc: Classes, s: seq<int>, i: nat)
    requires i < |s|
    ensures SortCc(cc, s[..i + 1]) == Insert(cc, SortCc(cc, s[..i]), s[i])
  {
    assert s[..i + 1][..i] == s[..i];
  }

  /** A character behind a starter, or at the beginning, stays there. */
  lemma InsertBehindStarter(cc: Classes, t: seq<int>, c: int)
    requires t == [] || cc(t[|t| - 1]) == 0 || cc(c) == 0
    ensures Insert(cc, t, c) == t + [c]
  {
  }

  lemma SortNothing(cc: Classes, s: seq<int>)
    ensures SortCc(cc, s[..0]) == []
  {
  }

  /** In the buffer, the first `i` characters are sorted, the others untouched. */
  ghost predicate SortedTo(cc: Classes, s: seq<int>, p: seq<int>, i: nat) {
    |p| == |s| && i <= |s| && p[..i] == SortCc(cc, s[..i]) && p[i..] == s[i..]
  }

  lemma SortedNext(cc: Classes, s: seq<int>, p: seq<int>, i: nat)
    requires SortedTo(cc, s, p, i) && i < |s| && (i == 0 || cc(p[i - 1]) == 0 || cc(p[i]) == 0)
    ensures SortedTo(cc, s, p, i + 1)
  {
    hide SortCc;
    hide Insert;
    assert p[i..][0] == s[i..][0];
    SortCcNext(cc, s, i);
    assert i > 0 ==> p[..i][i - 1] == p[i - 1];
    InsertBehindStarter(cc, p[..i], p[i]);
    assert p[..i + 1] == p[..i] + [p[i]];
    assert p[i + 1..] == p[i..][1..] && s[i + 1..] == s[i..][1..];
  }

  lemma SortedMoved(cc: Classes, s: seq<int>, p: seq<int>, q: seq<int>, j: nat)
    requires SortedTo(cc, s, p, j) && j < |s| && |q| == |p|
    requires q[..j + 1] == Insert(cc, p[..j], p[j]) && q[j + 1..] == p[j + 1..]
    ensures SortedTo(cc, s, q, j + 1)
  {
    hide SortCc;
    hide Insert;
    assert p[j..][0] == s[j..][0];
    SortCcNext(cc, s, j);
    assert p[j + 1..] == p[j..][1..] && s[j + 1..] == s[j..][1..];
  }

  lemma InsertFixes(cc: Classes, t: seq<int>, c: int, i: nat)
    requires i <= |t| && cc(c) != 0
    ensures i < |t| && cc(t[i]) == 0 ==> Insert(cc, t, c)[i] == t[i]
  {
    InsertStarters(cc, t, c, i);
  }

  /** The buffer is sorted in place. */
  method SortCcInPlace(cc: Classes, buf: array<int>)
    modifies buf
    ensures buf[..] == SortCc(cc, old(buf[..]))
  {
    ghost var s := buf[..];
    var i := 0;
    SortNothing(cc, s);
    assert SortedTo(cc, s, buf[..], 0);
    hide SortedTo;
    while i < buf.Length
      invariant i <= buf.Length + 1
      invariant SortedTo(cc, s, buf[..], if i <= buf.Length then i else buf.Length)
      invariant i == 0 || i >= buf.Length || cc(buf[i - 1]) == 0
    {
      var k := cc(buf[i]);
      SortedNext(cc, s, buf[..], i);
      if k != 0 {
        var start := i;
        var j := i + 1;
        while j < buf.Length
          invariant start < j <= buf.Length && SortedTo(cc, s, buf[..], j)
          invariant start == 0 || cc(buf[start - 1]) == 0
        {
          if cc(buf[j]) == 0 { break; }
          ghost var p := buf[..];
          assert buf[..j] == p[..j];
          if start > 0 { InsertFixes(cc, p[..j], p[j], start - 1); }
          InsertInPlace(cc, buf, start, j, p[..j]);
          assert buf[..][..j + 1] == buf[..j + 1] && buf[..][j + 1..] == buf[j + 1..];
          assert start > 0 ==> buf[start - 1] == buf[..j + 1][start - 1];
          SortedMoved(cc, s, p, buf[..], j);
          j := j + 1;
        }
        if j < buf.Length { SortedNext(cc, s, buf[..], j); }
        i := j;
      }
      i := i + 1;
    }
    SortedEnd(cc, s, buf[..]);
  }

  lemma SortedEnd(cc: Classes, s: seq<int>, p: seq<int>)
    requires SortedTo(cc, s, p, |s|)
    ensures p == SortCc(cc, s)
  {
    assert s[..|s|] == s && p[..|s|] == p;
  }
}
