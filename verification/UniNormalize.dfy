/** Unicode normalization: full decomposition, canonical ordering, composition. The tables
    are parameters; Hangul syllables are handled by arithmetic. */
module UniNormalize {
  import opened DtoaArith
  import opened UniOrder

  /** The combining classes, the decomposition of a character (empty if it has none) in the
      canonical or the compatibility mode, and the composite of a pair (0 if there is none). */
  datatype Tables = Tables(cc: Classes, decomp: (int, bool) -> seq<int>, comp: (int, int) -> int)

  // ----- Hangul -----

  predicate IsSyllable(c: int) { 0xAC00 <= c < 0xD7A4 }
  predicate IsL(c: int) { 0x1100 <= c < 0x1100 + 19 }
  predicate IsV(c: int) { 0x1161 <= c < 0x1161 + 21 }

  /** The trailing consonants, with the base 0x11A7 that stands for none. */
  predicate IsT(c: int) { 0x11A7 <= c < 0x11A7 + 28 }

  const T_BASE := 0x11A7

  /** A syllable without a trailing consonant. */
  predicate IsLV(c: int) { IsSyllable(c) && (c - 0xAC00) % 28 == 0 }

  function Jamo(c: int): seq<int>
    requires IsSyllable(c)
  {
    var s := c - 0xAC00;
    [0x1100 + s / 588, 0x1161 + s % 588 / 28] + if s % 28 != 0 then [0x11A7 + s % 28] else []
  }

  lemma SyllableOfLV(l: int, v: int)
    requires IsL(l) && IsV(v)
    ensures var c := 0xAC00 + (l - 0x1100) * 588 + (v - 0x1161) * 28;
            IsLV(c) && Jamo(c) == [l, v]
  {
    var s := (l - 0x1100) * 588 + (v - 0x1161) * 28;
    assert s / 588 == l - 0x1100 && s % 588 == (v - 0x1161) * 28;
  }

  /** The three numbers of a syllable. */
  lemma SyllableNumbers(l: nat, v: nat, d: nat)
    requires v < 21 && d < 28
    ensures var s := l * 588 + v * 28 + d; s / 588 == l && s % 588 / 28 == v && s % 28 == d
  {
    var s := l * 588 + v * 28 + d;
    DivIs(s, 588, l, v * 28 + d);
    DivIs(v * 28 + d, 28, v, d);
    DivIs(s, 28, l * 21 + v, d);
  }

  lemma LVNumbers(s: nat)
    requires s % 28 == 0
    ensures s == s / 588 * 588 + s % 588 / 28 * 28 && s % 588 / 28 < 21
  {
    var l, w := s / 588, s % 588;
    DivParts(s, 588);
    DivParts(w, 28);
    DivIs(s, 28, l * 21 + w / 28, w % 28);
  }

  lemma SyllableOfLVT(c: int, t: int)
    requires IsLV(c) && IsT(t) && t != T_BASE
    ensures IsSyllable(c + t - T_BASE) && Jamo(c + t - T_BASE) == Jamo(c) + [t]
  {
    var s, d := c - 0xAC00, t - T_BASE;
    var l, v := s / 588, s % 588 / 28;
    SyllableNumbers(l, v, 0);
    LVNumbers(s);
    SyllableNumbers(l, v, d);
  }

  lemma JamoParts(c: int)
    requires IsSyllable(c)
    ensures IsL(Jamo(c)[0]) && IsV(Jamo(c)[1]) && (|Jamo(c)| == 3 ==> IsT(Jamo(c)[2]) && Jamo(c)[2] != T_BASE)
    ensures 0xAC00 + (Jamo(c)[0] - 0x1100) * 588 + (Jamo(c)[1] - 0x1161) * 28
      + (if |Jamo(c)| == 3 then Jamo(c)[2] - T_BASE else 0) == c
  {
  }

  // ----- full decomposition -----

  /** No character leads back to itself by decomposing: ranks go down. */
  ghost predicate Acyclic(t: Tables, k: bool, rank: int -> nat) {
    forall c: int, d: int :: d in t.decomp(c, k) ==> rank(d) < rank(c)
  }

  ghost function FullChar(t: Tables, k: bool, rank: int -> nat, c: int): seq<int>
    requires Acyclic(t, k, rank)
    decreases rank(c), 1, 0
  {
    if IsSyllable(c) then Jamo(c)
    else if t.decomp(c, k) != [] then FullBelow(t, k, rank, t.decomp(c, k), rank(c))
    else [c]
  }

  ghost function FullBelow(t: Tables, k: bool, rank: int -> nat, s: seq<int>, b: nat): seq<int>
    requires Acyclic(t, k, rank) && forall d :: d in s ==> rank(d) < b
    decreases b, 0, |s|
  {
    if s == [] then [] else FullChar(t, k, rank, s[0]) + FullBelow(t, k, rank, s[1..], b)
  }

  /** The full decomposition of a text. */
  ghost function Full(t: Tables, k: bool, rank: int -> nat, s: seq<int>): seq<int>
    requires Acyclic(t, k, rank)
    decreases |s|
  {
    if s == [] then [] else FullChar(t, k, rank, s[0]) + Full(t, k, rank, s[1..])
  }

  lemma {:induction false} FullBelowIsFull(t: Tables, k: bool, rank: int -> nat, s: seq<int>, b: nat)
    requires Acyclic(t, k, rank) && forall d :: d in s ==> rank(d) < b
    ensures FullBelow(t, k, rank, s, b) == Full(t, k, rank, s)
    decreases |s|
  {
    hide FullChar;
    hide Acyclic;
    if s != [] { FullBelowIsFull(t, k, rank, s[1..], b); }
  }

  /** One step of decomposing. */
  lemma FullCharStep(t: Tables, k: bool, rank: int -> nat, c: int)
    requires Acyclic(t, k, rank) && !IsSyllable(c) && t.decomp(c, k) != []
    ensures FullChar(t, k, rank, c) == Full(t, k, rank, t.decomp(c, k))
  {
    FullBelowIsFull(t, k, rank, t.decomp(c, k), rank(c));
  }

  lemma {:induction false} FullJoin(t: Tables, k: bool, rank: int -> nat, s: seq<int>, u: seq<int>)
    requires Acyclic(t, k, rank)
    ensures Full(t, k, rank, s + u) == Full(t, k, rank, s) + Full(t, k, rank, u)
    decreases |s|
  {
    hide FullChar;
    hide Acyclic;
    if s == [] {
      assert s + u == u;
    } else {
      assert (s + u)[1..] == s[1..] + u;
      FullJoin(t, k, rank, s[1..], u);
    }
  }

  lemma FullOne(t: Tables, k: bool, rank: int -> nat, c: int)
    requires Acyclic(t, k, rank)
    ensures Full(t, k, rank, [c]) == FullChar(t, k, rank, c)
  {
    hide FullChar;
    assert [c][1..] == [];
    assert Full(t, k, rank, []) == [];
  }

  /** The jamo have no decomposition. */
  ghost predicate JamoPlain(t: Tables, k: bool) {
    forall c: int :: IsL(c) || IsV(c) || IsT(c) ==> t.decomp(c, k) == []
  }

  ghost predicate Irreducible(t: Tables, k: bool, c: int) { !IsSyllable(c) && t.decomp(c, k) == [] }

  /** Nothing is left to decompose. */
  lemma {:induction false} CharIrreducible(t: Tables, k: bool, rank: int -> nat, c: int, x: int)
    requires Acyclic(t, k, rank) && JamoPlain(t, k) && x in FullChar(t, k, rank, c)
    ensures Irreducible(t, k, x)
    decreases rank(c), 1, 0
  {
    if IsSyllable(c) {
      JamoParts(c);
      var j := Jamo(c);
      assert x == j[0] || x == j[1] || (|j| == 3 && x == j[2]);
      assert IsL(x) || IsV(x) || IsT(x);
      assert t.decomp(x, k) == [];
    } else if t.decomp(c, k) != [] {
      FullCharStep(t, k, rank, c);
      FullIrreducible(t, k, rank, t.decomp(c, k), x, rank(c));
    }
  }

  lemma {:induction false} FullIrreducible(t: Tables, k: bool, rank: int -> nat, s: seq<int>, x: int, b: nat)
    requires Acyclic(t, k, rank) && JamoPlain(t, k) && (forall d :: d in s ==> rank(d) < b) && x in Full(t, k, rank, s)
    ensures Irreducible(t, k, x)
    decreases b, 0, |s|
  {
    hide FullChar;
    if x in FullChar(t, k, rank, s[0]) {
      CharIrreducible(t, k, rank, s[0], x);
    } else {
      FullIrreducible(t, k, rank, s[1..], x, b);
    }
  }

  lemma {:induction false} FullFixed(t: Tables, k: bool, rank: int -> nat, s: seq<int>)
    requires Acyclic(t, k, rank) && forall x :: x in s ==> Irreducible(t, k, x)
    ensures Full(t, k, rank, s) == s
    decreases |s|
  {
    if s != [] {
      assert s[0] in s && Irreducible(t, k, s[0]);
      forall x | x in s[1..] ensures Irreducible(t, k, x) { assert x in s; }
      FullFixed(t, k, rank, s[1..]);
      assert s == [s[0]] + s[1..];
    }
  }

  function MaxRank(rank: int -> nat, s: seq<int>): (b: nat)
    ensures forall d :: d in s ==> rank(d) < b
    decreases |s|
  {
    if s == [] then 0
    else
      var m := MaxRank(rank, s[1..]);
      if rank(s[0]) < m then m else rank(s[0]) + 1
  }

  // ----- NFD and NFKD -----

  ghost function Nfd(t: Tables, k: bool, rank: int -> nat, s: seq<int>): seq<int>
    requires Acyclic(t, k, rank)
  {
    SortCc(t.cc, Full(t, k, rank, s))
  }

  lemma {:induction false} SortCcIn(cc: Classes, s: seq<int>, x: int)
    requires x in SortCc(cc, s)
    ensures x in s
    decreases |s|
  {
    var front, c := s[..|s| - 1], s[|s| - 1];
    InsertIn(cc, SortCc(cc, front), c, x);
    if x != c { SortCcIn(cc, front, x); }
  }

  lemma {:induction false} InsertIn(cc: Classes, u: seq<int>, c: int, x: int)
    requires x in Insert(cc, u, c)
    ensures x in u || x == c
    decreases |u|
  {
    if u == [] || cc(c) == 0 || cc(u[|u| - 1]) <= cc(c) {
    } else if x != u[|u| - 1] {
      InsertIn(cc, u[..|u| - 1], c, x);
    }
  }

  lemma NfdIrreducible(t: Tables, k: bool, rank: int -> nat, s: seq<int>)
    requires Acyclic(t, k, rank) && JamoPlain(t, k)
    ensures forall x :: x in Nfd(t, k, rank, s) ==> Irreducible(t, k, x)
    ensures Ordered(t.cc, Nfd(t, k, rank, s))
  {
    forall x | x in Nfd(t, k, rank, s) ensures Irreducible(t, k, x) {
      SortCcIn(t.cc, Full(t, k, rank, s), x);
      FullIrreducible(t, k, rank, s, x, MaxRank(rank, s));
    }
    SortCcSorts(t.cc, Full(t, k, rank, s));
  }

  lemma SortedStays(cc: Classes, s: seq<int>)
    requires Ordered(cc, s)
    ensures SortCc(cc, s) == s
  {
    SortCcExact(cc, s, s);
  }

  /** Decomposing and ordering a second time changes nothing. */
  lemma NfdIdempotent(t: Tables, k: bool, rank: int -> nat, s: seq<int>)
    requires Acyclic(t, k, rank) && JamoPlain(t, k)
    ensures Nfd(t, k, rank, Nfd(t, k, rank, s)) == Nfd(t, k, rank, s)
  {
    NfdIrreducible(t, k, rank, s);
    FullFixed(t, k, rank, Nfd(t, k, rank, s));
    SortedStays(t.cc, Nfd(t, k, rank, s));
  }

  // ----- composition -----

  function ComposePair(t: Tables, c0: int, c1: int): int {
    if 0x1100 <= c0 < 0x1100 + 19 && 0x1161 <= c1 < 0x1161 + 21 then
      0xAC00 + (c0 - 0x1100) * 588 + (c1 - 0x1161) * 28
    else if 0xAC00 <= c0 < 0xAC00 + 11172 && (c0 - 0xAC00) % 28 == 0 && 0x11A7 <= c1 < 0x11A7 + 28 then
      c0 + c1 - 0x11A7
    else
      t.comp(c0, c1)
  }

  /** The starter that a character of class `last` can be composed with, looking back from
      position `p`; -1 if there is none or something blocks it. */
  function StarterFor(cc: Classes, out: seq<int>, p: int, last: nat): (q: int)
    requires -1 <= p < |out|
    ensures -1 <= q <= p
    decreases p + 1
  {
    if p < 0 then -1
    else if cc(out[p]) == 0 then p
    else if cc(out[p]) >= last then -1
    else StarterFor(cc, out, p - 1, 256)
  }

  /** One more character: composed with its starter, or appended. */
  function Add(t: Tables, out: seq<int>, c: int): (r: seq<int>)
    ensures |r| <= |out| + 1 && r != []
  {
    var p := StarterFor(t.cc, out, |out| - 1, t.cc(c));
    if p >= 0 && ComposePair(t, out[p], c) != 0 then out[p := ComposePair(t, out[p], c)] else out + [c]
  }

  function Compose(t: Tables, s: seq<int>): (r: seq<int>)
    ensures |r| <= |s| && (s != [] ==> r != [])
    decreases |s|
  {
    if s == [] then [] else Add(t, Compose(t, s[..|s| - 1]), s[|s| - 1])
  }

  lemma StarterFound(cc: Classes, out: seq<int>, p: int, last: nat)
    requires -1 <= p < |out|
    ensures var q := StarterFor(cc, out, p, last);
            q >= 0 ==> cc(out[q]) == 0 && (forall j :: q < j <= p ==> cc(out[j]) != 0) && (q < p ==> cc(out[p]) < last)
    decreases p + 1
  {
  }

  // ----- what composition keeps -----

  /** A composite of the table is the inverse of a decomposition, is a starter, and has no
      Hangul part; jamo and syllables are starters. */
  ghost predicate Composites(t: Tables, k: bool) {
    && (forall a: int, b: int :: t.comp(a, b) != 0 ==>
          !IsSyllable(t.comp(a, b)) && t.decomp(t.comp(a, b), k) == [a, b] && t.cc(t.comp(a, b)) == 0
          && !Hangul(a) && !Hangul(b))
    && (forall c: int :: Hangul(c) ==> t.cc(c) == 0)
  }

  predicate Hangul(c: int) { IsL(c) || IsV(c) || IsT(c) || IsSyllable(c) }

  ghost predicate Sound(t: Tables, k: bool, rank: int -> nat) {
    Acyclic(t, k, rank) && JamoPlain(t, k) && Composites(t, k)
  }

  /** Such tables exist: a letter with an accent in both modes, a ligature in one of them. */
  lemma SoundTables(k: bool) returns (t: Tables, rank: int -> nat)
    ensures Sound(t, k, rank) && t.comp(0x41, 0x300) == 0xC0 && t.decomp(0xC0, k) == [0x41, 0x300]
    ensures t.decomp(0xFB01, k) == if k then [0x66, 0x69] else []
  {
    t := Tables(c => if c == 0x300 then 230 else 0,
                (c, compat) => if c == 0xC0 then [0x41, 0x300] else if c == 0xFB01 && compat then [0x66, 0x69] else [],
                (a, b) => if a == 0x41 && b == 0x300 then 0xC0 else 0);
    rank := c => if c == 0xC0 || c == 0xFB01 then 1 else 0;
  }

  /** A pair that is composed although nothing stands for its second part: a syllable without
      a trailing consonant, and the base 0x11A7. */
  predicate Drops(a: int, c: int) { IsLV(a) && c == T_BASE }

  lemma FullTwo(t: Tables, k: bool, rank: int -> nat, a: int, c: int)
    requires Acyclic(t, k, rank)
    ensures Full(t, k, rank, [a, c]) == FullChar(t, k, rank, a) + FullChar(t, k, rank, c)
  {
    assert [a, c] == [a] + [c];
    FullJoin(t, k, rank, [a], [c]);
    FullOne(t, k, rank, a);
    FullOne(t, k, rank, c);
  }

  /** A composite decomposes into the parts of its pair, */
  lemma ComposedFull(t: Tables, k: bool, rank: int -> nat, a: int, c: int)
    requires Sound(t, k, rank) && Irreducible(t, k, c) && ComposePair(t, a, c) != 0 && !Drops(a, c)
    ensures FullChar(t, k, rank, ComposePair(t, a, c)) == FullChar(t, k, rank, a) + [c]
    ensures t.cc(ComposePair(t, a, c)) == 0
  {
    var ch := ComposePair(t, a, c);
    if IsL(a) && IsV(c) {
      SyllableOfLV(a, c);
      assert Hangul(ch) && t.decomp(a, k) == [] && !IsSyllable(a);
      assert FullChar(t, k, rank, a) == [a];
    } else if IsLV(a) && IsT(c) {
      SyllableOfLVT(a, c);
      assert Hangul(ch);
    } else {
      assert ch == t.comp(a, c);
      FullCharStep(t, k, rank, ch);
      FullTwo(t, k, rank, a, c);
    }
  }

  /** and it is a jamo or a syllable without a trailing consonant only if it has to be. */
  lemma ComposedKind(t: Tables, k: bool, rank: int -> nat, a: int, c: int)
    requires Sound(t, k, rank) && ComposePair(t, a, c) != 0
    ensures var ch := ComposePair(t, a, c);
            !IsL(ch) && (IsLV(ch) ==> (IsL(a) && IsV(c)) || Drops(a, c))
    ensures Hangul(c) ==> IsV(c) || IsT(c)
    ensures IsL(a) && Hangul(c) ==> IsV(c)
    ensures Drops(a, c) ==> ComposePair(t, a, c) == a
  {
    var ch := ComposePair(t, a, c);
    if IsL(a) && IsV(c) {
      SyllableOfLV(a, c);
    } else if IsLV(a) && IsT(c) {
      NoLVWithT(a - 0xAC00, c - T_BASE);
    } else {
      assert ch == t.comp(a, c);
      assert t.decomp(ch, k) == [a, c];
    }
  }

  lemma NoLVWithT(s: int, d: int)
    requires s % 28 == 0 && 0 <= d < 28
    ensures (s + d) % 28 == d
  {
  }

  /** Characters of other classes do not mind where `c` stands among them. */
  lemma {:induction false} MarksCommute(cc: Classes, m: seq<int>, c: int, k: Class)
    requires forall x :: x in m ==> cc(x) != 0 && cc(x) != cc(c) && cc(c) != 0
    ensures Proj(cc, [c] + m, k) == Proj(cc, m + [c], k)
    decreases |m|
  {
    if m == [] {
      assert [c] + m == m + [c];
    } else {
      var x := m[0];
      assert x in m && cc(c) != 0;
      ProjJoin(cc, [c], m, k);
      ProjJoin(cc, m, [c], k);
      ProjOne(cc, c, k);
      if cc(c) == k {
        NoneOfClass(cc, m, k);
        assert [c] + [] == [] + [c];
      } else {
        assert [] + Proj(cc, m, k) == Proj(cc, m, k) + [];
      }
    }
  }

  lemma {:induction false} NoneOfClass(cc: Classes, m: seq<int>, k: Class)
    requires forall x :: x in m ==> cc(x) != 0 && cc(x) != k
    ensures Proj(cc, m, k) == []
    decreases |m|
  {
    if m != [] {
      var x := m[0];
      assert x in m && cc(x) != 0 && cc(x) != k;
      NoneOfClass(cc, m[1..], k);
      ProjHead(cc, m, k);
    }
  }

  /** The text contains a leading consonant, a vowel and the base 0x11A7 in a row. */
  ghost predicate HasBareT(s: seq<int>) {
    exists i, j, l :: 0 <= i < j < l < |s| && j == i + 1 && l == j + 1 && IsL(s[i]) && IsV(s[j]) && s[l] == T_BASE
  }

  predicate EndsWithL(s: seq<int>) { s != [] && IsL(s[|s| - 1]) }

  predicate EndsWithLV(s: seq<int>) { |s| >= 2 && IsL(s[|s| - 2]) && IsV(s[|s| - 1]) }

  lemma BareTMore(s: seq<int>, c: int)
    ensures HasBareT(s + [c]) <==> HasBareT(s) || (EndsWithLV(s) && c == T_BASE)
  {
    hide IsV;
    var u := s + [c];
    if HasBareT(s) {
      var i, j, l :| 0 <= i < j < l < |s| && j == i + 1 && l == j + 1 && IsL(s[i]) && IsV(s[j]) && s[l] == T_BASE;
      assert IsL(u[i]) && IsV(u[j]) && u[l] == T_BASE;
    }
    if EndsWithLV(s) && c == T_BASE {
      assert IsL(u[|s| - 2]) && IsV(u[|s| - 1]) && u[|s|] == T_BASE;
    }
    if HasBareT(u) {
      var i, j, l :| 0 <= i < j < l < |u| && j == i + 1 && l == j + 1 && IsL(u[i]) && IsV(u[j]) && u[l] == T_BASE;
      if l < |s| { assert IsL(s[i]) && IsV(s[j]) && s[l] == T_BASE; }
    }
  }

  /** The output so far, for the characters consumed. */
  ghost predicate Composing(t: Tables, k: bool, rank: int -> nat, out: seq<int>, pre: seq<int>)
    requires Acyclic(t, k, rank)
  {
    && Ordered(t.cc, out) && (out == [] <==> pre == [])
    && (pre != [] ==> t.cc(out[|out| - 1]) <= t.cc(pre[|pre| - 1]))
    && (forall x :: x in out && t.cc(x) != 0 ==> Irreducible(t, k, x))
    && |Full(t, k, rank, out)| <= |pre|
    && (HasBareT(pre) ==> |Full(t, k, rank, out)| < |pre|)
    && (!HasBareT(pre) ==> Alike(t.cc, Full(t, k, rank, out), pre))
  }

  /** How the last character of the output shows what was consumed last. */
  ghost predicate Tail(out: seq<int>, pre: seq<int>) {
    && (EndsWithL(pre) ==> EndsWithL(out))
    && (EndsWithL(out) ==> EndsWithL(pre))
    && (EndsWithLV(pre) ==> out != [] && IsLV(out[|out| - 1]))
    && (out != [] && IsLV(out[|out| - 1]) ==> EndsWithLV(pre) || HasBareT(pre))
  }

  /** The composition of `c` with the starter at `p`. */
  predicate Joins(t: Tables, out: seq<int>, c: int, p: int) {
    p == StarterFor(t.cc, out, |out| - 1, t.cc(c)) && p >= 0 && ComposePair(t, out[p], c) != 0
  }

  lemma AddCases(t: Tables, out: seq<int>, c: int) returns (p: int)
    ensures -1 <= p < |out|
    ensures if Joins(t, out, c, p) then Add(t, out, c) == out[p := ComposePair(t, out[p], c)]
      else Add(t, out, c) == out + [c]
    ensures Joins(t, out, c, p) ==>
      t.cc(out[p]) == 0 && (forall j :: p < j < |out| ==> t.cc(out[j]) != 0)
        && (p < |out| - 1 ==> t.cc(out[|out| - 1]) < t.cc(c))
    ensures out != [] && t.cc(out[|out| - 1]) == 0 ==>
      p == |out| - 1 && (ComposePair(t, out[p], c) != 0 ==> Joins(t, out, c, p))
  {
    p := StarterFor(t.cc, out, |out| - 1, t.cc(c));
    StarterFound(t.cc, out, |out| - 1, t.cc(c));
  }

  lemma TailNext(t: Tables, k: bool, rank: int -> nat, out: seq<int>, pre: seq<int>, c: int)
    requires Sound(t, k, rank) && Tail(out, pre) && Irreducible(t, k, c)
    ensures Tail(Add(t, out, c), pre + [c])
  {
    hide Acyclic;
    hide JamoPlain;
    hide Add;
    hide StarterFor;
    hide ComposePair;
    hide HasBareT;
    hide T_BASE;
    var p := AddCases(t, out, c);
    BareTMore(pre, c);
    if Joins(t, out, c, p) {
      ComposedKind(t, k, rank, out[p], c);
    }
    PairOfLV(t, if out == [] then 0 else out[|out| - 1], c);
  }

  lemma PairOfLV(t: Tables, a: int, c: int)
    ensures IsL(a) && IsV(c) ==> ComposePair(t, a, c) != 0 && IsLV(ComposePair(t, a, c))
  {
    if IsL(a) && IsV(c) { SyllableOfLV(a, c); }
  }

  /** Appending a character that does not decompose. */
  lemma AppendFull(t: Tables, k: bool, rank: int -> nat, out: seq<int>, c: int)
    requires Acyclic(t, k, rank) && Irreducible(t, k, c)
    ensures Full(t, k, rank, out + [c]) == Full(t, k, rank, out) + [c]
  {
    FullJoin(t, k, rank, out, [c]);
    FullOne(t, k, rank, c);
  }

  /** Composing with the starter at `p`: in the full decomposition, `c` is put behind the
      starter's parts and before the marks that follow it. */
  lemma JoinFull(t: Tables, k: bool, rank: int -> nat, out: seq<int>, c: int, p: nat)
    requires Sound(t, k, rank) && Irreducible(t, k, c) && p < |out|
    requires ComposePair(t, out[p], c) != 0 && !Drops(out[p], c)
    requires forall x :: x in out[p + 1..] ==> Irreducible(t, k, x)
    ensures var front := Full(t, k, rank, out[..p + 1]);
            && Full(t, k, rank, out) == front + out[p + 1..]
            && Full(t, k, rank, out[p := ComposePair(t, out[p], c)]) == front + [c] + out[p + 1..]
  {
    hide FullChar;
    hide ComposePair;
    hide Full;
    var ch := ComposePair(t, out[p], c);
    ComposedFull(t, k, rank, out[p], c);
    FullFixed(t, k, rank, out[p + 1..]);
    FullAround(t, k, rank, out, p);
    FullAround(t, k, rank, out[p := ch], p);
    assert out[p := ch][..p] == out[..p] && out[p := ch][p + 1..] == out[p + 1..];
    assert out[..p + 1] == out[..p] + [out[p]];
    FullJoin(t, k, rank, out[..p], [out[p]]);
    FullOne(t, k, rank, out[p]);
  }

  lemma FullAround(t: Tables, k: bool, rank: int -> nat, out: seq<int>, p: nat)
    requires Acyclic(t, k, rank) && p < |out|
    ensures Full(t, k, rank, out)
      == Full(t, k, rank, out[..p]) + FullChar(t, k, rank, out[p]) + Full(t, k, rank, out[p + 1..])
  {
    hide FullChar;
    hide Full;
    assert out == out[..p] + [out[p]] + out[p + 1..];
    FullJoin(t, k, rank, out[..p] + [out[p]], out[p + 1..]);
    FullJoin(t, k, rank, out[..p], [out[p]]);
    FullOne(t, k, rank, out[p]);
  }

  lemma AlikeAppend(cc: Classes, s: seq<int>, u: seq<int>, c: int)
    requires Alike(cc, s, u)
    ensures Alike(cc, s + [c], u + [c])
  {
    forall k: Class ensures Proj(cc, s + [c], k) == Proj(cc, u + [c], k) {
      ProjJoin(cc, s, [c], k);
      ProjJoin(cc, u, [c], k);
      assert Proj(cc, s, k) == Proj(cc, u, k);
    }
  }

  lemma AlikeMoved(cc: Classes, front: seq<int>, m: seq<int>, c: int)
    requires forall x :: x in m ==> cc(x) != 0 && cc(x) != cc(c) && cc(c) != 0
    ensures Alike(cc, front + [c] + m, front + m + [c])
  {
    forall k: Class ensures Proj(cc, front + [c] + m, k) == Proj(cc, front + m + [c], k) {
      assert front + [c] + m == front + ([c] + m) && front + m + [c] == front + (m + [c]);
      ProjJoin(cc, front, [c] + m, k);
      ProjJoin(cc, front, m + [c], k);
      MarksCommute(cc, m, c, k);
    }
  }

  lemma AlikeTrans(cc: Classes, s: seq<int>, u: seq<int>, v: seq<int>)
    requires Alike(cc, s, u) && Alike(cc, u, v)
    ensures Alike(cc, s, v)
  {
    hide Proj;
    forall k: Class ensures Proj(cc, s, k) == Proj(cc, v, k) {
      assert Proj(cc, s, k) == Proj(cc, u, k);
      assert Proj(cc, u, k) == Proj(cc, v, k);
    }
  }

  /** In an ordered text the classes after the last starter go up to that of the last one. */
  lemma {:induction false} MarksBelow(cc: Classes, out: seq<int>, p: nat, j: nat)
    requires Ordered(cc, out) && p < j < |out| && forall i :: p < i < |out| ==> cc(out[i]) != 0
    ensures cc(out[j]) <= cc(out[|out| - 1])
    decreases |out| - j
  {
    if j < |out| - 1 {
      assert cc(out[j + 1]) != 0 && (cc(out[j + 1]) == 0 || cc(out[j]) <= cc(out[j + 1]));
      MarksBelow(cc, out, p, j + 1);
    }
  }

  /** The new decomposition, in one of three cases: the same with `c` at the end, alike with
      `c` moved before the marks, or the same without `c`. */
  lemma AddFull(t: Tables, k: bool, rank: int -> nat, out: seq<int>, c: int)
    requires Sound(t, k, rank) && Ordered(t.cc, out) && Irreducible(t, k, c)
    requires forall x :: x in out && t.cc(x) != 0 ==> Irreducible(t, k, x)
    ensures var dropped := out != [] && Drops(out[|out| - 1], c);
            var full := Full(t, k, rank, Add(t, out, c));
            && (dropped ==> Add(t, out, c) == out)
            && (!dropped ==> |full| == |Full(t, k, rank, out)| + 1 && Alike(t.cc, full, Full(t, k, rank, out) + [c]))
  {
    hide Full;
    hide Add;
    hide ComposePair;
    hide StarterFor;
    hide Ordered;
    hide Alike;
    hide Acyclic;
    hide JamoPlain;
    var p := AddCases(t, out, c);
    if out != [] && Drops(out[|out| - 1], c) {
      DropJoins(t, k, out, c);
    } else if Joins(t, out, c, p) {
      var marks := out[p + 1..];
      forall x | x in marks ensures Irreducible(t, k, x) && t.cc(x) != 0 && t.cc(x) != t.cc(c) && t.cc(c) != 0 {
        var j :| 0 <= j < |marks| && marks[j] == x;
        assert out[p + 1 + j] == x && t.cc(x) != 0;
        MarksBelow(t.cc, out, p, p + 1 + j);
      }
      if Drops(out[p], c) { BaseStarter(t, k, c); }
      JoinFull(t, k, rank, out, c, p);
      AlikeMoved(t.cc, Full(t, k, rank, out[..p + 1]), marks, c);
    } else {
      AppendFull(t, k, rank, out, c);
      AlikeSame(t.cc, Full(t, k, rank, out) + [c]);
    }
  }

  lemma BaseStarter(t: Tables, k: bool, c: int)
    requires Composites(t, k) && c == T_BASE
    ensures t.cc(c) == 0
  {
    assert Hangul(c);
  }

  lemma AlikeSame(cc: Classes, s: seq<int>)
    ensures Alike(cc, s, s)
  {
  }

  lemma DropJoins(t: Tables, k: bool, out: seq<int>, c: int)
    requires Composites(t, k)
    requires out != [] && Drops(out[|out| - 1], c)
    ensures Add(t, out, c) == out
  {
    assert Hangul(out[|out| - 1]);
  }

  lemma AddOrdered(t: Tables, k: bool, rank: int -> nat, out: seq<int>, pre: seq<int>, c: int)
    requires Sound(t, k, rank) && Composing(t, k, rank, out, pre) && Ordered(t.cc, pre + [c]) && Irreducible(t, k, c)
    ensures var more := Add(t, out, c);
            && Ordered(t.cc, more) && more != []
            && t.cc(more[|more| - 1]) <= t.cc(c)
            && (forall x :: x in more && t.cc(x) != 0 ==> Irreducible(t, k, x))
  {
    hide Add;
    hide Full;
    hide ComposePair;
    hide HasBareT;
    hide StarterFor;
    var p := AddCases(t, out, c);
    var more := Add(t, out, c);
    if pre != [] {
      var both := pre + [c];
      assert t.cc(both[|pre|]) == 0 || t.cc(both[|pre| - 1]) <= t.cc(both[|pre|]);
    }
    if Joins(t, out, c, p) {
      JoinedStarter(t, k, rank, out[p], c);
      JoinOrdered(t.cc, out, p, ComposePair(t, out[p], c));
    } else {
      AppendOrdered(t.cc, out, c);
    }
  }

  lemma JoinedStarter(t: Tables, k: bool, rank: int -> nat, a: int, c: int)
    requires Sound(t, k, rank) && Irreducible(t, k, c) && ComposePair(t, a, c) != 0
    ensures t.cc(ComposePair(t, a, c)) == 0
  {
    if Drops(a, c) { assert Hangul(a); } else { ComposedFull(t, k, rank, a, c); }
  }

  lemma JoinOrdered(cc: Classes, out: seq<int>, p: nat, ch: int)
    requires Ordered(cc, out) && p < |out| && cc(out[p]) == 0 && cc(ch) == 0
    ensures Ordered(cc, out[p := ch])
    ensures forall x :: x in out[p := ch] ==> x in out || x == ch
    ensures cc(out[p := ch][|out| - 1]) == cc(out[|out| - 1])
  {
    var more := out[p := ch];
    forall i, j | 0 <= i < j < |more| && j == i + 1 ensures cc(more[j]) == 0 || cc(more[i]) <= cc(more[j]) {
      assert cc(out[j]) == 0 || cc(out[i]) <= cc(out[j]);
    }
  }

  lemma AppendOrdered(cc: Classes, out: seq<int>, c: int)
    requires Ordered(cc, out) && (out != [] && cc(c) != 0 ==> cc(out[|out| - 1]) <= cc(c))
    ensures Ordered(cc, out + [c])
  {
  }

  lemma ComposingNext(t: Tables, k: bool, rank: int -> nat, out: seq<int>, pre: seq<int>, c: int)
    requires Sound(t, k, rank) && Composing(t, k, rank, out, pre) && Tail(out, pre) && Ordered(t.cc, pre + [c])
      && Irreducible(t, k, c)
    ensures Composing(t, k, rank, Add(t, out, c), pre + [c])
  {
    hide Acyclic;
    hide JamoPlain;
    hide Composites;
    hide Add;
    hide Full;
    hide HasBareT;
    hide Ordered;
    hide Alike;
    AddOrdered(t, k, rank, out, pre, c);
    AddFull(t, k, rank, out, c);
    BareTMore(pre, c);
    if !HasBareT(pre) {
      AlikeAppend(t.cc, Full(t, k, rank, out), pre, c);
      if !(out != [] && Drops(out[|out| - 1], c)) {
        AlikeTrans(t.cc, Full(t, k, rank, Add(t, out, c)), Full(t, k, rank, out) + [c], pre + [c]);
      }
    }
  }

  lemma OrderedFront(cc: Classes, s: seq<int>)
    requires s != [] && Ordered(cc, s)
    ensures Ordered(cc, s[..|s| - 1])
  {
    var f := s[..|s| - 1];
    forall i, j | 0 <= i < j < |f| && j == i + 1 ensures cc(f[j]) == 0 || cc(f[i]) <= cc(f[j]) {
      assert cc(s[j]) == 0 || cc(s[i]) <= cc(s[j]);
    }
  }

  /** The whole of an ordered, fully decomposed text. */
  lemma {:induction false} ComposeKeeps(t: Tables, k: bool, rank: int -> nat, b: seq<int>)
    requires Sound(t, k, rank) && Ordered(t.cc, b) && forall x :: x in b ==> Irreducible(t, k, x)
    ensures Composing(t, k, rank, Compose(t, b), b) && Tail(Compose(t, b), b)
    decreases |b|
  {
    hide Acyclic;
    hide JamoPlain;
    hide Composites;
    hide Add;
    if b == [] {
      NothingComposed(t, k, rank);
    } else {
      var front, c := b[..|b| - 1], b[|b| - 1];
      assert b == front + [c] && c in b;
      hide Composing;
      hide Tail;
      hide Ordered;
      OrderedFront(t.cc, b);
      forall x | x in front ensures Irreducible(t, k, x) { assert x in b; }
      ComposeKeeps(t, k, rank, front);
      ComposingNext(t, k, rank, Compose(t, front), front, c);
      TailNext(t, k, rank, Compose(t, front), front, c);
    }
  }

  lemma NothingComposed(t: Tables, k: bool, rank: int -> nat)
    requires Acyclic(t, k, rank)
    ensures Composing(t, k, rank, [], []) && Tail([], [])
  {
  }

  // ----- what composition forgets -----

  /** The text without the characters that composition drops. */
  function Strip(t: Tables, b: seq<int>): (u: seq<int>)
    decreases |b|
  {
    if b == [] then []
    else
      var front, c := b[..|b| - 1], b[|b| - 1];
      var out := Compose(t, front);
      if out != [] && Drops(out[|out| - 1], c) then Strip(t, front) else Strip(t, front) + [c]
  }

  lemma StripNext(t: Tables, front: seq<int>, c: int)
    ensures var out := Compose(t, front);
            Strip(t, front + [c])
            == if out != [] && Drops(out[|out| - 1], c) then Strip(t, front) else Strip(t, front) + [c]
  {
    hide Compose;
    hide Drops;
    hide Strip;
    var b := front + [c];
    assert b[..|b| - 1] == front && b[|b| - 1] == c;
    StripUnfold(t, b);
  }

  lemma StripUnfold(t: Tables, b: seq<int>)
    requires b != []
    ensures var front, c := b[..|b| - 1], b[|b| - 1];
            var out := Compose(t, front);
            Strip(t, b) == if out != [] && Drops(out[|out| - 1], c) then Strip(t, front) else Strip(t, front) + [c]
  {
    hide Compose;
    hide Drops;
  }

  /** A stripped text is a decomposed and ordered text without the three in a row, and is
      composed to the same text. */
  ghost predicate Stripped(t: Tables, k: bool, b: seq<int>, u: seq<int>) {
    && Ordered(t.cc, u) && (forall x :: x in u ==> Irreducible(t, k, x)) && !HasBareT(u)
    && Compose(t, u) == Compose(t, b)
    && (b == [] <==> u == []) && (b != [] ==> t.cc(u[|u| - 1]) <= t.cc(b[|b| - 1]))
  }

  lemma StrippedDrop(t: Tables, k: bool, b: seq<int>, u: seq<int>, c: int)
    requires Composites(t, k) && Stripped(t, k, b, u) && Tail(Compose(t, u), u)
    requires var out := Compose(t, b); out != [] && Drops(out[|out| - 1], c)
    ensures Stripped(t, k, b + [c], u)
  {
    hide Compose;
    hide HasBareT;
    hide Composites;
    hide Ordered;
    hide Add;
    ComposeNext(t, b, c);
    DropJoins(t, k, Compose(t, b), c);
    VowelStarter(t, k, u);
  }

  lemma StrippedAppend(t: Tables, k: bool, b: seq<int>, u: seq<int>, c: int)
    requires Stripped(t, k, b, u) && Tail(Compose(t, u), u) && Ordered(t.cc, b + [c]) && Irreducible(t, k, c)
    requires var out := Compose(t, b); !(out != [] && Drops(out[|out| - 1], c))
    ensures Stripped(t, k, b + [c], u + [c])
  {
    hide Compose;
    hide HasBareT;
    hide Add;
    hide Irreducible;
    ComposeNext(t, b, c);
    ComposeNext(t, u, c);
    BareTMore(u, c);
    if b != [] { LastTwo(t.cc, b, c); }
    hide Ordered;
    AppendOrdered(t.cc, u, c);
  }

  lemma LastTwo(cc: Classes, b: seq<int>, c: int)
    requires b != [] && Ordered(cc, b + [c])
    ensures cc(c) == 0 || cc(b[|b| - 1]) <= cc(c)
  {
    var both := b + [c];
    assert cc(both[|b|]) == 0 || cc(both[|b| - 1]) <= cc(both[|b|]);
  }

  lemma StrippedNext(t: Tables, k: bool, rank: int -> nat, b: seq<int>, u: seq<int>, c: int)
    requires Sound(t, k, rank) && Stripped(t, k, b, u) && Ordered(t.cc, b + [c]) && Irreducible(t, k, c)
    ensures var out := Compose(t, b);
            Stripped(t, k, b + [c], if out != [] && Drops(out[|out| - 1], c) then u else u + [c])
  {
    hide Compose;
    hide HasBareT;
    hide Acyclic;
    hide JamoPlain;
    hide Composites;
    hide Composing;
    hide Tail;
    hide Ordered;
    ComposeKeeps(t, k, rank, u);
    var out := Compose(t, b);
    if out != [] && Drops(out[|out| - 1], c) {
      StrippedDrop(t, k, b, u, c);
    } else {
      StrippedAppend(t, k, b, u, c);
    }
  }

  lemma VowelStarter(t: Tables, k: bool, u: seq<int>)
    requires Composites(t, k) && EndsWithLV(u)
    ensures t.cc(u[|u| - 1]) == 0
  {
    assert Hangul(u[|u| - 1]);
  }

  lemma NothingStripped(t: Tables, k: bool)
    ensures Strip(t, []) == [] && Stripped(t, k, [], [])
  {
  }

  lemma {:induction false} StripStripped(t: Tables, k: bool, rank: int -> nat, b: seq<int>)
    requires Sound(t, k, rank) && Ordered(t.cc, b) && forall x :: x in b ==> Irreducible(t, k, x)
    ensures Stripped(t, k, b, Strip(t, b))
    decreases |b|
  {
    hide Acyclic;
    hide JamoPlain;
    hide Composites;
    hide Stripped;
    hide Ordered;
    hide Strip;
    hide Compose;
    hide Irreducible;
    if b == [] {
      NothingStripped(t, k);
    } else {
      var front, c := b[..|b| - 1], b[|b| - 1];
      assert b == front + [c] && c in b;
      OrderedFront(t.cc, b);
      forall x | x in front ensures Irreducible(t, k, x) { assert x in b; }
      StripStripped(t, k, rank, front);
      StrippedNext(t, k, rank, front, Strip(t, front), c);
      StripNext(t, front, c);
    }
  }

  /** The decomposition of a composed text is the text it was composed from, without what was
      dropped. */
  lemma ComposedNfd(t: Tables, k: bool, rank: int -> nat, s: seq<int>)
    requires Sound(t, k, rank)
    ensures var b := Nfd(t, k, rank, s);
            Nfd(t, k, rank, Compose(t, b)) == Strip(t, b) && Compose(t, Strip(t, b)) == Compose(t, b)
  {
    hide Acyclic;
    hide JamoPlain;
    hide Composites;
    hide HasBareT;
    hide Full;
    hide Compose;
    hide Strip;
    var b := Nfd(t, k, rank, s);
    NfdIrreducible(t, k, rank, s);
    hide Ordered;
    StripStripped(t, k, rank, b);
    var u := Strip(t, b);
    ComposeKeeps(t, k, rank, u);
    SortCcDecides(t.cc, Full(t, k, rank, Compose(t, u)), u);
    SortedStays(t.cc, u);
  }

  // ----- normalization -----

  datatype Form = NFC | NFD | NFKC | NFKD

  predicate Compat(n: Form) { n == NFKC || n == NFKD }
  predicate Decomposed(n: Form) { n == NFD || n == NFKD }

  predicate Latin1(s: seq<int>) { forall i :: 0 <= i < |s| ==> s[i] < 0x100 }

  /** The normal form of a text; a Latin-1 text is taken to be in form C already. */
  ghost function Normalize(t: Tables, rank: int -> nat, s: seq<int>, n: Form): seq<int>
    requires Acyclic(t, Compat(n), rank)
  {
    if n == NFC && Latin1(s) then s
    else if Decomposed(n) then Nfd(t, Compat(n), rank, s)
    else Compose(t, Nfd(t, Compat(n), rank, s))
  }

  /** Composition keeps the canonical meaning of a text, that is its decomposition, exactly
      when the decomposed text has no leading consonant, vowel and base 0x11A7 in a row. */
  lemma ComposeCanonical(t: Tables, k: bool, rank: int -> nat, s: seq<int>)
    requires Sound(t, k, rank)
    ensures var b := Nfd(t, k, rank, s);
            Nfd(t, k, rank, Compose(t, b)) == b <==> !HasBareT(b)
  {
    hide Acyclic;
    hide JamoPlain;
    hide Composites;
    hide HasBareT;
    hide Full;
    hide Compose;
    var b := Nfd(t, k, rank, s);
    NfdIrreducible(t, k, rank, s);
    hide Ordered;
    ComposeKeeps(t, k, rank, b);
    var out := Compose(t, b);
    if HasBareT(b) {
      assert |Nfd(t, k, rank, out)| == |Full(t, k, rank, out)|;
    } else {
      SortCcDecides(t.cc, Full(t, k, rank, out), b);
      SortedStays(t.cc, b);
    }
  }

  /** The forms C and KC are equivalent to the text they come from, under the same condition. */
  lemma NormalizeCanonical(t: Tables, rank: int -> nat, s: seq<int>, n: Form)
    requires Sound(t, Compat(n), rank)
    ensures var k := Compat(n);
            Nfd(t, k, rank, Normalize(t, rank, s, n)) == Nfd(t, k, rank, s)
            <==> Decomposed(n) || (n == NFC && Latin1(s)) || !HasBareT(Nfd(t, k, rank, s))
  {
    hide HasBareT;
    if Decomposed(n) {
      NfdIdempotent(t, Compat(n), rank, s);
    } else if !(n == NFC && Latin1(s)) {
      ComposeCanonical(t, Compat(n), rank, s);
    }
  }

  /** Normalizing a second time changes nothing. */
  lemma NormalizeIdempotent(t: Tables, rank: int -> nat, s: seq<int>, n: Form)
    requires Sound(t, Compat(n), rank)
    ensures Normalize(t, rank, Normalize(t, rank, s, n), n) == Normalize(t, rank, s, n)
  {
    hide Nfd;
    hide Compose;
    if Decomposed(n) {
      NfdIdempotent(t, Compat(n), rank, s);
    } else if !(n == NFC && Latin1(s)) {
      ComposedNfd(t, Compat(n), rank, s);
    }
  }

  /** Equivalent texts have the same form C. */
  ghost predicate OneFormC(t: Tables, rank: int -> nat)
    requires Acyclic(t, false, rank)
  {
    forall s: seq<int>, u: seq<int> :: Nfd(t, false, rank, s) == Nfd(t, false, rank, u) ==>
      Normalize(t, rank, s, NFC) == Normalize(t, rank, u, NFC)
  }

  /** The short cut is right: composing the decomposition of a Latin-1 text gives it back. */
  ghost predicate Latin1Recomposed(t: Tables, rank: int -> nat)
    requires Acyclic(t, false, rank)
  {
    forall s: seq<int> :: Latin1(s) ==> Compose(t, Nfd(t, false, rank, s)) == s
  }

  /** The one is the case exactly when the other is. */
  lemma OneFormCExactly(t: Tables, rank: int -> nat)
    requires Sound(t, false, rank)
    ensures OneFormC(t, rank) <==> Latin1Recomposed(t, rank)
  {
    hide Nfd;
    hide Compose;
    hide Latin1;
    hide Acyclic;
    hide JamoPlain;
    hide Composites;
    if !Latin1Recomposed(t, rank) {
      var s: seq<int> :| Latin1(s) && Compose(t, Nfd(t, false, rank, s)) != s;
      var u := TwoForms(t, rank, s);
      assert Normalize(t, rank, s, NFC) != Normalize(t, rank, u, NFC);
    }
  }

  /** A Latin-1 text that is not recomposed has an equivalent of another form C. */
  lemma TwoForms(t: Tables, rank: int -> nat, s: seq<int>) returns (u: seq<int>)
    requires Sound(t, false, rank) && Latin1(s) && Compose(t, Nfd(t, false, rank, s)) != s
    ensures Nfd(t, false, rank, s) == Nfd(t, false, rank, u)
    ensures Normalize(t, rank, s, NFC) != Normalize(t, rank, u, NFC)
  {
    hide Compose;
    hide HasBareT;
    u := Nfd(t, false, rank, s);
    NfdIdempotent(t, false, rank, s);
    if u == s {
      NoHangul(s);
      ComposeCanonical(t, false, rank, s);
      u := Compose(t, s);
    }
  }

  lemma NoHangul(s: seq<int>)
    requires Latin1(s)
    ensures !HasBareT(s)
  {
  }

  /** A text with the three in a row: U+AC00 and U+11A7 become U+AC00 alone. */
  lemma BareTIsLost(t: Tables, k: bool, rank: int -> nat)
    requires Sound(t, k, rank)
    ensures Nfd(t, k, rank, [0xAC00, 0x11A7]) == [0x1100, 0x1161, 0x11A7]
    ensures Compose(t, [0x1100, 0x1161, 0x11A7]) == [0xAC00]
    ensures HasBareT([0x1100, 0x1161, 0x11A7])
  {
    var l, v, b := 0x1100, 0x1161, 0x11A7;
    assert Hangul(l) && Hangul(v) && Hangul(b) && IsL(l) && IsV(v) && IsT(b);
    assert Jamo(0xAC00) == [l, v];
    assert FullChar(t, k, rank, b) == [b];
    FullTwo(t, k, rank, 0xAC00, b);
    assert [l, v] + [b] == [l, v, b];
    SortedStays(t.cc, [l, v, b]);
    ComposeThree(t, k, rank);
    var u := [l, v, b];
    assert IsL(u[0]) && IsV(u[1]) && u[2] == T_BASE;
  }

  lemma ComposeThree(t: Tables, k: bool, rank: int -> nat)
    requires Composites(t, k)
    ensures Compose(t, [0x1100, 0x1161, 0x11A7]) == [0xAC00]
  {
    var l, v, b := 0x1100, 0x1161, 0x11A7;
    assert Hangul(l) && Hangul(v) && Hangul(b) && Hangul(0xAC00);
    assert [l, v, b][..2] == [l, v] && [l, v][..1] == [l] && [l][..0] == [];
    assert Compose(t, [l]) == [l];
    assert Add(t, [l], v) == [0xAC00];
    assert Add(t, [0xAC00], b) == [0xAC00];
  }

  // ----- Hangul text -----

  /** Syllables are put together from their jamo. */
  lemma AddJamo(t: Tables, k: bool, out: seq<int>, c: int)
    requires Composites(t, k) && IsSyllable(c) && (out != [] ==> IsSyllable(out[|out| - 1]))
    ensures var j := Jamo(c);
            var two := Add(t, Add(t, out, j[0]), j[1]);
            (if |j| == 3 then Add(t, two, j[2]) else two) == out + [c]
  {
    var j := Jamo(c);
    JamoParts(c);
    assert Hangul(j[0]) && Hangul(j[1]) && Hangul(c);
    if out != [] { assert Hangul(out[|out| - 1]); }
    assert Add(t, out, j[0]) == out + [j[0]];
    var lv := 0xAC00 + (j[0] - 0x1100) * 588 + (j[1] - 0x1161) * 28;
    SyllableOfLV(j[0], j[1]);
    assert Hangul(lv);
    AddLast(t, out, j[0], j[1]);
    if |j| == 3 {
      AddLast(t, out, lv, j[2]);
    }
  }

  /** A starter at the end of the output is the one to compose with. */
  lemma AddLast(t: Tables, out: seq<int>, a: int, c: int)
    requires t.cc(a) == 0 && ComposePair(t, a, c) != 0
    ensures Add(t, out + [a], c) == out + [ComposePair(t, a, c)]
  {
  }

  lemma ComposeNext(t: Tables, s: seq<int>, c: int)
    ensures Compose(t, s + [c]) == Add(t, Compose(t, s), c)
  {
    assert (s + [c])[..|s|] == s;
  }

  /** The jamo of a text of syllables are composed to the syllables, */
  lemma {:induction false} ComposeSyllables(t: Tables, k: bool, rank: int -> nat, s: seq<int>)
    requires Sound(t, k, rank) && forall x :: x in s ==> IsSyllable(x)
    ensures Compose(t, Full(t, k, rank, s)) == s
    ensures forall x :: x in Full(t, k, rank, s) ==> t.cc(x) == 0
    decreases |s|
  {
    if s != [] {
      var front, c := s[..|s| - 1], s[|s| - 1];
      assert s == front + [c] && c in s;
      forall x | x in front ensures IsSyllable(x) { assert x in s; }
      ComposeSyllables(t, k, rank, front);
      FullJoin(t, k, rank, front, [c]);
      FullOne(t, k, rank, c);
      SyllableNext(t, k, front, Full(t, k, rank, front), c);
    }
  }

  lemma SyllableNext(t: Tables, k: bool, out: seq<int>, f: seq<int>, c: int)
    requires Composites(t, k) && IsSyllable(c) && Compose(t, f) == out && (out != [] ==> IsSyllable(out[|out| - 1]))
    ensures Compose(t, f + Jamo(c)) == out + [c]
    ensures forall x :: x in Jamo(c) ==> t.cc(x) == 0
  {
    hide Add;
    hide Compose;
    var j := Jamo(c);
    JamoParts(c);
    AddJamo(t, k, out, c);
    assert Hangul(j[0]) && Hangul(j[1]) && (|j| == 3 ==> Hangul(j[2]));
    ComposeNext(t, f, j[0]);
    ComposeNext(t, f + [j[0]], j[1]);
    if |j| == 3 {
      ComposeNext(t, f + [j[0]] + [j[1]], j[2]);
      assert f + j == f + [j[0]] + [j[1]] + [j[2]];
    } else {
      assert f + j == f + [j[0]] + [j[1]];
    }
  }

  lemma StartersOrdered(cc: Classes, s: seq<int>)
    requires forall x :: x in s ==> cc(x) == 0
    ensures Ordered(cc, s)
  {
    forall j | 0 <= j < |s| ensures cc(s[j]) == 0 {
      var x := s[j];
      assert x in s;
    }
  }

  /** and so a text of precomposed syllables is its own form C. */
  lemma SyllablesStable(t: Tables, rank: int -> nat, s: seq<int>)
    requires Sound(t, false, rank) && forall x :: x in s ==> IsSyllable(x)
    ensures Normalize(t, rank, s, NFC) == s
  {
    ComposeSyllables(t, false, rank, s);
    StartersOrdered(t.cc, Full(t, false, rank, s));
    SortedStays(t.cc, Full(t, false, rank, s));
  }

  // ----- in place -----

  /** The growing buffer of characters. */
  class DynBuf {
    var buf: seq<int>

    constructor ()
      ensures buf == []
    {
      buf := [];
    }

    method PutU32(c: int)
      modifies this
      ensures buf == old(buf) + [c]
    {
      buf := buf + [c];
    }
  }

  method ToNfdRec(dbuf: DynBuf, t: Tables, k: bool, ghost rank: int -> nat, src: seq<int>, ghost b: nat)
    requires Acyclic(t, k, rank) && forall d :: d in src ==> rank(d) < b
    modifies dbuf
    ensures dbuf.buf == old(dbuf.buf) + Full(t, k, rank, src)
    decreases b
  {
    hide Acyclic;
    hide Full;
    hide FullChar;
    hide Jamo;
    FullNone(t, k, rank, src);
    for i := 0 to |src|
      invariant dbuf.buf == old(dbuf.buf) + Full(t, k, rank, src[..i])
    {
      var c := src[i];
      assert c in src;
      assert src[..i + 1] == src[..i] + [c];
      FullJoin(t, k, rank, src[..i], [c]);
      FullOne(t, k, rank, c);
      if 0xAC00 <= c < 0xD7A4 {
        SyllableFull(t, k, rank, c);
        var s := c - 0xAC00;
        dbuf.PutU32(0x1100 + s / 588);
        dbuf.PutU32(0x1161 + s % 588 / 28);
        var v := s % 28;
        if v != 0 { dbuf.PutU32(0x11A7 + v); }
      } else {
        var res := t.decomp(c, k);
        if |res| != 0 {
          DecompBelow(t, k, rank, c);
          ToNfdRec(dbuf, t, k, rank, res, rank(c));
          FullCharStep(t, k, rank, c);
        } else {
          dbuf.PutU32(c);
          PlainFull(t, k, rank, c);
        }
      }
    }
    assert src[..|src|] == src;
  }

  lemma FullNone(t: Tables, k: bool, rank: int -> nat, s: seq<int>)
    requires Acyclic(t, k, rank)
    ensures Full(t, k, rank, s[..0]) == []
  {
  }

  lemma PlainFull(t: Tables, k: bool, rank: int -> nat, c: int)
    requires Acyclic(t, k, rank) && !IsSyllable(c) && t.decomp(c, k) == []
    ensures FullChar(t, k, rank, c) == [c]
  {
  }

  lemma DecompBelow(t: Tables, k: bool, rank: int -> nat, c: int)
    requires Acyclic(t, k, rank)
    ensures forall d :: d in t.decomp(c, k) ==> rank(d) < rank(c)
  {
  }

  lemma SyllableFull(t: Tables, k: bool, rank: int -> nat, c: int)
    requires Acyclic(t, k, rank) && IsSyllable(c)
    ensures FullChar(t, k, rank, c) == Jamo(c)
    ensures var s := c - 0xAC00;
            Jamo(c) == if s % 28 != 0 then [0x1100 + s / 588, 0x1161 + s % 588 / 28, 0x11A7 + s % 28]
                       else [0x1100 + s / 588, 0x1161 + s % 588 / 28]
  {
  }

  /** The composition of the whole buffer, in place. */
  method ComposeInPlace(t: Tables, buf: array<int>) returns (outLen: nat)
    requires buf.Length > 1
    modifies buf
    ensures outLen <= buf.Length && buf[..outLen] == Compose(t, old(buf[..]))
  {
    hide Compose;
    hide StarterFor;
    hide ComposePair;
    ghost var b := buf[..];
    var i := 1;
    outLen := 1;
    ComposeFirst(t, b);
    assert buf[..1] == b[..1];
    while i < buf.Length
      invariant 1 <= outLen <= i <= buf.Length
      invariant buf[..outLen] == Compose(t, b[..i]) && buf[i..] == b[i..]
    {
      ghost var p0 := buf[..];
      var starterPos := FindStarter(t.cc, buf, outLen, t.cc(buf[i]));
      var p := 0;
      if starterPos >= 0 { p := ComposePair(t, buf[starterPos], buf[i]); }
      ComposeStep(t, b, p0, outLen, i, starterPos, p);
      if starterPos >= 0 && p != 0 {
        buf[starterPos] := p;
        i := i + 1;
        assert buf[..] == p0[starterPos := p];
      } else {
        buf[outLen] := buf[i];
        outLen := outLen + 1;
        i := i + 1;
        assert buf[..] == p0[outLen - 1 := p0[i - 1]];
      }
      assert buf[..outLen] == buf[..][..outLen] && buf[i..] == buf[..][i..];
    }
    assert b[..i] == b;
  }

  /** One step, on the contents of the buffer. */
  lemma ComposeStep(t: Tables, b: seq<int>, p0: seq<int>, outLen: nat, i: nat, starter: int, p: int)
    requires 1 <= outLen <= i < |b| == |p0| && p0[..outLen] == Compose(t, b[..i]) && p0[i..] == b[i..]
    requires starter == StarterFor(t.cc, p0[..outLen], outLen - 1, t.cc(p0[i]))
    requires starter >= 0 ==> p == ComposePair(t, p0[starter], p0[i])
    ensures var joins := starter >= 0 && p != 0;
            var q := if joins then p0[starter := p] else p0[outLen := p0[i]];
            q[..if joins then outLen else outLen + 1] == Compose(t, b[..i + 1]) && q[i + 1..] == b[i + 1..]
  {
    hide Compose;
    hide ComposePair;
    hide StarterFor;
    assert p0[i] == p0[i..][0] == b[i..][0] == b[i];
    assert b[..i + 1] == b[..i] + [b[i]];
    ComposeNext(t, b[..i], b[i]);
    assert p0[i + 1..] == p0[i..][1..] == b[i..][1..] == b[i + 1..];
    if starter >= 0 && p != 0 {
      var q := p0[starter := p];
      assert q[..outLen] == p0[..outLen][starter := p];
      assert q[i + 1..] == p0[i + 1..];
    } else {
      var q := p0[outLen := p0[i]];
      assert q[..outLen + 1] == p0[..outLen] + [b[i]];
      assert q[i + 1..] == p0[i + 1..];
    }
  }

  lemma ComposeFirst(t: Tables, b: seq<int>)
    requires b != []
    ensures Compose(t, b[..1]) == b[..1]
  {
    assert b[..1][..0] == [];
  }

  /** The starter that the next character may be composed with, or -1. */
  method FindStarter(cc: Classes, buf: array<int>, outLen: nat, class0: Class) returns (p: int)
    requires outLen <= buf.Length
    ensures p == StarterFor(cc, buf[..outLen], outLen - 1, class0) && -1 <= p < outLen
  {
    var lastCc: nat := class0;
    p := outLen - 1;
    while p >= 0
      invariant -1 <= p < outLen
      invariant StarterFor(cc, buf[..outLen], outLen - 1, class0) == StarterFor(cc, buf[..outLen], p, lastCc)
    {
      var k := cc(buf[p]);
      if k == 0 { break; }
      if k >= lastCc { return -1; }
      lastCc := 256;
      p := p - 1;
    }
  }

  method AllLatin1(src: seq<int>) returns (r: bool)
    ensures r == Latin1(src)
  {
    for i := 0 to |src|
      invariant forall j :: 0 <= j < i ==> src[j] < 0x100
    {
      if src[i] >= 0x100 { return false; }
    }
    return true;
  }

  method CopyOf(s: seq<int>) returns (a: array<int>)
    ensures fresh(a) && a[..] == s
  {
    a := new int[|s|];
    for i := 0 to |s|
      invariant a[..i] == s[..i]
    {
      a[i] := s[i];
    }
    assert s[..|s|] == s;
  }

  /** The normal form of a text, as its first `len` characters. */
  method UnicodeNormalize(t: Tables, ghost rank: int -> nat, src: seq<int>, n: Form) returns (buf: array<int>, len: nat)
    requires Acyclic(t, Compat(n), rank)
    ensures len <= buf.Length && buf[..len] == Normalize(t, rank, src, n)
  {
    hide Acyclic;
    hide Full;
    hide Compose;
    hide SortCc;
    hide Latin1;
    if n == NFC {
      var plain := AllLatin1(src);
      if plain {
        buf := CopyOf(src);
        assert buf[..|src|] == buf[..];
        return buf, |src|;
      }
    }
    var dbuf := new DynBuf();
    ToNfdRec(dbuf, t, Compat(n), rank, src, MaxRank(rank, src));
    buf := CopyOf(dbuf.buf);
    SortCcInPlace(t.cc, buf);
    len := buf.Length;
    assert buf[..len] == buf[..];
    assert buf[..] == Nfd(t, Compat(n), rank, src) by {
      assert [] + Full(t, Compat(n), rank, src) == Full(t, Compat(n), rank, src);
    }
    if len <= 1 || Decomposed(n) {
      ShortComposed(t, buf[..]);
      return;
    }
    len := ComposeInPlace(t, buf);
  }

  lemma ShortComposed(t: Tables, b: seq<int>)
    ensures |b| <= 1 ==> Compose(t, b) == b
  {
    if |b| == 1 {
      ComposeFirst(t, b);
      assert b[..1] == b;
    }
  }
}
