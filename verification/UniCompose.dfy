/** Composition by the definitions of the Unicode Standard, section 3.11, and the arithmetic of
    Hangul by the formulas of section 3.12. */
module UniCompose {
  import opened UniOrder
  import opened UniNormalize

  /** No starter stands after the one at `q`. */
  ghost predicate LastStarter(cc: Classes, out: seq<int>, q: nat) {
    q < |out| && cc(out[q]) == 0 && forall j :: q < j < |out| ==> cc(out[j]) != 0
  }

  /** Definition D115: something between the starter at `q` and `c` is a starter or of no lower
      class than `c`. */
  ghost predicate Blocked(cc: Classes, out: seq<int>, q: nat, c: int) {
    exists j :: q < j < |out| && (cc(out[j]) == 0 || cc(out[j]) >= cc(c))
  }

  /** The composites are starters. */
  ghost predicate StarterComposites(t: Tables) {
    forall a: int, b: int :: ComposePair(t, a, b) != 0 ==> t.cc(ComposePair(t, a, b)) == 0
  }

  lemma {:induction false} StarterReached(cc: Classes, out: seq<int>, p: nat, last: nat, q: nat)
    requires q <= p < |out| && cc(out[q]) == 0 && (forall j :: q < j <= p ==> cc(out[j]) != 0)
    requires q < p ==> cc(out[p]) < last
    ensures StarterFor(cc, out, p, last) == q
    decreases p
  {
    if q < p { StarterReached(cc, out, p - 1, 256, q); }
  }

  /** Composing keeps a text in canonical order, and ends with no higher a class. */
  lemma {:induction false} ComposeOrdered(t: Tables, s: seq<int>)
    requires StarterComposites(t) && Ordered(t.cc, s)
    ensures Ordered(t.cc, Compose(t, s))
    ensures s != [] ==> t.cc(Compose(t, s)[|Compose(t, s)| - 1]) <= t.cc(s[|s| - 1])
    decreases |s|
  {
    hide ComposePair;
    if s != [] {
      var front, c := s[..|s| - 1], s[|s| - 1];
      assert s == front + [c];
      OrderedFront(t.cc, s);
      ComposeOrdered(t, front);
      if front != [] { LastTwo(t.cc, front, c); }
      ComposeNext(t, front, c);
      AddInOrder(t, Compose(t, front), c, if front == [] then 0 else t.cc(front[|front| - 1]));
    }
  }

  lemma AddInOrder(t: Tables, out: seq<int>, c: int, k: nat)
    requires StarterComposites(t) && Ordered(t.cc, out)
    requires out != [] ==> t.cc(out[|out| - 1]) <= k && (t.cc(c) == 0 || k <= t.cc(c))
    ensures Ordered(t.cc, Add(t, out, c)) && t.cc(Add(t, out, c)[|Add(t, out, c)| - 1]) <= t.cc(c)
  {
    hide ComposePair;
    hide Add;
    hide StarterFor;
    var p := AddCases(t, out, c);
    if Joins(t, out, c, p) {
      var ch := ComposePair(t, out[p], c);
      assert t.cc(ch) == 0;
      hide Ordered;
      JoinOrdered(t.cc, out, p, ch);
    } else {
      AppendOrdered(t.cc, out, c);
    }
  }

  /** Definition D117: a character is composed with the last starter before it, if it has a
      composite with it and is not blocked from it; otherwise it is appended. */
  lemma ComposeBlocked(t: Tables, s: seq<int>, c: int, q: nat)
    requires StarterComposites(t) && Ordered(t.cc, s + [c])
    ensures var out := Compose(t, s);
            && (LastStarter(t.cc, out, q) && !Blocked(t.cc, out, q, c) && ComposePair(t, out[q], c) != 0 ==>
                  Compose(t, s + [c]) == out[q := ComposePair(t, out[q], c)])
            && (LastStarter(t.cc, out, q) && (Blocked(t.cc, out, q, c) || ComposePair(t, out[q], c) == 0) ==>
                  Compose(t, s + [c]) == out + [c])
            && ((forall j :: 0 <= j < |out| ==> t.cc(out[j]) != 0) ==> Compose(t, s + [c]) == out + [c])
  {
    hide ComposePair;
    hide Compose;
    hide StarterFor;
    var out := Compose(t, s);
    assert (s + [c])[..|s|] == s;
    ComposeNext(t, s, c);
    OrderedFront(t.cc, s + [c]);
    ComposeOrdered(t, s);
    var p := AddCases(t, out, c);
    if LastStarter(t.cc, out, q) {
      if Joins(t, out, c, p) {
        assert p == q;
        forall j | q < j < |out| ensures t.cc(out[j]) < t.cc(c) { MarksBelow(t.cc, out, q, j); }
      } else if !Blocked(t.cc, out, q, c) {
        assert q < |out| - 1 ==> t.cc(out[|out| - 1]) < t.cc(c);
        StarterReached(t.cc, out, |out| - 1, t.cc(c), q);
      }
    }
  }

  /** The composites of sound tables are starters. */
  lemma SoundStarters(t: Tables, k: bool, rank: int -> nat)
    requires Sound(t, k, rank)
    ensures StarterComposites(t)
  {
    forall a: int, b: int | ComposePair(t, a, b) != 0 ensures t.cc(ComposePair(t, a, b)) == 0 {
      if IsL(a) && IsV(b) {
        SyllableOfLV(a, b);
        assert Hangul(ComposePair(t, a, b));
      } else if IsLV(a) && IsT(b) {
        if b != T_BASE { SyllableOfLVT(a, b); }
        assert Hangul(ComposePair(t, a, b));
      }
    }
  }

  /** The syllable with the numbers l, v and d decomposes into the jamo with these numbers, and
      the jamo compose to it, whatever the tables say. */
  lemma HangulSyllable(t: Tables, k: bool, rank: int -> nat, l: nat, v: nat, d: nat)
    requires Acyclic(t, k, rank) && l < 19 && v < 21 && d < 28
    ensures var lv := 0xAC00 + (l * 21 + v) * 28;
            && FullChar(t, k, rank, lv + d) == [0x1100 + l, 0x1161 + v] + (if d == 0 then [] else [0x11A7 + d])
            && ComposePair(t, 0x1100 + l, 0x1161 + v) == lv && ComposePair(t, lv, 0x11A7 + d) == lv + d
  {
    SyllableNumbers(l, v, d);
    SyllableNumbers(l, v, 0);
    assert (l * 21 + v) * 28 == l * 588 + v * 28;
  }

  /** Outside of Hangul the tables decide. */
  lemma OtherPairs(t: Tables, a: int, b: int)
    requires !(0x1100 <= a <= 0x1112 && 0x1161 <= b <= 0x1175)
    requires !(0xAC00 <= a <= 0xD7A3 && (a - 0xAC00) % 28 == 0 && 0x11A7 <= b <= 0x11C2)
    ensures ComposePair(t, a, b) == t.comp(a, b)
  {
  }

  /** The forms D are decomposed by the canonical mappings, the forms KD by all of them. */
  lemma FormsDecompose(t: Tables, rank: int -> nat, s: seq<int>, c: int)
    requires Acyclic(t, false, rank) && JamoPlain(t, false) && Acyclic(t, true, rank) && JamoPlain(t, true)
    ensures c in Normalize(t, rank, s, NFD) ==> t.decomp(c, false) == [] && !(0xAC00 <= c <= 0xD7A3)
    ensures c in Normalize(t, rank, s, NFKD) ==> t.decomp(c, true) == [] && !(0xAC00 <= c <= 0xD7A3)
    ensures Alike(t.cc, Normalize(t, rank, s, NFD), Full(t, false, rank, s))
    ensures Alike(t.cc, Normalize(t, rank, s, NFKD), Full(t, true, rank, s))
  {
    hide Full;
    hide Acyclic;
    hide SortCc;
    NfdIrreducible(t, false, rank, s);
    NfdIrreducible(t, true, rank, s);
    SortCcSorts(t.cc, Full(t, false, rank, s));
    SortCcSorts(t.cc, Full(t, true, rank, s));
  }

  /** The forms C and KC are composed from the forms D and KD, except for Latin-1 texts in
      form C, which are left alone. */
  lemma FormsCompose(t: Tables, rank: int -> nat, s: seq<int>)
    requires Acyclic(t, false, rank) && Acyclic(t, true, rank)
    ensures Normalize(t, rank, s, NFKC) == Compose(t, Normalize(t, rank, s, NFKD))
    ensures Normalize(t, rank, s, NFC)
         == if exists i :: 0 <= i < |s| && s[i] > 0xFF then Compose(t, Normalize(t, rank, s, NFD)) else s
  {
  }
}
