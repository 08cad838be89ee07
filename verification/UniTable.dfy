/** Compressed tables: run lengths, decoded in order into a set, or looked up from the nearest
    index entry. */
module UniTable {
  import opened Common
  import opened UniRange

  // ----- the runs of a table -----

  /** What one code of the table says: one or two runs, and where the next code starts. */
  datatype Code = Code(first: nat, second: nat, next: nat)

  function CodeAt(table: seq<Byte>, p: nat): Code
    requires p < |table|
  {
    var b := table[p];
    var x: int := if p + 1 < |table| then table[p + 1] else 0;
    var y: int := if p + 2 < |table| then table[p + 2] else 0;
    if b < 64 then Code(b / 8 + 1, b % 8 + 1, p + 1)
    else if b >= 0x80 then Code(b as int - 0x80 + 1, 0, p + 1)
    else if b < 0x60 then Code((b as int - 0x40) * 0x100 + x + 1, 0, p + 2)
    else Code((b as int - 0x60) * 0x1_0000 + x * 0x100 + y + 1, 0, p + 3)
  }

  /** The codes end where the table ends. */
  predicate Whole(table: seq<Byte>, p: nat)
    decreases |table| - p
  {
    p == |table| || (p < |table| && CodeAt(table, p).next <= |table| && Whole(table, CodeAt(table, p).next))
  }

  /** The end of the last run. */
  function End(table: seq<Byte>, p: nat, code: nat): (e: nat)
    requires Whole(table, p)
    ensures e >= code
    decreases |table| - p
  {
    if p == |table| then code
    else
      var d := CodeAt(table, p);
      End(table, d.next, code + d.first + d.second)
  }

  /** The bit of the run that holds `c`, the runs from `p` starting at `code` with `bit`. */
  predicate InRuns(table: seq<Byte>, p: nat, code: nat, bit: bool, c: int)
    requires Whole(table, p)
    decreases |table| - p
  {
    if p == |table| then false
    else
      var d := CodeAt(table, p);
      if c < code + d.first then bit
      else if d.second == 0 then InRuns(table, d.next, code + d.first, !bit, c)
      else if c < code + d.first + d.second then !bit
      else InRuns(table, d.next, code + d.first + d.second, bit, c)
  }

  /** Linear decoding comes from `p` to `q` with this code and bit. */
  predicate Reaches(table: seq<Byte>, p: nat, code: nat, bit: bool, q: nat, code1: nat, bit1: bool)
    requires Whole(table, p)
    decreases |table| - p
  {
    (p == q && code == code1 && bit == bit1)
    || (p < |table| &&
        var d := CodeAt(table, p);
        Reaches(table, d.next, code + d.first + d.second, if d.second == 0 then !bit else bit, q, code1, bit1))
  }

  lemma CodeMoves(table: seq<Byte>, p: nat)
    ensures p < |table| ==> CodeAt(table, p).next > p && CodeAt(table, p).first > 0
  {
  }

  lemma {:induction false} ReachedRuns(table: seq<Byte>, p: nat, code: nat, bit: bool, q: nat, code1: nat, bit1: bool,
      c: int)
    requires Whole(table, p) && Reaches(table, p, code, bit, q, code1, bit1) && c >= code1
    ensures code <= code1 && Whole(table, q) && InRuns(table, p, code, bit, c) == InRuns(table, q, code1, bit1, c)
    ensures End(table, p, code) == End(table, q, code1)
    decreases |table| - p
  {
    hide CodeAt;
    CodeMoves(table, p);
    if !(p == q && code == code1 && bit == bit1) {
      var d := CodeAt(table, p);
      ReachedRuns(table, d.next, code + d.first + d.second, if d.second == 0 then !bit else bit, q, code1, bit1, c);
    }
  }

  // ----- decoding a table into a set -----

  /** The intervals of the runs whose bit is set, in order. */
  function PropPoints(table: seq<Byte>, p: nat, code: nat, bit: bool): (pts: seq<Word32>)
    requires Whole(table, p) && End(table, p, code) <= UINT32_MAX
    decreases |table| - p
  {
    if p == |table| then []
    else
      var d := CodeAt(table, p);
      var mid, last: nat := code + d.first, code + d.first + d.second;
      assert last <= End(table, d.next, last);
      if d.second == 0 then (if bit then [code as Word32, mid] else []) + PropPoints(table, d.next, mid, !bit)
      else (if bit then [code as Word32, mid] else [mid, last]) + PropPoints(table, d.next, last, bit)
  }

  /** The intervals of one code. */
  function CodePoints(table: seq<Byte>, p: nat, code: nat, bit: bool): seq<Word32>
    requires p < |table| && code + CodeAt(table, p).first + CodeAt(table, p).second <= UINT32_MAX
  {
    var d := CodeAt(table, p);
    if d.second == 0 then (if bit then [code as Word32, code + d.first] else [])
    else if bit then [code as Word32, code + d.first]
    else [(code + d.first) as Word32, code + d.first + d.second]
  }

  /** The bit after one code. */
  function NextBit(table: seq<Byte>, p: nat, bit: bool): bool
    requires p < |table|
  {
    if CodeAt(table, p).second == 0 then !bit else bit
  }

  lemma PropStep(table: seq<Byte>, p: nat, code: nat, bit: bool)
    requires p < |table| && Whole(table, p) && End(table, p, code) <= UINT32_MAX
    ensures var d := CodeAt(table, p);
            var code1 := code + d.first + d.second;
            && code1 <= UINT32_MAX && p < d.next <= |table| && Whole(table, d.next)
            && End(table, d.next, code1) == End(table, p, code)
            && PropPoints(table, p, code, bit)
              == CodePoints(table, p, code, bit) + PropPoints(table, d.next, code1, NextBit(table, p, bit))
  {
  }

  /** One code is read, and its intervals are added. */
  method PropCode(cr: CharRange, table: seq<Byte>, p0: nat, code: nat, bit0: bool) returns (p: nat, c: nat, bit: bool)
    requires cr.Valid() && p0 < |table| && CodeAt(table, p0).next <= |table|
    requires code + CodeAt(table, p0).first + CodeAt(table, p0).second <= UINT32_MAX
    modifies cr, cr.points
    ensures cr.Valid() && cr.Points() == old(cr.Points()) + CodePoints(table, p0, code, bit0)
    ensures cr.points == old(cr.points) || fresh(cr.points)
    ensures p == CodeAt(table, p0).next && bit == NextBit(table, p0, bit0)
    ensures c == code + CodeAt(table, p0).first + CodeAt(table, p0).second
  {
    c, p, bit := code, p0, bit0;
    var c0 := c;
    var b: int := table[p];
    p := p + 1;
    if b < 64 {
      c := c + b / 8 + 1;
      if bit { cr.AddInterval(c0, c); }
      bit := !bit;
      c0 := c;
      c := c + b % 8 + 1;
    } else if b >= 0x80 {
      c := c + (b - 0x80 + 1);
    } else if b < 0x60 {
      c := c + ((b - 0x40) * 0x100 + table[p] as int + 1);
      p := p + 1;
    } else {
      c := c + ((b - 0x60) * 0x1_0000 + table[p] as int * 0x100 + table[p + 1] as int + 1);
      p := p + 2;
    }
    if bit { cr.AddInterval(c0, c); }
    bit := !bit;
  }

  /** The whole table is decoded into the set. */
  method UnicodeProp1(cr: CharRange, table: seq<Byte>)
    requires cr.Valid() && Whole(table, 0) && End(table, 0, 0) <= UINT32_MAX
    modifies cr, cr.points
    ensures cr.Valid() && cr.Points() == old(cr.Points()) + PropPoints(table, 0, 0, false)
    ensures cr.points == old(cr.points) || fresh(cr.points)
  {
    hide PropPoints;
    hide Whole;
    hide End;
    hide CodePoints;
    hide CodeAt;
    hide NextBit;
    var p, bit := 0, false;
    var c: nat := 0;
    ghost var all := old(cr.Points()) + PropPoints(table, 0, 0, false);
    WholeBelow(table, 0);
    while p < |table|
      invariant cr.Valid() && p <= |table| && Whole(table, p) && End(table, p, c) <= UINT32_MAX
      invariant cr.points == old(cr.points) || fresh(cr.points)
      invariant all == cr.Points() + PropPoints(table, p, c, bit)
      decreases |table| - p
    {
      PropStep(table, p, c, bit);
      p, c, bit := PropCode(cr, table, p, c, bit);
    }
    assert PropPoints(table, p, c, bit) == [] by { PropEnd(table, p, c, bit); }
  }

  lemma WholeBelow(table: seq<Byte>, p: nat)
    requires Whole(table, p)
    ensures p <= |table|
  {
  }

  lemma PropEnd(table: seq<Byte>, p: nat, code: nat, bit: bool)
    requires p == |table| && Whole(table, p) && End(table, p, code) <= UINT32_MAX
    ensures PropPoints(table, p, code, bit) == []
  {
  }

  lemma RunsStep(table: seq<Byte>, p: nat, code: nat, bit: bool, c: int)
    requires p < |table| && Whole(table, p)
    ensures var d := CodeAt(table, p);
            var code1 := code + d.first + d.second;
            InRuns(table, p, code, bit, c) ==
              if c < code + d.first then bit
              else if c < code1 then !bit
              else InRuns(table, d.next, code1, NextBit(table, p, bit), c)
    ensures CodeAt(table, p).first > 0
  {
  }

  /** The decoded intervals hold exactly the characters of the set runs, and their points are
      strictly increasing. */
  lemma {:induction false} PropPointsExact(table: seq<Byte>, p: nat, code: nat, bit: bool, c: int)
    requires Whole(table, p) && End(table, p, code) <= UINT32_MAX
    ensures var pts := PropPoints(table, p, code, bit);
            && Increasing(pts) && Even(pts)
            && (forall i :: 0 <= i < |pts| ==> code <= pts[i] && (!bit ==> code < pts[i]))
            && (Member(pts, c) <==> c >= code && InRuns(table, p, code, bit, c))
    decreases |table| - p
  {
    hide PropPoints;
    hide Whole;
    hide End;
    hide InRuns;
    hide CodeAt;
    hide Member;
    WholeBelow(table, p);
    if p == |table| {
      PropEnd(table, p, code, bit);
      NoRuns(table, p, code, bit, c);
    } else {
      var d := CodeAt(table, p);
      var code1 := code + d.first + d.second;
      PropStep(table, p, code, bit);
      var rest := PropPoints(table, d.next, code1, NextBit(table, p, bit));
      PropPointsExact(table, d.next, code1, NextBit(table, p, bit), c);
      RunsStep(table, p, code, bit, c);
      var head := CodePoints(table, p, code, bit);
      MemberJoin(head, rest, c);
      if head == [] { NoMember(c); } else { MemberTwo(head[0], head[1], c); }
    }
  }

  lemma NoMember(c: int)
    ensures !Member([], c)
  {
  }

  lemma NoRuns(table: seq<Byte>, p: nat, code: nat, bit: bool, c: int)
    requires p == |table|
    ensures Whole(table, p) && !InRuns(table, p, code, bit, c) && !Member([], c)
  {
  }

  // ----- looking up through an index -----

  const INDEX_BLOCK_LEN := 32

  function GetLe24(t: seq<Byte>, k: nat): nat
    requires 3 * k + 2 < |t|
  {
    t[3 * k] + t[3 * k + 1] as int * 0x100 + t[3 * k + 2] as int * 0x1_0000
  }

  function IndexCode(index: seq<Byte>, k: nat): nat
    requires 3 * k + 2 < |index|
  {
    GetLe24(index, k) % 0x20_0000
  }

  function IndexPos(index: seq<Byte>, k: nat): nat
    requires 3 * k + 2 < |index|
  {
    (k + 1) * INDEX_BLOCK_LEN + GetLe24(index, k) / 0x20_0000
  }

  /** Every entry but the last points at a code of the table, with the character there and
      with bit 0; the last one bounds the runs that are set. */
  ghost predicate WellIndexed(table: seq<Byte>, index: seq<Byte>, n: nat) {
    && Whole(table, 0) && End(table, 0, 0) <= UINT32_MAX
    && 1 <= n && 3 * n <= |index|
    && (forall k: nat :: k < n - 1 ==> Reaches(table, 0, 0, false, IndexPos(index, k), IndexCode(index, k), false))
    && GetLe24(index, n - 1) <= End(table, 0, 0) && GetLe24(index, n - 1) < 0x20_0000
    && (forall c: int :: c >= GetLe24(index, n - 1) ==> !InRuns(table, 0, 0, false, c))
  }

  /** The odd characters below 34: as many runs of one character. */
  function Alternating(): seq<Byte> { seq(34, i => 0x80) }

  lemma {:induction false} AlternatingRuns(p: nat, c: int)
    requires p <= 34
    ensures var t := Alternating();
            Whole(t, p) && End(t, p, p) == 34 && (p <= 32 ==> Reaches(t, p, p, p % 2 == 1, 32, 32, false))
            && (c >= 34 ==> !InRuns(t, p, p, p % 2 == 1, c))
    decreases 34 - p
  {
    hide *;
    AlternatingCode(p);
    var t := Alternating();
    if p < 34 {
      AlternatingRuns(p + 1, c);
      OneByOne(t, p, p, p % 2 == 1, 32, 32, false, c);
      if p == 32 { ReachesItself(t, 32, 32, false); }
    } else {
      NoRuns(t, p, p, p % 2 == 1, c);
      NoMoreRuns(t, p, p);
    }
  }

  lemma OneByOne(t: seq<Byte>, p: nat, code: nat, bit: bool, q: nat, code1: nat, bit1: bool, c: int)
    requires p < |t| && CodeAt(t, p) == Code(1, 0, p + 1) && Whole(t, p + 1)
    ensures Whole(t, p) && End(t, p, code) == End(t, p + 1, code + 1)
    ensures Reaches(t, p + 1, code + 1, !bit, q, code1, bit1) ==> Reaches(t, p, code, bit, q, code1, bit1)
    ensures c > code ==> InRuns(t, p, code, bit, c) == InRuns(t, p + 1, code + 1, !bit, c)
  {
    hide CodeAt;
  }

  lemma ReachesItself(t: seq<Byte>, p: nat, code: nat, bit: bool)
    requires Whole(t, p)
    ensures Reaches(t, p, code, bit, p, code, bit)
  {
  }

  lemma NoMoreRuns(t: seq<Byte>, p: nat, code: nat)
    requires p == |t|
    ensures Whole(t, p) && End(t, p, code) == code
  {
  }

  lemma AlternatingCode(p: nat)
    ensures |Alternating()| == 34 && (p < 34 ==> CodeAt(Alternating(), p) == Code(1, 0, p + 1))
  {
  }

  /** They can be looked up through an index of two entries. */
  lemma AlternatingIndexed()
    ensures WellIndexed(Alternating(), [32, 0, 0, 34, 0, 0], 2)
  {
    hide Whole;
    hide End;
    hide Reaches;
    hide InRuns;
    var t := Alternating();
    AlternatingRuns(0, 0);
    forall c: int | c >= 34 ensures !InRuns(t, 0, 0, false, c) { AlternatingRuns(0, c); }
  }

  /** A place from where `c` can be found, or -1 past the last run that is set. */
  method GetIndexPos(c: Word32, table: seq<Byte>, index: seq<Byte>, n: nat) returns (pos: int, code: nat)
    requires WellIndexed(table, index, n)
    ensures pos == -1 ==> !InRuns(table, 0, 0, false, c)
    ensures pos != -1 ==> pos >= 0 && code <= c < End(table, 0, 0) && Reaches(table, 0, 0, false, pos, code, false)
  {
    var v := GetLe24(index, 0);
    code := v % 0x20_0000;
    if c < code {
      if n > 1 { ReachedRuns(table, 0, 0, false, IndexPos(index, 0), IndexCode(index, 0), false, code); }
      return 0, 0;
    }
    var idxMin, idxMax := 0, n - 1;
    code := GetLe24(index, idxMax);
    if c >= code { return -1, 0; }
    while idxMax - idxMin > 1
      invariant 0 <= idxMin < idxMax < n && IndexCode(index, idxMin) <= c
    {
      var idx := (idxMax + idxMin) / 2;
      v := GetLe24(index, idx);
      code := v % 0x20_0000;
      if c < code {
        idxMax := idx;
      } else {
        idxMin := idx;
      }
    }
    v := GetLe24(index, idxMin);
    code := v % 0x20_0000;
    pos := (idxMin + 1) * INDEX_BLOCK_LEN + v / 0x20_0000;
  }

  /** One code is read; `found` if `c` lies in one of its runs, `bit` then being the answer. */
  method LookAtCode(table: seq<Byte>, p0: nat, code0: nat, bit0: bool, c: Word32)
    returns (found: bool, p: nat, code: nat, bit: bool)
    requires p0 < |table| && CodeAt(table, p0).next <= |table|
    ensures var d := CodeAt(table, p0);
            && found == (c < code0 + d.first + d.second)
            && (found ==> bit == if c < code0 + d.first then bit0 else !bit0)
            && (!found ==> p == d.next && code == code0 + d.first + d.second && bit == NextBit(table, p0, bit0))
  {
    p, code, bit := p0, code0, bit0;
    var b: int := table[p];
    p := p + 1;
    if b < 64 {
      code := code + b / 8 + 1;
      if c < code { return true, p, code, bit; }
      bit := !bit;
      code := code + b % 8 + 1;
    } else if b >= 0x80 {
      code := code + (b - 0x80 + 1);
    } else if b < 0x60 {
      code := code + ((b - 0x40) * 0x100 + table[p] as int + 1);
      p := p + 1;
    } else {
      code := code + ((b - 0x60) * 0x1_0000 + table[p] as int * 0x100 + table[p + 1] as int + 1);
      p := p + 2;
    }
    if c < code { return true, p, code, bit; }
    return false, p, code, !bit;
  }

  /** The lookup answers as the set that the whole table decodes to. */
  method LreIsInTable(c: Word32, table: seq<Byte>, index: seq<Byte>, n: nat) returns (r: bool)
    requires WellIndexed(table, index, n)
    ensures r == Member(PropPoints(table, 0, 0, false), c)
  {
    hide GetLe24;
    PropPointsExact(table, 0, 0, false, c);
    var pos, start := GetIndexPos(c, table, index, n);
    if pos < 0 { return false; }
    ReachedRuns(table, 0, 0, false, pos, start, false, c);
    var p: nat, code: nat, bit := pos, start, false;
    hide WellIndexed;
    hide CodeAt;
    hide InRuns;
    hide Whole;
    hide End;
    hide PropPoints;
    hide NextBit;
    hide Member;
    while true
      invariant Whole(table, p) && code <= c < End(table, p, code)
      invariant InRuns(table, p, code, bit, c) == Member(PropPoints(table, 0, 0, false), c)
      decreases |table| - p
    {
      EndStep(table, p, code, c);
      RunsStep(table, p, code, bit, c);
      var found;
      found, p, code, bit := LookAtCode(table, p, code, bit, c);
      if found { return bit; }
    }
  }

  lemma EndStep(table: seq<Byte>, p: nat, code: nat, c: int)
    requires Whole(table, p) && code <= c < End(table, p, code)
    ensures p < |table|
    ensures var d := CodeAt(table, p);
            p < d.next <= |table| && Whole(table, d.next)
              && End(table, p, code) == End(table, d.next, code + d.first + d.second)
  {
  }
}
