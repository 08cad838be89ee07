/** The generator of the compressed tables: runs of equal bits are encoded, and an index of
    blocks is made. What it writes is decoded, and looked up, to the same set. */
module UniTableGen {
  import opened Common
  import opened UniRange
  import opened UniTable

  const CHARCODE_MAX: nat := 0x10FFFF

  /** A property of code points. */
  type Prop = nat -> bool

  // ----- runs of equal bits -----

  /** The character after the last of the runs; each is given by its length less one. */
  function RunsEnd(runs: seq<nat>): (e: nat)
    ensures e >= |runs|
    decreases |runs|
  {
    if runs == [] then 0 else RunsEnd(runs[..|runs| - 1]) + runs[|runs| - 1] + 1
  }

  /** The k-th run, the first one starting at `code`, holds `c`. */
  predicate RunHolds(runs: seq<nat>, code: nat, k: nat, c: int) {
    k < |runs| && code + RunsEnd(runs[..k]) <= c < code + RunsEnd(runs[..k + 1])
  }

  /** Every second run is set: the first one is not. */
  ghost predicate InSetRun(runs: seq<nat>, c: int) {
    exists k: nat :: k % 2 == 1 && RunHolds(runs, 0, k, c)
  }

  /** The runs from here on, the first of which starts at `code` and has this bit. */
  predicate RunBit(runs: seq<nat>, code: nat, bit: bool, c: int)
    decreases |runs|
  {
    runs != [] && if c < code + runs[0] + 1 then bit else RunBit(runs[1..], code + runs[0] + 1, !bit, c)
  }

  function Total(runs: seq<nat>): (n: nat)
    decreases |runs|
  {
    if runs == [] then 0 else runs[0] + 1 + Total(runs[1..])
  }

  lemma {:induction false} TotalFirst(runs: seq<nat>)
    requires runs != []
    ensures RunsEnd(runs) == runs[0] + 1 + RunsEnd(runs[1..])
    decreases |runs|
  {
    var n := |runs|;
    if n > 1 {
      assert runs[..n - 1][1..] == runs[1..][..n - 2] && runs[1..][n - 2] == runs[n - 1];
      TotalFirst(runs[..n - 1]);
    } else {
      assert runs[1..] == [] && runs[..0] == [];
    }
  }

  lemma {:induction false} TotalIsEnd(runs: seq<nat>)
    ensures Total(runs) == RunsEnd(runs)
    decreases |runs|
  {
    if runs != [] {
      TotalFirst(runs);
      TotalIsEnd(runs[1..]);
    }
  }

  lemma ShiftedEnd(runs: seq<nat>, k: nat)
    requires k < |runs|
    ensures RunsEnd(runs[..0]) == 0 && RunsEnd(runs[..k + 1]) == runs[0] + 1 + RunsEnd(runs[1..][..k])
  {
    TotalFirst(runs[..k + 1]);
    assert runs[..k + 1][1..] == runs[1..][..k];
  }

  lemma NextHolds(runs: seq<nat>, code: nat, k: nat, c: int)
    requires runs != []
    ensures RunHolds(runs, code, 0, c) <==> code <= c < code + runs[0] + 1
    ensures RunHolds(runs, code, k + 1, c) <==> RunHolds(runs[1..], code + runs[0] + 1, k, c)
    ensures RunHolds(runs, code, k + 1, c) ==> c >= code + runs[0] + 1
  {
    hide RunsEnd;
    ShiftedEnd(runs, 0);
    NoneBefore(runs[1..]);
    if k + 1 < |runs| {
      ShiftedEnd(runs, k);
      ShiftedEnd(runs, k + 1);
    }
  }

  lemma NoneBefore(runs: seq<nat>)
    ensures RunsEnd(runs[..0]) == 0
  {
  }

  /** The bit of a character is set exactly if a run of the right parity holds it. */
  lemma {:induction false} RunBitExact(runs: seq<nat>, code: nat, bit: bool, c: int)
    requires c >= code
    ensures RunBit(runs, code, bit, c) <==> exists k: nat :: (k % 2 == 1) == !bit && RunHolds(runs, code, k, c)
    decreases |runs|
  {
    hide RunHolds;
    if runs == [] {
      NoRunHolds(code, c);
    } else {
      var rest, code1 := runs[1..], code + runs[0] + 1;
      NextHolds(runs, code, 0, c);
      if k: nat :| (k % 2 == 1) == !bit && RunHolds(runs, code, k, c) {
        if k > 0 { NextHolds(runs, code, k - 1, c); }
      }
      if c >= code1 {
        RunBitExact(rest, code1, !bit, c);
        if k: nat :| (k % 2 == 1) == bit && RunHolds(rest, code1, k, c) {
          NextHolds(runs, code, k, c);
          assert ((k + 1) % 2 == 1) == !bit && RunHolds(runs, code, k + 1, c);
        }
        if k: nat :| (k % 2 == 1) == !bit && RunHolds(runs, code, k, c) {
          if k > 0 {
            NextHolds(runs, code, k - 1, c);
            assert ((k - 1) % 2 == 1) == bit && RunHolds(rest, code1, k - 1, c);
          }
        }
      }
    }
  }

  lemma NoRunHolds(code: nat, c: int)
    ensures forall k: nat :: !RunHolds([], code, k, c)
  {
  }

  // ----- encoding -----

  /** Two short runs in one byte, or one run in one, two or three. */
  function Packs(runs: seq<nat>): bool { |runs| >= 2 && runs[0] < 8 && runs[1] < 8 }

  function FirstBytes(runs: seq<nat>): (b: seq<Byte>)
    requires runs != [] && runs[0] < 0x20_0000
    ensures 1 <= |b| <= 3
  {
    var v := runs[0];
    if Packs(runs) then [8 * v + runs[1]]
    else if v < 128 then [0x80 + v]
    else if v < 0x2000 then [0x40 + v / 0x100, v % 0x100]
    else [0x60 + v / 0x1_0000, v / 0x100 % 0x100, v % 0x100]
  }

  function Taken(runs: seq<nat>): (n: nat)
    requires runs != []
    ensures 1 <= n <= |runs|
  {
    if Packs(runs) then 2 else 1
  }

  predicate Encodable(runs: seq<nat>) { forall i :: 0 <= i < |runs| ==> runs[i] < 0x20_0000 }

  function Encode(runs: seq<nat>): seq<Byte>
    requires Encodable(runs)
    decreases |runs|
  {
    if runs == [] then [] else FirstBytes(runs) + Encode(runs[Taken(runs)..])
  }

  lemma SplitWord(v: nat)
    ensures v / 0x1_0000 * 0x1_0000 + v / 0x100 % 0x100 * 0x100 + v % 0x100 == v
    ensures v < 0x20_0000 ==> v / 0x1_0000 < 0x20
    ensures v < 0x2000 ==> v / 0x100 < 0x20
  {
  }

  /** One code is decoded to the runs it was made from. */
  lemma CodeDecodes(table: seq<Byte>, p: nat, runs: seq<nat>)
    requires runs != [] && runs[0] < 0x20_0000
    requires p + |FirstBytes(runs)| <= |table| && table[p..p + |FirstBytes(runs)|] == FirstBytes(runs)
    ensures CodeAt(table, p)
         == Code(runs[0] + 1, if Packs(runs) then runs[1] + 1 else 0, p + |FirstBytes(runs)|)
  {
    var b, v := FirstBytes(runs), runs[0];
    SplitWord(v);
    assert forall i :: 0 <= i < |b| ==> table[p + i] == table[p..p + |b|][i] == b[i];
    assert table[p] == b[0];
    if |b| >= 2 { assert table[p + 1] == b[1]; }
    if |b| == 3 { assert table[p + 2] == b[2]; }
  }

  lemma EncodeTail(runs: seq<nat>)
    requires Encodable(runs) && runs != []
    ensures Encodable(runs[Taken(runs)..]) && Encode(runs) == FirstBytes(runs) + Encode(runs[Taken(runs)..])
    ensures runs[0] < 0x20_0000
  {
  }

  /** The bytes from `p` on encode the runs. */
  predicate EncodedAt(table: seq<Byte>, p: nat, runs: seq<nat>) {
    Encodable(runs) && p <= |table| && table[p..] == Encode(runs)
  }

  lemma EncodedStep(table: seq<Byte>, p: nat, runs: seq<nat>)
    requires EncodedAt(table, p, runs) && runs != []
    ensures p < |table|
    ensures var d := CodeAt(table, p);
            && d == Code(runs[0] + 1, if Packs(runs) then runs[1] + 1 else 0, d.next) && p < d.next <= |table|
            && EncodedAt(table, d.next, runs[Taken(runs)..])
  {
    hide FirstBytes;
    EncodeTail(runs);
    var b := FirstBytes(runs);
    assert table[p..][..|b|] == table[p..p + |b|] && table[p..][|b|..] == table[p + |b|..];
    CodeDecodes(table, p, runs);
  }

  /** Decoding the whole encoding gives the runs back: where they end, and the bit of every
      character. */
  lemma {:induction false} DecodesEncoded(table: seq<Byte>, p: nat, runs: seq<nat>, code: nat, bit: bool, c: int)
    requires EncodedAt(table, p, runs)
    ensures Whole(table, p) && End(table, p, code) == code + Total(runs)
    ensures InRuns(table, p, code, bit, c) == RunBit(runs, code, bit, c)
    decreases |runs|
  {
    hide CodeAt;
    hide EncodedAt;
    if runs == [] {
      EncodedNothing(table, p);
    } else {
      EncodedStep(table, p, runs);
      var d := CodeAt(table, p);
      DecodesEncoded(table, d.next, runs[Taken(runs)..], code + d.first + d.second, if d.second == 0 then !bit else bit,
                     c);
      if Packs(runs) { assert runs[1..][1..] == runs[2..]; }
    }
  }

  lemma EncodedNothing(table: seq<Byte>, p: nat)
    requires EncodedAt(table, p, [])
    ensures p == |table|
  {
  }

  /** The set that the table decodes to is that of every second run. */
  lemma EncodingExact(runs: seq<nat>, c: int)
    requires Encodable(runs) && RunsEnd(runs) <= UINT32_MAX
    ensures Whole(Encode(runs), 0) && End(Encode(runs), 0, 0) == RunsEnd(runs)
    ensures Member(PropPoints(Encode(runs), 0, 0, false), c) <==> c >= 0 && InSetRun(runs, c)
  {
    hide CodeAt;
    hide Member;
    hide PropPoints;
    hide InRuns;
    hide Encode;
    var table := Encode(runs);
    assert table[0..] == table;
    DecodesEncoded(table, 0, runs, 0, false, c);
    TotalIsEnd(runs);
    PropPointsExact(table, 0, 0, false, c);
    if c >= 0 { RunBitExact(runs, 0, false, c); }
  }

  // ----- the index -----

  lemma {:induction false} ReachesFurther(table: seq<Byte>, p: nat, code: nat, bit: bool, q: nat, code1: nat,
      bit1: bool)
    requires Whole(table, p) && Reaches(table, p, code, bit, q, code1, bit1) && q < |table|
    ensures var d := CodeAt(table, q);
            Reaches(table, p, code, bit, d.next, code1 + d.first + d.second, if d.second == 0 then !bit1 else bit1)
    decreases |table| - p
  {
    hide CodeAt;
    CodeMoves(table, p);
    if p == q && code == code1 && bit == bit1 {
      ReachesNext(table, p, code, bit);
    } else {
      var d := CodeAt(table, p);
      ReachesFurther(table, d.next, code + d.first + d.second, if d.second == 0 then !bit else bit, q, code1, bit1);
    }
  }

  lemma ReachesNext(table: seq<Byte>, p: nat, code: nat, bit: bool)
    requires Whole(table, p) && p < |table|
    ensures var d := CodeAt(table, p);
            Reaches(table, p, code, bit, d.next, code + d.first + d.second, if d.second == 0 then !bit else bit)
  {
    hide CodeAt;
    var d := CodeAt(table, p);
    ReachesItself(table, d.next, code + d.first + d.second, if d.second == 0 then !bit else bit);
  }

  /** Three bytes, the lowest first. */
  function PutLe24(v: nat): (b: seq<Byte>)
    requires v < 0x100_0000
    ensures |b| == 3
  {
    [v % 0x100, v / 0x100 % 0x100, v / 0x1_0000]
  }

  lemma GetPut(index: seq<Byte>, v: nat, k: nat)
    requires v < 0x100_0000 && |index| % 3 == 0
    ensures GetLe24(index + PutLe24(v), |index| / 3) == v
    ensures 3 * k + 2 < |index| ==> GetLe24(index + PutLe24(v), k) == GetLe24(index, k)
  {
    var more, n := index + PutLe24(v), |index| / 3;
    assert more[3 * n] == v % 0x100 && more[3 * n + 1] == v / 0x100 % 0x100 && more[3 * n + 2] == v / 0x1_0000;
  }

  /** The entries so far are places that linear decoding comes to. */
  ghost predicate Entries(table: seq<Byte>, index: seq<Byte>)
    requires Whole(table, 0)
  {
    |index| % 3 == 0
    && forall k: nat :: 3 * k + 2 < |index| ==>
         Reaches(table, 0, 0, false, IndexPos(index, k), IndexCode(index, k), false)
  }

  /** Where the next block ends that has no entry yet. */
  function BlockEnd(index: seq<Byte>): nat { (|index| / 3 + 1) * INDEX_BLOCK_LEN }

  lemma NextEntry(table: seq<Byte>, index: seq<Byte>, p: nat, code: nat, offset: nat)
    requires Whole(table, 0) && Entries(table, index) && code < 0x20_0000 && offset <= 7
    requires Reaches(table, 0, 0, false, p, code, false) && p == BlockEnd(index) + offset
    ensures code + offset * 0x20_0000 < 0x100_0000
    ensures var more := index + PutLe24(code + offset * 0x20_0000);
            |more| % 3 == 0 && Entries(table, more) && BlockEnd(more) == BlockEnd(index) + INDEX_BLOCK_LEN
  {
    hide Reaches;
    hide GetLe24;
    hide PutLe24;
    var v := code + offset * 0x20_0000;
    var more, n := index + PutLe24(v), |index| / 3;
    assert v / 0x20_0000 == offset && v % 0x20_0000 == code;
    forall k: nat | 3 * k + 2 < |more|
      ensures Reaches(table, 0, 0, false, IndexPos(more, k), IndexCode(more, k), false)
    {
      GetPut(index, v, k);
      if k < n {
        assert 3 * k + 2 < |index|;
        assert IndexPos(more, k) == IndexPos(index, k) && IndexCode(more, k) == IndexCode(index, k);
      } else {
        assert k == n && IndexPos(more, k) == p && IndexCode(more, k) == code;
      }
    }
  }

  lemma LastEntry(table: seq<Byte>, index: seq<Byte>, code: nat)
    requires Whole(table, 0) && Entries(table, index) && End(table, 0, 0) == code < 0x20_0000
    requires forall c: int :: c >= code ==> !InRuns(table, 0, 0, false, c)
    ensures var more := index + PutLe24(code); |more| % 3 == 0 && WellIndexed(table, more, |more| / 3)
  {
    hide Reaches;
    hide GetLe24;
    hide PutLe24;
    hide InRuns;
    var more, n := index + PutLe24(code), |index| / 3 + 1;
    GetPut(index, code, 0);
    forall k: nat | k < n - 1 ensures Reaches(table, 0, 0, false, IndexPos(more, k), IndexCode(more, k), false) {
      GetPut(index, code, k);
      assert 3 * k + 2 < |index|;
      assert IndexPos(more, k) == IndexPos(index, k) && IndexCode(more, k) == IndexCode(index, k);
    }
  }

  lemma {:induction false} NothingAfter(runs: seq<nat>, code: nat, bit: bool, c: int)
    requires c >= code + Total(runs)
    ensures !RunBit(runs, code, bit, c)
    decreases |runs|
  {
    if runs != [] { NothingAfter(runs[1..], code + runs[0] + 1, !bit, c); }
  }

  lemma {:induction false} EncodableWithin(runs: seq<nat>)
    requires Total(runs) <= 0x20_0000
    ensures Encodable(runs)
    decreases |runs|
  {
    if runs != [] {
      EncodableWithin(runs[1..]);
      forall i | 0 <= i < |runs| ensures runs[i] < 0x20_0000 { if i > 0 { assert runs[i] == runs[1..][i - 1]; } }
    }
  }

  /** The whole encoding, once more as one fact. */
  lemma WholeEncoding(runs: seq<nat>)
    requires Total(runs) <= CHARCODE_MAX + 1
    ensures Encodable(runs) && EncodedAt(Encode(runs), 0, runs)
    ensures var t := Encode(runs);
            Whole(t, 0) && End(t, 0, 0) == Total(runs)
            && forall c: int :: c >= Total(runs) ==> !InRuns(t, 0, 0, false, c)
  {
    hide InRuns;
    hide Encode;
    EncodableWithin(runs);
    var t := Encode(runs);
    assert t[0..] == t;
    DecodesEncoded(t, 0, runs, 0, false, 0);
    forall c: int | c >= Total(runs) ensures !InRuns(t, 0, 0, false, c) {
      DecodesEncoded(t, 0, runs, 0, false, c);
      NothingAfter(runs, 0, false, c);
    }
  }

  /** The loop that writes the bytes: what is written, and what is left of the runs. */
  ghost predicate Writing(full: seq<Byte>, all: seq<nat>, table: seq<Byte>, i: nat, code: nat, bit: bool) {
    && i <= |all| && Whole(full, 0) && |table| <= |full| && table == full[..|table|]
    && EncodedAt(full, |table|, all[i..]) && Reaches(full, 0, 0, false, |table|, code, bit)
    && code + Total(all[i..]) == Total(all)
  }

  lemma WriteStep(full: seq<Byte>, all: seq<nat>, table: seq<Byte>, i: nat, code: nat, bit: bool)
    requires Writing(full, all, table, i, code, bit) && i < |all|
    ensures var runs := all[i..];
            var j := i + Taken(runs);
            && all[i] < 0x20_0000 && (Packs(runs) ==> i + 1 < |all|) && j <= |all|
            && Writing(full, all, table + FirstBytes(runs), j,
                       code + all[i] + 1 + (if Packs(runs) then all[i + 1] + 1 else 0),
                       if Packs(runs) then bit else !bit)
  {
    hide CodeAt;
    hide Reaches;
    hide FirstBytes;
    hide Encode;
    hide Whole;
    var runs := all[i..];
    var p := |table|;
    EncodedStep(full, p, runs);
    EncodeTail(runs);
    var b := FirstBytes(runs);
    assert full[p..][..|b|] == full[p..p + |b|] == b;
    assert full[..p + |b|] == full[..p] + full[p..p + |b|];
    CodeDecodes(full, p, runs);
    ReachesFurther(full, 0, 0, false, p, code, bit);
    assert all[i..][Taken(runs)..] == all[i + Taken(runs)..];
    assert all[i..][1..] == all[i + 1..];
    if Packs(runs) { assert all[i + 1..][1..] == all[i + 2..]; }
  }

  /** One code: two short runs, or one. */
  method PutCode(runs: seq<nat>, i0: nat, code0: nat, bit0: bool) returns (b: seq<Byte>, i: nat, code: nat, bit: bool)
    requires i0 < |runs| && runs[i0] < 0x20_0000
    ensures b == FirstBytes(runs[i0..]) && i == i0 + Taken(runs[i0..])
    ensures code == code0 + runs[i0] + 1 + (if Packs(runs[i0..]) then runs[i0 + 1] + 1 else 0)
    ensures bit == if Packs(runs[i0..]) then bit0 else !bit0
  {
    var v := runs[i0];
    code, bit := code0 + v + 1, !bit0;
    SplitWord(v);
    if v < 8 && i0 + 1 < |runs| && runs[i0 + 1] < 8 {
      code, bit := code + runs[i0 + 1] + 1, !bit;
      return [8 * v + runs[i0 + 1]], i0 + 2, code, bit;
    } else if v < 128 {
      return [0x80 + v], i0 + 1, code, bit;
    } else if v < 0x2000 {
      return [0x40 + v / 0x100, v % 0x100], i0 + 1, code, bit;
    } else {
      return [0x60 + v / 0x1_0000, v / 0x100 % 0x100, v % 0x100], i0 + 1, code, bit;
    }
  }

  /** `build_prop_table`, from the runs on: the bytes and, if asked for, the index. It fails if
      a code does not begin near enough to the start of a block. */
  method BuildPropTable(runs: seq<nat>, addIndex: bool) returns (ok: bool, table: seq<Byte>, index: seq<Byte>)
    requires Total(runs) <= CHARCODE_MAX + 1
    ensures !addIndex ==> ok
    ensures ok ==> Encodable(runs) && table == Encode(runs)
    ensures ok && addIndex ==> |index| % 3 == 0 && WellIndexed(table, index, |index| / 3)
  {
    WholeEncoding(runs);
    ghost var full := Encode(runs);
    hide Encode;
    hide Whole;
    hide End;
    hide InRuns;
    hide Reaches;
    hide EncodedAt;
    hide PutLe24;
    hide FirstBytes;
    hide Entries;
    hide Writing;
    hide WellIndexed;
    hide BlockEnd;
    hide Encodable;
    hide Packs;
    hide Total;
    hide Taken;
    table, index := [], [];
    var blockEnd, i, code: nat, bit := INDEX_BLOCK_LEN, 0, 0, false;
    WritingStarts(full, runs);
    while i < |runs|
      invariant i <= |runs| && Writing(full, runs, table, i, code, bit)
      invariant |index| % 3 == 0 && Entries(full, index) && blockEnd == BlockEnd(index)
      decreases |runs| - i
    {
      if addIndex && |table| >= blockEnd && !bit {
        var offset := |table| - blockEnd;
        if offset > 7 { return false, table, index; }
        WritingReaches(full, runs, table, i, code, bit);
        NextEntry(full, index, |table|, code, offset);
        var v := code + offset * 0x20_0000;
        index := index + PutLe24(v);
        blockEnd := blockEnd + INDEX_BLOCK_LEN;
      }
      WriteStep(full, runs, table, i, code, bit);
      var b;
      b, i, code, bit := PutCode(runs, i, code, bit);
      table := table + b;
    }
    WritingEnds(full, runs, table, code, bit);
    ok := true;
    if addIndex {
      LastEntry(full, index, code);
      index := index + PutLe24(code);
    }
  }

  lemma WritingStarts(full: seq<Byte>, runs: seq<nat>)
    requires Whole(full, 0) && EncodedAt(full, 0, runs)
    ensures Writing(full, runs, [], 0, 0, false) && Entries(full, []) && BlockEnd([]) == INDEX_BLOCK_LEN
  {
    assert runs[0..] == runs;
    ReachesItself(full, 0, 0, false);
  }

  lemma WritingReaches(full: seq<Byte>, all: seq<nat>, table: seq<Byte>, i: nat, code: nat, bit: bool)
    requires Writing(full, all, table, i, code, bit)
    ensures Reaches(full, 0, 0, false, |table|, code, bit) && code <= Total(all)
  {
  }

  lemma WritingEnds(full: seq<Byte>, runs: seq<nat>, table: seq<Byte>, code: nat, bit: bool)
    requires Writing(full, runs, table, |runs|, code, bit)
    ensures table == full && code == Total(runs)
  {
    assert runs[|runs|..] == [];
    EncodedNothing(full, |table|);
  }

  // ----- from a property to its table and back -----

  lemma EndMore(runs: seq<nat>, w: nat)
    ensures RunsEnd(runs + [w]) == RunsEnd(runs) + w + 1
  {
    assert (runs + [w])[..|runs|] == runs;
  }

  lemma HoldsMore(runs: seq<nat>, w: nat, k: nat, c: int)
    requires k <= |runs|
    ensures RunHolds(runs + [w], 0, k, c)
       <==> if k < |runs| then RunHolds(runs, 0, k, c) else RunsEnd(runs) <= c < RunsEnd(runs) + w + 1
  {
    hide RunsEnd;
    var more := runs + [w];
    if k < |runs| {
      assert more[..k] == runs[..k] && more[..k + 1] == runs[..k + 1];
    } else {
      assert more[..k] == runs && more[..k + 1] == more;
      EndMore(runs, w);
    }
  }

  lemma HoldsWithin(runs: seq<nat>, k: nat, c: int)
    requires RunHolds(runs, 0, k, c)
    ensures k < |runs|
  {
    hide RunsEnd;
  }

  lemma InSetMore(runs: seq<nat>, w: nat, c: int)
    ensures InSetRun(runs + [w], c)
       <==> InSetRun(runs, c) || (|runs| % 2 == 1 && RunsEnd(runs) <= c < RunsEnd(runs) + w + 1)
  {
    hide RunsEnd;
    hide RunHolds;
    var n := |runs|;
    HoldsMore(runs, w, n, c);
    if k: nat :| k % 2 == 1 && RunHolds(runs, 0, k, c) {
      HoldsWithin(runs, k, c);
      HoldsMore(runs, w, k, c);
    }
    if k: nat :| k % 2 == 1 && RunHolds(runs + [w], 0, k, c) {
      HoldsWithin(runs + [w], k, c);
      HoldsMore(runs, w, k, c);
    }
  }

  /** The runs of equal values, from one that is not set on; the last one is left out if it is
      not set either. */
  method BuildRuns(prop: Prop) returns (runs: seq<nat>)
    requires !prop(0)
    ensures Total(runs) <= CHARCODE_MAX + 1
    ensures forall c: nat :: InSetRun(runs, c) <==> c <= CHARCODE_MAX && prop(c)
  {
    hide RunsEnd;
    hide InSetRun;
    hide Total;
    runs := [];
    var i := 0;
    NothingYet();
    while i <= CHARCODE_MAX
      invariant i == RunsEnd(runs) <= CHARCODE_MAX + 1
      invariant forall c: nat :: InSetRun(runs, c) <==> c < i && prop(c)
      invariant i <= CHARCODE_MAX ==> prop(i) == (|runs| % 2 == 1)
    {
      var v, j := prop(i), i + 1;
      while j <= CHARCODE_MAX && prop(j) == v
        invariant i < j <= CHARCODE_MAX + 1 && forall c: nat :: i <= c < j ==> prop(c) == v
      {
        j := j + 1;
      }
      if j == CHARCODE_MAX + 1 && !v { break; }
      var more := runs + [j - i - 1];
      forall c: nat ensures InSetRun(more, c) <==> c < j && prop(c) { InSetMore(runs, j - i - 1, c); }
      EndMore(runs, j - i - 1);
      runs, i := more, j;
    }
    TotalIsEnd(runs);
  }

  lemma NothingYet()
    ensures RunsEnd([]) == 0 && forall c: nat :: !InSetRun([], c)
  {
  }

  /** What the generated table says of every character. */
  lemma GeneratedSet(runs: seq<nat>, c: int)
    requires Total(runs) <= CHARCODE_MAX + 1 && Encodable(runs)
    ensures Whole(Encode(runs), 0) && End(Encode(runs), 0, 0) <= UINT32_MAX
    ensures Member(PropPoints(Encode(runs), 0, 0, false), c) <==> c >= 0 && InSetRun(runs, c)
  {
    hide PropPoints;
    hide Encode;
    hide Member;
    TotalIsEnd(runs);
    EncodingExact(runs, c);
  }

  /** A property is looked up in the table and the index generated for it. */
  method GenerateAndLookUp(prop: Prop, c: Word32) returns (ok: bool, r: bool)
    requires !prop(0)
    ensures ok ==> r == (c <= CHARCODE_MAX && prop(c))
  {
    hide PropPoints;
    hide Encode;
    hide Member;
    hide WellIndexed;
    hide InSetRun;
    hide Whole;
    hide End;
    hide Total;
    hide Encodable;
    var runs := BuildRuns(prop);
    var table, index;
    ok, table, index := BuildPropTable(runs, true);
    if !ok { return false, false; }
    GeneratedSet(runs, c);
    r := LreIsInTable(c, table, index, |index| / 3);
  }

  /** The table generated for a property is decoded to the set of its characters. */
  method GenerateAndDecode(prop: Prop) returns (cr: CharRange)
    requires !prop(0)
    ensures cr.Valid() && forall c: nat :: Member(cr.Points(), c) <==> c <= CHARCODE_MAX && prop(c)
  {
    hide PropPoints;
    hide Encode;
    hide Member;
    hide InSetRun;
    hide Whole;
    hide End;
    hide Total;
    hide Encodable;
    var runs := BuildRuns(prop);
    var ok, table, _ := BuildPropTable(runs, false);
    cr := new CharRange();
    GeneratedSet(runs, 0);
    forall c: nat ensures Member(PropPoints(table, 0, 0, false), c) <==> c <= CHARCODE_MAX && prop(c) {
      GeneratedSet(runs, c);
    }
    UnicodeProp1(cr, table);
    assert [] + PropPoints(table, 0, 0, false) == PropPoints(table, 0, 0, false);
  }

  // ----- a table of the engine -----

  /** `unicode_prop_White_Space_table` */
  const WHITE_SPACE: seq<Byte> := [0x88, 0x84, 0x91, 0x80, 0xe3, 0x80, 0x99, 0x80, 0x55, 0xde, 0x80, 0x49, 0x7e, 0x8a,
                                   0x9c, 0x0c, 0x80, 0xae, 0x80, 0x4f, 0x9f, 0x80]

  /** `unicode_prop_White_Space_index` */
  const WHITE_SPACE_INDEX: seq<Byte> := [0x01, 0x30, 0x00]

  lemma WhiteStep(p: nat, code: nat, bit: bool, c: int)
    requires p < |WHITE_SPACE| && Whole(WHITE_SPACE, CodeAt(WHITE_SPACE, p).next)
    ensures var d := CodeAt(WHITE_SPACE, p);
            Whole(WHITE_SPACE, p) && End(WHITE_SPACE, p, code) == End(WHITE_SPACE, d.next, code + d.first + d.second)
            && InRuns(WHITE_SPACE, p, code, bit, c)
               == if c < code + d.first then bit
                  else if c < code + d.first + d.second then !bit
                  else InRuns(WHITE_SPACE, d.next, code + d.first + d.second, if d.second == 0 then !bit else bit, c)
  {
    hide CodeAt;
    CodeMoves(WHITE_SPACE, p);
  }

  lemma WhiteFromLast(c: int)
    requires c >= 0x2028
    ensures Whole(WHITE_SPACE, 15) && End(WHITE_SPACE, 15, 0x2028) == 0x3001
    ensures InRuns(WHITE_SPACE, 15, 0x2028, true, c)
       <==> 0x2028 <= c <= 0x2029 || c == 0x202F || c == 0x205F || c == 0x3000
  {
    hide InRuns;
    hide Whole;
    hide End;
    NoRuns(WHITE_SPACE, 22, 0x3001, false, c);
    NoMoreRuns(WHITE_SPACE, 22, 0x3001);
    WhiteStep(21, 0x3000, true, c);
    WhiteStep(19, 0x2060, false, c);
    WhiteStep(18, 0x205F, true, c);
    WhiteStep(17, 0x2030, false, c);
    WhiteStep(16, 0x202F, true, c);
    WhiteStep(15, 0x2028, true, c);
  }

  lemma WhiteFromThird(c: int)
    requires c >= 0xA1
    ensures Whole(WHITE_SPACE, 8) && End(WHITE_SPACE, 8, 0xA1) == 0x3001
    ensures InRuns(WHITE_SPACE, 8, 0xA1, false, c)
       <==> c == 0x1680 || 0x2000 <= c <= 0x200A || 0x2028 <= c <= 0x2029 || c == 0x202F || c == 0x205F
            || c == 0x3000
  {
    hide InRuns;
    hide Whole;
    hide End;
    WhiteFromLast(if c < 0x2028 then 0x2028 else c);
    WhiteStep(14, 0x200B, false, c);
    WhiteStep(13, 0x2000, true, c);
    WhiteStep(11, 0x1681, false, c);
    WhiteStep(10, 0x1680, true, c);
    WhiteStep(8, 0xA1, false, c);
  }

  lemma WhiteFromSecond(c: int)
    requires c >= 0x21
    ensures Whole(WHITE_SPACE, 4) && End(WHITE_SPACE, 4, 0x21) == 0x3001
    ensures InRuns(WHITE_SPACE, 4, 0x21, false, c)
       <==> c == 0x85 || c == 0xA0 || c == 0x1680 || 0x2000 <= c <= 0x200A || 0x2028 <= c <= 0x2029
            || c == 0x202F || c == 0x205F || c == 0x3000
  {
    hide InRuns;
    hide Whole;
    hide End;
    WhiteFromThird(if c < 0xA1 then 0xA1 else c);
    WhiteStep(7, 0xA0, true, c);
    WhiteStep(6, 0x86, false, c);
    WhiteStep(5, 0x85, true, c);
    WhiteStep(4, 0x21, false, c);
  }

  /** It holds exactly the characters with the property White_Space. */
  lemma WhiteRuns(c: int)
    ensures Whole(WHITE_SPACE, 0) && End(WHITE_SPACE, 0, 0x0) == 0x3001
    ensures InRuns(WHITE_SPACE, 0, 0x0, false, c)
       <==> 0x9 <= c <= 0xD || c == 0x20 || c == 0x85 || c == 0xA0 || c == 0x1680 || 0x2000 <= c <= 0x200A
            || 0x2028 <= c <= 0x2029 || c == 0x202F || c == 0x205F || c == 0x3000
  {
    hide InRuns;
    hide Whole;
    hide End;
    WhiteFromSecond(if c < 0x21 then 0x21 else c);
    WhiteStep(3, 0x20, true, c);
    WhiteStep(2, 0xE, false, c);
    WhiteStep(1, 0x9, true, c);
    WhiteStep(0, 0x0, false, c);
  }

  lemma WhiteIndexed()
    ensures WellIndexed(WHITE_SPACE, WHITE_SPACE_INDEX, 1)
  {
    hide InRuns;
    hide Whole;
    hide End;
    WhiteRuns(0);
    forall c: int | c >= 0x3001 ensures !InRuns(WHITE_SPACE, 0, 0, false, c) { WhiteRuns(c); }
  }

  /** `lre_is_white_space` */
  method LreIsWhiteSpace(c: Word32) returns (r: bool)
    ensures r <==> 0x9 <= c <= 0xD || c == 0x20 || c == 0x85 || c == 0xA0 || c == 0x1680
                   || 0x2000 <= c <= 0x200A || 0x2028 <= c <= 0x2029 || c == 0x202F || c == 0x205F
                   || c == 0x3000
  {
    hide InRuns;
    hide Whole;
    hide End;
    hide PropPoints;
    hide Member;
    WhiteIndexed();
    WhiteRuns(c);
    PropPointsExact(WHITE_SPACE, 0, 0, false, c);
    r := LreIsInTable(c, WHITE_SPACE, WHITE_SPACE_INDEX, 1);
  }
}
