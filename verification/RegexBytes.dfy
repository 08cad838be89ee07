/** The bytes of the code: little-endian operands after a one-byte opcode. */
module RegexBytes {
  import opened Common
  import opened RegexSyntax
  import opened RegexCode
  import opened RegexVm
  import opened RegexYields
  import opened RegexStack
  import opened RegexDiscipline


  const TWO16 := 0x1_0000
  const TWO31 := 0x8000_0000
  const TWO32 := 0x1_0000_0000

  const REOP_CHAR8: Byte := 1
  const REOP_CHAR16: Byte := 2
  const REOP_CHAR32: Byte := 3
  const REOP_DOT: Byte := 4
  const REOP_ANY: Byte := 5
  const REOP_LINE_START: Byte := 6
  const REOP_LINE_END: Byte := 7
  const REOP_GOTO: Byte := 8
  const REOP_SPLIT_GOTO_FIRST: Byte := 9
  const REOP_SPLIT_NEXT_FIRST: Byte := 10
  const REOP_MATCH: Byte := 11
  const REOP_SAVE_START: Byte := 12
  const REOP_SAVE_END: Byte := 13
  const REOP_SAVE_RESET: Byte := 14
  const REOP_LOOP: Byte := 15
  const REOP_PUSH_I32: Byte := 16
  const REOP_DROP: Byte := 17
  const REOP_WORD_BOUNDARY: Byte := 18
  const REOP_NOT_WORD_BOUNDARY: Byte := 19
  const REOP_BACK_REFERENCE: Byte := 20
  const REOP_BACKWARD_BACK_REFERENCE: Byte := 21
  const REOP_RANGE: Byte := 22
  const REOP_RANGE32: Byte := 23
  const REOP_LOOKAHEAD: Byte := 24
  const REOP_NEGATIVE_LOOKAHEAD: Byte := 25
  const REOP_PUSH_CHAR_POS: Byte := 26
  const REOP_CHECK_ADVANCE: Byte := 27
  const REOP_PREV: Byte := 28
  const REOP_SIMPLE_GREEDY_QUANT: Byte := 29

  function U16(v: int): (b: seq<Byte>)
    ensures |b| == 2
  {
    var u := v % TWO16;
    [u % 256, u / 256]
  }

  function U32(v: int): (b: seq<Byte>)
    ensures |b| == 4
  {
    var u := v % TWO32;
    [u % 256, u / 256 % 256, u / 65536 % 256, u / 16777216]
  }

  function GetU16(b: seq<Byte>, p: nat): nat
    requires p + 2 <= |b|
  {
    b[p] as int + 256 * b[p + 1] as int
  }

  function GetU32(b: seq<Byte>, p: nat): nat
    requires p + 4 <= |b|
  {
    b[p] as int + 256 * b[p + 1] as int + 65536 * b[p + 2] as int + 16777216 * b[p + 3] as int
  }

  /** The cast of a 32-bit operand to `int`. */
  function Signed(u: nat): int {
    if u < TWO31 then u else u as int - TWO32
  }

  lemma U16RoundTrip(b: seq<Byte>, p: nat, v: nat)
    requires v < TWO16 && p + 2 <= |b| && b[p..p + 2] == U16(v)
    ensures GetU16(b, p) == v
  {
    assert b[p] == b[p..p + 2][0] && b[p + 1] == b[p..p + 2][1];
  }

  lemma U32RoundTrip(b: seq<Byte>, p: nat, v: int)
    requires p + 4 <= |b| && b[p..p + 4] == U32(v)
    ensures GetU32(b, p) == v % TWO32
    ensures -TWO31 <= v < TWO31 ==> Signed(GetU32(b, p)) == v
  {
    var u := v % TWO32;
    assert b[p] == b[p..p + 4][0] && b[p + 1] == b[p..p + 4][1] && b[p + 2] == b[p..p + 4][2]
      && b[p + 3] == b[p..p + 4][3];
    assert u / 256 / 256 == u / 65536 && u / 65536 / 256 == u / 16777216;
  }

  function U16s(vs: seq<nat>): (b: seq<Byte>)
    ensures |b| == 2 * |vs|
  {
    if vs == [] then [] else U16(vs[0]) + U16s(vs[1..])
  }

  function U32s(vs: seq<nat>): (b: seq<Byte>)
    ensures |b| == 4 * |vs|
  {
    if vs == [] then [] else U32(vs[0]) + U32s(vs[1..])
  }

  function GetU16s(b: seq<Byte>, p: nat, n: nat): (vs: seq<nat>)
    requires p + 2 * n <= |b|
    ensures |vs| == n
    decreases n
  {
    if n == 0 then [] else [GetU16(b, p)] + GetU16s(b, p + 2, n - 1)
  }

  function GetU32s(b: seq<Byte>, p: nat, n: nat): (vs: seq<nat>)
    requires p + 4 * n <= |b|
    ensures |vs| == n
    decreases n
  {
    if n == 0 then [] else [GetU32(b, p)] + GetU32s(b, p + 4, n - 1)
  }

  lemma {:induction false} U16sRoundTrip(b: seq<Byte>, p: nat, vs: seq<nat>)
    requires (forall k :: 0 <= k < |vs| ==> vs[k] < TWO16) && p + 2 * |vs| <= |b| && b[p..p + 2 * |vs|] == U16s(vs)
    ensures GetU16s(b, p, |vs|) == vs
    decreases |vs|
  {
    if vs != [] {
      var w := b[p..p + 2 * |vs|];
      assert w[..2] == b[p..p + 2] && w[..2] == U16(vs[0]);
      assert w[2..] == b[p + 2..p + 2 + 2 * |vs[1..]|] && w[2..] == U16s(vs[1..]);
      U16RoundTrip(b, p, vs[0]);
      U16sRoundTrip(b, p + 2, vs[1..]);
    }
  }

  lemma {:induction false} U32sRoundTrip(b: seq<Byte>, p: nat, vs: seq<nat>)
    requires (forall k :: 0 <= k < |vs| ==> vs[k] < TWO32) && p + 4 * |vs| <= |b| && b[p..p + 4 * |vs|] == U32s(vs)
    ensures GetU32s(b, p, |vs|) == vs
    decreases |vs|
  {
    if vs != [] {
      var w := b[p..p + 4 * |vs|];
      assert w[..4] == b[p..p + 4] && w[..4] == U32(vs[0]);
      assert w[4..] == b[p + 4..p + 4 + 4 * |vs[1..]|] && w[4..] == U32s(vs[1..]);
      U32RoundTrip(b, p, vs[0]);
      U32sRoundTrip(b, p + 4, vs[1..]);
    }
  }

  function Opcode(i: Instr): (op: Byte)
    ensures 1 <= op <= 29
  {
    match i
    case Char8(_) => REOP_CHAR8
    case Char16(_) => REOP_CHAR16
    case Char32(_) => REOP_CHAR32
    case DotOp => REOP_DOT
    case AnyOp => REOP_ANY
    case LineStartOp => REOP_LINE_START
    case LineEndOp => REOP_LINE_END
    case Goto(_) => REOP_GOTO
    case SplitGotoFirst(_) => REOP_SPLIT_GOTO_FIRST
    case SplitNextFirst(_) => REOP_SPLIT_NEXT_FIRST
    case MatchOp => REOP_MATCH
    case SaveStart(_) => REOP_SAVE_START
    case SaveEnd(_) => REOP_SAVE_END
    case SaveReset(_, _) => REOP_SAVE_RESET
    case Loop(_) => REOP_LOOP
    case PushI32(_) => REOP_PUSH_I32
    case Drop => REOP_DROP
    case WordBoundaryOp => REOP_WORD_BOUNDARY
    case NotWordBoundaryOp => REOP_NOT_WORD_BOUNDARY
    case BackReference(_) => REOP_BACK_REFERENCE
    case BackwardBackReference(_) => REOP_BACKWARD_BACK_REFERENCE
    case Range(_) => REOP_RANGE
    case Range32(_) => REOP_RANGE32
    case Lookahead(_) => REOP_LOOKAHEAD
    case NegativeLookahead(_) => REOP_NEGATIVE_LOOKAHEAD
    case PushCharPos => REOP_PUSH_CHAR_POS
    case CheckAdvance => REOP_CHECK_ADVANCE
    case Prev => REOP_PREV
    case SimpleGreedyQuant(_, _, _, _) => REOP_SIMPLE_GREEDY_QUANT
  }

  function Operands(i: Instr): (b: seq<Byte>)
    ensures |b| == Size(i) - 1 || i.Range? || i.Range32?
  {
    match i
    case Char8(c) => [c % 256]
    case Char16(c) => U16(c)
    case Char32(c) => U32(c)
    case Goto(off) => U32(off)
    case SplitGotoFirst(off) => U32(off)
    case SplitNextFirst(off) => U32(off)
    case SaveStart(n) => [n % 256]
    case SaveEnd(n) => [n % 256]
    case SaveReset(lo, hi) => [lo % 256, hi % 256]
    case Loop(off) => U32(off)
    case PushI32(v) => U32(v)
    case BackReference(n) => [n % 256]
    case BackwardBackReference(n) => [n % 256]
    case Range(b) => U16(|b| / 2) + U16s(b)
    case Range32(b) => U16(|b| / 2) + U32s(b)
    case Lookahead(off) => U32(off)
    case NegativeLookahead(off) => U32(off)
    case SimpleGreedyQuant(off, min, max, len) => U32(off) + U32(min) + U32(max) + U32(len)
    case _ => []
  }

  function Encode(i: Instr): (b: seq<Byte>)
    ensures |b| == Size(i)
  {
    [Opcode(i)] + Operands(i)
  }

  /** The operands fit their fields. */
  predicate Encodable(i: Instr) {
    match i
    case Char8(c) => c < 256
    case Char16(c) => c < TWO16
    case Char32(c) => c < TWO32
    case SaveStart(n) => n < 256
    case SaveEnd(n) => n < 256
    case SaveReset(lo, hi) => lo < 256 && hi < 256
    case PushI32(v) => v < TWO32
    case BackReference(n) => n < 256
    case BackwardBackReference(n) => n < 256
    case Range(b) => |b| % 2 == 0 && |b| / 2 < TWO16 && forall v :: v in b ==> v < TWO16
    case Range32(b) => |b| % 2 == 0 && |b| / 2 < TWO16 && forall v :: v in b ==> v < TWO32
    case SimpleGreedyQuant(_, min, max, len) => min < TWO32 && max < TWO32 && len < TWO32
    case _ => true
  }

  predicate OffsetFits(i: Instr) {
    Jumps(i) ==> -TWO31 <= i.off < TWO31
  }

  /** The size table entry of an opcode, before the variable part of a range. */
  function OpcodeSize(op: int): (n: nat)
    ensures n > 0
  {
    if op in {REOP_CHAR8, REOP_SAVE_START, REOP_SAVE_END, REOP_BACK_REFERENCE, REOP_BACKWARD_BACK_REFERENCE} then 2
    else if op in {REOP_CHAR16, REOP_SAVE_RESET, REOP_RANGE, REOP_RANGE32} then 3
    else if op in {REOP_CHAR32, REOP_GOTO, REOP_SPLIT_GOTO_FIRST, REOP_SPLIT_NEXT_FIRST, REOP_LOOP, REOP_PUSH_I32,
                   REOP_LOOKAHEAD, REOP_NEGATIVE_LOOKAHEAD} then 5
    else if op == REOP_SIMPLE_GREEDY_QUANT then 17
    else 1
  }

  /** The instruction that starts at `pc`, if its bytes are all there. */
  function Fetch(b: seq<Byte>, pc: nat): Option<Instr> {
    if pc >= |b| || pc + OpcodeSize(b[pc]) > |b| then None
    else
      var op, q := b[pc], pc + 1;
      if op == REOP_CHAR8 then Some(Char8(b[q]))
      else if op == REOP_CHAR16 then Some(Char16(GetU16(b, q)))
      else if op == REOP_CHAR32 then Some(Char32(GetU32(b, q)))
      else if op == REOP_DOT then Some(DotOp)
      else if op == REOP_ANY then Some(AnyOp)
      else if op == REOP_LINE_START then Some(LineStartOp)
      else if op == REOP_LINE_END then Some(LineEndOp)
      else if op == REOP_GOTO then Some(Goto(Signed(GetU32(b, q))))
      else if op == REOP_SPLIT_GOTO_FIRST then Some(SplitGotoFirst(Signed(GetU32(b, q))))
      else if op == REOP_SPLIT_NEXT_FIRST then Some(SplitNextFirst(Signed(GetU32(b, q))))
      else if op == REOP_MATCH then Some(MatchOp)
      else if op == REOP_SAVE_START then Some(SaveStart(b[q]))
      else if op == REOP_SAVE_END then Some(SaveEnd(b[q]))
      else if op == REOP_SAVE_RESET then Some(SaveReset(b[q], b[q + 1]))
      else if op == REOP_LOOP then Some(Loop(Signed(GetU32(b, q))))
      else if op == REOP_PUSH_I32 then Some(PushI32(GetU32(b, q)))
      else if op == REOP_DROP then Some(Drop)
      else if op == REOP_WORD_BOUNDARY then Some(WordBoundaryOp)
      else if op == REOP_NOT_WORD_BOUNDARY then Some(NotWordBoundaryOp)
      else if op == REOP_BACK_REFERENCE then Some(BackReference(b[q]))
      else if op == REOP_BACKWARD_BACK_REFERENCE then Some(BackwardBackReference(b[q]))
      else if op == REOP_RANGE then FetchRange(b, q)
      else if op == REOP_RANGE32 then FetchRange32(b, q)
      else if op == REOP_LOOKAHEAD then Some(Lookahead(Signed(GetU32(b, q))))
      else if op == REOP_NEGATIVE_LOOKAHEAD then Some(NegativeLookahead(Signed(GetU32(b, q))))
      else if op == REOP_PUSH_CHAR_POS then Some(PushCharPos)
      else if op == REOP_CHECK_ADVANCE then Some(CheckAdvance)
      else if op == REOP_PREV then Some(Prev)
      else if op == REOP_SIMPLE_GREEDY_QUANT then
        Some(SimpleGreedyQuant(Signed(GetU32(b, q)), GetU32(b, q + 4), GetU32(b, q + 8), GetU32(b, q + 12)))
      else None
  }

  function FetchRange(b: seq<Byte>, q: nat): Option<Instr>
    requires q + 2 <= |b|
  {
    var n := GetU16(b, q);
    if q + 2 + 4 * n <= |b| then Some(Range(GetU16s(b, q + 2, 2 * n))) else None
  }

  function FetchRange32(b: seq<Byte>, q: nat): Option<Instr>
    requires q + 2 <= |b|
  {
    var n := GetU16(b, q);
    if q + 2 + 8 * n <= |b| then Some(Range32(GetU32s(b, q + 2, 2 * n))) else None
  }

  /** The bytes of `b` at `pc` are those of `i`. */
  predicate Holds(b: seq<Byte>, pc: nat, i: Instr) {
    pc + Size(i) <= |b| && b[pc..pc + Size(i)] == Encode(i)
  }

  lemma HoldsParts(b: seq<Byte>, pc: nat, i: Instr)
    requires Holds(b, pc, i)
    ensures b[pc] == Opcode(i) && |Operands(i)| == Size(i) - 1 && b[pc + 1..pc + Size(i)] == Operands(i)
  {
    var w := b[pc..pc + Size(i)];
    assert w[0] == b[pc] && w[1..] == b[pc + 1..pc + Size(i)];
    assert w[1..] == Operands(i);
  }

  lemma RangeParts(b: seq<Byte>, pc: nat, i: Instr)
    requires Holds(b, pc, i) && (i.Range? || i.Range32?)
    ensures b[pc + 1..pc + 3] == U16(|i.bounds| / 2)
    ensures b[pc + 3..pc + Size(i)] == if i.Range? then U16s(i.bounds) else U32s(i.bounds)
  {
    hide U16;
    hide U16s;
    hide U32s;
    HoldsParts(b, pc, i);
    var w := b[pc + 1..pc + Size(i)];
    var rest := if i.Range? then U16s(i.bounds) else U32s(i.bounds);
    assert w == U16(|i.bounds| / 2) + rest;
    assert w[..2] == b[pc + 1..pc + 3] && w[2..] == b[pc + 3..pc + Size(i)];
    assert w[..2] == U16(|i.bounds| / 2) && w[2..] == rest;
  }

  lemma RangeRoundTrip(b: seq<Byte>, pc: nat, i: Instr)
    requires Holds(b, pc, i) && Encodable(i) && (i.Range? || i.Range32?)
    ensures Fetch(b, pc) == Some(i)
  {
    hide U16;
    hide GetU16;
    hide U16s;
    hide U32s;
    hide GetU16s;
    hide GetU32s;
    hide Operands;
    RangeParts(b, pc, i);
    assert b[pc] == Opcode(i) by { HoldsParts(b, pc, i); }
    U16RoundTrip(b, pc + 1, |i.bounds| / 2);
    assert forall k :: 0 <= k < |i.bounds| ==> i.bounds[k] in i.bounds;
    if i.Range? {
      U16sRoundTrip(b, pc + 3, i.bounds);
    } else {
      U32sRoundTrip(b, pc + 3, i.bounds);
    }
  }

  lemma QuantParts(b: seq<Byte>, pc: nat, i: Instr)
    requires Holds(b, pc, i) && i.SimpleGreedyQuant?
    ensures b[pc + 1..pc + 5] == U32(i.off) && b[pc + 5..pc + 9] == U32(i.min)
    ensures b[pc + 9..pc + 13] == U32(i.max) && b[pc + 13..pc + 17] == U32(i.len)
  {
    hide U32;
    HoldsParts(b, pc, i);
    var w := b[pc + 1..pc + 17];
    assert w == U32(i.off) + U32(i.min) + U32(i.max) + U32(i.len);
    assert w[..4] == b[pc + 1..pc + 5] && w[4..8] == b[pc + 5..pc + 9] && w[8..12] == b[pc + 9..pc + 13]
      && w[12..] == b[pc + 13..pc + 17];
    assert w[..4] == U32(i.off) && w[4..8] == U32(i.min) && w[8..12] == U32(i.max) && w[12..] == U32(i.len);
  }

  lemma QuantRoundTrip(b: seq<Byte>, pc: nat, i: Instr)
    requires Holds(b, pc, i) && Encodable(i) && OffsetFits(i) && i.SimpleGreedyQuant?
    ensures Fetch(b, pc) == Some(i)
  {
    hide U32;
    hide GetU32;
    hide Operands;
    QuantParts(b, pc, i);
    assert b[pc] == 29 by { HoldsParts(b, pc, i); }
    U32RoundTrip(b, pc + 1, i.off);
    U32RoundTrip(b, pc + 5, i.min);
    U32RoundTrip(b, pc + 9, i.max);
    U32RoundTrip(b, pc + 13, i.len);
  }

  lemma JumpRoundTrip(b: seq<Byte>, pc: nat, i: Instr)
    requires Holds(b, pc, i) && OffsetFits(i) && Jumps(i) && !i.SimpleGreedyQuant?
    ensures Fetch(b, pc) == Some(i)
  {
    HoldsParts(b, pc, i);
    U32RoundTrip(b, pc + 1, i.off);
  }

  /** Decoding returns the instruction that was encoded. */
  lemma FetchEncode(b: seq<Byte>, pc: nat, i: Instr)
    requires Holds(b, pc, i) && Encodable(i) && OffsetFits(i)
    ensures Fetch(b, pc) == Some(i)
  {
    hide Fetch;
    if i.Range? || i.Range32? {
      RangeRoundTrip(b, pc, i);
    } else if i.SimpleGreedyQuant? {
      QuantRoundTrip(b, pc, i);
    } else if Jumps(i) {
      JumpRoundTrip(b, pc, i);
    } else {
      PlainRoundTrip(b, pc, i);
    }
  }

  lemma PlainRoundTrip(b: seq<Byte>, pc: nat, i: Instr)
    requires Holds(b, pc, i) && Encodable(i) && !Jumps(i) && !i.Range? && !i.Range32?
    ensures Fetch(b, pc) == Some(i)
  {
    hide U16;
    hide GetU16;
    hide U32;
    hide GetU32;
    HoldsParts(b, pc, i);
    match i
    case Char16(c) => U16RoundTrip(b, pc + 1, c);
    case Char32(c) => U32RoundTrip(b, pc + 1, c);
    case PushI32(v) => U32RoundTrip(b, pc + 1, v);
    case Char8(c) => assert b[pc + 1..pc + 2][0] == b[pc + 1];
    case SaveStart(n) => assert b[pc + 1..pc + 2][0] == b[pc + 1];
    case SaveEnd(n) => assert b[pc + 1..pc + 2][0] == b[pc + 1];
    case BackReference(n) => assert b[pc + 1..pc + 2][0] == b[pc + 1];
    case BackwardBackReference(n) => assert b[pc + 1..pc + 2][0] == b[pc + 1];
    case SaveReset(lo, hi) => assert b[pc + 1..pc + 3][0] == b[pc + 1] && b[pc + 1..pc + 3][1] == b[pc + 2];
    case _ =>
  }

  function EncodeAll(code: seq<Instr>): (b: seq<Byte>)
    ensures |b| == Len(code)
  {
    if code == [] then [] else Encode(code[0]) + EncodeAll(code[1..])
  }

  lemma {:induction false} EncodeConcat(a: seq<Instr>, b: seq<Instr>)
    ensures EncodeAll(a + b) == EncodeAll(a) + EncodeAll(b)
    decreases |a|
  {
    if a == [] {
      assert a + b == b;
    } else {
      assert (a + b)[1..] == a[1..] + b;
      EncodeConcat(a[1..], b);
      assert Encode(a[0]) + (EncodeAll(a[1..]) + EncodeAll(b)) == Encode(a[0]) + EncodeAll(a[1..]) + EncodeAll(b);
    }
  }

  /** The program seen by the machine. */
  function Decoded(b: seq<Byte>): Prog {
    Prog(map pc: nat | 0 <= pc < |b| && Fetch(b, pc).Some? :: Fetch(b, pc).value, |b|)
  }

  ghost predicate AllEncodable(code: seq<Instr>) {
    forall i :: i in code ==> Encodable(i) && OffsetFits(i)
  }

  lemma {:induction false} DecodedAt(b: seq<Byte>, pc: nat, code: seq<Instr>)
    requires AllEncodable(code) && pc + Len(code) <= |b| && b[pc..pc + Len(code)] == EncodeAll(code)
    ensures At(Decoded(b), pc, code)
    decreases |code|
  {
    hide Fetch;
    hide Encodable;
    hide OffsetFits;
    hide Encode;
    if code != [] {
      var n := Size(code[0]);
      var w := b[pc..pc + Len(code)];
      assert w[..n] == b[pc..pc + n] && w[n..] == b[pc + n..pc + n + Len(code[1..])];
      assert w[..n] == Encode(code[0]) && w[n..] == EncodeAll(code[1..]);
      assert code[0] in code;
      FetchEncode(b, pc, code[0]);
      DecodedAt(b, pc + n, code[1..]);
      DecodedMore(b, pc, code);
    }
  }

  lemma DecodedMore(b: seq<Byte>, pc: nat, code: seq<Instr>)
    requires code != [] && pc + Size(code[0]) <= |b| && Fetch(b, pc) == Some(code[0])
      && At(Decoded(b), pc + Size(code[0]), code[1..])
    ensures At(Decoded(b), pc, code)
  {
    hide Fetch;
    assert pc in Decoded(b).at && Decoded(b).at[pc] == code[0];
  }

  /** Decoding the bytes of encodable code gives that code back. */
  lemma DecodedLoaded(code: seq<Instr>)
    requires AllEncodable(code)
    ensures Loaded(Decoded(EncodeAll(code)), code)
  {
    hide Fetch;
    var b := EncodeAll(code);
    assert b[0..0 + Len(code)] == b;
    DecodedAt(b, 0, code);
  }

  // ----- emitted code is encodable -----

  ghost predicate AllSmall(code: seq<Instr>) {
    forall i :: i in code ==> Encodable(i)
  }

  lemma SmallConcat(a: seq<Instr>, b: seq<Instr>)
    requires AllSmall(a) && AllSmall(b)
    ensures AllSmall(a + b)
  {
    hide Encodable;
  }

  lemma SmallOne(i: Instr)
    requires Encodable(i)
    ensures AllSmall([i])
  {
  }

  lemma SmallBracket(i: Instr, c: seq<Instr>, j: Instr)
    requires Encodable(i) && Encodable(j) && AllSmall(c)
    ensures AllSmall([i] + c + [j])
  {
    hide Encodable;
  }

  lemma SmallChecked(c: seq<Instr>, check: bool)
    requires AllSmall(c)
    ensures AllSmall(Checked(c, check))
  {
    if check { SmallBracket(PushCharPos, c, CheckAdvance); }
  }

  lemma SmallCount(c: seq<Instr>, check: bool, greedy: bool, k: nat)
    requires AllSmall(c) && k < TWO32
    ensures AllSmall(CountCode(c, check, greedy, k))
  {
    SmallChecked(c, check);
    var w := Len(Checked(c, check));
    SmallOne(PushI32(k));
    SmallOne(SplitExit(greedy, w + 5));
    SmallOne(Loop(Back(w + 10)));
    SmallOne(Drop);
    SmallConcat([PushI32(k)], [SplitExit(greedy, w + 5)]);
    SmallConcat([Loop(Back(w + 10))], [Drop]);
    assert [PushI32(k), SplitExit(greedy, w + 5)] == [PushI32(k)] + [SplitExit(greedy, w + 5)];
    assert [Loop(Back(w + 10)), Drop] == [Loop(Back(w + 10))] + [Drop];
    SmallConcat([PushI32(k), SplitExit(greedy, w + 5)], Checked(c, check));
    SmallConcat([PushI32(k), SplitExit(greedy, w + 5)] + Checked(c, check), [Loop(Back(w + 10)), Drop]);
  }

  lemma SmallStar(c: seq<Instr>, check: bool, greedy: bool)
    requires AllSmall(c)
    ensures AllSmall(StarCode(c, check, greedy))
  {
    SmallChecked(c, check);
    SmallBracket(SplitExit(greedy, Len(Checked(c, check)) + 5), Checked(c, check),
      Goto(Back(Len(Checked(c, check)) + 10)));
  }

  lemma SmallOpt(c: seq<Instr>, check: bool, greedy: bool)
    requires AllSmall(c)
    ensures AllSmall(OptCode(c, check, greedy))
  {
    SmallChecked(c, check);
    SmallOne(SplitExit(greedy, Len(Checked(c, check))));
    SmallConcat([SplitExit(greedy, Len(Checked(c, check)))], Checked(c, check));
  }

  lemma SmallTimes(c: seq<Instr>, k: nat)
    requires AllSmall(c) && k < TWO32
    ensures AllSmall(TimesCode(c, k))
  {
    SmallBracket(PushI32(k), c, Loop(Back(Len(c) + 5)));
    SmallOne(Drop);
    SmallConcat([PushI32(k)] + c + [Loop(Back(Len(c) + 5))], [Drop]);
    assert [PushI32(k)] + c + [Loop(Back(Len(c) + 5))] + [Drop] == TimesCode(c, k);
  }

  lemma SmallFromZero(c: seq<Instr>, check: bool, max: nat, greedy: bool)
    requires AllSmall(c) && max <= INT32_MAX
    ensures AllSmall(FromZeroCode(c, check, max, greedy))
  {
    hide AllSmall;
    hide OptCode;
    hide StarCode;
    hide CountCode;
    SmallNone();
    SmallOpt(c, check, greedy);
    SmallStar(c, check, greedy);
    SmallCount(c, check, greedy, max);
  }

  lemma SmallTail(c: seq<Instr>, check: bool, min: nat, max: nat, greedy: bool)
    requires AllSmall(c) && min <= max <= INT32_MAX
    ensures AllSmall(TailCode(c, check, min, max, greedy))
  {
    hide AllSmall;
    hide StarCode;
    hide CountCode;
    SmallNone();
    SmallStar(c, check, greedy);
    SmallCount(c, check, greedy, max - min);
  }

  lemma SmallSimple(c: seq<Instr>, min: nat, max: nat)
    requires AllSmall(c) && min <= max <= INT32_MAX && Len(c) < TWO31 && SimpleLen(c) > 0
    ensures AllSmall(SimpleCode(c, min, max))
  {
    hide AllSmall;
    CountCharsBound(c);
    SmallBracket(SimpleGreedyQuant(Len(c) + 1, min, max, SimpleLen(c)), c, MatchOp);
  }

  lemma SmallPlus(c: seq<Instr>, greedy: bool)
    requires AllSmall(c)
    ensures AllSmall(PlusCode(c, greedy))
  {
    SmallOne(SplitBack(greedy, Back(Len(c) + 5)));
    SmallConcat(c, [SplitBack(greedy, Back(Len(c) + 5))]);
  }

  lemma SmallReset(cc: nat, k: nat)
    requires cc + k <= 255
    ensures AllSmall(ResetCode(cc, k))
  {
  }

  lemma SmallQuant(c: seq<Instr>, cc: nat, k: nat, min: nat, max: nat, greedy: bool)
    requires AllSmall(c) && min <= max <= INT32_MAX && cc + k <= 255 && Len(c) < TWO31
    ensures AllSmall(QuantCode(c, cc, k, min, max, greedy))
  {
    hide AllSmall;
    hide IsSimple;
    hide NeedCheckAdvance;
    hide FromZeroCode;
    hide TailCode;
    hide TimesCode;
    hide PlusCode;
    hide SimpleCode;
    hide ResetCode;
    var check := NeedCheckAdvance(c, false);
    if greedy && max > 0 && SimpleLen(c) > 0 {
      SmallSimple(c, min, max);
    } else if min == 0 {
      SmallReset(cc, k);
      SmallFromZero(c, check, max, greedy);
      SmallConcat(ResetCode(cc, k), FromZeroCode(c, check, max, greedy));
    } else if min == 1 && max == INT32_MAX && !check {
      SmallPlus(c, greedy);
    } else {
      SmallTimes(c, min);
      SmallTail(c, check, min, max, greedy);
      SmallConcat(if min == 1 then c else TimesCode(c, min), TailCode(c, check, min, max, greedy));
    }
  }

  lemma SmallNone()
    ensures AllSmall([])
  {
  }

  lemma {:induction false} CountCharsBound(c: seq<Instr>)
    ensures CountChars(c) <= Len(c)
    decreases |c|
  {
    if c != [] { CountCharsBound(c[1..]); }
  }

  lemma RangeSmall(pts: seq<nat>)
    requires SortedPoints(pts) && |pts| / 2 < 65535
    ensures Encodable(RangeCode(pts))
  {
    if pts != [] {
      var n := |pts|;
      var i := RangeCode(pts);
      assert pts[n - 1] <= UINT32_MAX;
      forall v | v in i.bounds
        ensures i.Range? ==> v < TWO16
        ensures v < TWO32
      {
        var k :| 0 <= k < n && v == i.bounds[k];
        assert k < n - 1 ==> pts[k] < pts[n - 1];
        assert k < n - 2 ==> pts[k] < pts[n - 2];
      }
    }
  }

  lemma SmallLeaf(r: Regex, cc: nat, fwd: bool)
    requires WellFormed(r) && !r.Cat? && !r.Alt? && !r.Capture? && !r.Look? && !r.Quant?
    ensures AllSmall(Code(r, cc, fwd))
  {
    match r
    case Char(c) => SmallDirected(CharCode(c), fwd);
    case Dot(all) => SmallDirected(if all then AnyOp else DotOp, fwd);
    case Class(pts) => RangeSmall(pts); SmallDirected(RangeCode(pts), fwd);
    case _ =>
  }

  lemma SmallDirected(i: Instr, fwd: bool)
    requires Encodable(i)
    ensures AllSmall(Directed(i, fwd))
  {
  }

  lemma SmallAlt(a: seq<Instr>, b: seq<Instr>)
    requires AllSmall(a) && AllSmall(b)
    ensures AllSmall(AltCode(a, b))
  {
    hide AllSmall;
    var i, j := SplitNextFirst(Len(a) + 5), Goto(Len(b));
    SmallBracket(i, a, j);
    SmallConcat([i] + a + [j], b);
  }

  lemma AltLonger(a: seq<Instr>, b: seq<Instr>)
    ensures Len(a) <= Len(AltCode(a, b)) && Len(b) <= Len(AltCode(a, b))
  {
    var i, j := SplitNextFirst(Len(a) + 5), Goto(Len(b));
    LenConcat([i] + a + [j], b);
    BracketDepth(i, a, j);
  }

  lemma SmallCapture(cc: nat, fwd: bool, b: seq<Instr>)
    requires AllSmall(b) && cc < 256
    ensures AllSmall(CaptureCode(cc, fwd, b))
  {
    hide AllSmall;
    SmallBracket(if fwd then SaveStart(cc) else SaveEnd(cc), b, if fwd then SaveEnd(cc) else SaveStart(cc));
  }

  lemma CaptureLonger(cc: nat, fwd: bool, b: seq<Instr>)
    ensures Len(b) <= Len(CaptureCode(cc, fwd, b))
  {
    BracketDepth(if fwd then SaveStart(cc) else SaveEnd(cc), b, if fwd then SaveEnd(cc) else SaveStart(cc));
  }

  lemma SmallLook(neg: bool, b: seq<Instr>)
    requires AllSmall(b)
    ensures AllSmall(LookCode(neg, b))
  {
    hide AllSmall;
    SmallBracket(if neg then NegativeLookahead(Len(b) + 1) else Lookahead(Len(b) + 1), b, MatchOp);
  }

  lemma LookLonger(neg: bool, b: seq<Instr>)
    ensures Len(b) <= Len(LookCode(neg, b))
  {
    BracketDepth(if neg then NegativeLookahead(Len(b) + 1) else Lookahead(Len(b) + 1), b, MatchOp);
  }

  lemma {:induction false} CodeSmall(r: Regex, cc: nat, fwd: bool)
    requires WellFormed(r) && cc + NCaps(r) <= 255 && Len(Code(r, cc, fwd)) < TWO31
    ensures AllSmall(Code(r, cc, fwd))
    decreases r
  {
    hide AllSmall;
    hide AltCode;
    hide CaptureCode;
    hide LookCode;
    hide QuantCode;
    hide Len;
    match r
    case Cat(a, b) =>
      var ca, cb := Code(a, cc, fwd), Code(b, cc + NCaps(a), fwd);
      LenConcat(ca, cb);
      LenConcat(cb, ca);
      CodeSmall(a, cc, fwd);
      CodeSmall(b, cc + NCaps(a), fwd);
      SmallConcat(ca, cb);
      SmallConcat(cb, ca);
    case Alt(a, b) =>
      AltLonger(Code(a, cc, fwd), Code(b, cc + NCaps(a), fwd));
      CodeSmall(a, cc, fwd);
      CodeSmall(b, cc + NCaps(a), fwd);
      SmallAlt(Code(a, cc, fwd), Code(b, cc + NCaps(a), fwd));
    case Capture(b) =>
      CaptureLonger(cc, fwd, Code(b, cc + 1, fwd));
      CodeSmall(b, cc + 1, fwd);
      SmallCapture(cc, fwd, Code(b, cc + 1, fwd));
    case Look(ahead, neg, b) =>
      LookLonger(neg, Code(b, cc, ahead));
      CodeSmall(b, cc, ahead);
      SmallLook(neg, Code(b, cc, ahead));
    case Quant(a, min, max, greedy) => QuantSmall(a, min, max, greedy, cc, fwd);
    case _ => SmallLeaf(r, cc, fwd);
  }

  lemma {:induction false} QuantSmall(a: Regex, min: nat, max: nat, greedy: bool, cc: nat, fwd: bool)
    requires WellFormed(Quant(a, min, max, greedy)) && cc + NCaps(a) <= 255
      && Len(Code(Quant(a, min, max, greedy), cc, fwd)) < TWO31
    ensures AllSmall(Code(Quant(a, min, max, greedy), cc, fwd))
    decreases Quant(a, min, max, greedy), 0
  {
    var c := Code(a, cc, fwd);
    if max == 0 {
      // the atom leaves no code, so nothing is known of its size
      SmallNone();
      if NCaps(a) > 0 { SmallOne(SaveReset(cc, cc + NCaps(a) - 1)); }
      assert QuantCode(c, cc, NCaps(a), min, max, greedy) == ResetCode(cc, NCaps(a));
    } else {
      AtomShorter(c, cc, NCaps(a), min, max, greedy);
      CodeSmall(a, cc, fwd);
      SmallQuant(c, cc, NCaps(a), min, max, greedy);
    }
  }

  /** Unless it is dropped altogether, the atom is part of the quantifier's code. */
  lemma AtomShorter(c: seq<Instr>, cc: nat, k: nat, min: nat, max: nat, greedy: bool)
    requires 0 < max && min <= max
    ensures Len(c) <= Len(QuantCode(c, cc, k, min, max, greedy))
  {
    hide Len;
    hide NeedCheckAdvance;
    hide IsSimple;
    hide SimpleCode;
    hide FromZeroCode;
    hide PlusCode;
    hide TimesCode;
    hide TailCode;
    hide ResetCode;
    var check := NeedCheckAdvance(c, false);
    if greedy && max > 0 && SimpleLen(c) > 0 {
      SimpleLonger(c, min, max);
    } else if min == 0 {
      LenConcat(ResetCode(cc, k), FromZeroCode(c, check, max, greedy));
      FromZeroLonger(c, check, max, greedy);
    } else if min == 1 && max == INT32_MAX && !check {
      PlusLonger(c, greedy);
    } else {
      LenConcat(if min == 1 then c else TimesCode(c, min), TailCode(c, check, min, max, greedy));
      TimesLonger(c, min);
    }
  }

  lemma SimpleLonger(c: seq<Instr>, min: nat, max: nat)
    requires SimpleLen(c) > 0
    ensures Len(c) <= Len(SimpleCode(c, min, max))
  {
    BracketDepth(SimpleGreedyQuant(Len(c) + 1, min, max, SimpleLen(c)), c, MatchOp);
  }

  lemma FromZeroLonger(c: seq<Instr>, check: bool, max: nat, greedy: bool)
    requires max > 0
    ensures Len(c) <= Len(FromZeroCode(c, check, max, greedy))
  {
    hide Len;
    LenChecked(c, check);
    var w := Checked(c, check);
    if max == 1 {
      LenConcat([SplitExit(greedy, Len(w))], w);
    } else if max == INT32_MAX {
      BracketDepth(SplitExit(greedy, Len(w) + 5), w, Goto(Back(Len(w) + 10)));
    } else {
      LenConcat([PushI32(max), SplitExit(greedy, Len(w) + 5)] + w, [Loop(Back(Len(w) + 10)), Drop]);
      LenConcat([PushI32(max), SplitExit(greedy, Len(w) + 5)], w);
    }
  }

  lemma PlusLonger(c: seq<Instr>, greedy: bool)
    ensures Len(c) <= Len(PlusCode(c, greedy))
  {
    LenConcat(c, [SplitBack(greedy, Back(Len(c) + 5))]);
  }

  lemma TimesLonger(c: seq<Instr>, k: nat)
    ensures Len(c) <= Len(TimesCode(c, k))
  {
    LenConcat([PushI32(k)] + c, [Loop(Back(Len(c) + 5)), Drop]);
    LenConcat([PushI32(k)], c);
  }

  lemma LenChecked(c: seq<Instr>, check: bool)
    ensures Len(c) <= Len(Checked(c, check))
  {
    if check { BracketDepth(PushCharPos, c, CheckAdvance); }
  }

  lemma {:induction false} SomewhereInside(p: seq<Instr>, a: int)
    requires DepthAt(p, a).Somewhere?
    ensures 0 <= a <= Len(p)
    decreases |p|
  {
    if p != [] && a != 0 { SomewhereInside(p[1..], a - Size(p[0])); }
  }

  lemma SoundOffsetFits(code: seq<Instr>, k: nat)
    requires AllSound(code) && Len(code) < TWO31 && k < |code|
    ensures OffsetFits(code[k])
  {
    assert Sound(code[..k], code[k], code[k + 1..]);
    assert code == code[..k] + [code[k]] + code[k + 1..];
    SplitOffsetFits(code[..k], code[k], code[k + 1..]);
  }

  lemma SplitOffsetFits(u: seq<Instr>, i: Instr, v: seq<Instr>)
    requires Sound(u, i, v) && Len(u + [i] + v) < TWO31
    ensures OffsetFits(i)
  {
    hide DepthAt;
    hide Depth;
    LenConcat(u + [i], v);
    LenConcat(u, [i]);
    assert Len([i]) == Size(i);
    if Jumps(i) {
      SomewhereInside(u + [i] + v, Len(u) + Size(i) + i.off);
    }
  }

  /** Jumps of sound code stay inside it, so their offsets are bounded by its size. */
  lemma SoundOffsetsFit(code: seq<Instr>)
    requires AllSound(code) && Len(code) < TWO31
    ensures forall i :: i in code ==> OffsetFits(i)
  {
    hide AllSound;
    hide OffsetFits;
    forall k: nat | k < |code|
      ensures OffsetFits(code[k])
    {
      SoundOffsetFits(code, k);
    }
  }

  /** The bytes of a whole program decode to that program. */
  lemma ProgramDecodes(r: Regex, sticky: bool)
    requires WellFormed(r) && NCaps(r) <= 254 && Len(Program(r, sticky)) < TWO31
    ensures Loaded(Decoded(EncodeAll(Program(r, sticky))), Program(r, sticky))
  {
    hide Balanced;
    var code := Program(r, sticky);
    ProgramBalanced(r, sticky);
    BalancedSound(code);
    SoundOffsetsFit(code);
    ProgramSmall(r, sticky);
    DecodedLoaded(code);
  }

  lemma BalancedSound(code: seq<Instr>)
    requires Balanced(code)
    ensures AllSound(code)
  {
  }

  lemma ProgramSmall(r: Regex, sticky: bool)
    requires WellFormed(r) && NCaps(r) <= 254 && Len(Program(r, sticky)) < TWO31
    ensures AllSmall(Program(r, sticky))
  {
    hide AllSmall;
    var head := if sticky then [] else SEARCH;
    var c := Code(r, 1, true);
    LenConcat(head + [SaveStart(0)] + c, [SaveEnd(0), MatchOp]);
    LenConcat(head + [SaveStart(0)], c);
    CodeSmall(r, 1, true);
    SmallEnds(head);
    SmallConcat(head + [SaveStart(0)], c);
    SmallConcat(head + [SaveStart(0)] + c, [SaveEnd(0), MatchOp]);
  }

  lemma SmallEnds(head: seq<Instr>)
    requires head == [] || head == SEARCH
    ensures AllSmall(head + [SaveStart(0)]) && AllSmall([SaveEnd(0), MatchOp])
  {
  }
}
