/** The one-pass emitter: it appends to the byte code, opens gaps in it and patches
    jumps, and leaves exactly the bytes of the pattern's code. */
module RegexEmitter {
  import opened Common
  import opened RegexSyntax
  import opened RegexCode
  import opened RegexStack
  import opened RegexBytes

  const CAPTURE_COUNT_MAX: nat := 255

  /** Patterns as the parser meets them: the number of intervals of a class is not
      bounded yet. */
  predicate Parseable(r: Regex) {
    match r
    case Char(c) => c <= 0x10FFFF
    case Class(pts) => SortedPoints(pts)
    case Cat(a, b) => Parseable(a) && Parseable(b)
    case Alt(a, b) => Parseable(a) && Parseable(b)
    case Capture(b) => Parseable(b)
    case BackRef(n) => n < 255
    case Look(_, _, b) => Parseable(b)
    case Quant(a, min, max, _) => Parseable(a) && min <= max <= INT32_MAX
    case _ => true
  }

  // ----- facts about the bytes of code -----

  predicate RangeFits(i: Instr) {
    i.Range? || i.Range32? ==> |i.bounds| % 2 == 0 && |i.bounds| / 2 < TWO16
  }

  predicate RangesFit(c: seq<Instr>) {
    forall i :: 0 <= i < |c| ==> RangeFits(c[i])
  }

  lemma EncodeOne(i: Instr)
    ensures EncodeAll([i]) == Encode(i)
  {
    hide Encode;
    assert [i][1..] == [];
  }

  lemma EncodeBracket(i: Instr, c: seq<Instr>, j: Instr)
    ensures EncodeAll([i] + c + [j]) == Encode(i) + EncodeAll(c) + Encode(j)
  {
    hide Encode;
    EncodeConcat([i] + c, [j]);
    EncodeConcat([i], c);
    EncodeOne(i);
    EncodeOne(j);
  }

  lemma EncodeNothing()
    ensures EncodeAll([]) == []
  {
  }

  lemma EncodeSplit(greedy: bool, off: int)
    ensures Encode(SplitExit(greedy, off))
         == [if greedy then REOP_SPLIT_NEXT_FIRST else REOP_SPLIT_GOTO_FIRST] + U32(off)
  {
  }

  lemma EncodePush(v: nat)
    ensures Encode(PushI32(v)) == [REOP_PUSH_I32] + U32(v)
  {
  }

  lemma EncodeJumps(off: int)
    ensures Encode(Goto(off)) == [REOP_GOTO] + U32(off)
    ensures Encode(Loop(off)) == [REOP_LOOP] + U32(off)
    ensures Encode(Drop) == [REOP_DROP]
  {
  }

  lemma Regroup(a: seq<Byte>, b: seq<Byte>, c: seq<Byte>, d: seq<Byte>)
    ensures a + (b + c) + d == a + (b + c + d)
  {
  }

  lemma RegroupLoop(a: seq<Byte>, h: seq<Byte>, b: seq<Byte>, c: seq<Byte>, d: seq<Byte>, e: seq<Byte>)
    ensures a + h + (b + c) + d + e == a + (h + b + c + (d + e))
  {
  }

  lemma OptBytes(pre: seq<Byte>, c: seq<Instr>, check: bool, greedy: bool)
    ensures var w := Checked(c, check);
            pre + (Encode(SplitExit(greedy, Len(w))) + EncodeAll(w)) == pre + EncodeAll(OptCode(c, check, greedy))
  {
    hide Encode;
    hide Checked;
    var w := Checked(c, check);
    EncodeConcat([SplitExit(greedy, Len(w))], w);
    EncodeOne(SplitExit(greedy, Len(w)));
  }

  lemma StarBytes(pre: seq<Byte>, c: seq<Instr>, check: bool, greedy: bool)
    ensures var w := Checked(c, check);
            pre + (Encode(SplitExit(greedy, Len(w) + 5)) + EncodeAll(w)) + ([REOP_GOTO] + U32(Back(Len(w) + 10)))
            == pre + EncodeAll(StarCode(c, check, greedy))
  {
    hide Encode;
    hide Checked;
    hide U32;
    var w := Checked(c, check);
    EncodeJumps(Back(Len(w) + 10));
    EncodeBracket(SplitExit(greedy, Len(w) + 5), w, Goto(Back(Len(w) + 10)));
    Regroup(pre, Encode(SplitExit(greedy, Len(w) + 5)), EncodeAll(w), Encode(Goto(Back(Len(w) + 10))));
  }

  lemma CountBytes(pre: seq<Byte>, c: seq<Instr>, check: bool, greedy: bool, k: nat)
    ensures var w := Checked(c, check);
            pre + Encode(PushI32(k)) + (Encode(SplitExit(greedy, Len(w) + 5)) + EncodeAll(w))
              + ([REOP_LOOP] + U32(Back(Len(w) + 10))) + [REOP_DROP]
            == pre + EncodeAll(CountCode(c, check, greedy, k))
  {
    hide Encode;
    hide Checked;
    hide U32;
    var w := Checked(c, check);
    var s, j := SplitExit(greedy, Len(w) + 5), Loop(Back(Len(w) + 10));
    EncodeJumps(Back(Len(w) + 10));
    EncodeCount(PushI32(k), s, w, j, Drop);
    RegroupLoop(pre, Encode(PushI32(k)), Encode(s), EncodeAll(w), Encode(j), Encode(Drop));
  }

  lemma EncodePlus(c: seq<Instr>, greedy: bool)
    ensures EncodeAll(PlusCode(c, greedy)) == EncodeAll(c) + Encode(SplitBack(greedy, Back(Len(c) + 5)))
  {
    hide Encode;
    hide EncodeAll;
    EncodeConcat(c, [SplitBack(greedy, Back(Len(c) + 5))]);
    EncodeOne(SplitBack(greedy, Back(Len(c) + 5)));
  }

  lemma EncodeTimes(i: Instr, c: seq<Instr>, j: Instr, k: Instr)
    ensures EncodeAll([i] + c + [j, k]) == Encode(i) + EncodeAll(c) + (Encode(j) + Encode(k))
  {
    hide Encode;
    EncodeConcat([i] + c, [j, k]);
    EncodeConcat([i], c);
    EncodeOne(i);
    assert [j, k] == [j] + [k];
    EncodeConcat([j], [k]);
    EncodeOne(j);
    EncodeOne(k);
  }

  lemma EncodeCount(h: Instr, i: Instr, c: seq<Instr>, j: Instr, k: Instr)
    ensures EncodeAll([h, i] + c + [j, k]) == Encode(h) + Encode(i) + EncodeAll(c) + (Encode(j) + Encode(k))
  {
    hide Encode;
    assert [h, i] + c + [j, k] == [h] + ([i] + c + [j, k]);
    EncodeConcat([h], [i] + c + [j, k]);
    EncodeOne(h);
    EncodeTimes(i, c, j, k);
  }

  lemma EncodeAdvance()
    ensures Encode(PushCharPos) == [REOP_PUSH_CHAR_POS] && Encode(CheckAdvance) == [REOP_CHECK_ADVANCE]
    ensures Encode(Prev) == [REOP_PREV]
  {
  }

  lemma EncodeChecked(c: seq<Instr>, check: bool)
    ensures EncodeAll(Checked(c, check))
         == (if check then [REOP_PUSH_CHAR_POS] else []) + EncodeAll(c) + (if check then [REOP_CHECK_ADVANCE] else [])
    ensures Len(Checked(c, check)) == Len(c) + 2 * B(check)
  {
    hide Encode;
    hide EncodeAll;
    hide Len;
    hide Depth;
    if check {
      EncodeAdvance();
      EncodeBracket(PushCharPos, c, CheckAdvance);
      BracketDepth(PushCharPos, c, CheckAdvance);
    } else {
      assert [] + EncodeAll(c) + [] == EncodeAll(c);
    }
  }

  /** The instruction that starts where the first `k` instructions end. */
  lemma {:induction false} ByteAt(c: seq<Instr>, k: nat)
    requires k < |c|
    ensures Holds(EncodeAll(c), Len(c[..k]), c[k])
    ensures Len(c[..k + 1]) == Len(c[..k]) + Size(c[k])
    decreases |c|
  {
    hide Encode;
    var u, v := c[..k], c[k + 1..];
    assert c == u + [c[k]] + v && c[..k + 1] == u + [c[k]];
    EncodeConcat(u + [c[k]], v);
    EncodeConcat(u, [c[k]]);
    EncodeOne(c[k]);
    LenConcat(u, [c[k]]);
    var p, q, r := EncodeAll(u), Encode(c[k]), EncodeAll(v);
    assert (p + q + r)[|p|..|p| + |q|] == q;
  }

  lemma OpcodeAt(b: seq<Byte>, c: seq<Instr>, k: nat)
    requires b == EncodeAll(c) && RangesFit(c) && k < |c|
    ensures var p := Len(c[..k]); p + Size(c[k]) <= |b| && b[p] == Opcode(c[k])
    ensures c[k].Range? || c[k].Range32? ==> Len(c[..k]) + 3 <= |b| && 2 * GetU16(b, Len(c[..k]) + 1) == |c[k].bounds|
    ensures Len(c[..k + 1]) == Len(c[..k]) + Size(c[k])
  {
    hide EncodeAll;
    hide Holds;
    ByteAt(c, k);
    assert RangeFits(c[k]);
    HeldOpcode(b, Len(c[..k]), c[k]);
  }

  lemma HeldOpcode(b: seq<Byte>, p: nat, i: Instr)
    requires Holds(b, p, i) && RangeFits(i)
    ensures p + Size(i) <= |b| && b[p] == Opcode(i)
    ensures i.Range? || i.Range32? ==> p + 3 <= |b| && 2 * GetU16(b, p + 1) == |i.bounds|
  {
    hide GetU16;
    hide U16;
    hide Operands;
    hide Encode;
    HoldsParts(b, p, i);
    if i.Range? || i.Range32? {
      RangeParts(b, p, i);
      U16RoundTrip(b, p + 1, |i.bounds| / 2);
    }
  }

  /** Only the whole of `c` is as long as `c`. */
  lemma PrefixLen(c: seq<Instr>, k: nat)
    requires k <= |c|
    ensures Len(c[..k]) <= Len(c) && (Len(c[..k]) == Len(c) <==> k == |c|)
  {
    assert c[..k] + c[k..] == c;
    LenConcat(c[..k], c[k..]);
  }

  /** `re_need_check_advance` over the bytes of `c`. */
  method ReNeedCheckAdvance(b: seq<Byte>, ghost c: seq<Instr>) returns (ret: bool)
    requires b == EncodeAll(c) && RangesFit(c)
    ensures ret == NeedCheckAdvance(c, false)
  {
    hide EncodeAll;
    hide GetU16;
    hide RangesFit;
    ret := true;
    var pos := 0;
    ghost var k := 0;
    while pos < |b|
      invariant k <= |c| && pos == Len(c[..k]) && |b| == Len(c)
      invariant NeedCheckAdvance(c, false) == NeedCheckAdvance(c[k..], !ret)
      decreases |c| - k
    {
      PrefixLen(c, k);
      OpcodeAt(b, c, k);
      assert c[k..][0] == c[k] && c[k..][1..] == c[k + 1..];
      var opcode := b[pos];
      var len := OpcodeSize(opcode);
      if opcode == REOP_RANGE || opcode == REOP_RANGE32 {
        len := len + GetU16(b, pos + 1) * (if opcode == REOP_RANGE then 4 else 8);
        ret := false;
      } else if opcode in {REOP_CHAR32, REOP_CHAR16, REOP_CHAR8, REOP_DOT, REOP_ANY} {
        ret := false;
      } else if opcode in {REOP_LINE_START, REOP_LINE_END, REOP_PUSH_I32, REOP_PUSH_CHAR_POS, REOP_DROP,
                           REOP_WORD_BOUNDARY, REOP_NOT_WORD_BOUNDARY, REOP_PREV,
                           REOP_SAVE_START, REOP_SAVE_END, REOP_SAVE_RESET,
                           REOP_BACK_REFERENCE, REOP_BACKWARD_BACK_REFERENCE} {
      } else {
        return true;
      }
      assert len == Size(c[k]);
      pos := pos + len;
      k := k + 1;
    }
    PrefixLen(c, k);
    assert c[k..] == [];
  }

  lemma SimpleTail(c: seq<Instr>, k: nat)
    requires k < |c|
    ensures IsSimple(c[k..]) == ((ReadsOneChar(c[k]) || IsAssertion(c[k])) && IsSimple(c[k + 1..]))
    ensures CountChars(c[k..]) == (if ReadsOneChar(c[k]) then 1 else 0) + CountChars(c[k + 1..])
  {
    var d, e := c[k..], c[k + 1..];
    assert d[0] == c[k] && d[1..] == e;
    if IsSimple(e) && (ReadsOneChar(c[k]) || IsAssertion(c[k])) {
      forall j | 0 <= j < |d| ensures ReadsOneChar(d[j]) || IsAssertion(d[j]) {
        if j > 0 { assert d[j] == e[j - 1]; }
      }
    }
    if IsSimple(d) {
      forall j | 0 <= j < |e| ensures ReadsOneChar(e[j]) || IsAssertion(e[j]) {
        assert d[j + 1] == e[j];
      }
    }
  }

  /** `re_is_simple_quantifier` over the bytes of `c`. */
  method ReIsSimpleQuantifier(b: seq<Byte>, ghost c: seq<Instr>) returns (count: int)
    requires b == EncodeAll(c) && RangesFit(c)
    ensures count == SimpleLen(c)
  {
    hide EncodeAll;
    hide GetU16;
    hide RangesFit;
    hide IsSimple;
    hide CountChars;
    count := 0;
    var pos := 0;
    ghost var k := 0;
    assert c[0..] == c;
    while pos < |b|
      invariant k <= |c| && pos == Len(c[..k]) && |b| == Len(c)
      invariant IsSimple(c) == IsSimple(c[k..])
      invariant CountChars(c) == count + CountChars(c[k..])
      decreases |c| - k
    {
      PrefixLen(c, k);
      OpcodeAt(b, c, k);
      SimpleTail(c, k);
      var opcode := b[pos];
      var len := OpcodeSize(opcode);
      if opcode == REOP_RANGE || opcode == REOP_RANGE32 {
        len := len + GetU16(b, pos + 1) * (if opcode == REOP_RANGE then 4 else 8);
        count := count + 1;
      } else if opcode in {REOP_CHAR32, REOP_CHAR16, REOP_CHAR8, REOP_DOT, REOP_ANY} {
        count := count + 1;
      } else if opcode in {REOP_LINE_START, REOP_LINE_END, REOP_WORD_BOUNDARY, REOP_NOT_WORD_BOUNDARY} {
      } else {
        return -1;
      }
      assert len == Size(c[k]);
      pos := pos + len;
      k := k + 1;
    }
    PrefixLen(c, k);
    assert c[k..] == [];
    NothingIsSimple();
  }

  lemma NothingIsSimple()
    ensures IsSimple([]) && CountChars([]) == 0
  {
  }

  // ----- the bytes of the composite codes -----

  lemma MinusOne()
    ensures U32(-1) == U32(UINT32_MAX)
  {
  }

  lemma EncodeChar(c: nat)
    requires c <= 0x10FFFF
    ensures Encode(CharCode(c)) == if c <= 0x7F then [REOP_CHAR8, c] else if c <= 0xFFFF then [REOP_CHAR16] + U16(c)
      else [REOP_CHAR32] + U32(c)
  {
  }

  lemma EncodeDot()
    ensures Encode(DotOp) == [REOP_DOT] && Encode(AnyOp) == [REOP_ANY]
  {
  }

  /** Two consecutive pieces, as they are and exchanged. */
  lemma Rotated(a: seq<Byte>, b: seq<Byte>, c: seq<Byte>)
    ensures a + b + c == a + (b + c)
    ensures var s := a + b + c; s[..|a|] + s[|a| + |b|..] + s[|a|..|a| + |b|] == a + (c + b)
  {
    var s := a + b + c;
    assert s[..|a|] == a && s[|a| + |b|..] == c && s[|a|..|a| + |b|] == b;
  }

  lemma EncodeDirected(i: Instr, fwd: bool)
    ensures EncodeAll(Directed(i, fwd)) == if fwd then Encode(i) else [REOP_PREV] + Encode(i) + [REOP_PREV]
  {
    hide Encode;
    hide EncodeAll;
    EncodeOne(i);
    EncodeAdvance();
    EncodeBracket(Prev, [i], Prev);
    assert [Prev, i, Prev] == [Prev] + [i] + [Prev];
  }

  lemma EncodeAssertions()
    ensures EncodeAll([LineStartOp]) == [REOP_LINE_START] && EncodeAll([LineEndOp]) == [REOP_LINE_END]
    ensures EncodeAll([WordBoundaryOp]) == [REOP_WORD_BOUNDARY]
      && EncodeAll([NotWordBoundaryOp]) == [REOP_NOT_WORD_BOUNDARY]
  {
    EncodeOne(LineStartOp);
    EncodeOne(LineEndOp);
    EncodeOne(WordBoundaryOp);
    EncodeOne(NotWordBoundaryOp);
  }

  lemma EncodeBackRef(n: nat)
    requires n < 256
    ensures EncodeAll([BackReference(n)]) == [REOP_BACK_REFERENCE, n]
    ensures EncodeAll([BackwardBackReference(n)]) == [REOP_BACKWARD_BACK_REFERENCE, n]
  {
    EncodeOne(BackReference(n));
    EncodeOne(BackwardBackReference(n));
  }

  lemma EncodeSave(n: nat)
    requires n < 256
    ensures Encode(SaveStart(n)) == [REOP_SAVE_START, n] && Encode(SaveEnd(n)) == [REOP_SAVE_END, n]
  {
  }

  lemma AltBytes(pre: seq<Byte>, a: seq<Instr>, b: seq<Instr>)
    ensures pre + Encode(SplitNextFirst(Len(a) + 5)) + EncodeAll(a) + [REOP_GOTO] + U32(Len(b)) + EncodeAll(b)
         == pre + EncodeAll(AltCode(a, b))
  {
    hide Encode;
    hide U32;
    var i, j := SplitNextFirst(Len(a) + 5), Goto(Len(b));
    EncodeConcat([i] + a + [j], b);
    EncodeBracket(i, a, j);
    EncodeJumps(Len(b));
    RegroupAlt(pre, Encode(i), EncodeAll(a), [REOP_GOTO], U32(Len(b)), EncodeAll(b));
  }

  lemma RegroupAlt(a: seq<Byte>, b: seq<Byte>, c: seq<Byte>, d: seq<Byte>, e: seq<Byte>, f: seq<Byte>)
    ensures a + b + c + d + e + f == a + (b + c + (d + e) + f)
  {
  }

  lemma CaptureBytes(pre: seq<Byte>, n: nat, fwd: bool, b: seq<Instr>)
    requires n < 256
    ensures pre + [if fwd then REOP_SAVE_START else REOP_SAVE_END, n] + EncodeAll(b)
              + [if fwd then REOP_SAVE_END else REOP_SAVE_START, n]
         == pre + EncodeAll(CaptureCode(n, fwd, b))
  {
    hide Encode;
    var i, j := if fwd then SaveStart(n) else SaveEnd(n), if fwd then SaveEnd(n) else SaveStart(n);
    EncodeSave(n);
    EncodeBracket(i, b, j);
    assert pre + Encode(i) + EncodeAll(b) + Encode(j) == pre + (Encode(i) + EncodeAll(b) + Encode(j));
  }

  lemma EncodeLook(off: int)
    ensures Encode(Lookahead(off)) == [REOP_LOOKAHEAD] + U32(off)
    ensures Encode(NegativeLookahead(off)) == [REOP_NEGATIVE_LOOKAHEAD] + U32(off)
    ensures Encode(MatchOp) == [REOP_MATCH]
  {
  }

  lemma LookBytes(pre: seq<Byte>, neg: bool, b: seq<Instr>)
    ensures pre + [if neg then REOP_NEGATIVE_LOOKAHEAD else REOP_LOOKAHEAD] + U32(Len(b) + 1)
              + (EncodeAll(b) + [REOP_MATCH])
         == pre + EncodeAll(LookCode(neg, b))
  {
    hide Encode;
    hide U32;
    var i := if neg then NegativeLookahead(Len(b) + 1) else Lookahead(Len(b) + 1);
    EncodeLook(Len(b) + 1);
    EncodeBracket(i, b, MatchOp);
    RegroupLook(pre, [if neg then REOP_NEGATIVE_LOOKAHEAD else REOP_LOOKAHEAD], U32(Len(b) + 1), EncodeAll(b),
      [REOP_MATCH]);
  }

  lemma RegroupLook(a: seq<Byte>, b: seq<Byte>, c: seq<Byte>, d: seq<Byte>, e: seq<Byte>)
    ensures a + b + c + (d + e) == a + (b + c + d + e)
  {
  }

  lemma HeadBytes()
    ensures EncodeAll(SEARCH) == [REOP_SPLIT_GOTO_FIRST] + U32(6) + [REOP_ANY] + ([REOP_GOTO] + U32(-11))
  {
    hide U32;
    assert SEARCH == [SplitGotoFirst(6)] + [AnyOp] + [Goto(-11)];
    EncodeBracket(SplitGotoFirst(6), [AnyOp], Goto(-11));
    EncodeOne(AnyOp);
  }

  lemma ProgramBytes(bytes: seq<Byte>, head: seq<Instr>, c: seq<Instr>)
    requires bytes == EncodeAll(head)
    ensures bytes + [REOP_SAVE_START, 0] + EncodeAll(c) + [REOP_SAVE_END, 0] + [REOP_MATCH]
         == EncodeAll(head + [SaveStart(0)] + c + [SaveEnd(0), MatchOp])
  {
    hide Encode;
    hide EncodeAll;
    EncodeConcat(head, [SaveStart(0)] + c + [SaveEnd(0), MatchOp]);
    EncodeTimes(SaveStart(0), c, SaveEnd(0), MatchOp);
    EncodeSave(0);
    EncodeLook(0);
    assert head + ([SaveStart(0)] + c + [SaveEnd(0), MatchOp]) == head + [SaveStart(0)] + c + [SaveEnd(0), MatchOp];
    RegroupProgram(bytes, [REOP_SAVE_START, 0], EncodeAll(c), [REOP_SAVE_END, 0], [REOP_MATCH]);
  }

  lemma RegroupProgram(a: seq<Byte>, b: seq<Byte>, c: seq<Byte>, d: seq<Byte>, e: seq<Byte>)
    ensures a + b + c + d + e == a + (b + c + (d + e))
  {
  }

  lemma ProgramRangesFit(r: Regex, sticky: bool)
    requires WellFormed(r)
    ensures RangesFit(Program(r, sticky))
  {
    hide RangesFit;
    hide Code;
    CodeRangesFit(r, 1, true);
    var head := if sticky then [] else SEARCH;
    FitEnds(head);
    FitConcat(head + [SaveStart(0)], Code(r, 1, true));
    FitConcat(head + [SaveStart(0)] + Code(r, 1, true), [SaveEnd(0), MatchOp]);
  }

  lemma FitEnds(head: seq<Instr>)
    requires head == [] || head == SEARCH
    ensures RangesFit(head + [SaveStart(0)]) && RangesFit([SaveEnd(0), MatchOp])
  {
  }

  // ----- the ranges of emitted code fit their 16-bit count -----

  lemma FitConcat(a: seq<Instr>, b: seq<Instr>)
    requires RangesFit(a) && RangesFit(b)
    ensures RangesFit(a + b)
  {
    hide RangeFits;
  }

  lemma FitBracket(i: Instr, c: seq<Instr>, j: Instr)
    requires RangeFits(i) && RangesFit(c) && RangeFits(j)
    ensures RangesFit([i] + c + [j]) && RangesFit([i] + c) && RangesFit(c + [j])
  {
    hide RangeFits;
  }

  lemma FitChecked(c: seq<Instr>, check: bool)
    requires RangesFit(c)
    ensures RangesFit(Checked(c, check))
  {
    hide RangesFit;
    FitBracket(PushCharPos, c, CheckAdvance);
  }

  lemma FitLoops(c: seq<Instr>, check: bool, greedy: bool, k: nat)
    requires RangesFit(c)
    ensures RangesFit(OptCode(c, check, greedy)) && RangesFit(StarCode(c, check, greedy))
    ensures RangesFit(CountCode(c, check, greedy, k))
  {
    hide RangesFit;
    hide Checked;
    FitChecked(c, check);
    var w := Checked(c, check);
    FitBracket(SplitExit(greedy, Len(w)), w, Drop);
    FitBracket(SplitExit(greedy, Len(w) + 5), w, Goto(Back(Len(w) + 10)));
    FitCount(PushI32(k), SplitExit(greedy, Len(w) + 5), w, Loop(Back(Len(w) + 10)), Drop);
  }

  lemma FitCount(h: Instr, i: Instr, c: seq<Instr>, j: Instr, k: Instr)
    requires RangeFits(h) && RangeFits(i) && RangesFit(c) && RangeFits(j) && RangeFits(k)
    ensures RangesFit([h, i] + c + [j, k]) && RangesFit([h] + c + [j, k])
  {
    hide RangeFits;
  }

  lemma FitQuant(c: seq<Instr>, cc: nat, k: nat, min: nat, max: nat, greedy: bool)
    requires RangesFit(c)
    ensures RangesFit(QuantCode(c, cc, k, min, max, greedy))
  {
    hide RangesFit;
    hide IsSimple;
    hide NeedCheckAdvance;
    hide OptCode;
    hide StarCode;
    hide CountCode;
    var check := NeedCheckAdvance(c, false);
    FitNothing();
    FitLoops(c, check, greedy, max);
    FitLoops(c, check, greedy, if max > min then max - min else 0);
    FitBracket(SimpleGreedyQuant(Len(c) + 1, min, max, if SimpleLen(c) > 0 then SimpleLen(c) else 0), c, MatchOp);
    FitBracket(Drop, c, SplitBack(greedy, Back(Len(c) + 5)));
    FitCount(PushI32(min), Drop, c, Loop(Back(Len(c) + 5)), Drop);
    FitReset(cc, k);
    FitConcat(ResetCode(cc, k), FromZeroCode(c, check, max, greedy));
    FitConcat(if min == 1 then c else TimesCode(c, min), TailCode(c, check, min, max, greedy));
  }

  lemma FitNothing()
    ensures RangesFit([])
  {
  }

  lemma FitReset(cc: nat, k: nat)
    ensures RangesFit(ResetCode(cc, k))
  {
  }

  lemma {:induction false} CodeRangesFit(r: Regex, cc: nat, fwd: bool)
    requires WellFormed(r)
    ensures RangesFit(Code(r, cc, fwd))
    decreases r
  {
    hide RangesFit;
    hide QuantCode;
    match r
    case Cat(a, b) =>
      CodeRangesFit(a, cc, fwd);
      CodeRangesFit(b, cc + NCaps(a), fwd);
      FitConcat(Code(a, cc, fwd), Code(b, cc + NCaps(a), fwd));
      FitConcat(Code(b, cc + NCaps(a), fwd), Code(a, cc, fwd));
    case Alt(a, b) =>
      var ca, cb := Code(a, cc, fwd), Code(b, cc + NCaps(a), fwd);
      CodeRangesFit(a, cc, fwd);
      CodeRangesFit(b, cc + NCaps(a), fwd);
      FitBracket(SplitNextFirst(Len(ca) + 5), ca, Goto(Len(cb)));
      FitConcat([SplitNextFirst(Len(ca) + 5)] + ca + [Goto(Len(cb))], cb);
    case Capture(b) =>
      CodeRangesFit(b, cc + 1, fwd);
      FitBracket(if fwd then SaveStart(cc) else SaveEnd(cc), Code(b, cc + 1, fwd),
                 if fwd then SaveEnd(cc) else SaveStart(cc));
    case Look(ahead, neg, b) =>
      var c := Code(b, cc, ahead);
      CodeRangesFit(b, cc, ahead);
      FitBracket(if neg then NegativeLookahead(Len(c) + 1) else Lookahead(Len(c) + 1), c, MatchOp);
    case Quant(a, min, max, greedy) =>
      CodeRangesFit(a, cc, fwd);
      FitQuant(Code(a, cc, fwd), cc, NCaps(a), min, max, greedy);
    case _ => FitLeaf(r, cc, fwd);
  }

  lemma FitLeaf(r: Regex, cc: nat, fwd: bool)
    requires WellFormed(r) && !r.Cat? && !r.Alt? && !r.Capture? && !r.Look? && !r.Quant?
    ensures RangesFit(Code(r, cc, fwd))
  {
  }

  // ----- bytes of range operands -----

  lemma {:induction false} U16sConcat(a: seq<nat>, b: seq<nat>)
    ensures U16s(a + b) == U16s(a) + U16s(b)
    decreases |a|
  {
    hide U16;
    if a == [] {
      assert a + b == b;
    } else {
      assert (a + b)[1..] == a[1..] + b;
      U16sConcat(a[1..], b);
      assert U16(a[0]) + (U16s(a[1..]) + U16s(b)) == U16(a[0]) + U16s(a[1..]) + U16s(b);
    }
  }

  lemma {:induction false} U32sConcat(a: seq<nat>, b: seq<nat>)
    ensures U32s(a + b) == U32s(a) + U32s(b)
    decreases |a|
  {
    hide U32;
    if a == [] {
      assert a + b == b;
    } else {
      assert (a + b)[1..] == a[1..] + b;
      U32sConcat(a[1..], b);
      assert U32(a[0]) + (U32s(a[1..]) + U32s(b)) == U32(a[0]) + U32s(a[1..]) + U32s(b);
    }
  }

  lemma NextPair16(v: seq<nat>, i: nat)
    requires i + 2 <= |v|
    ensures U16s(v[..i + 2]) == U16s(v[..i]) + (U16(v[i]) + U16(v[i + 1]))
  {
    hide U16;
    assert v[..i + 2] == v[..i] + [v[i], v[i + 1]];
    U16sConcat(v[..i], [v[i], v[i + 1]]);
    assert [v[i], v[i + 1]][1..] == [v[i + 1]] && [v[i + 1]][1..] == [];
    assert U16(v[i + 1]) + [] == U16(v[i + 1]);
  }

  lemma NextPair32(v: seq<nat>, i: nat)
    requires i + 2 <= |v|
    ensures U32s(v[..i + 2]) == U32s(v[..i]) + (U32(v[i]) + U32(v[i + 1]))
  {
    hide U32;
    assert v[..i + 2] == v[..i] + [v[i], v[i + 1]];
    U32sConcat(v[..i], [v[i], v[i + 1]]);
    assert [v[i], v[i + 1]][1..] == [v[i + 1]] && [v[i + 1]][1..] == [];
    assert U32(v[i + 1]) + [] == U32(v[i + 1]);
  }
}
