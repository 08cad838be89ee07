/** The parser's state and what it writes: `byte_code` grows at its end, is opened by
    insertions and patched in place. */
module RegexParseState {
  import opened Common
  import opened RegexSyntax
  import opened RegexCode
  import opened RegexStack
  import opened RegexBytes
  import opened RegexEmitter

  class REParseState {
    var byteCode: seq<Byte>
    var captureCount: nat

    constructor ()
      ensures byteCode == [] && captureCount == 1
    {
      byteCode := [];
      captureCount := 1;
    }

    method EmitOp(op: Byte)
      modifies this`byteCode
      ensures byteCode == old(byteCode) + [op]
    {
      byteCode := byteCode + [op];
    }

    method EmitOpU8(op: Byte, v: Byte)
      modifies this`byteCode
      ensures byteCode == old(byteCode) + [op, v]
    {
      byteCode := byteCode + [op];
      byteCode := byteCode + [v];
    }

    method EmitOpU16(op: Byte, v: int)
      modifies this`byteCode
      ensures byteCode == old(byteCode) + ([op] + U16(v))
    {
      hide U16;
      byteCode := byteCode + [op];
      byteCode := byteCode + U16(v);
    }

    /** The offset of the operand is returned, to be patched later. */
    method EmitOpU32(op: Byte, v: int) returns (pos: nat)
      modifies this`byteCode
      ensures byteCode == old(byteCode) + ([op] + U32(v))
      ensures pos == |old(byteCode)| + 1
    {
      hide U32;
      byteCode := byteCode + [op];
      pos := |byteCode|;
      byteCode := byteCode + U32(v);
    }

    /** A jump to the absolute offset `target`. */
    method EmitGoto(op: Byte, target: nat)
      modifies this`byteCode
      ensures byteCode == old(byteCode) + ([op] + U32(target - (|old(byteCode)| + 5)))
    {
      hide U32;
      byteCode := byteCode + [op];
      var pos := |byteCode|;
      byteCode := byteCode + U32(target - (pos + 4));
    }

    /** `dbuf_insert`: the bytes from `pos` on move up; the gap keeps stale bytes. */
    method Insert(pos: nat, len: nat, ghost before: seq<Byte>, ghost after: seq<Byte>) returns (ghost gap: seq<Byte>)
      requires byteCode == before + after && pos == |before|
      modifies this`byteCode
      ensures |gap| == len && byteCode == before + gap + after
    {
      var stale: seq<Byte> := [];
      while |stale| < len
        invariant |stale| <= len
      {
        var b: Byte := *;
        stale := stale + [b];
      }
      byteCode := byteCode[..pos] + stale + byteCode[pos..];
      gap := stale;
    }

    method PutU8(pos: nat, v: Byte, ghost before: seq<Byte>, ghost gap: seq<Byte>, ghost after: seq<Byte>)
      requires byteCode == before + gap + after && pos == |before| && |gap| >= 1
      modifies this`byteCode
      ensures byteCode == before + [v] + gap[1..] + after
    {
      byteCode := byteCode[pos := v];
    }

    method PutU32(pos: nat, v: int, ghost before: seq<Byte>, ghost gap: seq<Byte>, ghost after: seq<Byte>)
      requires byteCode == before + gap + after && pos == |before| && |gap| >= 4
      modifies this`byteCode
      ensures byteCode == before + U32(v) + gap[4..] + after
    {
      hide U32;
      byteCode := byteCode[..pos] + U32(v) + byteCode[pos + 4..];
    }

    /** `dbuf_put_self`: a copy of earlier bytes is appended. */
    method PutSelf(offset: nat, len: nat)
      requires offset + len <= |byteCode|
      modifies this`byteCode
      ensures byteCode == old(byteCode) + old(byteCode)[offset..offset + len]
    {
      byteCode := byteCode + byteCode[offset..offset + len];
    }

    // ----- quantifiers -----

    /** `simple_greedy_quant` in front of a straight-line atom. */
    method EmitSimple(start: nat, min: nat, max: nat, len: nat, ghost pre: seq<Byte>, ghost c: seq<Instr>)
      requires byteCode == pre + EncodeAll(c) && |pre| == start && 0 < len == SimpleLen(c)
      modifies this`byteCode
      ensures byteCode == pre + EncodeAll(SimpleCode(c, min, max))
    {
      hide U32;
      hide EncodeAll;
      hide IsSimple;
      ghost var body := EncodeAll(c) + [REOP_MATCH];
      EmitOp(REOP_MATCH);
      assert byteCode == pre + body;
      ghost var gap := Insert(start, 17, pre, body);
      var pos := start;
      PutU8(pos, REOP_SIMPLE_GREEDY_QUANT, pre, gap, body);
      pos := pos + 1;
      ghost var head := pre + [REOP_SIMPLE_GREEDY_QUANT];
      var off := |byteCode| - start - 17;
      PutU32(pos, off, head, gap[1..], body);
      pos := pos + 4;
      head := head + U32(off);
      PutU32(pos, min, head, gap[1..][4..], body);
      pos := pos + 4;
      head := head + U32(min);
      PutU32(pos, max, head, gap[1..][4..][4..], body);
      pos := pos + 4;
      head := head + U32(max);
      PutU32(pos, len, head, gap[1..][4..][4..][4..], body);
      head := head + U32(len);
      assert gap[1..][4..][4..][4..][4..] == [];
      assert byteCode == head + body;
      ghost var i := SimpleGreedyQuant(Len(c) + 1, min, max, len);
      EncodeBracket(i, c, MatchOp);
      assert head == pre + Encode(i);
      assert head + body == pre + (Encode(i) + EncodeAll(c) + Encode(MatchOp));
    }

    /** `save_reset` in front of an atom that may be skipped, when it has groups. */
    method EmitReset(start: nat, lo: nat, ghost pre: seq<Byte>, ghost atom: seq<Byte>) returns (start': nat)
      requires byteCode == pre + atom && |pre| == start && lo <= captureCount <= CAPTURE_COUNT_MAX
      modifies this`byteCode
      ensures var reset := EncodeAll(ResetCode(lo, captureCount - lo));
              byteCode == pre + reset + atom && start' == start + |reset|
    {
      hide EncodeAll;
      start' := start;
      if lo != captureCount {
        ghost var gap := Insert(start, 3, pre, atom);
        PutU8(start', REOP_SAVE_RESET, pre, gap, atom);
        start' := start' + 1;
        PutU8(start', lo, pre + [REOP_SAVE_RESET], gap[1..], atom);
        start' := start' + 1;
        PutU8(start', captureCount - 1, pre + [REOP_SAVE_RESET] + [lo], gap[1..][1..], atom);
        start' := start' + 1;
        EncodeOne(SaveReset(lo, captureCount - 1));
        assert gap[1..][1..][1..] == [];
        assert pre + [REOP_SAVE_RESET] + [lo] + [captureCount - 1] == pre + Encode(SaveReset(lo, captureCount - 1));
      } else {
        EncodeNothing();
        assert pre + [] + atom == pre + atom;
      }
    }

    /** The split and the advance check around the atom, in the gap before it. */
    method FillSplit(pos: nat, off: nat, check: bool, greedy: bool, ghost before: seq<Byte>, ghost gap: seq<Byte>,
        ghost c: seq<Instr>)
      requires byteCode == before + gap + EncodeAll(c) && pos == |before| && |gap| == 5 + B(check)
      modifies this`byteCode
      ensures byteCode == before + (Encode(SplitExit(greedy, off)) + EncodeAll(Checked(c, check)))
    {
      hide U32;
      hide EncodeAll;
      hide Encode;
      hide Checked;
      ghost var atom := EncodeAll(c);
      var split := if greedy then REOP_SPLIT_NEXT_FIRST else REOP_SPLIT_GOTO_FIRST;
      PutU8(pos, split, before, gap, atom);
      PutU32(pos + 1, off, before + [split], gap[1..], atom);
      ghost var head := before + [split] + U32(off);
      assert head == before + Encode(SplitExit(greedy, off)) by { EncodeSplit(greedy, off); }
      EncodeChecked(c, check);
      if check {
        PutU8(pos + 1 + 4, REOP_PUSH_CHAR_POS, head, gap[1..][4..], atom);
        assert gap[1..][4..][1..] == [];
        EmitOp(REOP_CHECK_ADVANCE);
        assert byteCode == head + ([REOP_PUSH_CHAR_POS] + atom + [REOP_CHECK_ADVANCE]);
      } else {
        assert gap[1..][4..] == [];
        assert byteCode == head + ([] + atom + []);
      }
    }

    /** `{0,1}` and `{0,}` around the atom at `start`. */
    method EmitOptOrStar(start: nat, hasGoto: bool, check: bool, greedy: bool, ghost pre: seq<Byte>,
        ghost c: seq<Instr>)
      requires byteCode == pre + EncodeAll(c) && |pre| == start
      modifies this`byteCode
      ensures byteCode == pre + EncodeAll(if hasGoto then StarCode(c, check, greedy) else OptCode(c, check, greedy))
    {
      hide U32;
      hide EncodeAll;
      hide Encode;
      hide StarCode;
      hide CountCode;
      hide OptCode;
      hide Checked;
      var len := |byteCode| - start;
      ghost var gap := Insert(start, 5 + B(check), pre, EncodeAll(c));
      var off := len + 5 * B(hasGoto) + B(check) * 2;
      FillSplit(start, off, check, greedy, pre, gap, c);
      EncodeChecked(c, check);
      if hasGoto {
        EmitGoto(REOP_GOTO, start);
        StarBytes(pre, c, check, greedy);
      } else {
        OptBytes(pre, c, check, greedy);
      }
    }

    /** A bounded loop from zero around the atom at `start`. */
    method EmitCount(start: nat, check: bool, greedy: bool, max: nat, ghost pre: seq<Byte>, ghost c: seq<Instr>)
      requires byteCode == pre + EncodeAll(c) && |pre| == start
      modifies this`byteCode
      ensures byteCode == pre + EncodeAll(CountCode(c, check, greedy, max))
    {
      hide U32;
      hide EncodeAll;
      hide Encode;
      hide StarCode;
      hide CountCode;
      hide OptCode;
      hide Checked;
      ghost var atom := EncodeAll(c);
      var len := |byteCode| - start;
      ghost var gap := Insert(start, 10 + B(check), pre, atom);
      var pos := start;
      PutU8(pos, REOP_PUSH_I32, pre, gap, atom);
      pos := pos + 1;
      PutU32(pos, max, pre + [REOP_PUSH_I32], gap[1..], atom);
      pos := pos + 4;
      ghost var head := pre + Encode(PushI32(max));
      EncodePush(max);
      assert head == pre + [REOP_PUSH_I32] + U32(max);
      var off := len + 5 + B(check) * 2;
      FillSplit(pos, off, check, greedy, head, gap[1..][4..], c);
      EncodeChecked(c, check);
      EmitGoto(REOP_LOOP, start + 5);
      EmitOp(REOP_DROP);
      CountBytes(pre, c, check, greedy, max);
    }

    /** A counted loop for the mandatory iterations. */
    method EmitTimes(start: nat, min: nat, ghost pre: seq<Byte>, ghost c: seq<Instr>) returns (start': nat)
      requires byteCode == pre + EncodeAll(c) && |pre| == start
      modifies this`byteCode
      ensures byteCode == pre + EncodeAll(TimesCode(c, min)) && start' == start + 5
      ensures start' + Len(c) <= |byteCode| && byteCode[start'..start' + Len(c)] == EncodeAll(c)
    {
      hide U32;
      hide EncodeAll;
      ghost var atom := EncodeAll(c);
      ghost var gap := Insert(start, 5, pre, atom);
      PutU8(start, REOP_PUSH_I32, pre, gap, atom);
      PutU32(start + 1, min, pre + [REOP_PUSH_I32], gap[1..], atom);
      start' := start + 5;
      assert gap[1..][4..] == [];
      ghost var head := pre + [REOP_PUSH_I32] + U32(min);
      assert byteCode == head + atom;
      EmitGoto(REOP_LOOP, start');
      EmitOp(REOP_DROP);
      EncodeTimes(PushI32(min), c, Loop(Back(Len(c) + 5)), Drop);
      ghost var tail := Encode(Loop(Back(Len(c) + 5))) + Encode(Drop);
      assert head == pre + Encode(PushI32(min));
      assert byteCode == head + atom + tail;
      assert head + atom + tail == pre + (Encode(PushI32(min)) + atom + tail);
    }

    /** The optional iterations after the mandatory ones, on a copy of the atom. */
    method EmitTail(start: nat, len: nat, check: bool, min: nat, max: nat, greedy: bool, ghost c: seq<Instr>)
      requires start + len <= |byteCode| && byteCode[start..start + len] == EncodeAll(c)
      modifies this`byteCode
      ensures byteCode == old(byteCode) + EncodeAll(TailCode(c, check, min, max, greedy))
    {
      hide EncodeAll;
      hide StarCode;
      hide CountCode;
      if max == INT32_MAX {
        EmitStar(start, len, check, greedy, c);
      } else if max > min {
        EmitMore(start, len, check, max - min, greedy, c);
      } else {
        EncodeNothing();
        assert byteCode + [] == byteCode;
      }
    }

    method EmitStar(start: nat, len: nat, check: bool, greedy: bool, ghost c: seq<Instr>)
      requires start + len <= |byteCode| && byteCode[start..start + len] == EncodeAll(c)
      modifies this`byteCode
      ensures byteCode == old(byteCode) + EncodeAll(StarCode(c, check, greedy))
    {
      hide U32;
      hide EncodeAll;
      hide Encode;
      hide Checked;
      hide StarCode;
      hide Len;
      var pos := |byteCode|;
      EncodeChecked(c, check);
      EmitCopy(start, len, len + 5 + B(check) * 2, check, greedy, c);
      EmitGoto(REOP_GOTO, pos);
      StarBytes(old(byteCode), c, check, greedy);
    }

    method EmitMore(start: nat, len: nat, check: bool, k: nat, greedy: bool, ghost c: seq<Instr>)
      requires start + len <= |byteCode| && byteCode[start..start + len] == EncodeAll(c)
      modifies this`byteCode
      ensures byteCode == old(byteCode) + EncodeAll(CountCode(c, check, greedy, k))
    {
      hide U32;
      hide EncodeAll;
      hide Encode;
      hide Checked;
      hide CountCode;
      hide Len;
      var p0 := EmitOpU32(REOP_PUSH_I32, k);
      EncodePush(k);
      var pos := |byteCode|;
      EncodeChecked(c, check);
      EmitCopy(start, len, len + 5 + B(check) * 2, check, greedy, c);
      EmitGoto(REOP_LOOP, pos);
      EmitOp(REOP_DROP);
      CountBytes(old(byteCode), c, check, greedy, k);
    }

    /** The split and the copied atom of `EmitTail`. */
    method EmitCopy(start: nat, len: nat, off: nat, check: bool, greedy: bool, ghost c: seq<Instr>)
      requires start + len <= |byteCode| && byteCode[start..start + len] == EncodeAll(c)
      modifies this`byteCode
      ensures byteCode == old(byteCode) + (Encode(SplitExit(greedy, off)) + EncodeAll(Checked(c, check)))
    {
      hide U32;
      hide EncodeAll;
      hide Encode;
      hide Checked;
      ghost var pre := byteCode;
      var p := EmitOpU32(if greedy then REOP_SPLIT_NEXT_FIRST else REOP_SPLIT_GOTO_FIRST, off);
      EncodeSplit(greedy, off);
      if check { EmitOp(REOP_PUSH_CHAR_POS); }
      assert byteCode[start..start + len] == EncodeAll(c);
      PutSelf(start, len);
      if check { EmitOp(REOP_CHECK_ADVANCE); }
      EncodeChecked(c, check);
      ghost var s := Encode(SplitExit(greedy, off));
      if check {
        assert byteCode == pre + (s + ([REOP_PUSH_CHAR_POS] + EncodeAll(c) + [REOP_CHECK_ADVANCE]));
      } else {
        assert byteCode == pre + (s + ([] + EncodeAll(c) + []));
      }
    }

    /** The quantifier after the atom at `start`. */
    method EmitQuantifier(start: nat, lo: nat, min: nat, max: nat, greedy: bool, ghost pre: seq<Byte>,
        ghost c: seq<Instr>)
      requires byteCode == pre + EncodeAll(c) && |pre| == start && lo <= captureCount <= CAPTURE_COUNT_MAX
      requires RangesFit(c) && min <= max <= INT32_MAX
      modifies this`byteCode
      ensures byteCode == pre + EncodeAll(QuantCode(c, lo, captureCount - lo, min, max, greedy))
    {
      hide EncodeAll;
      hide RangesFit;
      hide IsSimple;
      hide NeedCheckAdvance;
      hide SimpleCode;
      hide FromZeroCode;
      hide PlusCode;
      hide TimesCode;
      hide TailCode;
      hide ResetCode;
      assert byteCode[start..] == EncodeAll(c);
      if greedy && max > 0 {
        var len := ReIsSimpleQuantifier(byteCode[start..], c);
        if len > 0 {
          EmitSimple(start, min, max, len, pre, c);
          return;
        }
      }
      var check := ReNeedCheckAdvance(byteCode[start..], c);
      if min == 0 {
        EmitFromZero(start, lo, check, max, greedy, pre, c);
      } else if min == 1 && max == INT32_MAX && !check {
        EmitPlus(start, greedy, pre, c);
      } else {
        EmitFromOne(start, check, min, max, greedy, pre, c);
      }
    }

    method EmitPlus(start: nat, greedy: bool, ghost pre: seq<Byte>, ghost c: seq<Instr>)
      requires byteCode == pre + EncodeAll(c) && |pre| == start
      modifies this`byteCode
      ensures byteCode == pre + EncodeAll(PlusCode(c, greedy))
    {
      hide EncodeAll;
      hide U32;
      EmitGoto(if greedy then REOP_SPLIT_GOTO_FIRST else REOP_SPLIT_NEXT_FIRST, start);
      EncodePlus(c, greedy);
      assert byteCode == pre + (EncodeAll(c) + Encode(SplitBack(greedy, Back(Len(c) + 5))));
    }

    method EmitFromOne(start: nat, check: bool, min: nat, max: nat, greedy: bool, ghost pre: seq<Byte>,
        ghost c: seq<Instr>)
      requires byteCode == pre + EncodeAll(c) && |pre| == start
      modifies this`byteCode
      ensures byteCode
        == pre + EncodeAll((if min == 1 then c else TimesCode(c, min)) + TailCode(c, check, min, max, greedy))
    {
      hide EncodeAll;
      hide TimesCode;
      hide TailCode;
      var len := |byteCode| - start;
      var atom := start;
      if min != 1 {
        atom := EmitTimes(start, min, pre, c);
      }
      ghost var front, rest := if min == 1 then c else TimesCode(c, min), TailCode(c, check, min, max, greedy);
      EmitTail(atom, len, check, min, max, greedy, c);
      EncodeConcat(front, rest);
      assert byteCode == pre + EncodeAll(front) + EncodeAll(rest);
      assert byteCode == pre + (EncodeAll(front) + EncodeAll(rest));
    }

    method EmitFromZero(start: nat, lo: nat, check: bool, max: nat, greedy: bool, ghost pre: seq<Byte>,
        ghost c: seq<Instr>)
      requires byteCode == pre + EncodeAll(c) && |pre| == start && lo <= captureCount <= CAPTURE_COUNT_MAX
      modifies this`byteCode
      ensures byteCode == pre + EncodeAll(ResetCode(lo, captureCount - lo) + FromZeroCode(c, check, max, greedy))
    {
      hide EncodeAll;
      hide OptCode;
      hide StarCode;
      hide CountCode;
      hide ResetCode;
      ghost var reset := ResetCode(lo, captureCount - lo);
      var start' := EmitReset(start, lo, pre, EncodeAll(c));
      ghost var pre' := pre + EncodeAll(reset);
      if max == 0 {
        byteCode := byteCode[..start'];
        EncodeNothing();
        assert byteCode == pre' + [];
      } else if max == 1 || max == INT32_MAX {
        EmitOptOrStar(start', max == INT32_MAX, check, greedy, pre', c);
      } else {
        EmitCount(start', check, greedy, max, pre', c);
      }
      ghost var rest := FromZeroCode(c, check, max, greedy);
      EncodeConcat(reset, rest);
      assert byteCode == pre' + EncodeAll(rest);
      assert byteCode == pre + (EncodeAll(reset) + EncodeAll(rest));
    }

    // ----- atoms -----

    /** `re_emit_range`: 16-bit bounds when they suffice, else 32-bit ones; too many
        intervals are an error. */
    method EmitRange(pts: seq<nat>) returns (ok: bool)
      requires SortedPoints(pts)
      modifies this`byteCode
      ensures ok <==> |pts| / 2 < 65535
      ensures ok ==> byteCode == old(byteCode) + Encode(RangeCode(pts))
    {
      hide U16;
      hide U32;
      hide U16s;
      hide U32s;
      var len := |pts| / 2;
      if len >= 65535 { return false; }
      ok := true;
      if len == 0 {
        var p := EmitOpU32(REOP_CHAR32, -1);
        MinusOne();
      } else {
        var high := pts[|pts| - 1];
        if high == UINT32_MAX { high := pts[|pts| - 2]; }
        if high <= 0xFFFF {
          EmitOpU16(REOP_RANGE, len);
          EmitBounds16(pts);
          assert byteCode == old(byteCode) + ([REOP_RANGE] + (U16(len) + U16s(Bounds(pts, false))));
        } else {
          EmitOpU16(REOP_RANGE32, len);
          EmitBounds32(pts);
          assert byteCode == old(byteCode) + ([REOP_RANGE32] + (U16(len) + U32s(Bounds(pts, true))));
        }
      }
    }

    method EmitBounds16(pts: seq<nat>)
      requires SortedPoints(pts)
      modifies this`byteCode
      ensures byteCode == old(byteCode) + U16s(Bounds(pts, false))
    {
      hide U16;
      ghost var all := Bounds(pts, false);
      var i := 0;
      while i < |pts|
        invariant i <= |pts| && i % 2 == 0
        invariant byteCode == old(byteCode) + U16s(all[..i])
      {
        assert pts[i] < pts[i + 1];
        byteCode := byteCode + U16(pts[i]);
        var high := pts[i + 1] - 1;
        if high == UINT32_MAX - 1 { high := 0xFFFF; }
        byteCode := byteCode + U16(high);
        NextPair16(all, i);
        i := i + 2;
      }
      assert all[..i] == all;
    }

    method EmitBounds32(pts: seq<nat>)
      requires SortedPoints(pts)
      modifies this`byteCode
      ensures byteCode == old(byteCode) + U32s(Bounds(pts, true))
    {
      hide U32;
      ghost var all := Bounds(pts, true);
      var i := 0;
      while i < |pts|
        invariant i <= |pts| && i % 2 == 0
        invariant byteCode == old(byteCode) + U32s(all[..i])
      {
        assert pts[i] < pts[i + 1];
        byteCode := byteCode + U32(pts[i]);
        byteCode := byteCode + U32(pts[i + 1] - 1);
        NextPair32(all, i);
        i := i + 2;
      }
      assert all[..i] == all;
    }

    /** A character, a dot or a class, between two steps back when matching backwards. */
    method EmitOneChar(r: Regex, back: bool) returns (ok: bool)
      requires Parseable(r) && (r.Char? || r.Dot? || r.Class?)
      modifies this`byteCode
      ensures ok <==> WellFormed(r)
      ensures ok ==> byteCode == old(byteCode) + EncodeAll(Code(r, 0, !back))
    {
      hide U16;
      hide U32;
      hide Encode;
      hide RangeCode;
      hide EncodeAll;
      hide SortedPoints;
      ghost var pre := byteCode;
      ghost var i := match r
        case Char(c) => CharCode(c)
        case Dot(all) => (if all then AnyOp else DotOp)
        case Class(pts) => RangeCode(pts);
      if back { EmitOp(REOP_PREV); }
      ok := true;
      match r {
        case Char(c) =>
          EncodeChar(c);
          if c <= 0x7F {
            EmitOpU8(REOP_CHAR8, c);
          } else if c <= 0xFFFF {
            EmitOpU16(REOP_CHAR16, c);
          } else {
            var p := EmitOpU32(REOP_CHAR32, c);
          }
        case Dot(all) =>
          EncodeDot();
          EmitOp(if all then REOP_ANY else REOP_DOT);
        case Class(pts) =>
          ok := EmitRange(pts);
          if !ok { return; }
      }
      if back { EmitOp(REOP_PREV); }
      EncodeDirected(i, !back);
      if back {
        assert byteCode == pre + [REOP_PREV] + Encode(i) + [REOP_PREV];
        assert byteCode == pre + ([REOP_PREV] + Encode(i) + [REOP_PREV]);
      }
    }

    // ----- patterns -----

    /** The emitting half of the parser, one call per pattern node. It fails on a class
        with too many intervals and on too many groups, and otherwise leaves the bytes
        of the pattern's code behind what was there. */
    method Emit(r: Regex, back: bool) returns (ok: bool)
      requires Parseable(r) && captureCount <= CAPTURE_COUNT_MAX
      modifies this`byteCode, this`captureCount
      ensures ok <==> WellFormed(r) && old(captureCount) + NCaps(r) <= CAPTURE_COUNT_MAX
      ensures ok ==> byteCode == old(byteCode) + EncodeAll(Code(r, old(captureCount), !back))
      ensures ok ==> captureCount == old(captureCount) + NCaps(r)
      decreases r
    {
      hide EncodeAll;
      hide Encode;
      hide QuantCode;
      ghost var pre := byteCode;
      match r {
        case Empty => ok := true; EncodeNothing(); assert pre + [] == pre;
        case Char(_) => ok := EmitOneChar(r, back);
        case Dot(_) => ok := EmitOneChar(r, back);
        case Class(_) => ok := EmitOneChar(r, back);
        case LineStart => ok := true; EmitOp(REOP_LINE_START); EncodeAssertions();
        case LineEnd => ok := true; EmitOp(REOP_LINE_END); EncodeAssertions();
        case WordBoundary(neg) =>
          ok := true;
          EmitOp(if neg then REOP_NOT_WORD_BOUNDARY else REOP_WORD_BOUNDARY);
          EncodeAssertions();
        case BackRef(n) =>
          ok := true;
          EmitOpU8(if back then REOP_BACKWARD_BACK_REFERENCE else REOP_BACK_REFERENCE, n);
          EncodeBackRef(n);
        case Cat(a, b) => ok := EmitCat(a, b, back);
        case Alt(a, b) => ok := EmitAlt(a, b, back);
        case Capture(b) => ok := EmitCapture(b, back);
        case Look(ahead, neg, b) => ok := EmitLook(ahead, neg, b, back);
        case Quant(a, min, max, greedy) =>
          var start, lo := |byteCode|, captureCount;
          ok := Emit(a, back);
          if ok {
            CodeRangesFit(a, lo, !back);
            EmitQuantifier(start, lo, min, max, greedy, pre, Code(a, lo, !back));
          }
      }
    }

    /** Consecutive terms; when matching backwards the later term moves in front. */
    method EmitCat(a: Regex, b: Regex, back: bool) returns (ok: bool)
      requires Parseable(Cat(a, b)) && captureCount <= CAPTURE_COUNT_MAX
      modifies this`byteCode, this`captureCount
      ensures ok <==> WellFormed(a) && WellFormed(b) && old(captureCount) + NCaps(a) + NCaps(b) <= CAPTURE_COUNT_MAX
      ensures ok ==> byteCode == old(byteCode) + EncodeAll(Code(Cat(a, b), old(captureCount), !back))
      ensures ok ==> captureCount == old(captureCount) + NCaps(a) + NCaps(b)
      decreases Cat(a, b), 0
    {
      hide Len;
      hide EncodeAll;
      hide QuantCode;
      hide AltCode;
      hide CaptureCode;
      hide LookCode;
      hide WellFormed;
      ghost var pre, cc := byteCode, captureCount;
      var start := |byteCode|;
      ok := Emit(a, back);
      if !ok { return; }
      ghost var ca := Code(a, cc, !back);
      var termStart := |byteCode|;
      ok := Emit(b, back);
      if !ok { return; }
      ghost var cb := Code(b, cc + NCaps(a), !back);
      if back {
        byteCode := byteCode[..start] + byteCode[termStart..] + byteCode[start..termStart];
        Rotated(pre, EncodeAll(ca), EncodeAll(cb));
        EncodeConcat(cb, ca);
      } else {
        EncodeConcat(ca, cb);
        Rotated(pre, EncodeAll(ca), EncodeAll(cb));
      }
    }

    /** An alternative after another: a split is inserted before the first, and the goto
        between them is patched when the second is complete. */
    method EmitAlt(a: Regex, b: Regex, back: bool) returns (ok: bool)
      requires Parseable(a) && Parseable(b) && captureCount <= CAPTURE_COUNT_MAX
      modifies this`byteCode, this`captureCount
      ensures ok <==> WellFormed(a) && WellFormed(b) && old(captureCount) + NCaps(a) + NCaps(b) <= CAPTURE_COUNT_MAX
      ensures ok ==>
        byteCode
          == old(byteCode)
            + EncodeAll(AltCode(Code(a, old(captureCount), !back), Code(b, old(captureCount) + NCaps(a), !back)))
      ensures ok ==> captureCount == old(captureCount) + NCaps(a) + NCaps(b)
      decreases Alt(a, b), 0
    {
      hide Parseable;
      hide WellFormed;
      hide NCaps;
      hide Len;
      hide EncodeAll;
      hide U32;
      hide Encode;
      hide AltCode;
      hide Code;
      ghost var pre, cc := byteCode, captureCount;
      var start := |byteCode|;
      ok := Emit(a, back);
      if !ok { return; }
      ghost var ca := Code(a, cc, !back);
      var len := |byteCode| - start;
      InsertSplit(start, len + 5, pre, EncodeAll(ca));
      var pos := EmitOpU32(REOP_GOTO, 0);
      ghost var before := pre + Encode(SplitNextFirst(Len(ca) + 5)) + EncodeAll(ca) + [REOP_GOTO];
      assert byteCode == before + U32(0);
      ok := Emit(b, back);
      if !ok { return; }
      ghost var cb := Code(b, cc + NCaps(a), !back);
      len := |byteCode| - (pos + 4);
      PutU32(pos, len, before, U32(0), EncodeAll(cb));
      assert before + U32(len) + U32(0)[4..] == before + U32(len);
      AltBytes(pre, ca, cb);
    }

    /** The split in front of an alternative that turns out to have a sibling. */
    method InsertSplit(start: nat, off: nat, ghost pre: seq<Byte>, ghost alternative: seq<Byte>)
      requires byteCode == pre + alternative && start == |pre|
      modifies this`byteCode
      ensures byteCode == pre + Encode(SplitNextFirst(off)) + alternative
    {
      hide U32;
      hide Encode;
      ghost var gap := Insert(start, 5, pre, alternative);
      PutU8(start, REOP_SPLIT_NEXT_FIRST, pre, gap, alternative);
      PutU32(start + 1, off, pre + [REOP_SPLIT_NEXT_FIRST], gap[1..], alternative);
      EncodeSplit(true, off);
      assert gap[1..][4..] == [];
      assert pre + [REOP_SPLIT_NEXT_FIRST] + U32(off) + [] == pre + Encode(SplitNextFirst(off));
    }

    method EmitCapture(b: Regex, back: bool) returns (ok: bool)
      requires Parseable(b) && captureCount <= CAPTURE_COUNT_MAX
      modifies this`byteCode, this`captureCount
      ensures ok <==> WellFormed(b) && old(captureCount) + 1 + NCaps(b) <= CAPTURE_COUNT_MAX
      ensures ok ==> byteCode == old(byteCode) + EncodeAll(Code(Capture(b), old(captureCount), !back))
      ensures ok ==> captureCount == old(captureCount) + 1 + NCaps(b)
      decreases Capture(b), 0
    {
      hide EncodeAll;
      hide Encode;
      ghost var pre := byteCode;
      if captureCount >= CAPTURE_COUNT_MAX { return false; }
      var captureIndex := captureCount;
      captureCount := captureCount + 1;
      EmitOpU8(if back then REOP_SAVE_END else REOP_SAVE_START, captureIndex);
      ok := Emit(b, back);
      if !ok { return; }
      EmitOpU8(if back then REOP_SAVE_START else REOP_SAVE_END, captureIndex);
      CaptureBytes(pre, captureIndex, !back, Code(b, captureIndex + 1, !back));
    }

    method EmitLook(ahead: bool, neg: bool, b: Regex, back: bool) returns (ok: bool)
      requires Parseable(b) && captureCount <= CAPTURE_COUNT_MAX
      modifies this`byteCode, this`captureCount
      ensures ok <==> WellFormed(b) && old(captureCount) + NCaps(b) <= CAPTURE_COUNT_MAX
      ensures ok ==> byteCode == old(byteCode) + EncodeAll(Code(Look(ahead, neg, b), old(captureCount), !back))
      ensures ok ==> captureCount == old(captureCount) + NCaps(b)
      decreases Look(ahead, neg, b), 0
    {
      hide NCaps;
      hide SortedPoints;
      hide Len;
      hide Directed;
      hide CharCode;
      hide RangeCode;
      hide AltCode;
      hide CaptureCode;
      hide EncodeAll;
      hide Encode;
      hide U32;
      ghost var pre, cc := byteCode, captureCount;
      var op := if neg then REOP_NEGATIVE_LOOKAHEAD else REOP_LOOKAHEAD;
      var pos := EmitOpU32(op, 0);
      ok := Emit(b, !ahead);
      if !ok { return; }
      ghost var c := Code(b, cc, ahead);
      EmitOp(REOP_MATCH);
      ghost var after := EncodeAll(c) + [REOP_MATCH];
      assert byteCode == pre + [op] + U32(0) + after;
      var len := |byteCode| - (pos + 4);
      PutU32(pos, len, pre + [op], U32(0), after);
      assert U32(0)[4..] == [];
      LookBytes(pre, neg, c);
      assert byteCode == pre + [op] + U32(len) + after;
    }

    /** The scan for the size of the run-time stack. */
    method ComputeStack(ghost code: seq<Instr>) returns (size: int)
      requires byteCode == EncodeAll(code) && RangesFit(code)
      ensures size == ComputeStackSize(code, 0, 0)
    {
      hide EncodeAll;
      hide GetU16;
      hide RangesFit;
      var depth, pos := 0, 0;
      size := 0;
      ghost var k := 0;
      assert code[0..] == code;
      while pos < |byteCode|
        invariant k <= |code| && pos == Len(code[..k]) && |byteCode| == Len(code)
        invariant depth <= size
        invariant ComputeStackSize(code, 0, 0) == ComputeStackSize(code[k..], depth, size)
        decreases |code| - k
      {
        PrefixLen(code, k);
        OpcodeAt(byteCode, code, k);
        assert code[k..][0] == code[k] && code[k..][1..] == code[k + 1..];
        var opcode := byteCode[pos];
        var len := OpcodeSize(opcode);
        if opcode == REOP_PUSH_I32 || opcode == REOP_PUSH_CHAR_POS {
          depth := depth + 1;
          if depth > size {
            if depth > STACK_SIZE_MAX { return -1; }
            size := depth;
          }
        } else if opcode == REOP_DROP || opcode == REOP_CHECK_ADVANCE {
          depth := depth - 1;
        } else if opcode == REOP_RANGE {
          len := len + GetU16(byteCode, pos + 1) * 4;
        } else if opcode == REOP_RANGE32 {
          len := len + GetU16(byteCode, pos + 1) * 8;
        }
        assert len == Size(code[k]);
        pos := pos + len;
        k := k + 1;
      }
      PrefixLen(code, k);
      assert code[k..] == [];
    }

    /** `lre_compile`, for the code that follows the header: the bytes of the program and
        the two counts that the header records. */
    method Compile(r: Regex, sticky: bool) returns (ok: bool, stackSize: int)
      requires Parseable(r) && byteCode == [] && captureCount == 1
      modifies this`byteCode, this`captureCount
      ensures ok <==> WellFormed(r) && NCaps(r) < CAPTURE_COUNT_MAX && ComputeStackSize(Program(r, sticky), 0, 0) >= 0
      ensures ok ==> byteCode == EncodeAll(Program(r, sticky)) && captureCount == 1 + NCaps(r)
      ensures ok ==> stackSize == ComputeStackSize(Program(r, sticky), 0, 0)
    {
      hide EncodeAll;
      hide Encode;
      hide U32;
      hide Code;
      stackSize := -1;
      if !sticky {
        var p0 := EmitOpU32(REOP_SPLIT_GOTO_FIRST, 1 + 5);
        EmitOp(REOP_ANY);
        var p1 := EmitOpU32(REOP_GOTO, -(5 + 1 + 5));
      }
      ghost var head := byteCode;
      EmitOpU8(REOP_SAVE_START, 0);
      ok := Emit(r, false);
      if !ok { return; }
      EmitOpU8(REOP_SAVE_END, 0);
      EmitOp(REOP_MATCH);
      HeadBytes();
      EncodeNothing();
      ProgramBytes(head, if sticky then [] else SEARCH, Code(r, 1, true));
      ProgramRangesFit(r, sticky);
      stackSize := ComputeStack(Program(r, sticky));
      ok := stackSize >= 0;
    }
  }
}
