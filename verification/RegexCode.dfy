/** The instructions of the bytecode and the code of each pattern. Jump offsets
    are in bytes, relative to the end of the jumping instruction. */
module RegexCode {
  import opened Common
  import opened RegexSyntax

  datatype Instr =
    | Char8(c: nat)
    | Char16(c: nat)
    | Char32(c: nat)
    | DotOp
    | AnyOp
    | LineStartOp
    | LineEndOp
    | Goto(off: int)
    | SplitGotoFirst(off: int)
    | SplitNextFirst(off: int)
    | MatchOp
    | SaveStart(n: nat)
    | SaveEnd(n: nat)
    | SaveReset(lo: nat, hi: nat)
    | Loop(off: int)
    | PushI32(v: nat)
    | Drop
    | WordBoundaryOp
    | NotWordBoundaryOp
    | BackReference(n: nat)
    | BackwardBackReference(n: nat)
    | Range(bounds: seq<nat>)
    | Range32(bounds: seq<nat>)
    | Lookahead(off: int)
    | NegativeLookahead(off: int)
    | PushCharPos
    | CheckAdvance
    | Prev
    | SimpleGreedyQuant(off: int, min: nat, max: nat, len: nat)

  /** Bytes occupied by one instruction. */
  function Size(i: Instr): (n: nat)
    ensures n > 0
  {
    match i
    case Char8(_) => 2
    case Char16(_) => 3
    case Char32(_) => 5
    case Goto(_) => 5
    case SplitGotoFirst(_) => 5
    case SplitNextFirst(_) => 5
    case SaveStart(_) => 2
    case SaveEnd(_) => 2
    case SaveReset(_, _) => 3
    case Loop(_) => 5
    case PushI32(_) => 5
    case BackReference(_) => 2
    case BackwardBackReference(_) => 2
    case Range(b) => 3 + 2 * |b|
    case Range32(b) => 3 + 4 * |b|
    case Lookahead(_) => 5
    case NegativeLookahead(_) => 5
    case SimpleGreedyQuant(_, _, _, _) => 17
    case _ => 1
  }

  function Len(p: seq<Instr>): nat {
    if p == [] then 0 else Size(p[0]) + Len(p[1..])
  }

  lemma {:induction false} LenConcat(p: seq<Instr>, q: seq<Instr>)
    ensures Len(p + q) == Len(p) + Len(q)
  {
    if p == [] {
      assert p + q == q;
    } else {
      LenConcat(p[1..], q);
      assert (p + q)[1..] == p[1..] + q;
    }
  }

  predicate ReadsOneChar(i: Instr) {
    i.Char8? || i.Char16? || i.Char32? || i.DotOp? || i.AnyOp? || i.Range? || i.Range32?
  }

  predicate IsAssertion(i: Instr) {
    i.LineStartOp? || i.LineEndOp? || i.WordBoundaryOp? || i.NotWordBoundaryOp?
  }

  /** Instructions that `re_need_check_advance` lets pass without an answer. */
  predicate IsNeutral(i: Instr) {
    IsAssertion(i) || i.PushI32? || i.PushCharPos? || i.Drop? || i.Prev? || i.SaveStart? || i.SaveEnd?
    || i.SaveReset? || i.BackReference? || i.BackwardBackReference?
  }

  /** True unless the code surely moves the position. `found` says that a
      character-reading instruction has been seen before `p`. */
  function NeedCheckAdvance(p: seq<Instr>, found: bool): bool {
    if p == [] then !found
    else if ReadsOneChar(p[0]) then NeedCheckAdvance(p[1..], true)
    else if IsNeutral(p[0]) then NeedCheckAdvance(p[1..], found)
    else true
  }

  predicate IsSimple(p: seq<Instr>) {
    forall i :: 0 <= i < |p| ==> ReadsOneChar(p[i]) || IsAssertion(p[i])
  }

  function CountChars(p: seq<Instr>): nat {
    if p == [] then 0 else (if ReadsOneChar(p[0]) then 1 else 0) + CountChars(p[1..])
  }

  /** The number of characters of a straight-line atom, or -1. */
  function SimpleLen(p: seq<Instr>): int {
    if IsSimple(p) then CountChars(p) else -1
  }

  // ----- code of the atoms -----

  function CharCode(c: nat): Instr {
    if c <= 0x7F then Char8(c) else if c <= 0xFFFF then Char16(c) else Char32(c)
  }

  /** Inclusive bounds of the intervals; 0xffff as the last bound of a 16-bit range
      stands for infinity. */
  function Bounds(pts: seq<nat>, wide: bool): (b: seq<nat>)
    requires SortedPoints(pts)
    ensures |b| == |pts|
  {
    seq(|pts|, i requires 0 <= i < |pts| =>
      if i % 2 == 0 then pts[i]
      else assert pts[i - 1] < pts[i]; if !wide && pts[i] == UINT32_MAX then 0xFFFF else pts[i] - 1)
  }

  function HighPoint(pts: seq<nat>): nat
    requires |pts| >= 2
  {
    if pts[|pts| - 1] == UINT32_MAX then pts[|pts| - 2] else pts[|pts| - 1]
  }

  function RangeCode(pts: seq<nat>): Instr
    requires SortedPoints(pts)
  {
    if pts == [] then Char32(UINT32_MAX)
    else if HighPoint(pts) <= 0xFFFF then Range(Bounds(pts, false))
    else Range32(Bounds(pts, true))
  }

  /** A one-character atom, stepping back before and after it when matching backwards. */
  function Directed(i: Instr, fwd: bool): seq<Instr> {
    if fwd then [i] else [Prev, i, Prev]
  }

  // ----- code of the quantifiers -----

  function B(b: bool): nat { if b then 1 else 0 }

  /** The offset of a backward jump. */
  function Back(n: nat): int { 0 - n }

  /** The split that leaves a loop: a greedy one tries the next instruction first. */
  function SplitExit(greedy: bool, off: int): Instr {
    if greedy then SplitNextFirst(off) else SplitGotoFirst(off)
  }

  /** The split that closes a loop: a greedy one tries the jump first. */
  function SplitBack(greedy: bool, off: int): Instr {
    if greedy then SplitGotoFirst(off) else SplitNextFirst(off)
  }

  function Checked(c: seq<Instr>, check: bool): seq<Instr> {
    if check then [PushCharPos] + c + [CheckAdvance] else c
  }

  function OptCode(c: seq<Instr>, check: bool, greedy: bool): seq<Instr> {
    [SplitExit(greedy, Len(Checked(c, check)))] + Checked(c, check)
  }

  function StarCode(c: seq<Instr>, check: bool, greedy: bool): seq<Instr> {
    var w := Len(Checked(c, check));
    [SplitExit(greedy, w + 5)] + Checked(c, check) + [Goto(Back(w + 10))]
  }

  function CountCode(c: seq<Instr>, check: bool, greedy: bool, k: nat): seq<Instr> {
    var w := Len(Checked(c, check));
    [PushI32(k), SplitExit(greedy, w + 5)] + Checked(c, check) + [Loop(Back(w + 10)), Drop]
  }

  function TimesCode(c: seq<Instr>, k: nat): seq<Instr> {
    [PushI32(k)] + c + [Loop(Back(Len(c) + 5)), Drop]
  }

  function PlusCode(c: seq<Instr>, greedy: bool): seq<Instr> {
    c + [SplitBack(greedy, Back(Len(c) + 5))]
  }

  function ResetCode(cc: nat, k: nat): seq<Instr> {
    if k == 0 then [] else [SaveReset(cc, cc + k - 1)]
  }

  function SimpleCode(c: seq<Instr>, min: nat, max: nat): seq<Instr>
    requires SimpleLen(c) > 0
  {
    [SimpleGreedyQuant(Len(c) + 1, min, max, SimpleLen(c))] + c + [MatchOp]
  }

  function FromZeroCode(c: seq<Instr>, check: bool, max: nat, greedy: bool): seq<Instr> {
    if max == 0 then []
    else if max == 1 then OptCode(c, check, greedy)
    else if max == INT32_MAX then StarCode(c, check, greedy)
    else CountCode(c, check, greedy, max)
  }

  function TailCode(c: seq<Instr>, check: bool, min: nat, max: nat, greedy: bool): seq<Instr> {
    if max == INT32_MAX then StarCode(c, check, greedy)
    else if max > min then CountCode(c, check, greedy, max - min)
    else []
  }

  function QuantCode(c: seq<Instr>, cc: nat, k: nat, min: nat, max: nat, greedy: bool): seq<Instr> {
    var check := NeedCheckAdvance(c, false);
    if greedy && max > 0 && SimpleLen(c) > 0 then SimpleCode(c, min, max)
    else if min == 0 then ResetCode(cc, k) + FromZeroCode(c, check, max, greedy)
    else if min == 1 && max == INT32_MAX && !check then PlusCode(c, greedy)
    else (if min == 1 then c else TimesCode(c, min)) + TailCode(c, check, min, max, greedy)
  }

  // ----- code of a pattern -----

  function AltCode(a: seq<Instr>, b: seq<Instr>): seq<Instr> {
    [SplitNextFirst(Len(a) + 5)] + a + [Goto(Len(b))] + b
  }

  function LookCode(neg: bool, b: seq<Instr>): seq<Instr> {
    [if neg then NegativeLookahead(Len(b) + 1) else Lookahead(Len(b) + 1)] + b + [MatchOp]
  }

  function CaptureCode(cc: nat, fwd: bool, b: seq<Instr>): seq<Instr> {
    [if fwd then SaveStart(cc) else SaveEnd(cc)] + b + [if fwd then SaveEnd(cc) else SaveStart(cc)]
  }

  function Code(r: Regex, cc: nat, fwd: bool): seq<Instr>
    requires WellFormed(r)
  {
    match r
    case Empty => []
    case Char(c) => Directed(CharCode(c), fwd)
    case Dot(all) => Directed(if all then AnyOp else DotOp, fwd)
    case Class(pts) => Directed(RangeCode(pts), fwd)
    case LineStart => [LineStartOp]
    case LineEnd => [LineEndOp]
    case WordBoundary(neg) => [if neg then NotWordBoundaryOp else WordBoundaryOp]
    case Cat(a, b) =>
      if fwd then Code(a, cc, fwd) + Code(b, cc + NCaps(a), fwd)
      else Code(b, cc + NCaps(a), fwd) + Code(a, cc, fwd)
    case Alt(a, b) => AltCode(Code(a, cc, fwd), Code(b, cc + NCaps(a), fwd))
    case Capture(b) => CaptureCode(cc, fwd, Code(b, cc + 1, fwd))
    case BackRef(n) => [if fwd then BackReference(n) else BackwardBackReference(n)]
    case Look(ahead, neg, b) => LookCode(neg, Code(b, cc, ahead))
    case Quant(a, min, max, greedy) => QuantCode(Code(a, cc, fwd), cc, NCaps(a), min, max, greedy)
  }

  /** The search loop put in front of a pattern that is not sticky. */
  const SEARCH: seq<Instr> := [SplitGotoFirst(6), AnyOp, Goto(-11)]

  /** A whole program, without the header. */
  function Program(r: Regex, sticky: bool): seq<Instr>
    requires WellFormed(r)
  {
    (if sticky then [] else SEARCH) + [SaveStart(0)] + Code(r, 1, true) + [SaveEnd(0), MatchOp]
  }
}
