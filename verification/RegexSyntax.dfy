/** Patterns of the regular-expression engine, after text parsing.

    Grouping is nesting: `(?:...)` has no node of its own, exactly as it emits no
    code. Capture groups are numbered by the order of their opening parenthesis,
    which the functions below thread through as `cc`, the parser's running
    `capture_count`. */
module RegexSyntax {
  import opened Common

  /** `quant_max == INT32_MAX` stands for "no upper bound", as in the parser. */
  const INT32_MAX: nat := 0x7FFF_FFFF

  datatype Regex =
    | Empty
    | Char(c: nat)
    | Dot(all: bool)
    | Class(points: seq<nat>)
    | LineStart
    | LineEnd
    | WordBoundary(negated: bool)
    | Cat(first: Regex, second: Regex)
    | Alt(left: Regex, right: Regex)
    | Capture(body: Regex)
    | BackRef(group: nat)
    | Look(ahead: bool, negative: bool, body: Regex)
    | Quant(atom: Regex, min: nat, max: nat, greedy: bool)

  /** The number of capture groups opened inside `r`. */
  function NCaps(r: Regex): nat {
    match r
    case Cat(a, b) => NCaps(a) + NCaps(b)
    case Alt(a, b) => NCaps(a) + NCaps(b)
    case Capture(b) => 1 + NCaps(b)
    case Look(_, _, b) => NCaps(b)
    case Quant(a, _, _, _) => NCaps(a)
    case _ => 0
  }

  /** Points of a character set: an even number of strictly increasing boundaries,
      the set being the union of the half-open intervals between them. */
  predicate SortedPoints(pts: seq<nat>) {
    && |pts| % 2 == 0
    && (forall i, j :: 0 <= i < j < |pts| ==> pts[i] < pts[j])
    && (forall i :: 0 <= i < |pts| ==> pts[i] <= UINT32_MAX)
  }

  predicate InSet(pts: seq<nat>, c: nat) {
    exists k :: 0 <= k < |pts| / 2 && pts[2 * k] <= c < pts[2 * k + 1]
  }

  /** What the parser guarantees of the patterns it hands to the emitter. */
  predicate WellFormed(r: Regex) {
    match r
    case Char(c) => c <= 0x10FFFF
    case Class(pts) => SortedPoints(pts) && |pts| / 2 < 65535
    case Cat(a, b) => WellFormed(a) && WellFormed(b)
    case Alt(a, b) => WellFormed(a) && WellFormed(b)
    case Capture(b) => WellFormed(b)
    case BackRef(n) => n < 255
    case Look(_, _, b) => WellFormed(b)
    case Quant(a, min, max, _) => WellFormed(a) && min <= max <= INT32_MAX
    case _ => true
  }

  predicate BackRefFree(r: Regex) {
    match r
    case Cat(a, b) => BackRefFree(a) && BackRefFree(b)
    case Alt(a, b) => BackRefFree(a) && BackRefFree(b)
    case Capture(b) => BackRefFree(b)
    case BackRef(_) => false
    case Look(_, _, b) => BackRefFree(b)
    case Quant(a, _, _, _) => BackRefFree(a)
    case _ => true
  }
}
