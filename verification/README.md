# Verification of the BeamJS native engine

A Dafny model of the algorithmic cores under `apps/beamjs_nif/c_src` of BeamJS, with proofs
of what they are for. `dafny verify dfyconfig.toml` checks the whole project.

Code that computes by updating buffers is modelled by classes, arrays and loops; each such
method is proved against a specification function, and the properties are proved about that
function. `Common` holds the types that several files share; the other files fall into six
groups.

**Regular expressions** (`Regex*.dfy`, from `libregexp.c`). A pattern is a tree
(`RegexSyntax`). `RegexMatcher` is the specification: a matcher that returns all results in
order of priority. `RegexCode` gives the instructions of a pattern, `RegexVm` a machine with
an explicit stack of saved states. `RegexYields`, `RegexPieces`, `RegexLoops`,
`RegexLoopPieces`, `RegexSimple`, `RegexQuantifiers` and `RegexCorrect` prove that running the
instructions explores exactly the matcher's results; `RegexSpans` and `RegexLaws` say what the
matcher finds without a matcher, by stretches of the subject and by other patterns; `RegexEcma`
and `RegexEcmaSpan` compare with ECMA-262; `RegexStack` and `RegexDiscipline` are about the value stack. `RegexBytes`,
`RegexEmitter` and `RegexParseState` are the byte code and the emitter that inserts, patches
and copies bytes; `RegexExec` is the interpreter over bytes, arrays and a state stack, and
`RegexEngine` puts compiler and interpreter together.

**Numbers** (`Dtoa*.dfy`, from `dtoa.c`). `DtoaArith`, `DtoaRound`, `DtoaDouble`, `DtoaScale`,
`DtoaTables` and `DtoaLog` are the mathematics: rounding, sticky bits, binary64 magnitudes counted
in units of 2^-1074, scaling by powers, and the tables for the radices 2 to 36 with what they are
for. `DtoaShortest`, `DtoaCloser`, `DtoaMinimal` and `DtoaPrint` describe printing, `DtoaScan`,
`DtoaNumeral`, `DtoaDigits`, `DtoaRead` and `DtoaAtod` reading. `DtoaLimbs`, `DtoaBits`,
`DtoaBig`, `DtoaConvert`, `DtoaReader` and `DtoaWriter` are the code on 32-bit limbs, ending in
`JsAtod`; `DtoaForms` is about prefixes and separators of numerals. `DtoaFixed` adds the fixed and
the fractional format and has `JsDtoa`, `DtoaLayout` says by the value when its texts have an
exponent, and `DtoaLength` compares what it writes with the bound that is computed beforehand.

**Sorting** (`Sort*.dfy`, from `cutils.h`; `quickjs/cutils.c` holds the same code).

**UTF-8 and UTF-16** (`Utf*.dfy`, from `cutils.h`; `UtfExtended` from `quickjs/cutils.c`).

**Unicode** (`Uni*.dfy`, from `libunicode.c` and `libunicode.h`; `UniTableGen` from
`quickjs/unicode_gen.c`): character sets, compressed tables and their generator, case folding of
sets, normalization. The tables are parameters, but for that of white space; what is asked of them
is stated by `UniTable.WellIndexed`, `UniCase.CaseTable` and `UniNormalize.Sound` (acyclic
decompositions, jamo undecomposed, composites that are starters and undo a decomposition, none
of them with a Hangul part).

**The reply slot** (`ReplySlot.dfy`, from `host_functions.c` and `beamjs_nif.c`): a host call
and its answer as interleaved atomic steps.

## Findings

Where a property does not hold of the code, the code is kept, and an input that fails is given
beside the condition under which it holds; the condition is exact unless said otherwise.

- `js_atod` adds a parsed exponent and a digit offset in `int`. When the sum leaves the range
  (in C this is undefined; the model wraps around) infinity can become zero.
  `DtoaAtod.AtodNumeral` gives the exact condition, `DtoaAtod.HugeExponentFails` and
  `DtoaAtod.HexExponentFails` two inputs. The second one has a `@` exponent, which reaches
  `js_atod` only through its own interface: `js_atof` passes it digits and, in radix 10, a
  decimal exponent. Numerals without a dot and an exponent are never concerned
  (`DtoaAtod.AtodInteger`).
- In radix 35 and 36 `Infinity` is a numeral, and `js_atod` takes it for infinity unless it reads
  integers only (`DtoaAtod.InfinityFails`; `DtoaAtod.InfinityRadix` shows that no other radix is
  concerned). From radix 24 on `NaN` is one too, so not-a-number is printed but not read back
  (`DtoaPrint.RoundTrip`).
- The free format looks for the least number of digits by trying the closest decimal of each
  length. For a power of two, whose lower neighbour is closer, that one can fail where the next
  one above would do, so 2^-44 is printed with seventeen digits instead of sixteen
  (`DtoaMinimal.SuperfluousDigit`); `Number::toString` of ECMA-262 asks for as few as possible.
  `DtoaMinimal.ShortestMinimal` gives the exact condition; no other numbers are concerned
  (`DtoaMinimal.MinimalUnlessPower`).
- `js_dtoa_max_len` is too small for two combinations that the engine does not use
  (`DtoaLength.OverlongTexts`); `DtoaLength.LengthBound` gives the exact condition,
  `DtoaLength.EngineLengths` what holds of all others.
- `compose_pair` accepts U+11A7 as a trailing consonant although it stands for none, so a
  syllable swallows it. `UniNormalize.ComposeCanonical` gives the exact condition,
  `UniNormalize.BareTIsLost` an input; normalizing is idempotent all the same
  (`UniNormalize.NormalizeIdempotent`).
- Captures inside a repeated group are cleared once before the loop, not in every iteration as
  section 22.2.2.3.1 of ECMA-262 asks. `RegexEcmaSpan.MatchAsInEcma262` shows that nothing changes
  when every back-reference refers to a group that is settled where it stands, a condition that
  can be read off the pattern; it is sufficient, not exact.
  `RegexEcmaSpan.BackRefSeesTheDifference` is a pattern outside of it that does match differently.
- A reply that no call asked for is returned by the next host call, from every state between
  calls (`ReplySlot.UnsolicitedReplyMisleads`).

## Model

| member | source | states |
|---|---|---|
| RegexCorrect.ProgramHalts | apps/beamjs_nif/c_src/quickjs-ng/libregexp.c:1799-1890 | Compiler correctness and termination: for every pattern (look-around and back-references included), every subject and start index, the machine halts on the emitted code, with the leftmost, highest-priority match of the recursive matcher, positions and captures included, or without a match when there is none |
| RegexCorrect.CodeDoes | apps/beamjs_nif/c_src/quickjs-ng/libregexp.c:1476-1748 | Wherever the code of a pattern lies in a program, the machine arrives at its end once for each result of the matcher, in the matcher's order, and then fails back into what was there before |
| RegexCorrect.SearchYields | apps/beamjs_nif/c_src/quickjs-ng/libregexp.c:1837-1848 | The search loop in front of a non-sticky pattern tries every start index from left to right |
| RegexSpans.MatchSpans | apps/beamjs_nif/c_src/quickjs-ng/libregexp.c:1476-1748 | For every pattern without back-references, in either direction of matching and whatever the captures hold, the matcher reaches exactly the ends of the stretches that the pattern matches, these being defined by quantifiers over positions and numbers of iterations |
| RegexLaws.FindSpans | apps/beamjs_nif/c_src/quickjs-ng/libregexp.c:2497-2534 | The search finds nothing if and only if no stretch of the subject matches, and otherwise one that begins at the first place where any does |
| RegexLaws.WordBoundaryLooks | apps/beamjs_nif/c_src/quickjs-ng/libregexp.c:2296-2317 | The word boundary holds exactly where one of a look-behind and a look-ahead for a word character succeeds and the other fails; its negation elsewhere |
| RegexLaws.LineStartLooks | apps/beamjs_nif/c_src/quickjs-ng/libregexp.c:2220-2228 | The start of a line is where no character stands before, or in multiline mode a line terminator does, by look-behinds |
| RegexLaws.LineEndLooks | apps/beamjs_nif/c_src/quickjs-ng/libregexp.c:2229-2237 | The end of a line is where no character follows, or in multiline mode a line terminator does, by look-aheads |
| RegexLaws.DotLooks | apps/beamjs_nif/c_src/quickjs-ng/libregexp.c:2238-2249 | The dot matches what the dot for all characters does, unless a look-around sees a line terminator |
| RegexLaws.CaptureEnds | apps/beamjs_nif/c_src/quickjs-ng/libregexp.c:2250-2256 | A group records the lesser and the greater end of what it matched, in either direction |
| RegexLaws.BackRefLiteral | apps/beamjs_nif/c_src/quickjs-ng/libregexp.c:2318-2360 | A back-reference has the results of the pattern that spells out the captured text, the empty one if the group is unset |
| RegexLaws.QuantForgets | apps/beamjs_nif/c_src/quickjs-ng/libregexp.c:1582-1588 | What the groups inside a quantifier with minimum zero held before makes no difference, and its empty match leaves them unset |
| RegexLaws.LeftFirst | apps/beamjs_nif/c_src/quickjs-ng/libregexp.c:1715-1748 | The first result of an alternative is that of its left side, if there is one |
| RegexLaws.GreedyLongestFirst | apps/beamjs_nif/c_src/quickjs-ng/libregexp.c:1569-1574 | Around an atom with at most one result, a greedy quantifier tries longer repetitions before shorter ones, a lazy one the other way round |
| RegexLaws.CharsOneWay | apps/beamjs_nif/c_src/quickjs-ng/libregexp.c:1569-1574 | Characters, classes and the dot are such atoms |
| RegexQuantifiers.QuantDoes | apps/beamjs_nif/c_src/quickjs-ng/libregexp.c:1537-1664 | Whatever shape is chosen for a quantifier (fast path, optional, star, plus, counted loops, copied atom, no code at all), its code yields what the repetition matches |
| RegexQuantifiers.RepZero | apps/beamjs_nif/c_src/quickjs-ng/libregexp.c:1569-1574 | A repetition with minimum zero: one more iteration that moved, or the exit, in the order of greedy or lazy |
| RegexAdvance.ClearedAtomMoves | apps/beamjs_nif/c_src/quickjs-ng/libregexp.c:938-994 | When the check is answered "not needed", every result of the atom is at another position |
| RegexSimple.StraightMatch | apps/beamjs_nif/c_src/quickjs-ng/libregexp.c:996-1036 | An atom that counts as simple has at most one result, the one its straight-line code computes |
| RegexSimple.AttemptsAre | apps/beamjs_nif/c_src/quickjs-ng/libregexp.c:2445-2475 | The attempts of the fast path count how often the atom matches in a row, and these are the repetitions the general loop would have |
| RegexSimple.RetreatYields | apps/beamjs_nif/c_src/quickjs-ng/libregexp.c:2124-2146 | Failing back into the fast path steps back the fixed number of characters and visits q-1, ..., min repetitions in this order |
| RegexSimple.SimpleYields | apps/beamjs_nif/c_src/quickjs-ng/libregexp.c:2445-2487 | The fast path yields the same continuations in the same order as the general greedy loop |
| RegexRange.ClassTest | apps/beamjs_nif/c_src/quickjs-ng/libregexp.c:784-820 | The 16-bit or 32-bit range instruction, with 0xffff for infinity, accepts a character exactly when it is in the set |
| RegexRange.SearchFinds | apps/beamjs_nif/c_src/quickjs-ng/libregexp.c:2386-2396 | The binary search finds the interval of a character whenever there is one |
| RegexRange.SearchFound | apps/beamjs_nif/c_src/quickjs-ng/libregexp.c:2386-2396 | The binary search only answers for an interval that holds the character |
| RegexPieces.SplitYields | apps/beamjs_nif/c_src/quickjs-ng/libregexp.c:2183-2201 | A split gives all results of the first branch, then, with position, captures and stack restored, those of the second |
| RegexPieces.LookVerdict | apps/beamjs_nif/c_src/quickjs-ng/libregexp.c:2147-2156 | The body of a look-around runs to one verdict: its first result, its inner choice points discarded, or failure |
| RegexPieces.LookLeave | apps/beamjs_nif/c_src/quickjs-ng/libregexp.c:2202-2213 | A positive look-around keeps the captures of its first result and restores the position; a negative one restores everything and succeeds on failure |
| RegexPieces.Discard | apps/beamjs_nif/c_src/quickjs-ng/libregexp.c:2102-2123 | A success unwinds past all choice points left inside, whatever they are |
| RegexLoopPieces.CheckedDoes | apps/beamjs_nif/c_src/quickjs-ng/libregexp.c:2289-2295 | With the position check, or without it around an atom that always moves, one iteration gives exactly the results that moved |
| RegexLoopPieces.CountYields | apps/beamjs_nif/c_src/quickjs-ng/libregexp.c:2280-2288 | A counted loop gives the results of at most that many iterations and removes its counter |
| RegexVm.HaltsOnce | apps/beamjs_nif/c_src/quickjs-ng/libregexp.c:2074-2492 | The machine has one outcome at most |
| RegexEcma.RunsAgree | apps/beamjs_nif/c_src/quickjs-ng/libregexp.c:1580-1588 | When every back-reference refers to a group that is settled where it stands (captured, on every way there, since the last clearing of an enclosing loop), the two ways of clearing captures give the same results in the same order, with the same settled captures |
| RegexEcma.SettledKeeps | apps/beamjs_nif/c_src/quickjs-ng/libregexp.c:1580-1588 | A pattern unsettles no captures but those of the groups opened inside it |
| RegexEcma.OwnGroupsOnly | apps/beamjs_nif/c_src/quickjs-ng/libregexp.c:1580-1588 | A pattern changes no capture group but those opened inside it |
| RegexEcmaSpan.MatchAsInEcma262 | apps/beamjs_nif/c_src/quickjs-ng/libregexp.c:1582-1588 | For every pattern whose back-references refer to settled groups, clearing captures once before the loop gives the same success, start, end and settled captures as clearing them in every iteration (section 22.2.2.3.1 of ECMA-262) |
| RegexEcmaSpan.SpanAsInEcma262 | apps/beamjs_nif/c_src/quickjs-ng/libregexp.c:1582-1588 | For every pattern without back-references the span of the match is always the standard's |
| RegexEcmaSpan.BackRefSeesTheDifference | apps/beamjs_nif/c_src/quickjs-ng/libregexp.c:1582-1588 | Where a back-reference refers to an unsettled group it does not: a repeated alternative of a group with `a` and of `b`, then a back-reference to the group, matches the empty string of "ab" here and all of it by the standard |
| RegexStack.CodeBalanced | apps/beamjs_nif/c_src/quickjs-ng/libregexp.c:1577-1664 | The code of every pattern leaves the value stack as it found it, jumps only between points of equal depth, and finds the entries it uses |
| RegexStack.RecordedSizeSuffices | apps/beamjs_nif/c_src/quickjs-ng/libregexp.c:1751-1793 | No point of the program is deeper than the size that the linear scan records |
| RegexStack.StackSizeExact | apps/beamjs_nif/c_src/quickjs-ng/libregexp.c:1751-1793 | The recorded size is the greatest depth of the code, and there is none exactly if the code is deeper than 255 somewhere |
| RegexDiscipline.CompiledStackDiscipline | apps/beamjs_nif/c_src/quickjs-ng/libregexp.c:2272-2295 | In every state of every run, saved states included, the stack depth is the one the linear scan gives that address; it never misses an entry and never exceeds the recorded size |
| RegexBytes.FetchEncode | apps/beamjs_nif/c_src/quickjs-ng/libregexp.c:1799-1890 | Decoding the bytes of an instruction gives the instruction back, 32-bit operands and signed offsets included |
| RegexBytes.ProgramDecodes | apps/beamjs_nif/c_src/quickjs-ng/libregexp.c:1799-1890 | The bytes of a compiled program decode, at every address, to that program and to nothing else |
| RegexEmitter.ReNeedCheckAdvance | apps/beamjs_nif/c_src/quickjs-ng/libregexp.c:942-994 | The byte-level loop gives the answer that is proved to be safe on instructions |
| RegexEmitter.ReIsSimpleQuantifier | apps/beamjs_nif/c_src/quickjs-ng/libregexp.c:998-1036 | The byte-level loop returns the character count of a straight-line atom, or -1 |
| RegexParseState.REParseState.Insert | apps/beamjs_nif/c_src/quickjs-ng/libregexp.c:121-128 | Inserting moves the bytes behind the gap and keeps all others |
| RegexParseState.REParseState.EmitRange | apps/beamjs_nif/c_src/quickjs-ng/libregexp.c:784-820 | Appends the range instruction of the set, and fails exactly on 65535 intervals or more |
| RegexParseState.REParseState.EmitQuantifier | apps/beamjs_nif/c_src/quickjs-ng/libregexp.c:1537-1664 | Insertions, patches and copies around the atom leave exactly the bytes of the quantifier's code behind what was there |
| RegexParseState.REParseState.Emit | apps/beamjs_nif/c_src/quickjs-ng/libregexp.c:1476-1748 | The one-pass emitter fails exactly on oversized classes or too many groups, and otherwise leaves the bytes of the pattern's code and the group count |
| RegexParseState.REParseState.ComputeStack | apps/beamjs_nif/c_src/quickjs-ng/libregexp.c:1751-1793 | The scan over the bytes computes the greatest depth of the program's instructions, or -1 beyond 255 |
| RegexParseState.REParseState.Compile | apps/beamjs_nif/c_src/quickjs-ng/libregexp.c:1799-1890 | `lre_compile`: fails exactly on too many intervals, groups or stack entries; otherwise the bytes of the whole program, its group count and stack size |
| RegexExec.REExecContext.InRange16 | apps/beamjs_nif/c_src/quickjs-ng/libregexp.c:2362-2400 | The 16-bit binary search over the bytes gives the answer of the range test |
| RegexExec.REExecContext.InRange32 | apps/beamjs_nif/c_src/quickjs-ng/libregexp.c:2402-2437 | The 32-bit binary search over the bytes gives the answer of the range test |
| RegexExec.REExecContext.ExecNoRecurse | apps/beamjs_nif/c_src/quickjs-ng/libregexp.c:2093-2101 | The nested run of a simple atom has the outcome of its straight-line code |
| RegexExec.REExecContext.PushState | apps/beamjs_nif/c_src/quickjs-ng/libregexp.c:2025-2061 | A saved state holds captures, stack and position as they are now |
| RegexExec.REExecContext.Execute | apps/beamjs_nif/c_src/quickjs-ng/libregexp.c:2087-2491 | One turn of the interpreter loop on the byte code brings the run one step closer to its outcome |
| RegexExec.REExecContext.Unwind | apps/beamjs_nif/c_src/quickjs-ng/libregexp.c:2102-2160 | The unwinding loop resumes the newest saved state that can go on, or ends with the outcome of the run |
| RegexExec.REExecContext.ExecBacktrack | apps/beamjs_nif/c_src/quickjs-ng/libregexp.c:2074-2492 | `lre_exec_backtrack` returns, with the outcome and the captures of the machine's run |
| RegexExec.CompiledRunAhead | apps/beamjs_nif/c_src/quickjs-ng/libregexp.c:2497-2534 | The run of a compiled program is finite and stays within the stack size of its header |
| RegexExec.LreExec | apps/beamjs_nif/c_src/quickjs-ng/libregexp.c:2497-2534 | `lre_exec` on the bytes of a pattern terminates and returns the match and captures that the recursive matcher prefers |
| RegexEngine.CompileAndExec | apps/beamjs_nif/c_src/quickjs-ng/libregexp.c:1799-1890 | Compiling and executing, end to end: an error exactly on classes of 65535 intervals or more, 255 groups or more, or code deeper than 255; otherwise the preferred match of the recursive matcher, which without back-references is a matching stretch at the first possible place, and none only if there is none |
| DtoaLimbs.MpAddUi | apps/beamjs_nif/c_src/quickjs-ng/dtoa.c:74-88 | Adding a limb in place: value and carry are exact, found by comparing wrapped sums |
| DtoaLimbs.MpMul1 | apps/beamjs_nif/c_src/quickjs-ng/dtoa.c:91-103 | Multiplying in place by a limb with carry-in: value and high limb are exact |
| DtoaLimbs.Udiv1NormInit | apps/beamjs_nif/c_src/quickjs-ng/dtoa.c:106-112 | The reciprocal of a normalized divisor is floor((2^64 - 1) / d) - 2^32 |
| DtoaLimbs.Udiv1Norm | apps/beamjs_nif/c_src/quickjs-ng/dtoa.c:116-134 | Division by multiplication with the reciprocal: exact quotient and remainder for every normalized divisor and every a1 < d, all sums taken modulo 2^32 and 2^64 |
| DtoaLimbs.MpDiv1 | apps/beamjs_nif/c_src/quickjs-ng/dtoa.c:136-147 | Long division in place by a limb: exact quotient and remainder |
| DtoaLimbs.MpShr | apps/beamjs_nif/c_src/quickjs-ng/dtoa.c:151-165 | Right shift in place: exact quotient and remainder, with a high part shifted in |
| DtoaLimbs.MpShl | apps/beamjs_nif/c_src/quickjs-ng/dtoa.c:169-183 | Left shift in place: exact, with the bits moved out returned |
| DtoaLimbs.MpDiv1Norm | apps/beamjs_nif/c_src/quickjs-ng/dtoa.c:185-198 | Division of a number of any length by a shifted normalized divisor: exact quotient and remainder, the shift and its undoing included |
| DtoaRound.RoundDivNearest | apps/beamjs_nif/c_src/quickjs-ng/dtoa.c:312-397 | What the shift is proved to compute (`ShrRounded` returns this rounding) is rounding to nearest: no integer is nearer, and of two equally near ones the even, or the greater one, is taken |
| DtoaRound.StickyRound | apps/beamjs_nif/c_src/quickjs-ng/dtoa.c:892-955 | The OR-ed remainder is a correct sticky bit: a quotient with it, rounded off by a multiple of four, is rounded like the exact fraction, in each mode (that two bits are always dropped is `OffsetAbove`) |
| DtoaScale.StickyShift | apps/beamjs_nif/c_src/quickjs-ng/dtoa.c:892-966 | A sticky quotient, shifted so that at least two bits are dropped, rounds the whole fraction, in each mode |
| DtoaConvert.OffsetAbove | apps/beamjs_nif/c_src/quickjs-ng/dtoa.c:919-932 | Dividing by a power adds enough bits that at least two of them are dropped, whatever the exponents |
| DtoaBig.Mpb.Renorm | apps/beamjs_nif/c_src/quickjs-ng/dtoa.c:213-217 | Leading zero limbs are dropped and nothing else |
| DtoaBig.Mpb.ShrRounded | apps/beamjs_nif/c_src/quickjs-ng/dtoa.c:312-397 | The shift with its three rounding modes, in place over limbs, is the rounded division by the power of two, or the exact product |
| DtoaBig.Mpb.Log2 | apps/beamjs_nif/c_src/quickjs-ng/dtoa.c:447-455 | The position of the highest set bit, -1 for zero |
| DtoaBig.Mpb.Mul1Base | apps/beamjs_nif/c_src/quickjs-ng/dtoa.c:1332-1350 | `r * base + a`, where a base of zero stands for 2^32 |
| DtoaScale.MulPowRound | apps/beamjs_nif/c_src/quickjs-ng/dtoa.c:892-966 | Scaling by radix^f and one shift give round(m * 2^e * radix^f), rounded once, for every sign of e and f and each mode |
| DtoaConvert.PowUi | apps/beamjs_nif/c_src/quickjs-ng/dtoa.c:241-268 | The loop computes the power |
| DtoaConvert.PowUiInv | apps/beamjs_nif/c_src/quickjs-ng/dtoa.c:270-291 | A normalized power with its shift and its reciprocal |
| DtoaConvert.MulPowBig | apps/beamjs_nif/c_src/quickjs-ng/dtoa.c:892-955 | The limb version, multiplying or dividing by one limb-sized power at a time and collecting the sticky bit, computes the scaled number whenever there is room for the product |
| DtoaConvert.MulPowRoundBig | apps/beamjs_nif/c_src/quickjs-ng/dtoa.c:958-966 | The limb version computes the rounded scaled number |
| DtoaConvert.RoundToDBig | apps/beamjs_nif/c_src/quickjs-ng/dtoa.c:969-1000 | The limb version computes significand and exponent of the number rounded to binary64 |
| DtoaDouble.RoundBitsNearest | apps/beamjs_nif/c_src/quickjs-ng/dtoa.c:969-1000 | Rounding to 53 bits, or to the least unit, gives the nearest binary64 magnitude, ties to even (section 4.3.1 of IEEE 754-2019), subnormals, underflow and overflow included |
| DtoaDouble.NearestUnique | apps/beamjs_nif/c_src/quickjs-ng/dtoa.c:969-1000 | There is one nearest magnitude only |
| DtoaDouble.Binary64 | apps/beamjs_nif/c_src/quickjs-ng/dtoa.c:1114-1160 | The magnitudes are those of IEEE 754: exponent field with bias 1023, 52 bits of fraction, subnormal numbers in units of 2^-1074 |
| DtoaScale.RoundToDNearest | apps/beamjs_nif/c_src/quickjs-ng/dtoa.c:969-1012 | `round_to_d` on a sticky quotient of at least 56 bits, followed by the packing of `js_atod`, rounds the fraction it stands for correctly |
| DtoaTables.LogBounds | apps/beamjs_nif/c_src/quickjs-ng/dtoa.c:460-470 | For every radix that is no power of two, the table entry lies between two fractions that bound the logarithm from both sides |
| DtoaTables.LimbPower | apps/beamjs_nif/c_src/quickjs-ng/dtoa.c:701-719 | The base of a limb is the greatest power of the radix that is at most 2^32, zero standing for 2^32 itself |
| DtoaLog.TableExact | apps/beamjs_nif/c_src/quickjs-ng/dtoa.c:701-806 | Every entry of every column is what the generator of the tables computes: the digits of a limb and the digits kept on reading are the most that fit in 32 bits and in 128 bits (64 for a power of two), the printed digits are one more than 53 bits need, and the exponent limits are the least ones beyond 2^1024 and 2^-1075 |
| DtoaLog.MulLog2RadixExact | apps/beamjs_nif/c_src/quickjs-ng/dtoa.c:472-487 | On the whole stated range, -2048 to 2047, the table constant gives floor(a / log2(radix)) exactly, for every radix |
| DtoaLog.RadixLimits | apps/beamjs_nif/c_src/quickjs-ng/dtoa.c:734-751 | For every radix that is no power of two, the greatest and the least exponent of the tables are beyond 2^1024 and 2^-1075 |
| DtoaLog.DigitLimits | apps/beamjs_nif/c_src/quickjs-ng/dtoa.c:722-734 | The digits that are kept on reading fit 128 bits; those that are printed hold more than 53 bits and fit 63 |
| DtoaRead.ConvertTableExactly | apps/beamjs_nif/c_src/quickjs-ng/dtoa.c:1581-1606 | A radix that is no power of two is converted correctly if and only if the exponent above the first digit fits an int; otherwise infinity becomes zero or zero infinity |
| DtoaRead.ConvertBinNearest | apps/beamjs_nif/c_src/quickjs-ng/dtoa.c:1571-1580 | In a power-of-two radix the kept digits with their sticky bit are rounded correctly at the exponent that was computed, right or wrapped |
| DtoaAtod.AtodNumeral | apps/beamjs_nif/c_src/quickjs-ng/dtoa.c:1353-1619 | `js_atod` reads the whole text of every numeral of every radix, in both modes, with the right sign, and its magnitude is the correctly rounded one if and only if the numeral is zero, the exponent above its first significant digit fits an int (or is given up as huge), or the digits at the wrapped exponent are on the same side; digits past those that are kept count as zeros, and a text that looks like `Infinity` (radix 35 or 36 only) is infinite |
| DtoaAtod.AtodNearest | apps/beamjs_nif/c_src/quickjs-ng/dtoa.c:1353-1619 | The result is the nearest binary64 number, ties to even, exactly under that condition |
| DtoaAtod.AtodInteger | apps/beamjs_nif/c_src/quickjs-ng/dtoa.c:1353-1619 | A numeral without a dot and an exponent is always read as the nearest binary64 number, in both modes and every radix, unless it looks like `Infinity` |
| DtoaAtod.ExactKept | apps/beamjs_nif/c_src/quickjs-ng/dtoa.c:1460-1495 | Where only zeros are dropped, the numeral is read as it is written |
| DtoaAtod.InfinityRadix | apps/beamjs_nif/c_src/quickjs-ng/dtoa.c:1413-1417 | Only in the radices 35 and 36 does a numeral look like `Infinity` |
| DtoaAtod.WrappedSide | apps/beamjs_nif/c_src/quickjs-ng/dtoa.c:1571-1580 | After a wrap-around in a power-of-two radix the result is still infinity, or still zero, if and only if the digits at the wrapped exponent are at or above the midpoint to 2^1024, or at or below half of the least unit |
| DtoaDouble.RoundsToInfinity | apps/beamjs_nif/c_src/quickjs-ng/dtoa.c:969-1000 | A fraction is rounded to infinity if and only if it is at least the midpoint between the greatest finite number and 2^1024 |
| DtoaDouble.RoundsToZero | apps/beamjs_nif/c_src/quickjs-ng/dtoa.c:969-1000 | A fraction is rounded to zero if and only if it is at most half of the least unit |
| DtoaAtod.HugeExponentFails | apps/beamjs_nif/c_src/quickjs-ng/dtoa.c:1581-1588 | `12345678901e2147483639` is read as zero instead of infinity |
| DtoaAtod.HexExponentFails | apps/beamjs_nif/c_src/quickjs-ng/dtoa.c:1571-1580 | `1@2147483639` in radix 16 is not read as infinity |
| DtoaAtod.InfinityFails | apps/beamjs_nif/c_src/quickjs-ng/dtoa.c:1413-1417 | `Infinity` in radix 36 is a finite number and is read as infinity |
| DtoaAtod.FewDigitsExact | apps/beamjs_nif/c_src/quickjs-ng/dtoa.c:726-751 | Up to the number of digits of the table (38 in radix 10) nothing is dropped |
| DtoaAtod.DecimalNearest | apps/beamjs_nif/c_src/quickjs-ng/dtoa.c:726-751 | A decimal numeral of up to 38 significant digits is read as the binary64 number nearest to it as it stands, if its exponent fits an int |
| DtoaReader.JsAtod | apps/beamjs_nif/c_src/quickjs-ng/dtoa.c:1353-1619 | The imperative reader, with limbs in place, returns exactly what the transcription specifies on every string, in every radix or with the radix taken from a prefix; fifty-two limbs suffice |
| DtoaForms.DigitsAre | apps/beamjs_nif/c_src/quickjs-ng/dtoa.c:1319-1330 | The 36 digits, read in either case and printed in lower case |
| DtoaForms.NoOtherDigit | apps/beamjs_nif/c_src/quickjs-ng/dtoa.c:1319-1330 | Nothing but these is a digit |
| DtoaForms.PrefixRead | apps/beamjs_nif/c_src/quickjs-ng/dtoa.c:1383-1412 | Behind 0x, 0o or 0b, where accepted, the rest is read as without the prefix in that radix, whatever it is; without a digit there the result is not-a-number |
| DtoaForms.LegacyOctal | apps/beamjs_nif/c_src/quickjs-ng/dtoa.c:1393-1402 | After a zero, digits below 8 are read in radix 8, but in radix 10 if 8 or 9 follows them, and without separators |
| DtoaForms.PlainRadix | apps/beamjs_nif/c_src/quickjs-ng/dtoa.c:1383-1419 | Without any of these prefixes, no radix means radix 10 |
| DtoaForms.SeparatorIgnored | apps/beamjs_nif/c_src/quickjs-ng/dtoa.c:1444-1475 | A separator between two digits, of the number or of its exponent, changes nothing but the length of what is read |
| DtoaForms.TrailingIgnored | apps/beamjs_nif/c_src/quickjs-ng/dtoa.c:1353-1619 | Whatever follows a numeral and goes on with neither its digits nor its exponent is left alone |
| DtoaForms.MarkNeedsDigit | apps/beamjs_nif/c_src/quickjs-ng/dtoa.c:1520-1533 | A numeral with the mark of an exponent, but no digit behind it, is not-a-number |
| DtoaShortest.AttemptFull | apps/beamjs_nif/c_src/quickjs-ng/dtoa.c:1194-1207 | One correction of the exponent is enough, in every radix and both rounding modes: the mantissa then has exactly P digits |
| DtoaShortest.MaxDigitsNearest | apps/beamjs_nif/c_src/quickjs-ng/dtoa.c:1186-1215 | The first attempt needs no check: in every radix every binary64 number is nearest to its digits of the table's number |
| DtoaShortest.StripValue | apps/beamjs_nif/c_src/quickjs-ng/dtoa.c:1208-1211 | Removing trailing zeros keeps the value |
| DtoaShortest.ReadsBackNearest | apps/beamjs_nif/c_src/quickjs-ng/dtoa.c:1216-1228 | The check is sound: digits that convert back to the same significand and exponent have the number as their nearest one |
| DtoaShortest.ShortestNearest | apps/beamjs_nif/c_src/quickjs-ng/dtoa.c:1183-1235 | Whatever the digit-reduction loop ends with, the number is the nearest one to it |
| DtoaMinimal.RoundToDNormal | apps/beamjs_nif/c_src/quickjs-ng/dtoa.c:969-1000 | The significand and exponent that rounding leaves are the normalized ones of the number, subnormals and carries included |
| DtoaMinimal.StripReads | apps/beamjs_nif/c_src/quickjs-ng/dtoa.c:1216-1228 | The check is exact: digits are read back as the same significand and exponent if and only if the number is nearest to them |
| DtoaMinimal.CloserFits | apps/beamjs_nif/c_src/quickjs-ng/dtoa.c:1183-1235 | A decimal no farther from a number than one that is rounded to it is rounded to it as well, unless it lies on the side of a closer neighbour |
| DtoaMinimal.PrintedReads | apps/beamjs_nif/c_src/quickjs-ng/dtoa.c:1192-1235 | From the printed length up to the greatest one, the closest decimal of every length is read back: the loop skips none that is not |
| DtoaMinimal.ShortestMinimal | apps/beamjs_nif/c_src/quickjs-ng/dtoa.c:1183-1235 | The loop finds the least number of digits, for every number in every radix, if and only if for no length below the greatest the closest decimal is below the lower midpoint while the next one above it is not past the upper one; always, if both neighbours of the number are equally far |
| DtoaMinimal.MinimalUnlessPower | apps/beamjs_nif/c_src/quickjs-ng/dtoa.c:1183-1235 | The least number of digits is found for every number but the powers of two above the subnormals |
| DtoaMinimal.SuperfluousDigit | apps/beamjs_nif/c_src/quickjs-ng/dtoa.c:1183-1235 | 2^-44 is printed with the digits 56843418860808015, although it is nearest to 5.684341886080802e-14 |
| DtoaPrint.LayoutWellFormed | apps/beamjs_nif/c_src/quickjs-ng/dtoa.c:1281-1312 | Each of the three layouts is a numeral |
| DtoaPrint.LayoutText | apps/beamjs_nif/c_src/quickjs-ng/dtoa.c:1281-1312 | The text that is written is the text of that numeral |
| DtoaPrint.LayoutDigits | apps/beamjs_nif/c_src/quickjs-ng/dtoa.c:1281-1312 | The digits and the last exponent of each layout are those of the decimal, padded with zeros |
| DtoaPrint.LayoutValue | apps/beamjs_nif/c_src/quickjs-ng/dtoa.c:1281-1312 | Each of the three layouts has the value of the decimal, the exponents in bits included |
| DtoaPrint.RoundTrip | apps/beamjs_nif/c_src/quickjs-ng/dtoa.c:1107-1317 | Print and parse: every binary64 value, infinities and subnormals included, printed in the free format of any radix in any exponent mode is read back whole as the same value, only the sign of a zero depending on the flag; in integer-only mode so is every text without a dot and an exponent, and no other text is read to its end; not-a-number is read back up to radix 23 |
| DtoaLayout.FastPath | apps/beamjs_nif/c_src/quickjs-ng/dtoa.c:1166-1178 | The fast path for integers below 2^53 prints the text that the digit loop and the layout would give, in every radix |
| DtoaLayout.FiniteShape | apps/beamjs_nif/c_src/quickjs-ng/dtoa.c:1278-1312 | Every finite number but zero is printed, in the free and in the fixed format, as a numeral with exactly the value of its decimal: with an exponent, one digit before the dot and the sign of the exponent after its mark; without, the digits of the integer part before the dot and all others after it |
| DtoaLayout.ExponentExactly | apps/beamjs_nif/c_src/quickjs-ng/dtoa.c:1278-1284 | The mark of an exponent stands in the text of any value, radix, format and exponent mode if and only if it is forced, or in automatic mode the printed value is below radix^-6 or at least radix^n for n fixed digits, radix^(n + 4) for the n digits of the free format |
| DtoaLayout.DecimalExponent | apps/beamjs_nif/c_src/quickjs-ng/dtoa.c:1278-1284 | In radix 10 the letter e stands in the text if and only if the printed value is below 10^-6 or at least 10^21, as `Number::toString` asks; not-a-number is printed as NaN |
| DtoaWriter.LimbToA | apps/beamjs_nif/c_src/quickjs-ng/dtoa.c:531-587 | A given number of digits, written from the last to the first, in every radix |
| DtoaWriter.U32ToA | apps/beamjs_nif/c_src/quickjs-ng/dtoa.c:589-602 | All digits of a number |
| DtoaWriter.U64ToA | apps/beamjs_nif/c_src/quickjs-ng/dtoa.c:615-644 | The digits of a 64-bit number, in pieces of nine |
| DtoaWriter.U64ToARadix | apps/beamjs_nif/c_src/quickjs-ng/dtoa.c:657-688 | The digits of a 64-bit number in every radix, their number taken from the bits in a power-of-two radix |
| DtoaWriter.OutputDigitsBig | apps/beamjs_nif/c_src/quickjs-ng/dtoa.c:846-888 | The digits of a number of any size in every radix, from the last to the first, a limb's worth per division or per shift, with the dot in its place |
| DtoaWriter.ShortestBig | apps/beamjs_nif/c_src/quickjs-ng/dtoa.c:1183-1235 | The loop over limbs ends with the digits that the specification gives |
| DtoaFixed.FracExact | apps/beamjs_nif/c_src/quickjs-ng/dtoa.c:1241-1257 | The fractional format, its extra leading digit removed where it is not needed, is the text of the number of units of radix^-n nearest to the exact value, the greater of two, without superfluous digits, in every radix |
| DtoaFixed.FracNumeral | apps/beamjs_nif/c_src/quickjs-ng/dtoa.c:1241-1257 | That text is a numeral of exactly that many units |
| DtoaFixed.ZeroFrac | apps/beamjs_nif/c_src/quickjs-ng/dtoa.c:1138-1154 | Zero has the fractional format too, with the exponent zero after it if one is forced |
| DtoaFixed.FixedExact | apps/beamjs_nif/c_src/quickjs-ng/dtoa.c:1258-1276 | The fixed format has all of its digits, the first of them not zero, and is the exact value rounded once at its last place, in every radix; no decimal with as many digits is closer, as ECMA-262 asks of `toPrecision` and `toExponential` |
| DtoaCloser.AttemptNearest | apps/beamjs_nif/c_src/quickjs-ng/dtoa.c:1194-1207 | What rounding to P digits, with at most one correction of the exponent, gives is the best there is: no decimal with as many digits is closer to the exact value, in every radix and both rounding modes |
| DtoaFixed.FixedNumeral | apps/beamjs_nif/c_src/quickjs-ng/dtoa.c:1258-1312 | The text of the fixed format is a numeral with exactly the value of those digits |
| DtoaFixed.MpbCmp | apps/beamjs_nif/c_src/quickjs-ng/dtoa.c:400-416 | Comparing from the highest limb down orders the numbers |
| DtoaFixed.FixedBig | apps/beamjs_nif/c_src/quickjs-ng/dtoa.c:1258-1276 | The loop over limbs, against a power of the radix in limbs of its own, ends with the digits that the specification gives |
| DtoaFixed.FreeIsDtoa | apps/beamjs_nif/c_src/quickjs-ng/dtoa.c:1107-1317 | What the printer writes in the free format is what the round trip is about |
| DtoaFixed.JsDtoa | apps/beamjs_nif/c_src/quickjs-ng/dtoa.c:1107-1317 | The imperative printer returns exactly the specified text, for every value, radix, format and exponent mode; fifty-two and eighteen limbs suffice |
| DtoaLength.SubnormalPlaces | apps/beamjs_nif/c_src/quickjs-ng/dtoa.c:1183-1235 | The last printed digit of a subnormal number is no farther behind the point than the bound on the length allows for |
| DtoaLength.FracBufferLength | apps/beamjs_nif/c_src/quickjs-ng/dtoa.c:1031-1074 | The fractional format keeps to the bound of `js_dtoa_max_len` even before its extra leading digit is removed |
| DtoaLength.LengthBound | apps/beamjs_nif/c_src/quickjs-ng/dtoa.c:1028-1074 | The text of every value, radix, format and exponent mode is no longer than `js_dtoa_max_len` says if and only if it is none of two combinations: a zero with fractional digits and a forced exponent, or a subnormal number, below a certain size, with fixed digits and without an exponent |
| DtoaLength.EngineLengths | apps/beamjs_nif/c_src/quickjs-ng/dtoa.c:1028-1074 | In the combinations of format and exponent mode that the engine uses, the bound always holds |
| DtoaLength.OverlongTexts | apps/beamjs_nif/c_src/quickjs-ng/dtoa.c:1028-1074 | Zero with five fractional digits and an exponent, and the least positive number with one digit and without an exponent, are longer than the bound |
| SortPartition.Med3 | apps/beamjs_nif/c_src/quickjs-ng/cutils.h:1413-1418 | The position of a median of three elements |
| SortHeap.HeapSortX | apps/beamjs_nif/c_src/quickjs-ng/cutils.h:1379-1411 | The fallback sorts its stretch, a permutation of it, and touches nothing else |
| SortPartition.Partition | apps/beamjs_nif/c_src/quickjs-ng/cutils.h:1430-1500 | Scanning and block swaps leave smaller, equal and greater elements in three zones, a permutation of the stretch |
| SortQuick.DepthBound | apps/beamjs_nif/c_src/quickjs-ng/cutils.h:1421-1440 | Depths that grow from 1 and stay at most 50 leave room for fifty entries |
| SortQuick.SortSegment | apps/beamjs_nif/c_src/quickjs-ng/cutils.h:1432-1530 | One entry of the stack is sorted but for the larger pieces, which are stacked with greater depths |
| SortQuick.RqSort | apps/beamjs_nif/c_src/quickjs-ng/cutils.h:1421-1538 | For every total preorder the array ends up sorted and a permutation of its input; the stack of fifty entries never overflows |
| UtfCodec.Utf8IsForm | apps/beamjs_nif/c_src/quickjs-ng/cutils.h:884-933 | The bytes written are the shortest form of the code point, of the announced length; a word that is no code point becomes U+FFFD |
| UtfCodec.FormTable | apps/beamjs_nif/c_src/quickjs-ng/cutils.h:884-933 | The bits of every code point in the bytes of its form, as in table 3-6 of the Unicode Standard |
| UtfCodec.FormUnique | apps/beamjs_nif/c_src/quickjs-ng/cutils.h:905-933 | A code point has one form |
| UtfCodec.FormPrefix | apps/beamjs_nif/c_src/quickjs-ng/cutils.h:949-1015 | No form is the beginning of another |
| UtfCodec.Utf8Encode | apps/beamjs_nif/c_src/quickjs-ng/cutils.h:905-933 | The bytes are stored in place and nothing else changes |
| UtfCodec.DecodeExact | apps/beamjs_nif/c_src/quickjs-ng/cutils.h:949-1040 | On any bytes, a character is reported without an error if and only if the bytes begin with its shortest form and it is a code point (surrogates included); an error gives U+FFFD for one byte; no byte past the end is read |
| UtfCodec.DecodeEncoded | apps/beamjs_nif/c_src/quickjs-ng/cutils.h:905-1040 | An encoded character is decoded, whatever follows |
| UtfCodec.EncodeDecoded | apps/beamjs_nif/c_src/quickjs-ng/cutils.h:905-1040 | A character decoded without an error is encoded as the bytes it came from |
| UtfText.SurrogatesExact | apps/beamjs_nif/c_src/quickjs-ng/cutils.h:524-552 | Surrogate pairs and the code points from U+10000 correspond one to one, by the formula of the Unicode Standard |
| UtfText.WellFormedExact | apps/beamjs_nif/c_src/quickjs-ng/cutils.h:1017-1040 | Bytes hold no error if and only if they are the encoding of their characters |
| UtfText.RoundTrip16 | apps/beamjs_nif/c_src/quickjs-ng/cutils.h:1129-1237 | Every sequence of 16-bit units, lone surrogates included, survives encoding and decoding |
| UtfText.RoundTripBytes | apps/beamjs_nif/c_src/quickjs-ng/cutils.h:1129-1237 | Bytes survive decoding and encoding if and only if they hold no error and no surrogate pair in two three-byte forms |
| UtfText.RoundTrip8 | apps/beamjs_nif/c_src/quickjs-ng/cutils.h:1101-1190 | Every 8-bit string survives encoding and decoding |
| UtfText.NarrowAgrees | apps/beamjs_nif/c_src/quickjs-ng/cutils.h:1101-1153 | When every unit fits a byte, the 8-bit decoder may be used and gives the units of the 16-bit decoder |
| UtfText.KeptLongest | apps/beamjs_nif/c_src/quickjs-ng/cutils.h:1199-1237 | What is kept on overflow is the encoding of the longest prefix of whole characters that leaves room for the terminator |
| UtfBuffers.Utf8Scan | apps/beamjs_nif/c_src/quickjs-ng/cutils.h:1053-1091 | The scan counts exactly the units that the 16-bit decoder produces on any bytes, and each content bit is set if and only if there is such content |
| UtfBuffers.Utf8DecodeBuf16 | apps/beamjs_nif/c_src/quickjs-ng/cutils.h:1129-1153 | Returns the length of the whole text also on overflow, stores the units that fit, and nothing past the limit |
| UtfBuffers.Utf8DecodeBuf8 | apps/beamjs_nif/c_src/quickjs-ng/cutils.h:1101-1120 | The same for 8-bit units, with the terminator inside the buffer |
| UtfBuffers.Utf8EncodeBuf16 | apps/beamjs_nif/c_src/quickjs-ng/cutils.h:1199-1237 | Returns the length of the whole encoding also on overflow; stores whole characters only, a terminator, and nothing else |
| UtfBuffers.Utf8EncodeBuf8 | apps/beamjs_nif/c_src/quickjs-ng/cutils.h:1162-1190 | The same for 8-bit units |
| UtfExtended.UnicodeToUtf8 | apps/beamjs_nif/c_src/quickjs/cutils.c:206-239 | The codec of the Unix build writes the form, of up to six bytes, of every word below 2^31 |
| UtfExtended.UnicodeFromUtf8 | apps/beamjs_nif/c_src/quickjs/cutils.c:251-304 | It returns the word whose form the bytes begin with, and -1 if and only if there is none within the limit |
| UtfBuffers.NewStringLen | apps/beamjs_nif/c_src/quickjs-ng/quickjs.c:4325-4367 | The string made of any bytes holds the units of the text, in bytes if and only if they all fit; only a text that is too long is refused |
| UniRange.MemberExact | apps/beamjs_nif/c_src/quickjs-ng/libunicode.h:56-62 | A sorted list of an even number of points stands for the union of its half-open intervals |
| UniRange.CharRange.AddInterval | apps/beamjs_nif/c_src/quickjs-ng/libunicode.h:83-93 | Two points are appended; growing the buffer keeps the others |
| UniRange.CharRange.Compress | apps/beamjs_nif/c_src/quickjs-ng/libunicode.c:426-452 | In place: the same set, with strictly increasing points |
| UniRange.CharRange.CrOp | apps/beamjs_nif/c_src/quickjs-ng/libunicode.c:455-505 | Exactly the union, intersection or symmetric difference, said of each operation by itself, with strictly increasing points |
| UniRange.CharRange.Union1 | apps/beamjs_nif/c_src/quickjs-ng/libunicode.c:507-517 | The set becomes the union |
| UniRange.CharRange.UnionInterval | apps/beamjs_nif/c_src/quickjs-ng/libunicode.h:97-103 | The set gains exactly the characters from c1 to c2, none if c1 is just past c2; c2 must be below the greatest word, where c2 + 1 would wrap around |
| UniRange.CharRange.Invert | apps/beamjs_nif/c_src/quickjs-ng/libunicode.c:519-531 | Exactly the complement below the greatest word, with strictly increasing points |
| UniTable.PropPointsExact | apps/beamjs_nif/c_src/quickjs-ng/libunicode.c:1227-1264 | The decoded intervals hold exactly the characters of the runs whose bit is set, with strictly increasing points |
| UniTable.UnicodeProp1 | apps/beamjs_nif/c_src/quickjs-ng/libunicode.c:1227-1264 | The loop adds the intervals of the table |
| UniTable.GetIndexPos | apps/beamjs_nif/c_src/quickjs-ng/libunicode.c:272-303 | A place of the table at or before the character, with the right code, or -1 past the last set run |
| UniTable.LreIsInTable | apps/beamjs_nif/c_src/quickjs-ng/libunicode.c:305-338 | The indexed lookup answers, for every word, as the set that the whole table decodes to |
| UniTable.AlternatingIndexed | apps/beamjs_nif/c_src/quickjs-ng/libunicode.c:272-303 | The hypothesis on the index can be met: a table of 34 runs with an index of two entries |
| UniTableGen.EncodingExact | apps/beamjs_nif/c_src/quickjs/unicode_gen.c:1520-1556 | The bytes that the generator writes for any list of runs, in all four forms of a code, are decoded to the set of every second run |
| UniTableGen.BuildRuns | apps/beamjs_nif/c_src/quickjs/unicode_gen.c:1495-1507 | The runs of any property of code points, the last one left out if it is not set, are set exactly where the property holds |
| UniTableGen.BuildPropTable | apps/beamjs_nif/c_src/quickjs/unicode_gen.c:1510-1564 | The generator writes these bytes and an index through which every character can be looked up, unless a code begins too far behind its block |
| UniTableGen.GenerateAndLookUp | apps/beamjs_nif/c_src/quickjs-ng/libunicode.c:305-338 | Any property that does not hold of U+0000 is answered by looking it up in the table and the index generated for it |
| UniTableGen.GenerateAndDecode | apps/beamjs_nif/c_src/quickjs-ng/libunicode.c:1227-1264 | The table generated for a property is decoded to the set of the characters that have it |
| UniTableGen.WhiteRuns | apps/beamjs_nif/c_src/quickjs-ng/libunicode-table.h:582-590 | The shipped table of white space, decoded, holds exactly the 25 characters with the property |
| UniTableGen.LreIsWhiteSpace | apps/beamjs_nif/c_src/quickjs-ng/libunicode.c:548-553 | `lre_is_white_space` answers true exactly for these characters |
| UniCase.LreCanonicalize | apps/beamjs_nif/c_src/quickjs-ng/libunicode.c:228-262 | The binary search gives the folding of the table, if the fast case for ASCII agrees with the table |
| UniCase.SortAndRemoveOverlap | apps/beamjs_nif/c_src/quickjs-ng/libunicode.c:1345-1379 | Any list of intervals, in any order and overlapping, of which none ends before it starts, becomes sorted points for the same characters, strictly increasing if no interval was empty |
| UniCase.CrRegexpCanonicalize | apps/beamjs_nif/c_src/quickjs-ng/libunicode.c:1383-1465 | The set becomes exactly its image under folding, for any sorted table that folds nothing to the greatest word, and any mask inside it that covers what folding changes |
| UniCase.TableHasMask | apps/beamjs_nif/c_src/quickjs-ng/libunicode.c:1383-1400 | Every sorted table of runs that folds to code points has such a mask: the characters of its runs |
| UniCase.LettersFold | apps/beamjs_nif/c_src/quickjs-ng/libunicode.c:228-240 | The letters of ASCII are such a table, in either way of folding: to lower case for Unicode patterns, to upper case for others, letter by letter, and to themselves all other characters |
| UniOrder.SortCcExact | apps/beamjs_nif/c_src/quickjs-ng/libunicode.c:878-905 | The sorted text is the one ordered text with the same starters and, between them, the same characters of each class in the same order |
| UniOrder.SortCcDecides | apps/beamjs_nif/c_src/quickjs-ng/libunicode.c:878-905 | Two texts are sorted to the same text if and only if they differ only in how classes are mixed |
| UniOrder.StartersFixed | apps/beamjs_nif/c_src/quickjs-ng/libunicode.c:878-905 | Starters stay at their positions |
| UniOrder.SortCcInPlace | apps/beamjs_nif/c_src/quickjs-ng/libunicode.c:878-905 | The insertion sort of every run, in place, computes that text |
| UniNormalize.SoundTables | apps/beamjs_nif/c_src/quickjs-ng/libunicode.c:936-949 | The hypotheses on the tables can be met, in both modes: an accented letter and a ligature |
| UniNormalize.NfdIdempotent | apps/beamjs_nif/c_src/quickjs-ng/libunicode.c:907-933 | Decomposing and ordering a second time changes nothing, for any acyclic table that leaves jamo alone |
| UniNormalize.ComposeCanonical | apps/beamjs_nif/c_src/quickjs-ng/libunicode.c:936-1022 | Composition keeps the decomposition of a text if and only if the decomposed text has no leading consonant, vowel and U+11A7 in a row |
| UniNormalize.NormalizeCanonical | apps/beamjs_nif/c_src/quickjs-ng/libunicode.c:951-1022 | Every form is equivalent to the text it comes from, if and only if that holds, or nothing is composed |
| UniNormalize.ComposedNfd | apps/beamjs_nif/c_src/quickjs-ng/libunicode.c:936-1022 | The decomposition of any composed text is the text it was composed from without the characters that were dropped, and is composed to the same text |
| UniNormalize.NormalizeIdempotent | apps/beamjs_nif/c_src/quickjs-ng/libunicode.c:951-1022 | Normalizing a second time changes nothing, for every text and every form |
| UniNormalize.OneFormCExactly | apps/beamjs_nif/c_src/quickjs-ng/libunicode.c:965-976 | Equivalent texts have one form C if and only if the table recomposes every Latin-1 text, which the short cut takes for granted |
| UniNormalize.BareTIsLost | apps/beamjs_nif/c_src/quickjs-ng/libunicode.c:942-945 | U+AC00 U+11A7 is composed to U+AC00 alone |
| UniNormalize.SyllablesStable | apps/beamjs_nif/c_src/quickjs-ng/libunicode.c:936-1022 | Every text of precomposed Hangul syllables is its own form C |
| UniCompose.ComposeBlocked | apps/beamjs_nif/c_src/quickjs-ng/libunicode.c:996-1019 | Definitions D115 and D117 of the Unicode Standard: a character is composed with the last starter before it if it is not blocked from it and the pair has a composite, and is appended otherwise |
| UniCompose.SoundStarters | apps/beamjs_nif/c_src/quickjs-ng/libunicode.c:996-1019 | What this asks of the tables holds of all tables that normalization is proved for |
| UniCompose.HangulSyllable | apps/beamjs_nif/c_src/quickjs-ng/libunicode.c:915-945 | The syllable with the numbers l, v and d decomposes to the jamo with these numbers and is composed of them, by the formulas of section 3.12 |
| UniCompose.OtherPairs | apps/beamjs_nif/c_src/quickjs-ng/libunicode.c:936-949 | Outside of Hangul the table decides what a pair is composed to |
| UniCompose.FormsDecompose | apps/beamjs_nif/c_src/quickjs-ng/libunicode.c:958-995 | The forms D and KD hold no syllable and nothing that the canonical, or any, mapping decomposes, and differ from the full decomposition only in the order of classes |
| UniCompose.FormsCompose | apps/beamjs_nif/c_src/quickjs-ng/libunicode.c:958-1019 | The forms C and KC are composed from the forms D and KD, but for Latin-1 texts in form C |
| UniNormalize.ToNfdRec | apps/beamjs_nif/c_src/quickjs-ng/libunicode.c:907-933 | The recursion appends the full decomposition |
| UniNormalize.ComposeInPlace | apps/beamjs_nif/c_src/quickjs-ng/libunicode.c:996-1019 | The composition of the buffer, in place, computes the composed text |
| UniNormalize.UnicodeNormalize | apps/beamjs_nif/c_src/quickjs-ng/libunicode.c:951-1022 | The method returns the normal form that the lemmas are about |
| ReplySlot.RunKeeps | apps/beamjs_nif/c_src/host_functions.c:39-70 | Every step of every interleaving keeps who holds the mutex, where the outstanding request is, which replies were returned and which environments are held |
| ReplySlot.NeverOverwritten | apps/beamjs_nif/c_src/beamjs_nif.c:371-377 | A full slot is never overwritten |
| ReplySlot.OwnReply | apps/beamjs_nif/c_src/host_functions.c:57-70 | Every call that has returned, returned the reply to its own request |
| ReplySlot.NoLostWakeUp | apps/beamjs_nif/c_src/host_functions.c:52-55 | The waiter never sleeps through a delivered reply |
| ReplySlot.EnvironmentsConserved | apps/beamjs_nif/c_src/beamjs_nif.c:373-376 | Allocated reply environments are the freed ones and the one in the slot or in the reader's hands |
| ReplySlot.UnsolicitedReplyMisleads | apps/beamjs_nif/c_src/beamjs_nif.c:364-383 | The hypothesis of one reply per request is needed everywhere: from every state between calls, any reply that no call asked for is returned by the next call, whose own request stays unanswered |
| ReplySlot.CanAdvance | apps/beamjs_nif/c_src/host_functions.c:52-70 | While a call is outstanding some step other than a spurious wake-up is possible |
| ReplySlot.CallReturns | apps/beamjs_nif/c_src/host_functions.c:39-70 | A run during one call is bounded by the work left and the number of wake-ups |

## Left out

Regular expressions:

- The text parser: patterns are trees. Escapes, named groups, `{`-syntax fallbacks, the limits on nesting and on the size of the pattern text are not modelled; the loops over `|` and over terms are recursion over left-nested trees, and `{n}` with n equal to INT32_MAX means "unbounded", as in the source.
- Ignore-case matching, surrogate pairs in the subject (one unit is one character), timeouts and memory limits.
- The header of the byte code other than its group count and stack size.
- RegexBytes.ProgramDecodes: code of 2^31 bytes or more is not modelled, because the offsets of jumps are 32-bit ints.
- RegexExec.CompiledRunAhead: the same bound on the code.
- RegexExec.LreExec: the same bound on the code.
- RegexEngine.CompileAndExec: the same bound on the code.
- Stale bytes in the gap of an insertion are arbitrary; they are always overwritten.
- RegexExec.REExecContext.ExecNoRecurse: the nested run is modelled for straight-line code only, which is all that the compiler puts there.
- Captures are specified from the code; the comparison with ECMA-262 is about success, start, end and the captures that are settled.

Numbers:

- `JsDtoa` returns a string instead of filling a buffer; that the buffer is long enough is `DtoaLength.LengthBound`.
- The tables of powers of five are replaced by the powers.
- Numerals have neither a radix prefix nor separators; `DtoaForms.PrefixRead`, `LegacyOctal` and `SeparatorIgnored` say how texts with these are read as texts without. A second `0x` behind a prefix `0x` is left out there.
- DtoaAtod.AtodNumeral: assumes at most 10^9 digits, counted in bits, because positions are C ints; in a radix with an odd factor the digits past those of the table count as zeros, as in the source.
- DtoaAtod.AtodNearest: the same numerals as in `AtodNumeral`.
- DtoaAtod.AtodInteger: the same numerals as in `AtodNumeral`.

Sorting:

- The exchange functions for element sizes: an exchange is one step on an array of elements.

UTF and Unicode:

- The word-sized buffers of the operating system interfaces in `cutils.h`.
- UniTable.LreIsInTable: the last index entry must carry no offset bits and must not lie past the end of the table, as in all shipped tables; the contents of the tables are not modelled, but for that of white space.
- UniRange.CharRange.UnionInterval: c2 = 0xFFFFFFFF, for which c2 + 1 wraps around to 0 and the two points are out of order, is not modelled; the callers pass code points.
- UniCase.SortAndRemoveOverlap: intervals that end before they start are not modelled; the only caller passes non-empty ones.
- `unicode_case1`, `lre_case_conv_entry` and `unicode_decomp_entry`: pure data decoding; a mask, a folding function and a decomposition function are parameters instead.
- `unicode_script`, `unicode_general_category` and the property expressions built from the set operations proved here.
- UniNormalize.UnicodeNormalize: that a Latin-1 text is its own form C is a property of the tables, not of the code; `UniNormalize.OneFormCExactly` says what depends on it.

Reply slot:

- Sending the request, allocating environments and the conversions of terms are single steps; a second waiter (`module_loader.c`) and concurrent evaluations in one context are not modelled: the model has one waiter and one owner.

Everywhere: allocation failure, files, processes, timers and the JavaScript library.
