/** Compiling and executing together. */
module RegexEngine {
  import opened Common
  import opened RegexSyntax
  import opened RegexCode
  import opened RegexMatcher
  import opened RegexStack
  import opened RegexBytes
  import opened RegexEmitter
  import opened RegexParseState
  import opened RegexExec
  import opened RegexCorrect
  import opened RegexLaws

  datatype Outcome = CompileError | NoMatchFound | Match(captures: seq<int>)

  /** Compile a pattern, then execute the bytes on 16-bit units from `from`. The hypothesis
      on the size of the code stands for the 32-bit offsets of the byte code. */
  method CompileAndExec(r: Regex, sticky: bool, input: seq<nat>, multiline: bool, from: nat) returns (out: Outcome)
    requires Parseable(r) && from <= |input| && forall i :: 0 <= i < |input| ==> input[i] < 0x10000
    requires WellFormed(r) ==> Len(Program(r, sticky)) < TWO31
    ensures out.CompileError?
      <==> !(WellFormed(r) && NCaps(r) < 255 && StackWithin(Program(r, sticky), 255))
    ensures !out.CompileError? ==>
              out == match Find(r, sticky, Ctx(input, multiline, 1 + NCaps(r), false), from)
                     case None => NoMatchFound
                     case Some(s) => Match(s.caps)
    ensures !out.CompileError? && BackRefFree(r) ==>
              FindsSpan(r, sticky, Ctx(input, multiline, 1 + NCaps(r), false), from,
                        if out.NoMatchFound? then None else Some(out.captures))
  {
    hide Program;
    hide ComputeStackSize;
    hide Find;
    hide FindsSpan;
    if WellFormed(r) { StackSizeExact(Program(r, sticky)); }
    hide StackWithin;
    var s := new REParseState();
    var ok, stackSize := s.Compile(r, sticky);
    if !ok { return CompileError; }
    var x := Ctx(input, multiline, s.captureCount, false);
    var ret, captures := LreExec(s.byteCode, x, from, stackSize, r, sticky);
    if BackRefFree(r) { FindSpans(r, sticky, x, from); }
    out := if ret then Match(captures) else NoMatchFound;
  }
}
