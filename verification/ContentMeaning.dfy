/** What a content stream says, told from its bytes: the operators with their operands, and what is
    recorded of each. */
module ContentMeaning {
  import opened Bytes
  import opened Cos
  import opened CosParsing
  import opened ContentParsing
  import opened MarkedContent

  /** An operator, the operands in front of it, its inline image if it begins one, and how often the
      operand buffer was emptied at its cap on the way. */
  datatype Step = Step(word: seq<byte>, operands: seq<Operand>, image: Option<InlineImage>, emptied: nat)

  datatype Fact =
    | InlineImageFact(image: Option<InlineImage>)
    | TextShowFact(bytes: nat)
    | MarkedContentFact(tag: seq<byte>)
    | XObjectFact(name: seq<byte>)
    | ColorFact(op: string, operands: nat, bytes: nat)
    | UnknownFact(op: string, operands: nat)
    | PlainFact(op: string)

  datatype Family = Font | ExtGState | ColorSpace | Shading | XObject

  datatype ResourceUse = ResourceUse(family: Family, name: seq<byte>, op: string)

  datatype Warning = OperatorCapReached | OperandCapReached | GraphicsCapReached | DanglingOperands

  const UNKNOWN: seq<byte> := [85, 110, 107, 110, 111, 119, 110]
  const EMC: seq<byte> := [69, 77, 67]

  /** Operator names beyond ASCII are known to none of the tests below. */
  function Characters(word: seq<byte>): (r: string)
    ensures |r| == |word|
    ensures forall k | 0 <= k < |r| :: r[k] as int == word[k]
  {
    seq(|word|, i requires 0 <= i < |word| => word[i] as char)
  }

  // ---------------------------------------------------------------------------------------------
  // Operands
  // ---------------------------------------------------------------------------------------------

  function DecimalLength(n: int): nat
    decreases if n < 0 then 1 - n else n
  {
    if n < 0 then 1 + DecimalLength(-n) else if n < 10 then 1 else 1 + DecimalLength(n / 10)
  }

  function ByteLen(o: Operand): nat {
    match o
    case NameOperand(name) => |name|
    case IntegerOperand(value) => DecimalLength(value)
    case BytesOperand(count) => count
    case CompositeOperand(bytes) => |bytes|
    case KeywordOperand(bytes) => |bytes|
  }

  function TotalBytes(operands: seq<Operand>): nat {
    if operands == [] then 0 else TotalBytes(operands[..|operands| - 1]) + ByteLen(operands[|operands| - 1])
  }

  /** The first name among the operands. */
  function FirstName(operands: seq<Operand>): (r: Option<seq<byte>>)
    ensures r.Some? <==> exists k | 0 <= k < |operands| :: operands[k].NameOperand?
    ensures r.Some? ==> exists k | 0 <= k < |operands| ::
                          operands[k] == NameOperand(r.value) && forall j | 0 <= j < k :: !operands[j].NameOperand?
  {
    if operands == [] then None
    else if operands[0].NameOperand? then Some(operands[0].name)
    else
      var more := FirstName(operands[1..]);
      assert operands == [operands[0]] + operands[1..];
      more
  }

  predicate CapReached(operands: seq<Operand>, operand: Operand, limits: ContentLimits) {
    |operands| >= limits.maxOperandCount || TotalBytes(operands) + ByteLen(operand) > limits.maxOperandBytes
  }

  // ---------------------------------------------------------------------------------------------
  // What one operator leaves behind
  // ---------------------------------------------------------------------------------------------

  predicate IsTextState(op: string) {
    op == "Tc" || op == "Tw" || op == "Tz" || op == "TL" || op == "Tf" || op == "Tr" || op == "Ts"
  }

  predicate IsColor(op: string) {
    || op == "CS" || op == "cs" || op == "sh" || op == "SC" || op == "SCN" || op == "sc" || op == "scn"
    || op == "G" || op == "g" || op == "RG" || op == "rg" || op == "K" || op == "k"
  }

  predicate IsPath(op: string) {
    || op == "m" || op == "l" || op == "c" || op == "v" || op == "y" || op == "h" || op == "re" || op == "S" || op == "s"
    || op == "f" || op == "F" || op == "f*" || op == "B" || op == "B*" || op == "b" || op == "b*" || op == "n"
    || op == "W" || op == "W*"
  }

  /** Operators that only leave a fact behind. */
  predicate IsPlain(op: string) {
    || op == "BT" || op == "ET" || IsTextState(op)
    || op == "Td" || op == "TD" || op == "Tm" || op == "T*"
    || op == "cm" || op == "w" || op == "J" || op == "j" || op == "M" || op == "d" || op == "ri" || op == "i"
    || op == "gs" || op == "q" || op == "Q" || IsPath(op) || op == "BX" || op == "EX"
  }

  predicate IsMarking(op: string) {
    op == "BMC" || op == "BDC" || op == "MP" || op == "DP"
  }

  predicate IsShow(op: string) {
    op == "Tj" || op == "TJ" || op == "'" || op == "\""
  }

  function FamilyOf(op: string): Option<Family> {
    if op == "Tf" then Some(Font)
    else if op == "gs" then Some(ExtGState)
    else if op == "CS" || op == "cs" then Some(ColorSpace)
    else if op == "sh" then Some(Shading)
    else if op == "Do" then Some(XObject)
    else None
  }

  function OpOf(step: Step): string {
    Characters(step.word)
  }

  /** All that marked content can tell of an operator. */
  function EventOf(step: Step): Event {
    Event(OpOf(step), FirstName(step.operands).Some?)
  }

  function TagOf(step: Step): seq<byte> {
    if FirstName(step.operands).Some? then FirstName(step.operands).value else UNKNOWN
  }

  function FactOf(step: Step): Fact {
    var op := OpOf(step);
    if op == "BI" then InlineImageFact(step.image)
    else if IsShow(op) then TextShowFact(TotalBytes(step.operands))
    else if IsMarking(op) then MarkedContentFact(TagOf(step))
    else if op == "EMC" then MarkedContentFact(EMC)
    else if op == "Do" && FirstName(step.operands).Some? then XObjectFact(FirstName(step.operands).value)
    else if IsPlain(op) then PlainFact(op)
    else if IsColor(op) then ColorFact(op, |step.operands|, TotalBytes(step.operands))
    else UnknownFact(op, |step.operands|)
  }

  /** Why an operator stops the summary: a tag too long for a name, or more operands than 16 bits count. */
  function FaultOf(step: Step, limits: ContentLimits): Option<ParseError> {
    var op := OpOf(step);
    if IsMarking(op) && FirstName(step.operands).None? && limits.maxNameBytes < |UNKNOWN| then
      Some(LimitExceeded(MaxNameBytes))
    else if op == "EMC" && limits.maxNameBytes < |EMC| then Some(LimitExceeded(MaxNameBytes))
    else if (FactOf(step).ColorFact? || FactOf(step).UnknownFact?) && |step.operands| > 0xFFFF then
      Some(LimitExceeded(MaxOperandCount))
    else None
  }

  function UseOf(step: Step): seq<ResourceUse> {
    if FamilyOf(OpOf(step)).Some? && FirstName(step.operands).Some? then
      [ResourceUse(FamilyOf(OpOf(step)).value, FirstName(step.operands).value, OpOf(step))]
    else []
  }

  // ---------------------------------------------------------------------------------------------
  // What a run of operators leaves behind
  // ---------------------------------------------------------------------------------------------

  function EventsOf(steps: seq<Step>): (r: seq<Event>)
    ensures |r| == |steps|
    ensures forall k | 0 <= k < |steps| :: r[k] == EventOf(steps[k])
  {
    if steps == [] then [] else EventsOf(steps[..|steps| - 1]) + [EventOf(steps[|steps| - 1])]
  }

  function FactsOf(steps: seq<Step>): (r: seq<Fact>)
    ensures |r| == |steps|
    ensures forall k | 0 <= k < |steps| :: r[k] == FactOf(steps[k])
  {
    if steps == [] then [] else FactsOf(steps[..|steps| - 1]) + [FactOf(steps[|steps| - 1])]
  }

  function UsesOf(steps: seq<Step>): seq<ResourceUse> {
    if steps == [] then [] else UsesOf(steps[..|steps| - 1]) + UseOf(steps[|steps| - 1])
  }

  /** The depth of the graphics state: it never passes its cap, and never goes below zero. */
  function GraphicsDepth(steps: seq<Step>, max: u32): (r: u32)
    ensures r <= max
  {
    if steps == [] then 0
    else
      var before := GraphicsDepth(steps[..|steps| - 1], max);
      var op := OpOf(steps[|steps| - 1]);
      if op == "q" then (if before >= max then before else before + 1)
      else if op == "Q" then (if before == 0 then 0 else before - 1)
      else before
  }

  function Warned(n: nat, w: Warning): seq<Warning> {
    if n == 0 then [] else Warned(n - 1, w) + [w]
  }

  function WarningsOf(steps: seq<Step>, max: u32): seq<Warning> {
    if steps == [] then []
    else
      var front := steps[..|steps| - 1];
      var last := steps[|steps| - 1];
      WarningsOf(front, max) + Warned(last.emptied, OperandCapReached)
      + (if OpOf(last) == "q" && GraphicsDepth(front, max) >= max then [GraphicsCapReached] else [])
  }

  lemma OneMore(steps: seq<Step>, step: Step)
    ensures (steps + [step])[..|steps|] == steps
    ensures EventsOf(steps + [step]) == EventsOf(steps) + [EventOf(step)]
    ensures FactsOf(steps + [step]) == FactsOf(steps) + [FactOf(step)]
    ensures UsesOf(steps + [step]) == UsesOf(steps) + UseOf(step)
  {
    assert (steps + [step])[..|steps|] == steps;
  }

  // ---------------------------------------------------------------------------------------------
  // The whole stream
  // ---------------------------------------------------------------------------------------------

  datatype Ending = Finished | OutOfOperators | Failed(error: ParseError)

  /** The operators of a stream in order, the operands left over, and how reading ended. */
  datatype Content = Content(steps: seq<Step>, operands: seq<Operand>, emptied: nat, ending: Ending)

  function ContentOf(
      s: seq<byte>, operands: seq<Operand>, emptied: nat, seen: nat, limits: ContentLimits, isNumber: NumberTest): Content
    decreases |s|, 0
  {
    var token := NextToken(s, limits, isNumber);
    if token.Bad? then Content([], operands, emptied, Failed(token.error))
    else
      match token.value
      case None => Content([], operands, emptied, Finished)
      case Some(OperandToken(operand)) =>
        AfterOperand(operand, token.rest, operands, emptied, seen, limits, isNumber)
      case Some(OperatorToken(word)) =>
        AfterOperator(word, token.rest, operands, emptied, seen, limits, isNumber)
  }

  /** What reading on means after an operand. */
  function AfterOperand(
      operand: Operand, rest: seq<byte>, operands: seq<Operand>, emptied: nat, seen: nat, limits: ContentLimits,
      isNumber: NumberTest): Content
    decreases |rest|, 1
  {
    if TotalBytes(operands) + ByteLen(operand) > 0xFFFF_FFFF_FFFF_FFFF then
      Content([], operands, emptied, Failed(ArithmeticOverflow))
    else if CapReached(operands, operand, limits) then ContentOf(rest, [], emptied + 1, seen, limits, isNumber)
    else ContentOf(rest, operands + [operand], emptied, seen, limits, isNumber)
  }

  /** What reading on means after an operator. */
  function AfterOperator(
      word: seq<byte>, rest: seq<byte>, operands: seq<Operand>, emptied: nat, seen: nat, limits: ContentLimits,
      isNumber: NumberTest): Content
    decreases |rest|, 1
  {
    if seen >= limits.maxOps then Content([], operands, emptied, OutOfOperators)
    else
      var image := ImageAfter(word, rest, limits, isNumber);
      if image.Bad? then Content([], operands, emptied, Failed(image.error))
      else
        var step := Step(word, operands, image.value, emptied);
        if FaultOf(step, limits).Some? then Content([], operands, emptied, Failed(FaultOf(step, limits).value))
        else Prepend([step], ContentOf(image.rest, [], 0, seen + 1, limits, isNumber))
  }

  /** The image `BI` begins; nothing for any other operator. */
  function ImageAfter(word: seq<byte>, s: seq<byte>, limits: ContentLimits, isNumber: NumberTest)
      : (r: Parsed<Option<InlineImage>>)
    ensures r.Good? ==> |r.rest| <= |s|
  {
    if Characters(word) != "BI" then Good(None, s)
    else
      var (image, rest) :- ParseImage(s, limits, isNumber);
      Good(Some(image), rest)
  }

  function Prepend(steps: seq<Step>, content: Content): Content {
    content.(steps := steps + content.steps)
  }

  lemma PrependTwice(a: seq<Step>, b: seq<Step>, content: Content)
    ensures Prepend(a, Prepend(b, content)) == Prepend(a + b, content)
  {
    assert a + (b + content.steps) == a + b + content.steps;
  }
}
