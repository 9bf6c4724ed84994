/** The summary of a content stream: an operand buffer, a stack of marked content, and what is recorded of
    each operator. */
module ContentSummary {
  import opened Bytes
  import opened Cos
  import opened ContentParsing
  import opened ContentTokens
  import opened ContentMeaning
  import opened MarkedContent
  import opened MarkedState
  import ByteParsing

  /** The tag a span carries is the first name its operator comes with. */
  ghost predicate TagsAreRight(steps: seq<Step>, spans: seq<Span>) {
    forall i | 0 <= i < |spans| :: 1 <= spans[i].ordinal <= |steps| && spans[i].tag == TagOf(steps[spans[i].ordinal - 1])
  }

  ghost predicate SpansOk(steps: seq<Step>, spans: seq<Span>, stack: seq<nat>, depth: u32) {
    Marked(EventsOf(steps), spans, stack, depth) && TagsAreRight(steps, spans)
  }

  predicate IsQuiet(e: Event) {
    !IsBegin(e) && !IsEnd(e) && !IsText(e) && !IsImage(e)
  }

  lemma NoSpansYet()
    ensures SpansOk([], [], [], 0)
  {
    assert Begins([]) == [];
    assert SpansAreBegins([], []);
  }

  lemma NothingYet()
    ensures SpansOk([], [], [], 0)
    ensures FactsOf([]) == [] && UsesOf([]) == [] && TotalBytes([]) == 0
    ensures forall max: u32 :: GraphicsDepth([], max) == 0
    ensures forall max: u32 :: WarningsOf([], max) + Warned(0, OperandCapReached) == []
  {
    hide SpansOk;
    NoSpansYet();
  }

  lemma StackInSpans(steps: seq<Step>, spans: seq<Span>, stack: seq<nat>, depth: u32)
    requires SpansOk(steps, spans, stack, depth)
    ensures forall p | 0 <= p < |stack| :: stack[p] < |spans|
  {
    StackBounds(EventsOf(steps), spans, stack, depth);
  }

  lemma TagsKept(steps: seq<Step>, step: Step, spans: seq<Span>, after: seq<Span>)
    requires TagsAreRight(steps, spans) && |after| == |spans|
    requires forall i | 0 <= i < |spans| :: after[i].tag == spans[i].tag && after[i].ordinal == spans[i].ordinal
    ensures TagsAreRight(steps + [step], after)
  {
    hide TagOf;
    forall i | 0 <= i < |after|
      ensures 1 <= after[i].ordinal <= |steps + [step]| && after[i].tag == TagOf((steps + [step])[after[i].ordinal - 1])
    {
      assert (steps + [step])[spans[i].ordinal - 1] == steps[spans[i].ordinal - 1];
    }
  }

  lemma QuietKeeps(steps: seq<Step>, step: Step, spans: seq<Span>, stack: seq<nat>, depth: u32)
    requires SpansOk(steps, spans, stack, depth) && IsQuiet(EventOf(step))
    ensures SpansOk(steps + [step], spans, stack, depth)
  {
    hide Marked, EventOf, EventsOf, TagsAreRight;
    EventsOneMore(steps, step);
    OtherMarked(EventsOf(steps), EventOf(step), spans, stack, depth);
    TagsKept(steps, step, spans, spans);
  }

  lemma ShowKeeps(steps: seq<Step>, step: Step, spans: seq<Span>, stack: seq<nat>, depth: u32, text: bool)
    requires SpansOk(steps, spans, stack, depth)
    requires var e := EventOf(step); !IsBegin(e) && !IsEnd(e) && IsText(e) == text && IsImage(e) == !text
    ensures SpansOk(steps + [step], MarkedSpans(spans, stack, text), stack, depth)
  {
    hide Marked, EventOf, EventsOf, TagsAreRight;
    EventsOneMore(steps, step);
    ShowMarked(EventsOf(steps), EventOf(step), spans, stack, depth, text);
    TagsKept(steps, step, spans, MarkedSpans(spans, stack, text));
  }

  lemma BeginKeeps(steps: seq<Step>, step: Step, spans: seq<Span>, stack: seq<nat>, depth: u32)
    requires SpansOk(steps, spans, stack, depth)
    requires var e := EventOf(step); IsBegin(e) && !IsEnd(e) && !IsText(e) && !IsImage(e)
    ensures var deeper := if depth == 0xFFFF_FFFF then depth else depth + 1;
            SpansOk(
              steps + [step], spans + [Span(TagOf(step), deeper, |steps| + 1, false, false)], stack + [|spans|], deeper)
  {
    hide Marked, EventOf, EventsOf, TagOf, TagsAreRight;
    EventsOneMore(steps, step);
    BeginMarked(EventsOf(steps), EventOf(step), spans, stack, depth, TagOf(step));
    var deeper := if depth == 0xFFFF_FFFF then depth else depth + 1;
    TagsGrow(steps, step, spans, Span(TagOf(step), deeper, |steps| + 1, false, false));
  }

  lemma TagsGrow(steps: seq<Step>, step: Step, spans: seq<Span>, span: Span)
    requires TagsAreRight(steps, spans) && span.ordinal == |steps| + 1 && span.tag == TagOf(step)
    ensures TagsAreRight(steps + [step], spans + [span])
  {
    hide TagOf;
    var more, all := steps + [step], spans + [span];
    forall i | 0 <= i < |all|
      ensures 1 <= all[i].ordinal <= |more| && all[i].tag == TagOf(more[all[i].ordinal - 1])
    {
      if i < |spans| {
        assert more[spans[i].ordinal - 1] == steps[spans[i].ordinal - 1];
      }
    }
  }

  lemma EventsOneMore(steps: seq<Step>, step: Step)
    ensures EventsOf(steps + [step]) == EventsOf(steps) + [EventOf(step)]
  {
    OneMore(steps, step);
  }

  lemma EndKeeps(steps: seq<Step>, step: Step, spans: seq<Span>, stack: seq<nat>, depth: u32)
    requires SpansOk(steps, spans, stack, depth)
    requires var e := EventOf(step); IsEnd(e) && !IsBegin(e) && !IsText(e) && !IsImage(e)
    ensures SpansOk(
      steps + [step], spans, if stack == [] then [] else stack[..|stack| - 1], if depth == 0 then 0 else depth - 1)
  {
    hide Marked, EventOf, EventsOf, TagsAreRight;
    EventsOneMore(steps, step);
    EndMarked(EventsOf(steps), EventOf(step), spans, stack, depth);
    TagsKept(steps, step, spans, spans);
  }

  class Summary {
    const limits: ContentLimits
    var operands: seq<Operand>
    var operandBytes: nat
    var operatorsSeen: nat
    var facts: seq<Fact>
    var spans: seq<Span>
    var resourceUses: seq<ResourceUse>
    var warnings: seq<Warning>
    var truncated: bool
    var graphicsDepth: u32
    var markedDepth: u32
    var markedStack: seq<nat>
    /** The operators classified so far, and how often the buffer has been emptied since the last one. */
    ghost var steps: seq<Step>
    ghost var emptied: nat

    constructor (limits: ContentLimits)
      ensures this.limits == limits && Faithful() && steps == [] && operands == [] && emptied == 0 && !truncated
    {
      hide SpansOk, FactsOf, UsesOf, TotalBytes, GraphicsDepth, WarningsOf, Warned;
      NothingYet();
      this.limits := limits;
      operands, operandBytes, operatorsSeen := [], 0, 0;
      facts, spans, resourceUses, warnings, truncated := [], [], [], [], false;
      graphicsDepth, markedDepth, markedStack := 0, 0, [];
      steps, emptied := [], 0;
    }

    /** The buffer is within its caps and its size is known. */
    ghost predicate BufferOk()
      reads `operands, `operandBytes
    {
      && |operands| <= limits.maxOperandCount && operandBytes <= limits.maxOperandBytes
      && operandBytes == TotalBytes(operands)
    }

    /** The summary records what the operators so far say, and its spans what they enclose. */
    ghost predicate Records()
      reads `facts, `resourceUses, `graphicsDepth, `spans, `markedStack, `markedDepth, `steps
    {
      && facts == FactsOf(steps)
      && resourceUses == UsesOf(steps)
      && graphicsDepth == GraphicsDepth(steps, limits.maxGraphicsDepth)
      && SpansOk(steps, spans, markedStack, markedDepth)
    }

    /** What holds between any two tokens. */
    ghost predicate Faithful()
      reads this
    {
      && BufferOk() && Records()
      && operatorsSeen == |steps| <= limits.maxOps
      && warnings == WarningsOf(steps, limits.maxGraphicsDepth) + Warned(emptied, OperandCapReached)
    }

    /** Adds an operand; when a cap is exceeded the buffer is emptied instead. */
    method PushOperand(operand: Operand) returns (r: Result<()>)
      requires BufferOk()
      modifies `operands, `operandBytes, `warnings, `emptied
      ensures BufferOk()
      ensures r.Err? <==> TotalBytes(old(operands)) + ByteLen(operand) > 0xFFFF_FFFF_FFFF_FFFF
      ensures r.Err? ==> r.error == ArithmeticOverflow
      ensures r.Ok? ==>
                if CapReached(old(operands), operand, limits) then
                  operands == [] && emptied == old(emptied) + 1 && warnings == old(warnings) + [OperandCapReached]
                else
                  operands == old(operands) + [operand] && emptied == old(emptied) && warnings == old(warnings)
    {
      var nextBytes := operandBytes + ByteLen(operand);
      if nextBytes > 0xFFFF_FFFF_FFFF_FFFF {
        return Err(ArithmeticOverflow);
      }
      if |operands| >= limits.maxOperandCount || nextBytes > limits.maxOperandBytes {
        operands, operandBytes, emptied := [], 0, emptied + 1;
        warnings := warnings + [OperandCapReached];
        return Ok(());
      }
      assert (operands + [operand])[..|operands|] == operands;
      operands, operandBytes := operands + [operand], nextBytes;
      return Ok(());
    }

    /** Sets a flag of every open span. */
    method MarkActiveSpans(text: bool)
      requires forall p | 0 <= p < |markedStack| :: markedStack[p] < |spans|
      modifies `spans
      ensures spans == MarkedSpans(old(spans), markedStack, text)
    {
      ghost var before := spans;
      MarkedNone(spans, text);
      for n := 0 to |markedStack|
        invariant spans == MarkedSpans(before, markedStack[..n], text)
      {
        var index := markedStack[n];
        assert markedStack[..n + 1] == markedStack[..n] + [index];
        MarkedOne(before, markedStack[..n], index, text);
        if text {
          spans := spans[index := spans[index].(hasText := true)];
        } else {
          spans := spans[index := spans[index].(hasImage := true)];
        }
      }
      assert markedStack[..|markedStack|] == markedStack;
    }

    /** In the middle of an operator: it has been counted, its fact and its uses have been recorded, and
        the graphics state has been moved; marked content is still to come. */
    ghost predicate Recorded(step: Step)
      reads this
    {
      && operatorsSeen == |steps| + 1 <= limits.maxOps
      && facts == FactsOf(steps + [step])
      && resourceUses == UsesOf(steps + [step])
      && graphicsDepth == GraphicsDepth(steps + [step], limits.maxGraphicsDepth)
      && SpansOk(steps, spans, markedStack, markedDepth)
    }

    /** An operator that does nothing to marked content. */
    method Pass(ghost step: Step)
      requires Recorded(step) && IsQuiet(EventOf(step))
      modifies `steps
      ensures steps == old(steps) + [step] && Records() && operatorsSeen == |steps| <= limits.maxOps
    {
      hide SpansOk, EventOf, FactsOf, UsesOf, GraphicsDepth, TotalBytes;
      QuietKeeps(steps, step, spans, markedStack, markedDepth);
      steps := steps + [step];
    }

    /** An operator that shows text or an image. */
    method ShowOnPage(text: bool, ghost step: Step)
      requires Recorded(step)
      requires var e := EventOf(step); !IsBegin(e) && !IsEnd(e) && IsText(e) == text && IsImage(e) == !text
      modifies `steps, `spans
      ensures steps == old(steps) + [step] && Records() && operatorsSeen == |steps| <= limits.maxOps
    {
      hide SpansOk, EventOf, MarkedSpans, FactsOf, UsesOf, GraphicsDepth, TotalBytes;
      StackInSpans(steps, spans, markedStack, markedDepth);
      ShowKeeps(steps, step, spans, markedStack, markedDepth, text);
      MarkActiveSpans(text);
      steps := steps + [step];
    }

    method BeginSpan(tag: seq<byte>, ghost step: Step)
      requires Recorded(step) && tag == TagOf(step)
      requires var e := EventOf(step); IsBegin(e) && !IsEnd(e) && !IsText(e) && !IsImage(e)
      modifies `steps, `spans, `markedStack, `markedDepth
      ensures steps == old(steps) + [step] && Records() && operatorsSeen == |steps| <= limits.maxOps
    {
      hide SpansOk, EventOf, TagOf, FactsOf, UsesOf, GraphicsDepth, TotalBytes;
      BeginKeeps(steps, step, spans, markedStack, markedDepth);
      markedDepth := if markedDepth == 0xFFFF_FFFF then markedDepth else markedDepth + 1;
      var spanIndex := |spans|;
      spans := spans + [Span(tag, markedDepth, operatorsSeen, false, false)];
      markedStack := markedStack + [spanIndex];
      steps := steps + [step];
    }

    method EndSpan(ghost step: Step)
      requires Recorded(step)
      requires var e := EventOf(step); IsEnd(e) && !IsBegin(e) && !IsText(e) && !IsImage(e)
      modifies `steps, `markedStack, `markedDepth
      ensures steps == old(steps) + [step] && Records() && operatorsSeen == |steps| <= limits.maxOps
    {
      hide SpansOk, EventOf, FactsOf, UsesOf, GraphicsDepth, TotalBytes;
      EndKeeps(steps, step, spans, markedStack, markedDepth);
      markedDepth := if markedDepth == 0 then 0 else markedDepth - 1;
      if markedStack != [] {
        markedStack := markedStack[..|markedStack| - 1];
      }
      steps := steps + [step];
    }

    /** Records an operator's fact, the resource it names, and what it does to the graphics state. */
    method Record(fact: Fact, op: string, ghost step: Step)
      requires Records() && operatorsSeen == |steps| + 1 <= limits.maxOps
      requires op == OpOf(step) && fact == FactOf(step) && step.operands == operands && step.emptied == emptied
      requires warnings == WarningsOf(steps, limits.maxGraphicsDepth) + Warned(emptied, OperandCapReached)
      modifies `facts, `resourceUses, `graphicsDepth, `warnings
      ensures Recorded(step) && warnings == WarningsOf(steps + [step], limits.maxGraphicsDepth)
    {
      hide SpansOk, FactsOf, UsesOf, FactOf, OpOf, GraphicsDepth, WarningsOf, Warned, EventsOf, EventOf;
      OneMore(steps, step);
      GraphicsOneMore(steps, step, limits.maxGraphicsDepth);
      facts := facts + [fact];
      var name := FirstName(operands);
      if FamilyOf(op).Some? && name.Some? {
        resourceUses := resourceUses + [ResourceUse(FamilyOf(op).value, name.value, op)];
      }
      if op == "q" {
        if graphicsDepth >= limits.maxGraphicsDepth {
          warnings := warnings + [GraphicsCapReached];
        } else {
          graphicsDepth := graphicsDepth + 1;
        }
      } else if op == "Q" {
        graphicsDepth := if graphicsDepth == 0 then 0 else graphicsDepth - 1;
      }
    }

    /** An operator by its name, its operands and what follows it. */
    method ClassifyOperator(word: seq<byte>, parser: ContentTokenizer) returns (r: Result<()>)
      requires parser.Valid() && parser.limits == limits
      requires Records() && BufferOk() && operatorsSeen == |steps| + 1 <= limits.maxOps
      requires warnings == WarningsOf(steps, limits.maxGraphicsDepth) + Warned(emptied, OperandCapReached)
      modifies `facts, `resourceUses, `graphicsDepth, `warnings, `steps, `spans, `markedStack, `markedDepth, parser`pos
      ensures parser.Valid()
      ensures var image := ImageAfter(word, old(parser.Rest()), limits, parser.isNumber);
              if image.Bad? then r == Err(image.error)
              else
                && Classified(r, old(steps), Step(word, operands, image.value, emptied))
                && (r.Ok? ==> parser.Rest() == image.rest)
    {
      hide Records, Recorded, FactOf, FaultOf, EventOf, WarningsOf, Warned, ParseImage;
      var op := Characters(word);
      ghost var step := Step(word, operands, None, emptied);
      if op == "BI" {
        var image := parser.ParseInlineImage();
        if image.Err? {
          return Err(image.error);
        }
        step := Step(word, operands, Some(image.value), emptied);
        ImageStep(step);
        Record(InlineImageFact(Some(image.value)), op, step);
        ShowOnPage(false, step);
        return Ok(());
      }
      r := ClassifyByName(op, step);
    }

    /** What one operator did: nothing when it is at fault, and otherwise it is one more step. */
    ghost predicate Classified(r: Result<()>, before: seq<Step>, step: Step)
      reads this
    {
      if FaultOf(step, limits).Some? then r == Err(FaultOf(step, limits).value)
      else
        && r.Ok? && steps == before + [step] && Records() && operatorsSeen == |steps| <= limits.maxOps
        && warnings == WarningsOf(steps, limits.maxGraphicsDepth)
    }

    /** The operators without an image. */
    method ClassifyByName(op: string, ghost step: Step) returns (r: Result<()>)
      requires step == Step(step.word, operands, None, emptied) && op == OpOf(step) && op != "BI"
      requires Records() && BufferOk() && operatorsSeen == |steps| + 1 <= limits.maxOps
      requires warnings == WarningsOf(steps, limits.maxGraphicsDepth) + Warned(emptied, OperandCapReached)
      modifies `facts, `resourceUses, `graphicsDepth, `warnings, `steps, `spans, `markedStack, `markedDepth
      ensures Classified(r, old(steps), step)
    {
      hide Records, Recorded, FirstName, WarningsOf, Warned, IsPlain, IsColor, FamilyOf, GraphicsDepth, OpOf;
      if IsShow(op) {
        Record(TextShowFact(operandBytes), op, step);
        ShowOnPage(true, step);
      } else if IsMarking(op) {
        var name := FirstName(operands);
        if name.None? && limits.maxNameBytes < |UNKNOWN| {
          return Err(LimitExceeded(MaxNameBytes));
        }
        var tag := if name.Some? then name.value else UNKNOWN;
        Record(MarkedContentFact(tag), op, step);
        if op == "BMC" || op == "BDC" {
          BeginSpan(tag, step);
        } else {
          Pass(step);
        }
      } else if op == "EMC" {
        if limits.maxNameBytes < |EMC| {
          return Err(LimitExceeded(MaxNameBytes));
        }
        Record(MarkedContentFact(EMC), op, step);
        EndSpan(step);
      } else {
        r := ClassifyOther(op, step);
        return;
      }
      return Ok(());
    }

    /** The operators that neither open, close nor show text; `Do` may show an image. */
    method ClassifyOther(op: string, ghost step: Step) returns (r: Result<()>)
      requires step == Step(step.word, operands, None, emptied) && op == OpOf(step)
      requires op != "BI" && op != "EMC" && !IsShow(op) && !IsMarking(op)
      requires Records() && BufferOk() && operatorsSeen == |steps| + 1 <= limits.maxOps
      requires warnings == WarningsOf(steps, limits.maxGraphicsDepth) + Warned(emptied, OperandCapReached)
      modifies `facts, `resourceUses, `graphicsDepth, `warnings, `steps, `spans
      ensures Classified(r, old(steps), step)
    {
      hide Records, Recorded, FirstName, WarningsOf, Warned, FamilyOf, GraphicsDepth, OpOf, IsPlain, IsColor;
      var name := FirstName(operands);
      if op == "Do" && name.Some? {
        Record(XObjectFact(name.value), op, step);
        ShowOnPage(false, step);
        return Ok(());
      }
      if IsPlain(op) {
        Record(PlainFact(op), op, step);
      } else {
        if |operands| > 0xFFFF {
          return Err(LimitExceeded(MaxOperandCount));
        }
        if IsColor(op) {
          Record(ColorFact(op, |operands|, operandBytes), op, step);
        } else {
          Record(UnknownFact(op, |operands|), op, step);
        }
      }
      Pass(step);
      return Ok(());
    }

    method ClearBuffer()
      modifies `operands, `operandBytes, `emptied
      ensures BufferOk() && operands == [] && emptied == 0
    {
      operands, operandBytes, emptied := [], 0, 0;
    }

    method TakeOperand(operand: Operand) returns (r: Result<()>)
      requires Faithful()
      modifies `operands, `operandBytes, `warnings, `emptied
      ensures r.Ok? ==> Faithful()
      ensures if TotalBytes(old(operands)) + ByteLen(operand) > 0xFFFF_FFFF_FFFF_FFFF then r == Err(ArithmeticOverflow)
              else if CapReached(old(operands), operand, limits) then
                r.Ok? && operands == [] && emptied == old(emptied) + 1
              else r.Ok? && operands == old(operands) + [operand] && emptied == old(emptied)
    {
      hide Records, WarningsOf, TotalBytes, ByteLen, CapReached;
      r := PushOperand(operand);
      assert old(warnings) + [OperandCapReached]
             == WarningsOf(steps, limits.maxGraphicsDepth) + (Warned(old(emptied), OperandCapReached) + [OperandCapReached]);
    }

    /** One operator taken in; false when the cap on operators has been reached. */
    method TakeOperator(word: seq<byte>, parser: ContentTokenizer) returns (r: Result<bool>)
      requires parser.Valid() && parser.limits == limits && Faithful()
      modifies this, parser`pos
      ensures parser.Valid() && truncated == old(truncated)
      ensures old(|steps|) >= limits.maxOps ==>
                r == Ok(false) && Faithful() && unchanged(this)
      ensures old(|steps|) < limits.maxOps ==>
                var image := ImageAfter(word, old(parser.Rest()), limits, parser.isNumber);
                if image.Bad? then r == Err(image.error)
                else
                  var step := Step(word, old(operands), image.value, old(emptied));
                  if FaultOf(step, limits).Some? then r == Err(FaultOf(step, limits).value)
                  else
                    && r == Ok(true) && parser.Rest() == image.rest && steps == old(steps) + [step]
                    && operands == [] && emptied == 0 && Faithful()
    {
      hide Records, FaultOf, ImageAfter, WarningsOf;
      if operatorsSeen >= limits.maxOps {
        return Ok(false);
      }
      operatorsSeen := operatorsSeen + 1;
      var classified := ClassifyOperator(word, parser);
      if classified.Err? {
        return Err(classified.error);
      }
      ClearBuffer();
      assert Warned(0, OperandCapReached) == [];
      return Ok(true);
    }

    /** Takes in tokens up to the end, which is true, or the cap on operators, which is false. `read` and
        `left` are what has been read and what reading on would have meant where this stopped. */
    method TakeTokens(parser: ContentTokenizer) returns (r: Result<bool>, ghost read: seq<Step>, ghost left: Content)
      requires parser.Valid() && parser.limits == limits && Faithful() && steps == [] && !truncated
      modifies this, parser`pos
      ensures Prepend(read, left)
              == old(ContentOf(parser.Rest(), operands, emptied, 0, limits, parser.isNumber))
      ensures r.Err? ==> left.ending == Failed(r.error)
      ensures r.Ok? ==>
                && Faithful() && !truncated && read == steps
                && left == Content([], operands, emptied, if r.value then Finished else OutOfOperators)
    {
      hide Faithful, Records, FaultOf, ImageAfter, WarningsOf, Warned, NextToken, TotalBytes, ByteLen, CapReached, Prepend;
      ghost var content := ContentOf(parser.Rest(), operands, emptied, 0, limits, parser.isNumber);
      PrependNothing(content);
      while true
        invariant parser.Valid() && Faithful() && !truncated
        invariant Prepend(steps, ContentOf(parser.Rest(), operands, emptied, |steps|, limits, parser.isNumber)) == content
        decreases |parser.Rest()|
      {
        read, left := steps, ContentOf(parser.Rest(), operands, emptied, |steps|, limits, parser.isNumber);
        var token := parser.NextToken();
        if token.Err? {
          return Err(token.error), read, left;
        }
        match token.value {
          case None =>
            return Ok(true), read, left;
          case Some(OperandToken(operand)) =>
            var pushed := TakeOperand(operand);
            if pushed.Err? {
              return Err(pushed.error), read, left;
            }
          case Some(OperatorToken(word)) =>
            var taken := TakeOperator(word, parser);
            if taken.Err? {
              return Err(taken.error), read, left;
            }
            if !taken.value {
              return Ok(false), read, left;
            }
            PrependTwice(
              read, [steps[|read|]], ContentOf(parser.Rest(), [], 0, |steps|, limits, parser.isNumber));
        }
      }
    }

    method Finish(complete: bool)
      requires !truncated
      modifies `truncated, `warnings
      ensures truncated == !complete
      ensures warnings == old(warnings) + (if complete then [] else [OperatorCapReached])
                          + (if operands != [] then [DanglingOperands] else [])
    {
      if !complete {
        truncated := true;
        warnings := warnings + [OperatorCapReached];
      }
      if operands != [] {
        warnings := warnings + [DanglingOperands];
      }
    }

    /** Summarises a decoded content stream: what is recorded is what its bytes say, up to the first
        error or the cap on operators. */
    method Summarize(decoded: seq<byte>, isNumber: NumberTest) returns (r: Result<()>)
      requires Faithful() && steps == [] && operands == [] && emptied == 0 && !truncated
      modifies this
      ensures var content := ContentOf(decoded, [], 0, 0, limits, isNumber);
              if content.ending.Failed? then r == Err(content.ending.error)
              else
                && r == Ok(()) && steps == content.steps && operands == content.operands
                && Records() && operatorsSeen == |steps| <= limits.maxOps
                && truncated == content.ending.OutOfOperators?
                && warnings == WarningsOf(steps, limits.maxGraphicsDepth) + Warned(content.emptied, OperandCapReached)
                               + (if truncated then [OperatorCapReached] else [])
                               + (if operands != [] then [DanglingOperands] else [])
    {
      hide Records, ContentOf, WarningsOf, Warned;
      var parser := new ContentTokenizer(decoded, limits, isNumber);
      var taken, read, left := TakeTokens(parser);
      if taken.Err? {
        return Err(taken.error);
      }
      assert read + [] == read;
      Finish(taken.value);
      return Ok(());
    }
  }

  lemma PrependNothing(content: Content)
    ensures Prepend([], content) == content
  {
    assert [] + content.steps == content.steps;
  }

  lemma ImageStep(step: Step)
    requires OpOf(step) == "BI"
    ensures FactOf(step) == InlineImageFact(step.image)
    ensures forall limits :: FaultOf(step, limits) == None
    ensures var e := EventOf(step); !IsBegin(e) && !IsEnd(e) && !IsText(e) && IsImage(e)
  {
  }

  lemma GraphicsOneMore(steps: seq<Step>, step: Step, max: u32)
    ensures var before := GraphicsDepth(steps, max);
            && GraphicsDepth(steps + [step], max)
               == (if OpOf(step) == "q" then (if before >= max then before else before + 1)
                   else if OpOf(step) == "Q" then (if before == 0 then 0 else before - 1)
                   else before)
            && WarningsOf(steps + [step], max)
               == WarningsOf(steps, max) + Warned(step.emptied, OperandCapReached)
                  + (if OpOf(step) == "q" && before >= max then [GraphicsCapReached] else [])
  {
    hide OpOf, Warned;
    assert (steps + [step])[..|steps|] == steps;
  }
}
