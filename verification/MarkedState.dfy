/** The marked-content part of a content summary, one operator at a time: which state it keeps, and what
    each kind of operator does to it. */
module MarkedState {
  import opened Bytes
  import opened Cos
  import opened MarkedContent

  ghost predicate Marked(events: seq<Event>, spans: seq<Span>, stack: seq<nat>, depth: u32) {
    && SpansAreBegins(events, spans)
    && StackIsOpen(events, spans, stack)
    && FlagsAreRight(events, spans)
    && (MostOpen(events) <= 0xFFFF_FFFF ==> depth == |stack| && DepthsAreRight(events, spans))
  }

  /** The spans with a flag set where the stack points. */
  function MarkedSpans(spans: seq<Span>, stack: seq<nat>, text: bool): (r: seq<Span>)
    ensures |r| == |spans|
  {
    seq(|spans|, i requires 0 <= i < |spans| =>
      if i !in stack then spans[i]
      else if text then spans[i].(hasText := true)
      else spans[i].(hasImage := true))
  }

  lemma MarkedNone(spans: seq<Span>, text: bool)
    ensures MarkedSpans(spans, [], text) == spans
  {
  }

  lemma MarkedOne(spans: seq<Span>, stack: seq<nat>, index: nat, text: bool)
    requires index < |spans|
    ensures var before := MarkedSpans(spans, stack, text);
            MarkedSpans(spans, stack + [index], text)
            == before[index := if text then before[index].(hasText := true) else before[index].(hasImage := true)]
  {
    assert forall i | 0 <= i < |spans| :: i in stack + [index] <==> i in stack || i == index;
  }

  lemma StackBounds(events: seq<Event>, spans: seq<Span>, stack: seq<nat>, depth: u32)
    requires Marked(events, spans, stack, depth)
    ensures forall p | 0 <= p < |stack| :: stack[p] < |spans|
  {
  }

  lemma {:induction false} DepthsKept(events: seq<Event>, e: Event, spans: seq<Span>, after: seq<Span>)
    requires SpansAreBegins(events, spans) && SpansAreBegins(events + [e], after) && |spans| <= |after|
    requires forall i | 0 <= i < |spans| ::
               after[i].nestingDepth == spans[i].nestingDepth && after[i].ordinal == spans[i].ordinal
    requires |after| > |spans| ==>
               && |after| == |spans| + 1 && after[|spans|].ordinal == |events| + 1
               && after[|spans|].nestingDepth == OpenCount(events + [e])
    ensures DepthsAreRight(events, spans) ==> DepthsAreRight(events + [e], after)
  {
    hide OpenCount, Begins;
    if DepthsAreRight(events, spans) {
      forall i | 0 <= i < |after|
        ensures after[i].nestingDepth == OpenCount((events + [e])[..after[i].ordinal])
      {
        if i < |spans| {
          DepthKept(events, e, spans, after[i], i);
        } else {
          CountKept(events, e, |events| + 1);
        }
      }
    }
  }

  lemma {:induction false} DepthKept(events: seq<Event>, e: Event, spans: seq<Span>, kept: Span, i: nat)
    requires SpansAreBegins(events, spans) && DepthsAreRight(events, spans) && i < |spans|
    requires kept.nestingDepth == spans[i].nestingDepth && kept.ordinal == spans[i].ordinal
    ensures kept.ordinal <= |events| && kept.nestingDepth == OpenCount((events + [e])[..kept.ordinal])
  {
    CountKept(events, e, kept.ordinal);
  }

  lemma {:induction false} CountKept(events: seq<Event>, e: Event, n: nat)
    requires n <= |events| + 1
    ensures OpenCount((events + [e])[..n]) == OpenCount(if n <= |events| then events[..n] else events + [e])
  {
    assert (events + [e])[..n] == if n <= |events| then events[..n] else events + [e];
  }

  lemma MostKept(events: seq<Event>, e: Event)
    ensures MostOpen(events) <= MostOpen(events + [e]) && OpenCount(events + [e]) <= MostOpen(events + [e])
  {
    CountNext(events, e);
  }

  lemma OtherMarked(events: seq<Event>, e: Event, spans: seq<Span>, stack: seq<nat>, depth: u32)
    requires Marked(events, spans, stack, depth) && !IsBegin(e) && !IsEnd(e) && !IsText(e) && !IsImage(e)
    ensures Marked(events + [e], spans, stack, depth)
  {
    hide StackIsOpen, DepthsAreRight, OpenCount, MostOpen, TextWithin, ImageWithin;
    StackKept(events, e, spans, stack);
    MostKept(events, e);
    DepthsKept(events, e, spans, spans);
    forall i | 0 <= i < |spans|
      ensures TextWithin(events + [e], spans[i].ordinal - 1) <==> TextWithin(events, spans[i].ordinal - 1)
      ensures ImageWithin(events + [e], spans[i].ordinal - 1) <==> ImageWithin(events, spans[i].ordinal - 1)
    {
      WithinNext(events, e, spans[i].ordinal - 1);
    }
  }

  lemma SameOrdinals(events: seq<Event>, spans: seq<Span>, after: seq<Span>, stack: seq<nat>)
    requires SpansAreBegins(events, spans) && StackIsOpen(events, spans, stack)
    requires |after| == |spans| && forall i | 0 <= i < |spans| :: after[i].ordinal == spans[i].ordinal
    ensures SpansAreBegins(events, after) && StackIsOpen(events, after, stack)
  {
    forall i | 0 <= i < |spans|
      ensures IsOpen(events, after, i) <==> IsOpen(events, spans, i)
    {
    }
  }

  lemma ShowMarked(events: seq<Event>, e: Event, spans: seq<Span>, stack: seq<nat>, depth: u32, text: bool)
    requires Marked(events, spans, stack, depth) && !IsBegin(e) && !IsEnd(e) && IsText(e) == text && IsImage(e) == !text
    ensures Marked(events + [e], MarkedSpans(spans, stack, text), stack, depth)
  {
    hide DepthsAreRight, OpenCount, MostOpen, TextWithin, ImageWithin, OpenAt;
    var after := MarkedSpans(spans, stack, text);
    StackKept(events, e, spans, stack);
    SameOrdinals(events + [e], spans, after, stack);
    MostKept(events, e);
    DepthsKept(events, e, spans, after);
    FlagsMarked(events, e, spans, stack, text);
  }

  lemma FlagsMarked(events: seq<Event>, e: Event, spans: seq<Span>, stack: seq<nat>, text: bool)
    requires SpansAreBegins(events, spans) && StackIsOpen(events, spans, stack) && FlagsAreRight(events, spans)
    requires SpansAreBegins(events + [e], MarkedSpans(spans, stack, text))
    requires IsText(e) == text && IsImage(e) == !text
    ensures FlagsAreRight(events + [e], MarkedSpans(spans, stack, text))
  {
    hide TextWithin, ImageWithin, OpenAt, OpenCount, Balance;
    var after := MarkedSpans(spans, stack, text);
    forall i | 0 <= i < |after|
      ensures after[i].hasText <==> TextWithin(events + [e], after[i].ordinal - 1)
      ensures after[i].hasImage <==> ImageWithin(events + [e], after[i].ordinal - 1)
    {
      WithinNext(events, e, spans[i].ordinal - 1);
      assert i in stack <==> IsOpen(events, spans, i);
    }
  }

  lemma BeginMarked(events: seq<Event>, e: Event, spans: seq<Span>, stack: seq<nat>, depth: u32, tag: seq<byte>)
    requires Marked(events, spans, stack, depth) && IsBegin(e) && !IsEnd(e) && !IsText(e) && !IsImage(e)
    ensures var deeper := if depth == 0xFFFF_FFFF then depth else depth + 1;
            var span := Span(tag, deeper, |events| + 1, false, false);
            Marked(events + [e], spans + [span], stack + [|spans|], deeper)
  {
    hide DepthsAreRight, MostOpen, TextWithin, ImageWithin, OpenAt;
    var deeper := if depth == 0xFFFF_FFFF then depth else depth + 1;
    var span := Span(tag, deeper, |events| + 1, false, false);
    StackGrows(events, e, spans, stack, span);
    MostKept(events, e);
    CountNext(events, e);
    if MostOpen(events + [e]) <= 0xFFFF_FFFF {
      DepthsKept(events, e, spans, spans + [span]);
    }
    FlagsGrow(events, e, spans, span);
  }

  lemma FlagsGrow(events: seq<Event>, e: Event, spans: seq<Span>, span: Span)
    requires SpansAreBegins(events, spans) && FlagsAreRight(events, spans)
    requires SpansAreBegins(events + [e], spans + [span])
    requires span.ordinal == |events| + 1 && !span.hasText && !span.hasImage && !IsText(e) && !IsImage(e)
    ensures FlagsAreRight(events + [e], spans + [span])
  {
    hide OpenAt, OpenCount, Balance;
    var all := spans + [span];
    forall i | 0 <= i < |all|
      ensures all[i].hasText <==> TextWithin(events + [e], all[i].ordinal - 1)
      ensures all[i].hasImage <==> ImageWithin(events + [e], all[i].ordinal - 1)
    {
      if i < |spans| {
        WithinNext(events, e, spans[i].ordinal - 1);
      }
    }
  }

  lemma EndMarked(events: seq<Event>, e: Event, spans: seq<Span>, stack: seq<nat>, depth: u32)
    requires Marked(events, spans, stack, depth) && IsEnd(e) && !IsBegin(e) && !IsText(e) && !IsImage(e)
    ensures Marked(
      events + [e], spans, if stack == [] then [] else stack[..|stack| - 1], if depth == 0 then 0 else depth - 1)
  {
    hide StackIsOpen, DepthsAreRight, OpenCount, MostOpen, TextWithin, ImageWithin;
    StackShrinks(events, e, spans, stack);
    MostKept(events, e);
    DepthsKept(events, e, spans, spans);
    forall i | 0 <= i < |spans|
      ensures TextWithin(events + [e], spans[i].ordinal - 1) <==> TextWithin(events, spans[i].ordinal - 1)
      ensures ImageWithin(events + [e], spans[i].ordinal - 1) <==> ImageWithin(events, spans[i].ordinal - 1)
    {
      WithinNext(events, e, spans[i].ordinal - 1);
    }
  }

  /** In every state the steps above lead to, every span's depth is the number of spans open there exactly when
      no more are ever open at once than 32 bits count. */
  lemma DepthsFitIff(events: seq<Event>, spans: seq<Span>, stack: seq<nat>, depth: u32)
    requires Marked(events, spans, stack, depth)
    ensures DepthsAreRight(events, spans) <==> MostOpen(events) <= 0xFFFF_FFFF
  {
    if MostOpen(events) > 0xFFFF_FFFF {
      DepthsFail(events, spans);
    }
  }
}
