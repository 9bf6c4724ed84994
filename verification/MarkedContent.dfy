/** Marked content in a run of operators: which spans are open where, told from the operators alone. */
module MarkedContent {
  import opened Bytes
  import opened Cos

  /** An operator of a content stream, and whether a name stood among its operands. */
  datatype Event = Event(op: string, named: bool)

  predicate IsBegin(e: Event) {
    e.op == "BMC" || e.op == "BDC"
  }

  predicate IsEnd(e: Event) {
    e.op == "EMC"
  }

  predicate IsText(e: Event) {
    e.op == "Tj" || e.op == "TJ" || e.op == "'" || e.op == "\""
  }

  predicate IsImage(e: Event) {
    e.op == "BI" || (e.op == "Do" && e.named)
  }

  function Delta(e: Event): int {
    if IsBegin(e) then 1 else if IsEnd(e) then -1 else 0
  }

  /** Beginnings less ends between two positions. */
  function Balance(events: seq<Event>, from: nat, until: nat): int
    requires from <= until <= |events|
    decreases until - from
  {
    if from == until then 0
    else Balance(events, from, until - 1) + Delta(events[until - 1])
  }

  /** The span begun at `b` has not been ended before `t`: from `b` on, ends never outnumber beginnings. */
  ghost predicate OpenAt(events: seq<Event>, b: nat, t: nat)
    requires b < |events| && t <= |events|
  {
    forall e | b < e < t :: NotEnded(events, b, e)
  }

  predicate NotEnded(events: seq<Event>, b: nat, e: nat)
    requires b < e < |events|
  {
    Balance(events, b + 1, e + 1) >= 0
  }

  /** How many spans are open at the end; an end without a beginning changes nothing. */
  function OpenCount(events: seq<Event>): nat {
    if events == [] then 0
    else
      var before := OpenCount(events[..|events| - 1]);
      var last := events[|events| - 1];
      if IsBegin(last) then before + 1 else if IsEnd(last) && before > 0 then before - 1 else before
  }

  function MostOpen(events: seq<Event>): nat {
    if events == [] then 0
    else
      var before := MostOpen(events[..|events| - 1]);
      if before < OpenCount(events) then OpenCount(events) else before
  }

  /** A marked-content span; `ordinal` counts its operator from one. */
  datatype Span = Span(tag: seq<byte>, nestingDepth: u32, ordinal: nat, hasText: bool, hasImage: bool)

  /** The ordinals of the beginnings, in order. */
  function Begins(events: seq<Event>): (r: seq<nat>)
    ensures forall i | 0 <= i < |r| :: 1 <= r[i] <= |events|
    decreases |events|
  {
    if events == [] then []
    else
      Begins(events[..|events| - 1]) + (if IsBegin(events[|events| - 1]) then [|events|] else [])
  }

  /** Every beginning is among them, and nothing else. */
  lemma {:induction false} BeginsAreAll(events: seq<Event>, n: nat)
    ensures n in Begins(events) <==> 1 <= n <= |events| && IsBegin(events[n - 1])
    decreases |events|
  {
    if events != [] {
      var before := events[..|events| - 1];
      BeginsAreAll(before, n);
      assert 1 <= n < |events| ==> before[n - 1] == events[n - 1];
    }
  }

  /** The spans are the beginnings. */
  ghost predicate SpansAreBegins(events: seq<Event>, spans: seq<Span>) {
    |spans| == |Begins(events)| && forall i | 0 <= i < |spans| :: spans[i].ordinal == Begins(events)[i]
  }

  ghost predicate IsOpen(events: seq<Event>, spans: seq<Span>, i: nat)
    requires SpansAreBegins(events, spans) && i < |spans|
  {
    OpenAt(events, spans[i].ordinal - 1, |events|)
  }

  /** The stack holds the open spans, and each has as many unended beginnings behind it as lie above it. */
  ghost predicate StackIsOpen(events: seq<Event>, spans: seq<Span>, stack: seq<nat>)
    requires SpansAreBegins(events, spans)
  {
    && |stack| == OpenCount(events)
    && (forall p | 0 <= p < |stack| :: stack[p] < |spans|)
    && (forall p, q | 0 <= p < q < |stack| :: stack[p] < stack[q])
    && (forall i | 0 <= i < |spans| :: i in stack <==> IsOpen(events, spans, i))
    && (forall p | 0 <= p < |stack| :: Balance(events, spans[stack[p]].ordinal, |events|) == |stack| - 1 - p)
  }

  ghost predicate TextWithin(events: seq<Event>, b: nat)
    requires b < |events|
  {
    exists t :: b < t < |events| && IsText(events[t]) && OpenAt(events, b, t)
  }

  ghost predicate ImageWithin(events: seq<Event>, b: nat)
    requires b < |events|
  {
    exists t :: b < t < |events| && IsImage(events[t]) && OpenAt(events, b, t)
  }

  /** A span has text, or an image, exactly when such an operator comes while it is open. */
  ghost predicate FlagsAreRight(events: seq<Event>, spans: seq<Span>)
    requires SpansAreBegins(events, spans)
  {
    forall i | 0 <= i < |spans| ::
      && (spans[i].hasText <==> TextWithin(events, spans[i].ordinal - 1))
      && (spans[i].hasImage <==> ImageWithin(events, spans[i].ordinal - 1))
  }

  ghost predicate DepthsAreRight(events: seq<Event>, spans: seq<Span>)
    requires SpansAreBegins(events, spans)
  {
    forall i | 0 <= i < |spans| :: spans[i].nestingDepth == OpenCount(events[..spans[i].ordinal])
  }

  // ---------------------------------------------------------------------------------------------
  // One more operator
  // ---------------------------------------------------------------------------------------------

  lemma {:induction false} BalanceKept(events: seq<Event>, e: Event, from: nat, until: nat)
    requires from <= until <= |events|
    ensures Balance(events + [e], from, until) == Balance(events, from, until)
    decreases until - from
  {
    if from < until {
      BalanceKept(events, e, from, until - 1);
    }
  }

  lemma BalanceNext(events: seq<Event>, e: Event, from: nat)
    requires from <= |events|
    ensures Balance(events + [e], from, |events| + 1)
         == Balance(events, from, |events|) + Delta(e)
  {
    BalanceKept(events, e, from, |events|);
  }

  lemma OpenKept(events: seq<Event>, e: Event, b: nat, t: nat)
    requires b < |events| && t <= |events|
    ensures OpenAt(events + [e], b, t) <==> OpenAt(events, b, t)
  {
    forall k | b < k < t
      ensures NotEnded(events + [e], b, k) <==> NotEnded(events, b, k)
    {
      BalanceKept(events, e, b + 1, k + 1);
    }
  }

  lemma OpenNext(events: seq<Event>, e: Event, b: nat)
    requires b < |events|
    ensures OpenAt(events + [e], b, |events| + 1) <==>
            && OpenAt(events, b, |events|)
            && Balance(events, b + 1, |events|) + Delta(e) >= 0
  {
    OpenKept(events, e, b, |events|);
    BalanceNext(events, e, b + 1);
    if OpenAt(events + [e], b, |events| + 1) {
      assert NotEnded(events + [e], b, |events|);
    }
  }

  lemma CountNext(events: seq<Event>, e: Event)
    ensures var before := OpenCount(events);
            OpenCount(events + [e]) ==
            if IsBegin(e) then before + 1 else if IsEnd(e) && before > 0 then before - 1 else before
    ensures var now := OpenCount(events + [e]);
            MostOpen(events + [e]) == if MostOpen(events) < now then now else MostOpen(events)
  {
    assert (events + [e])[..|events|] == events;
  }

  /** Any operator but a beginning leaves the spans the beginnings. */
  lemma BeginsKept(events: seq<Event>, e: Event, spans: seq<Span>)
    requires SpansAreBegins(events, spans) && !IsBegin(e)
    ensures SpansAreBegins(events + [e], spans)
  {
    assert (events + [e])[..|events|] == events;
  }

  lemma BeginsGrow(events: seq<Event>, e: Event, spans: seq<Span>, span: Span)
    requires SpansAreBegins(events, spans) && IsBegin(e) && span.ordinal == |events| + 1
    ensures SpansAreBegins(events + [e], spans + [span])
  {
    assert (events + [e])[..|events|] == events;
  }

  lemma OpenHasBalance(events: seq<Event>, spans: seq<Span>, stack: seq<nat>, i: nat) returns (p: nat)
    requires SpansAreBegins(events, spans) && StackIsOpen(events, spans, stack) && i in stack
    ensures p < |stack| && stack[p] == i && Balance(events, spans[i].ordinal, |events|) == |stack| - 1 - p
  {
    p :| 0 <= p < |stack| && stack[p] == i;
  }

  /** An operator that neither begins nor ends a span leaves the stack right. */
  lemma StackKept(events: seq<Event>, e: Event, spans: seq<Span>, stack: seq<nat>)
    requires SpansAreBegins(events, spans) && StackIsOpen(events, spans, stack) && !IsBegin(e) && !IsEnd(e)
    ensures SpansAreBegins(events + [e], spans) && StackIsOpen(events + [e], spans, stack)
  {
    BeginsKept(events, e, spans);
    CountNext(events, e);
    forall i | 0 <= i < |spans|
      ensures IsOpen(events + [e], spans, i) <==> IsOpen(events, spans, i)
    {
      OpenNext(events, e, spans[i].ordinal - 1);
      if i in stack {
        var p := OpenHasBalance(events, spans, stack, i);
      }
    }
    forall p | 0 <= p < |stack|
      ensures Balance(events + [e], spans[stack[p]].ordinal, |events| + 1) == |stack| - 1 - p
    {
      BalanceNext(events, e, spans[stack[p]].ordinal);
    }
  }

  lemma StackGrows(events: seq<Event>, e: Event, spans: seq<Span>, stack: seq<nat>, span: Span)
    requires SpansAreBegins(events, spans) && StackIsOpen(events, spans, stack)
    requires IsBegin(e) && !IsEnd(e) && span.ordinal == |events| + 1
    ensures SpansAreBegins(events + [e], spans + [span])
    ensures StackIsOpen(events + [e], spans + [span], stack + [|spans|])
  {
    var more, all, grown := events + [e], spans + [span], stack + [|spans|];
    BeginsGrow(events, e, spans, span);
    CountNext(events, e);
    forall i | 0 <= i < |spans|
      ensures IsOpen(more, all, i) <==> IsOpen(events, spans, i)
      ensures i in grown <==> i in stack
    {
      OpenNext(events, e, spans[i].ordinal - 1);
      if i in stack {
        var p := OpenHasBalance(events, spans, stack, i);
        assert grown[p] == i;
      }
    }
    assert grown[|stack|] == |spans|;
    forall p | 0 <= p < |grown|
      ensures Balance(more, all[grown[p]].ordinal, |more|) == |grown| - 1 - p
    {
      if p < |stack| {
        BalanceNext(events, e, spans[stack[p]].ordinal);
      }
    }
  }

  /** An end closes the span on top of the stack, and no other. */
  lemma StackShrinks(events: seq<Event>, e: Event, spans: seq<Span>, stack: seq<nat>)
    requires SpansAreBegins(events, spans) && StackIsOpen(events, spans, stack) && IsEnd(e) && !IsBegin(e)
    ensures SpansAreBegins(events + [e], spans)
    ensures StackIsOpen(events + [e], spans, if stack == [] then [] else stack[..|stack| - 1])
  {
    var more := events + [e];
    var left := if stack == [] then [] else stack[..|stack| - 1];
    BeginsKept(events, e, spans);
    CountNext(events, e);
    forall i | 0 <= i < |spans|
      ensures i in left <==> IsOpen(more, spans, i)
    {
      StillOpen(events, e, spans, stack, i);
    }
    forall p | 0 <= p < |left|
      ensures Balance(more, spans[left[p]].ordinal, |more|) == |left| - 1 - p
    {
      BalanceNext(events, e, spans[stack[p]].ordinal);
    }
  }

  /** After an end, the open spans are those below the top of the stack. */
  lemma StillOpen(events: seq<Event>, e: Event, spans: seq<Span>, stack: seq<nat>, i: nat)
    requires SpansAreBegins(events, spans) && StackIsOpen(events, spans, stack) && IsEnd(e) && !IsBegin(e)
    requires SpansAreBegins(events + [e], spans) && i < |spans|
    ensures i in (if stack == [] then [] else stack[..|stack| - 1]) <==> IsOpen(events + [e], spans, i)
  {
    OpenNext(events, e, spans[i].ordinal - 1);
    if i in stack {
      var left := stack[..|stack| - 1];
      var p := OpenHasBalance(events, spans, stack, i);
      assert p < |left| ==> left[p] == i;
      if i in left {
        var q :| 0 <= q < |left| && left[q] == i;
        assert stack[q] == i;
      }
    }
  }

  /** With one more operator, a span has text when it had, or when the operator shows text while the
      span is open. */
  lemma WithinNext(events: seq<Event>, e: Event, b: nat)
    requires b < |events|
    ensures TextWithin(events + [e], b) <==> TextWithin(events, b) || (IsText(e) && OpenAt(events, b, |events|))
    ensures ImageWithin(events + [e], b) <==> ImageWithin(events, b) || (IsImage(e) && OpenAt(events, b, |events|))
  {
    TextNext(events, e, b);
    ImageNext(events, e, b);
  }

  lemma TextNext(events: seq<Event>, e: Event, b: nat)
    requires b < |events|
    ensures TextWithin(events + [e], b) <==> TextWithin(events, b) || (IsText(e) && OpenAt(events, b, |events|))
  {
    var more := events + [e];
    if TextWithin(more, b) {
      var t :| b < t < |more| && IsText(more[t]) && OpenAt(more, b, t);
      OpenKept(events, e, b, t);
      assert t < |events| ==> events[t] == more[t];
    }
    if TextWithin(events, b) {
      var t :| b < t < |events| && IsText(events[t]) && OpenAt(events, b, t);
      OpenKept(events, e, b, t);
      assert more[t] == events[t];
    }
    if IsText(e) && OpenAt(events, b, |events|) {
      OpenKept(events, e, b, |events|);
      assert more[|events|] == e;
    }
  }

  lemma ImageNext(events: seq<Event>, e: Event, b: nat)
    requires b < |events|
    ensures ImageWithin(events + [e], b) <==> ImageWithin(events, b) || (IsImage(e) && OpenAt(events, b, |events|))
  {
    var more := events + [e];
    if ImageWithin(more, b) {
      var t :| b < t < |more| && IsImage(more[t]) && OpenAt(more, b, t);
      OpenKept(events, e, b, t);
      assert t < |events| ==> events[t] == more[t];
    }
    if ImageWithin(events, b) {
      var t :| b < t < |events| && IsImage(events[t]) && OpenAt(events, b, t);
      OpenKept(events, e, b, t);
      assert more[t] == events[t];
    }
    if IsImage(e) && OpenAt(events, b, |events|) {
      OpenKept(events, e, b, |events|);
      assert more[|events|] == e;
    }
  }

  // ---------------------------------------------------------------------------------------------
  // Depths
  // ---------------------------------------------------------------------------------------------

  lemma {:induction false} CountAtMostMost(events: seq<Event>, n: nat)
    requires n <= |events|
    ensures OpenCount(events[..n]) <= MostOpen(events)
    decreases |events|
  {
    if n < |events| {
      assert events[..|events| - 1][..n] == events[..n];
      CountAtMostMost(events[..|events| - 1], n);
    } else {
      assert events[..n] == events;
      if events != [] {
        CountNext(events[..n - 1], events[n - 1]);
        assert events[..n - 1] + [events[n - 1]] == events;
      }
    }
  }

  /** Where the count first exceeds a bound, a span begins. */
  lemma {:induction false} ExceedsAtBegin(events: seq<Event>, bound: nat) returns (t: nat)
    requires MostOpen(events) > bound
    ensures t < |events| && IsBegin(events[t]) && OpenCount(events[..t + 1]) > bound
    decreases |events|
  {
    var before := events[..|events| - 1];
    var last := events[|events| - 1];
    assert before + [last] == events;
    CountNext(before, last);
    if MostOpen(before) > bound {
      t := ExceedsAtBegin(before, bound);
      assert before[..t + 1] == events[..t + 1];
    } else {
      t := |events| - 1;
      CountAtMostMost(before, |before|);
      assert before[..|before|] == before;
      assert events[..t + 1] == events;
    }
  }

  /** Where more spans are ever open at once than 32 bits count, some span's depth is wrong. */
  lemma DepthsFail(events: seq<Event>, spans: seq<Span>)
    requires SpansAreBegins(events, spans) && MostOpen(events) > 0xFFFF_FFFF
    ensures !DepthsAreRight(events, spans)
  {
    var t := ExceedsAtBegin(events, 0xFFFF_FFFF);
    BeginsAreAll(events, t + 1);
    var i :| 0 <= i < |spans| && Begins(events)[i] == t + 1;
    assert spans[i].nestingDepth != OpenCount(events[..spans[i].ordinal]);
  }
}
