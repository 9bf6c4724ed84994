/** Each token of a rule expression is read back, and read no further than it goes. */
module RuleTokens {
  import opened Bytes
  import opened Rules
  import opened RuleParsing
  import opened RuleSyntax

  // ---------------------------------------------------------------------------------------------
  // White space and identifiers
  // ---------------------------------------------------------------------------------------------

  lemma {:induction false} SkipWhite(white: string, rest: string)
    requires AllSpace(white)
    ensures SkipWs(white + rest) == SkipWs(rest)
  {
    if white == "" {
      assert white + rest == rest;
    } else {
      assert (white + rest)[1..] == white[1..] + rest;
      SkipWhite(white[1..], rest);
    }
  }

  lemma SkipToToken(white: string, token: string)
    requires AllSpace(white) && token != "" && !IsSpace(token[0])
    ensures SkipWs(white + token) == token
  {
    SkipWhite(white, token);
  }

  lemma At1(s: string, c: char)
    ensures At(s, [c]) <==> s != "" && s[0] == c
    ensures At([c] + s, [c]) && ([c] + s)[1..] == s
  {
  }

  predicate NameEnds(rest: string) {
    rest == "" || !IsIdentifierChar(rest[0])
  }

  lemma {:induction false} IdentifierRunIs(name: string, rest: string)
    requires forall k | 0 <= k < |name| :: IsIdentifierChar(name[k])
    requires NameEnds(rest)
    ensures IdentifierRun(name + rest) == |name|
  {
    if name == "" {
      assert name + rest == rest;
    } else {
      assert (name + rest)[1..] == name[1..] + rest;
      IdentifierRunIs(name[1..], rest);
    }
  }

  lemma IdentifierReads(name: string, rest: string)
    requires IsIdentifierText(name) && NameEnds(rest)
    ensures ParseIdentifier(name + rest) == Got(name, rest)
  {
    IdentifierRunIs(name, rest);
    assert (name + rest)[..|name|] == name && (name + rest)[|name|..] == rest;
  }

  // ---------------------------------------------------------------------------------------------
  // Numbers
  // ---------------------------------------------------------------------------------------------

  predicate NumberEnds(rest: string) {
    rest == "" || (!IsIdentifierChar(rest[0]) && rest[0] != '.')
  }

  lemma {:induction false} MantissaRunIs(mantissa: string, rest: string)
    requires forall k | 0 <= k < |mantissa| :: IsDigit(mantissa[k]) || mantissa[k] == '.'
    requires rest == "" || (!IsDigit(rest[0]) && rest[0] != '.')
    ensures MantissaRun(mantissa + rest) == |mantissa|
  {
    if mantissa == "" {
      assert mantissa + rest == rest;
    } else {
      assert (mantissa + rest)[1..] == mantissa[1..] + rest;
      MantissaRunIs(mantissa[1..], rest);
    }
  }

  lemma {:induction false} DigitRunIs(digits: string, rest: string)
    requires forall k | 0 <= k < |digits| :: IsDigit(digits[k])
    requires rest == "" || !IsDigit(rest[0])
    ensures DigitRun(digits + rest) == |digits|
  {
    if digits == "" {
      assert digits + rest == rest;
    } else {
      assert (digits + rest)[1..] == digits[1..] + rest;
      DigitRunIs(digits[1..], rest);
    }
  }

  lemma ExponentReads(exponent: string, rest: string)
    requires exponent == "" || ExponentOk(exponent)
    requires NumberEnds(rest)
    ensures ExponentLength(exponent + rest) == Some(|exponent|)
  {
    var s := exponent + rest;
    if exponent == "" {
      assert s == rest;
    } else {
      var sign := if exponent[1] == '+' || exponent[1] == '-' then 1 else 0;
      assert s[0] == exponent[0] && s[1] == exponent[1];
      var digits := if sign == 1 then exponent[2..] else exponent[1..];
      DigitRunIs(digits, rest);
      assert s[1 + sign..] == digits + rest;
    }
  }

  lemma NumberFrom(s: string, minus: nat, mantissa: string, exponent: string, rest: string)
    requires MinusLength(s) == minus && s[minus..] == mantissa + (exponent + rest)
    requires MantissaRun(mantissa + (exponent + rest)) == |mantissa|
    requires ExponentLength(exponent + rest) == Some(|exponent|) && IsMantissa(mantissa)
    ensures var end := minus + |mantissa| + |exponent|;
            end <= |s| && ParseNumber(s) == Got(NumberLit(s[..end]), s[end..])
  {
    hide MantissaRun, ExponentLength, IsMantissa, MinusLength;
    var unsigned := s[minus..];
    assert unsigned[..|mantissa|] == mantissa && unsigned[|mantissa|..] == exponent + rest;
  }

  lemma NumberReads(minus: string, mantissa: string, exponent: string, rest: string)
    requires NumberOk(minus, mantissa, exponent) && NumberEnds(rest)
    ensures var digits := minus + (mantissa + exponent);
            ParseNumber(digits + rest) == Got(NumberLit(digits), rest)
  {
    hide ExponentLength, MantissaRun, IsMantissa, ParseNumber;
    var digits := minus + (mantissa + exponent);
    var s := digits + rest;
    MantissaIsSome(mantissa);
    assert s == minus + (mantissa + (exponent + rest));
    MinusReads(minus, mantissa, exponent + rest);
    ExponentStarts(exponent, rest);
    MantissaRunIs(mantissa, exponent + rest);
    ExponentReads(exponent, rest);
    NumberFrom(s, |minus|, mantissa, exponent, rest);
    Pieces(digits, rest);
  }

  lemma Pieces(a: string, b: string)
    ensures (a + b)[..|a|] == a && (a + b)[|a|..] == b
  {
  }

  lemma MantissaIsSome(mantissa: string)
    requires IsMantissa(mantissa)
    ensures mantissa != ""
  {
  }

  lemma MinusReads(minus: string, mantissa: string, rest: string)
    requires (minus == "" || minus == "-") && mantissa != "" && (minus == "" ==> IsDigit(mantissa[0]))
    ensures var s := minus + (mantissa + rest); MinusLength(s) == |minus| && s[|minus|..] == mantissa + rest
  {
    var s := minus + (mantissa + rest);
    assert s[0] == if minus == "" then mantissa[0] else '-';
  }

  lemma ExponentStarts(exponent: string, rest: string)
    requires exponent == "" || ExponentOk(exponent)
    requires NumberEnds(rest)
    ensures exponent + rest == "" || (!IsDigit((exponent + rest)[0]) && (exponent + rest)[0] != '.')
  {
    assert exponent == "" ==> exponent + rest == rest;
  }

  // ---------------------------------------------------------------------------------------------
  // Strings, regexes and the content of lambda calls
  // ---------------------------------------------------------------------------------------------

  lemma {:induction false} StringTailIs(text: string, quote: char, rest: string)
    requires quote !in text
    ensures StringTail(text + ([quote] + rest), quote) == Some(|text|)
  {
    var s := text + ([quote] + rest);
    if text == "" {
      assert s[0] == quote;
    } else {
      assert s[0] == text[0] && s[1..] == text[1..] + ([quote] + rest);
      StringTailIs(text[1..], quote, rest);
    }
  }

  lemma Around(a: string, b: char, c: string)
    ensures (a + ([b] + c))[..|a|] == a && (a + ([b] + c))[|a| + 1..] == c
  {
  }

  /** Up to the closing mark, or to the end of the text where there is none, every character is one byte, or the
      way to it is cut off. */
  function EndingOf(s: string, mark: Option<nat>): Ending
    requires mark.Some? ==> mark.value < |s|
  {
    if !IsAsciiText(s[..if mark.Some? then mark.value else |s|]) then InsideCharacter
    else if mark.Some? then Closed(mark.value)
    else Endless
  }

  lemma AsciiJoin(a: string, b: string)
    ensures IsAsciiText(a + b) <==> IsAsciiText(a) && IsAsciiText(b)
  {
    if IsAsciiText(a + b) {
      assert forall k | 0 <= k < |a| :: a[k] == (a + b)[k];
      assert forall k | 0 <= k < |b| :: b[k] == (a + b)[|a| + k];
    }
  }

  lemma AsciiBehind(front: string, rest: string)
    requires IsAsciiText(front)
    ensures IsAsciiText(front + rest) <==> IsAsciiText(rest)
  {
    AsciiJoin(front, rest);
  }

  lemma EndingStep(s: string, mark: Option<nat>)
    requires s != "" && (mark.Some? ==> mark.value < |s| - 1)
    ensures EndingOf(s, Later(1, mark)) == if IsAscii(s[0]) then Delayed(1, EndingOf(s[1..], mark)) else InsideCharacter
  {
    var n := if mark.Some? then mark.value else |s| - 1;
    assert s[..n + 1] == [s[0]] + s[1..][..n];
    if IsAsciiText(s[1..][..n]) && IsAscii(s[0]) {
      assert IsAsciiText([s[0]] + s[1..][..n]);
    } else if !IsAscii(s[0]) {
      assert s[..n + 1][0] == s[0];
    } else {
      var k :| 0 <= k < n && !IsAscii(s[1..][..n][k]);
      assert s[..n + 1][k + 1] == s[1..][..n][k];
    }
  }

  lemma {:induction false} StringEndIs(s: string, quote: char)
    ensures StringEnd(s, quote) == EndingOf(s, StringTail(s, quote))
  {
    if s != "" && s[0] != quote {
      StringEndIs(s[1..], quote);
      EndingStep(s, StringTail(s[1..], quote));
    }
  }

  lemma {:induction false} RegexEndIs(s: string, escaped: bool)
    ensures RegexEnd(s, escaped) == EndingOf(s, RegexTail(s, escaped))
  {
    if s != "" && !(s[0] == '/' && !escaped) {
      RegexEndIs(s[1..], s[0] == '\\' && !escaped);
      EndingStep(s, RegexTail(s[1..], s[0] == '\\' && !escaped));
    }
  }

  lemma {:induction false} CallEndIs(s: string, depth: nat, quoting: Quoting)
    requires depth > 0
    ensures CallEnd(s, depth, quoting) == EndingOf(s, CallContent(s, depth, quoting))
    decreases |s|
  {
    if s != "" && !Closes(quoting, s[0], depth) {
      var d, q := DepthAfter(quoting, s[0], depth), QuotingAfter(quoting, s[0]);
      CallEndIs(s[1..], d, q);
      EndingStep(s, CallContent(s[1..], d, q));
    }
  }

  /** What is read, unless a character of several bytes stands in the way. */
  function OrPanics<T>(ascii: bool, r: Taken<T>): Taken<T> {
    if ascii then r else Panics
  }

  lemma LiteralReads(text: string, mark: char, rest: string, end: Ending, max: nat)
    requires |text| <= max && end == EndingOf(text + ([mark] + rest), Some(|text|))
    ensures Literal(text + ([mark] + rest), end, max) == OrPanics(IsAsciiText(text), Got(StringLit(text), rest))
  {
    Around(text, mark, rest);
  }

  lemma StringReads(quote: char, text: string, rest: string)
    requires quote !in text && |text| <= MAX_PROFILE_STRING_BYTES
    ensures ParseString([quote] + (text + ([quote] + rest))) == OrPanics(IsAsciiText(text), Got(StringLit(text), rest))
  {
    hide Literal, EndingOf, StringEnd;
    var tail := text + ([quote] + rest);
    var s := [quote] + tail;
    assert s[0] == quote && s[1..] == tail;
    StringTailIs(text, quote, rest);
    StringEndIs(tail, quote);
    LiteralReads(text, quote, rest, StringEnd(tail, quote), MAX_PROFILE_STRING_BYTES);
  }

  lemma {:induction false} RegexTailExtends(s: string, escaped: bool, more: string)
    requires RegexTail(s, escaped).Some?
    ensures RegexTail(s + more, escaped) == RegexTail(s, escaped)
  {
    assert (s + more)[0] == s[0] && (s + more)[1..] == s[1..] + more;
    if s[0] != '/' || escaped {
      RegexTailExtends(s[1..], s[0] == '\\' && !escaped, more);
    }
  }

  lemma RegexReads(pattern: string, rest: string)
    requires IsRegexText(pattern)
    ensures ParseRegex("/" + (pattern + ("/" + rest))) == OrPanics(IsAsciiText(pattern), Got(StringLit(pattern), rest))
  {
    hide Literal, EndingOf, RegexEnd, RegexTail;
    var tail := pattern + ("/" + rest);
    var s := "/" + tail;
    assert s[1..] == tail;
    RegexTailExtends(pattern + "/", false, rest);
    assert (pattern + "/") + rest == tail;
    RegexEndIs(tail, false);
    LiteralReads(pattern, '/', rest, RegexEnd(tail, false), MAX_REGEX_PATTERN_BYTES);
  }

  lemma {:induction false} CallContentExtends(s: string, depth: nat, quoting: Quoting, more: string)
    requires depth > 0 && CallContent(s, depth, quoting).Some?
    ensures CallContent(s + more, depth, quoting) == CallContent(s, depth, quoting)
    decreases |s|
  {
    assert (s + more)[0] == s[0] && (s + more)[1..] == s[1..] + more;
    if !Closes(quoting, s[0], depth) {
      CallContentExtends(s[1..], DepthAfter(quoting, s[0], depth), QuotingAfter(quoting, s[0]), more);
    }
  }

  lemma ContentEnds(content: string, rest: string)
    requires CallContent(content + ")", 1, Code) == Some(|content|)
    ensures CallEnd(content + (")" + rest), 1, Code) == if IsAsciiText(content) then Closed(|content|) else InsideCharacter
    ensures (content + (")" + rest))[..|content|] == content && (content + (")" + rest))[|content| + 1..] == rest
  {
    hide CallContent, CallEnd;
    CallContentExtends(content + ")", 1, Code, rest);
    assert (content + ")") + rest == content + (")" + rest);
    CallEndIs(content + (")" + rest), 1, Code);
    Around(content, ')', rest);
  }

  lemma LambdaReads(receiver: Expr, name: string, content: string, rest: string)
    requires (name == "filter" || name == "findIndex") && LambdaCall(receiver, name, content).Some?
    requires CallContent(content + ")", 1, Code) == Some(|content|)
    ensures ParseMethodCall(receiver, name, content + (")" + rest))
         == OrPanics(IsAsciiText(content), Got(LambdaCall(receiver, name, content).value, rest))
  {
    hide ParseLambda, CallContent, CallEnd, FilterCall, FindIndexCall;
    ContentEnds(content, rest);
  }

  // ---------------------------------------------------------------------------------------------
  // Paths
  // ---------------------------------------------------------------------------------------------

  /** A dot, a name and a parenthesis. */
  predicate MethodFollows(t: string) {
    At(t, ".") && ParseIdentifier(t[1..]).Got? && At(SkipWs(ParseIdentifier(t[1..]).rest), "(")
  }

  predicate PathEnds(rest: string) {
    && NameEnds(rest)
    && !At(SkipWs(rest), "(")
    && (At(SkipWs(rest), ".") ==> MethodFollows(SkipWs(rest)))
  }

  /** A part begins with its white space or its dot, so the name before it ends there. */
  lemma PartsStart(more: seq<Part>, rest: string)
    requires (forall k | 0 <= k < |more| :: PartOk(more[k])) && PathEnds(rest)
    ensures NameEnds(PartsText(more, rest)) && !At(SkipWs(PartsText(more, rest)), "(")
  {
    if more != [] {
      var token := "." + (more[0].name + PartsText(more[1..], rest));
      assert PartOk(more[0]);
      SkipToToken(more[0].white, token);
      var s := more[0].white + token;
      assert s[0] == if more[0].white == "" then '.' else more[0].white[0];
    }
  }

  lemma {:induction false} PartsRead(parts: seq<string>, more: seq<Part>, rest: string)
    requires (forall k | 0 <= k < |more| :: PartOk(more[k])) && PathEnds(rest)
    ensures MoreParts(parts, PartsText(more, rest)) == Got(Property(parts + NamesOf(more)), SkipWs(rest))
    decreases more
  {
    hide SkipWs, ParseIdentifier, PartOk, MapProperty;
    if more == [] {
      assert parts + NamesOf(more) == parts;
    } else {
      hide MoreParts, PathEnds, PartsText;
      PartsStep(parts, more, rest);
      PartsRead(parts + [MapProperty(more[0].name)], more[1..], rest);
      assert parts + [MapProperty(more[0].name)] + NamesOf(more[1..]) == parts + NamesOf(more);
    }
  }

  lemma {:induction false} PartsStep(parts: seq<string>, more: seq<Part>, rest: string)
    requires more != [] && (forall k | 0 <= k < |more| :: PartOk(more[k])) && PathEnds(rest)
    ensures MoreParts(parts, PartsText(more, rest))
         == MoreParts(parts + [MapProperty(more[0].name)], PartsText(more[1..], rest))
  {
    hide SkipWs, ParseIdentifier, MapProperty, MoreParts, PathEnds, NameEnds, PartOk, At;
    assert PartOk(more[0]);
    PartsStart(more[1..], rest);
    PartReads(parts, more[0], PartsText(more[1..], rest));
  }

  lemma PartReads(parts: seq<string>, p: Part, tail: string)
    requires PartOk(p) && NameEnds(tail) && !At(SkipWs(tail), "(")
    ensures MoreParts(parts, p.white + ("." + (p.name + tail))) == MoreParts(parts + [MapProperty(p.name)], tail)
  {
    hide SkipWs, ParseIdentifier, MapProperty;
    var token := "." + (p.name + tail);
    SkipToToken(p.white, token);
    assert token[1..] == p.name + tail;
    IdentifierReads(p.name, tail);
  }

  lemma PathReads(first: string, more: seq<Part>, rest: string)
    requires IsIdentifierText(first) && PropertyName(first).Some?
    requires (forall k | 0 <= k < |more| :: PartOk(more[k])) && PathEnds(rest)
    ensures ParseProperty(first + PartsText(more, rest))
         == Got(Property([MapProperty(first)] + NamesOf(more)), SkipWs(rest))
  {
    hide ParseIdentifier, MapProperty;
    var tail := PartsText(more, rest);
    PartsStart(more, rest);
    IdentifierReads(first, tail);
    PartsRead([MapProperty(first)], more, rest);
    SkippedPartsRead([MapProperty(first)], tail);
  }

  lemma SkippedPartsRead(parts: seq<string>, s: string)
    ensures MoreParts(parts, SkipWs(s)) == MoreParts(parts, s)
  {
    SkipWsTwice(s);
  }

  /** Text without the first character of what is looked for is passed over. */
  lemma {:induction false} FindPast(p: string, s: string, token: string)
    requires token != "" && token[0] !in p
    ensures FindText(p + s, token) == Later(|p|, FindText(s, token))
    decreases |p|
  {
    if p == "" {
      assert p + s == s;
    } else {
      assert (p + s)[0] == p[0] && (p + s)[1..] == p[1..] + s;
      FindPast(p[1..], s, token);
    }
  }
}
