/** Writing the lambdas of `filter` and `findIndex`, and reading them back. */
module RuleLambdas {
  import opened Bytes
  import opened RuleParsing
  import opened RuleSyntax
  import opened RuleTokens
  import RulePanics

  // ---------------------------------------------------------------------------------------------
  // How lambdas are written
  // ---------------------------------------------------------------------------------------------

  const ANY := "||"
  const EVERY := "&&"

  function QuoteFor(text: string): (quote: char)
    ensures quote == '"' || quote == '\''
  {
    if '"' in text then '\'' else '"'
  }

  function QuotedText(text: string): string {
    [QuoteFor(text)] + (text + [QuoteFor(text)])
  }

  function ComparisonText(operator: string, text: string): string {
    "x" + (operator + QuotedText(text))
  }

  function ComparisonsText(operator: string, joint: string, values: seq<string>): string
    requires values != []
  {
    if |values| == 1 then ComparisonText(operator, values[0])
    else ComparisonText(operator, values[0]) + (joint + ComparisonsText(operator, joint, values[1..]))
  }

  function RegexText(pattern: string): string {
    "/" + (pattern + "/.test(x)")
  }

  function BodyText(lambda: Lambda): string
    requires LambdaOk(lambda)
  {
    match lambda
    case EqAny(values) => ComparisonsText("==", ANY, values)
    case NeAll(values) => ComparisonsText("!=", EVERY, values)
    case RegexMatches(pattern) => RegexText(pattern)
    case RegexNotMatches(pattern) => "!" + RegexText(pattern)
  }

  function LambdaText(lambda: Lambda): string
    requires LambdaOk(lambda)
  {
    "x=>" + BodyText(lambda)
  }

  /** A backslash that nothing follows is left over. */
  predicate EscapePending(text: string, escaped: bool) {
    if text == "" then escaped else EscapePending(text[1..], text[0] == '\\' && !escaped)
  }

  /** A value that some quotes can stand around, and that the text of the lambda is not split in. */
  predicate ValueOk(text: string, joint: string) {
    && ('"' !in text || '\'' !in text) && !EscapePending(text, false) && FindText(text, joint).None?
    && |text| <= MAX_PROFILE_STRING_BYTES
  }

  predicate ValuesOk(values: seq<string>, joint: string) {
    values != [] && forall k | 0 <= k < |values| :: ValueOk(values[k], joint)
  }

  predicate LambdaOk(lambda: Lambda) {
    match lambda
    case EqAny(values) => ValuesOk(values, ANY)
    case NeAll(values) => ValuesOk(values, EVERY)
    case RegexMatches(pattern) => IsRegexText(pattern)
    case RegexNotMatches(pattern) => IsRegexText(pattern)
  }

  // ---------------------------------------------------------------------------------------------
  // Finding and trimming
  // ---------------------------------------------------------------------------------------------

  /** Text that does not contain a doubled character and is followed by another one is passed over. */
  lemma {:induction false} FindPastText(text: string, quote: char, s: string, c: char)
    requires FindText(text, [c, c]).None? && quote != c
    ensures FindText(text + ([quote] + s), [c, c]) == Later(|text| + 1, FindText(s, [c, c]))
    decreases |text|
  {
    var t := text + ([quote] + s);
    if text == "" {
      assert t == [quote] + s;
      assert t[1..] == s;
    } else {
      assert t[0] == text[0] && t[1..] == text[1..] + ([quote] + s);
      assert t[..2] == [t[0], t[1]] && t[1] == if |text| > 1 then text[1] else quote;
      assert !At(t, [c, c]) by {
        if |text| > 1 {
          assert !At(text, [c, c]) && text[..2] == t[..2];
        }
      }
      FindPastText(text[1..], quote, s, c);
    }
  }

  lemma {:induction false} TrimEndKeeps(s: string, n: nat)
    requires 0 < n <= |s| && !IsTrimmed(s[n - 1])
    ensures n <= |TrimEnd(s)| && TrimEnd(s)[..n] == s[..n]
    decreases |s|
  {
    if n < |s| && IsTrimmed(s[|s| - 1]) {
      TrimEndKeeps(s[..|s| - 1], n);
    }
  }

  /** What begins without white space is kept up to any character that is none. */
  lemma TrimKeeps(s: string, n: nat)
    requires 0 < n <= |s| && !IsTrimmed(s[0]) && !IsTrimmed(s[n - 1])
    ensures n <= |Trim(s)| && Trim(s)[..n] == s[..n]
    ensures n == |s| ==> Trim(s) == s
  {
    TrimEndKeeps(s, n);
  }

  // ---------------------------------------------------------------------------------------------
  // Comparisons
  // ---------------------------------------------------------------------------------------------

  predicate IsComparison(operator: string) {
    operator == "==" || operator == "!="
  }

  lemma QuotedReads(text: string)
    ensures var s := QuotedText(text);
            |s| >= 2 && Trim(s) == s && StaticString(s) == Unquoted(text)
  {
    var s := QuotedText(text);
    assert s[|s| - 1] == QuoteFor(text) && s[1..|s| - 1] == text;
    TrimKeeps(s, |s|);
  }

  lemma ComparisonReads(operator: string, text: string)
    requires IsComparison(operator)
    ensures var s := ComparisonText(operator, text);
            Trim(s) == s && ComparedValue(s, "x", operator) == Value(text)
  {
    hide Trim, StaticString, FindText, QuotedText;
    var quoted := QuotedText(text);
    var s := ComparisonText(operator, text);
    QuotedReads(text);
    assert s[|s| - 1] == quoted[|quoted| - 1] == QuoteFor(text) by {
      QuotedEnds(text);
    }
    TrimKeeps(s, |s|);
    TrimKeeps("x", 1);
    RulePanics.FindBehind("x", operator + quoted, operator);
    assert s[..1] == "x" && s[1 + |operator|..] == quoted;
  }

  lemma QuotedEnds(text: string)
    ensures var s := QuotedText(text); |s| >= 2 && s[0] == QuoteFor(text) && s[|s| - 1] == QuoteFor(text)
  {
  }

  function ComparisonTexts(operator: string, values: seq<string>): seq<string> {
    if values == [] then [] else [ComparisonText(operator, values[0])] + ComparisonTexts(operator, values[1..])
  }

  lemma {:induction false} ComparisonsCompared(operator: string, values: seq<string>)
    requires IsComparison(operator)
    ensures ComparedValues(ComparisonTexts(operator, values), "x", operator) == Values(values)
    decreases values
  {
    hide ComparedValue, Trim, ComparisonText;
    if values != [] {
      ComparisonReads(operator, values[0]);
      ComparisonsCompared(operator, values[1..]);
      assert ComparisonTexts(operator, values)[1..] == ComparisonTexts(operator, values[1..]);
      assert [values[0]] + values[1..] == values;
    }
  }

  lemma ComparisonPast(operator: string, text: string, s: string, c: char)
    requires IsComparison(operator) && (c == '|' || c == '&') && FindText(text, [c, c]).None?
    ensures var t := ComparisonText(operator, text);
            FindText(t + s, [c, c]) == Later(|t|, FindText(s, [c, c]))
  {
    hide FindText;
    var quote := QuoteFor(text);
    var front := "x" + operator + [quote];
    assert ComparisonText(operator, text) + s == front + (text + ([quote] + s));
    FindPast(front, text + ([quote] + s), [c, c]);
    FindPastText(text, quote, s, c);
  }

  /** The text of the comparisons is split into the comparisons. */
  lemma {:induction false} ComparisonsSplit(operator: string, joint: string, c: char, values: seq<string>)
    requires IsComparison(operator) && joint == [c, c] && (c == '|' || c == '&') && ValuesOk(values, joint)
    ensures SplitText(ComparisonsText(operator, joint, values), joint) == ComparisonTexts(operator, values)
    decreases values
  {
    hide FindText, ComparisonText;
    assert ValueOk(values[0], joint);
    var first := ComparisonText(operator, values[0]);
    if |values| == 1 {
      assert first + "" == first;
      ComparisonPast(operator, values[0], "", c);
      NothingInNothing(joint);
      assert ComparisonTexts(operator, values[1..]) == [];
    } else {
      var rest := ComparisonsText(operator, joint, values[1..]);
      var s := first + (joint + rest);
      ComparisonPast(operator, values[0], joint + rest, c);
      FoundInFront(joint, rest);
      assert s[..|first|] == first && s[|first| + |joint|..] == rest;
      ComparisonsSplit(operator, joint, c, values[1..]);
    }
  }

  lemma NothingInNothing(token: string)
    requires token != ""
    ensures FindText("", token).None?
  {
  }

  lemma FoundInFront(token: string, s: string)
    ensures FindText(token + s, token) == Some(0)
  {
    assert At(token + s, token);
  }

  // ---------------------------------------------------------------------------------------------
  // Regexes
  // ---------------------------------------------------------------------------------------------

  lemma RegexReads(pattern: string)
    requires IsRegexText(pattern)
    ensures RegexLambda(RegexText(pattern), "x", true) == Pattern(pattern)
  {
    hide RegexTail;
    var t := RegexText(pattern);
    var tail := pattern + "/.test(x)";
    assert t[1..] == tail && t[0] == '/';
    At1(t, '/');
    RegexTailExtends(pattern + "/", false, ".test(x)");
    assert (pattern + "/") + ".test(x)" == tail;
    assert tail[..|pattern|] == pattern && tail[|pattern| + 1..] == ".test(x)";
    TrimKeeps(".test(x)", 8);
    assert ".test(" + "x" + ")" == ".test(x)";
  }

  lemma NegatedReads(pattern: string)
    requires IsRegexText(pattern)
    ensures var t := "!" + RegexText(pattern);
            RegexLambda(t, "x", true) == NoRegex && RegexLambda(t, "x", false) == Pattern(pattern)
  {
    hide RegexTail;
    var inner := RegexText(pattern);
    var t := "!" + inner;
    assert t[1..] == inner && t[0] == '!';
    At1(t, '/');
    At1(t, '!');
    RegexEnds(pattern);
    TrimKeeps(inner, |inner|);
    RegexReads(pattern);
  }

  lemma RegexEnds(pattern: string)
    ensures var t := RegexText(pattern); t != "" && t[0] == '/' && t[|t| - 1] == ')'
  {
    assert "/.test(x)"[8] == ')';
  }

  // ---------------------------------------------------------------------------------------------
  // Bodies and whole lambdas
  // ---------------------------------------------------------------------------------------------

  lemma {:induction false} ComparisonsEnds(operator: string, joint: string, values: seq<string>)
    requires IsComparison(operator) && values != []
    ensures var s := ComparisonsText(operator, joint, values);
            && |s| >= 4 && s[0] == 'x' && s[1..3] == operator && (s[3] == '"' || s[3] == '\'')
            && (s[|s| - 1] == '"' || s[|s| - 1] == '\'')
    decreases values
  {
    var first := ComparisonText(operator, values[0]);
    QuotedEnds(values[0]);
    assert first[1..3] == operator;
    if |values| > 1 {
      ComparisonsEnds(operator, joint, values[1..]);
      var s := ComparisonsText(operator, joint, values);
      assert s[..|first|] == first;
      assert s[1..3] == s[..|first|][1..3];
    }
  }

  lemma NoRegexInComparisons(s: string)
    requires s != "" && s[0] == 'x'
    ensures RegexLambda(s, "x", true) == NoRegex && RegexLambda(s, "x", false) == NoRegex
  {
    At1(s, '/');
    At1(s, '!');
  }

  /** The arrow is found behind the parameter, and the body is trimmed to itself. */
  lemma ArrowReads(body: string)
    requires body != "" && !IsTrimmed(body[0]) && !IsTrimmed(body[|body| - 1])
    ensures SplitOnce("x=>" + body, "=>") == Some(("x", body))
    ensures Trim("x") == "x" && Trim(body) == body && IsIdentifier("x")
  {
    hide Trim, FindText;
    RulePanics.FindBehind("x", "=>" + body, "=>");
    assert "x=>" + body == "x" + ("=>" + body);
    assert ("x=>" + body)[..1] == "x" && ("x=>" + body)[3..] == body;
    TrimKeeps("x", 1);
    TrimKeeps(body, |body|);
  }

  lemma EqualReads(values: seq<string>)
    requires ValuesOk(values, ANY)
    ensures ParseLambda("x=>" + ComparisonsText("==", ANY, values)) == IsLambda(EqAny(values))
  {
    hide SplitOnce, Trim, RegexLambda, SplitText, ComparedValues, ComparisonsText, IsIdentifier;
    var body := ComparisonsText("==", ANY, values);
    ComparisonsEnds("==", ANY, values);
    ArrowReads(body);
    NoRegexInComparisons(body);
    ComparisonsSplit("==", ANY, '|', values);
    ComparisonsCompared("==", values);
  }

  lemma NotEqualReads(values: seq<string>)
    requires ValuesOk(values, EVERY)
    ensures ParseLambda("x=>" + ComparisonsText("!=", EVERY, values)) == IsLambda(NeAll(values))
  {
    hide SplitOnce, Trim, RegexLambda, SplitText, ComparedValues, ComparisonsText, IsIdentifier;
    var body := ComparisonsText("!=", EVERY, values);
    ComparisonsEnds("!=", EVERY, values);
    ArrowReads(body);
    NoRegexInComparisons(body);
    NoEqualities(body);
    ComparisonsSplit("!=", EVERY, '&', values);
    ComparisonsCompared("!=", values);
  }

  /** Inequalities are no equalities, whatever bars stand in their values. */
  lemma NoEqualities(body: string)
    requires |body| >= 4 && body[0] == 'x' && body[1..3] == "!=" && (body[3] == '"' || body[3] == '\'')
    ensures ComparedValues(SplitText(body, ANY), "x", "==") == OtherForm
  {
    hide Trim, FindText, StaticString;
    assert body[1] == body[1..3][0] && body[2] == body[1..3][1];
    var i := FindText(body, ANY);
    if i.Some? {
      FoundBehind(body, ANY, 3);
      var part := body[..i.value];
      assert part[..4] == body[..4];
      NoEquality(part);
    } else {
      NoEquality(body);
    }
  }

  lemma NoEquality(part: string)
    requires |part| >= 4 && part[0] == 'x' && part[1] == '!' && part[2] == '=' && (part[3] == '"' || part[3] == '\'')
    ensures ComparedValue(Trim(part), "x", "==") == Other
  {
    hide Trim, FindText, StaticString;
    TrimKeeps(part, 4);
    var t := Trim(part);
    assert t[0] == part[..4][0] && t[1] == part[..4][1] && t[2] == part[..4][2] && t[3] == part[..4][3];
    if FindText(t, "==").Some? {
      var i := FindText(t, "==").value;
      FoundBehind(t, "==", 3);
      var left := t[..i];
      assert left[0] == t[0] && left[3] == t[3];
      TrimKeeps(left, 4);
    }
  }

  /** No occurrence begins with a character that the token does not begin with, or goes on otherwise. */
  lemma {:induction false} FoundBehind(s: string, token: string, n: nat)
    requires n < |s| && |token| == 2
    requires forall k | 0 <= k <= n :: s[k] != token[0] || (k < n && s[k + 1] != token[1])
    ensures FindText(s, token).Some? ==> FindText(s, token).value > n
    decreases n
  {
    assert |s| > 1 ==> s[..2] == [s[0], s[1]];
    assert token == [token[0], token[1]];
    if n > 0 {
      forall k | 0 <= k <= n - 1
        ensures s[1..][k] != token[0] || (k < n - 1 && s[1..][k + 1] != token[1])
      {
        assert s[1..][k] == s[k + 1];
      }
      FoundBehind(s[1..], token, n - 1);
    }
  }

  // ---------------------------------------------------------------------------------------------
  // The closing parenthesis
  // ---------------------------------------------------------------------------------------------

  lemma {:induction false} QuotedPassed(text: string, quote: char, escaped: bool, s: string)
    requires quote !in text && !EscapePending(text, escaped) && quote != '\\'
    ensures CallContent(text + ([quote] + s), 1, Quoted(quote, escaped)) == Later(|text| + 1, CallContent(s, 1, Code))
    decreases |text|
  {
    var t := text + ([quote] + s);
    if text == "" {
      assert t[0] == quote && t[1..] == s;
    } else {
      assert t[0] == text[0] && t[1..] == text[1..] + ([quote] + s);
      QuotedPassed(text[1..], quote, text[0] == '\\' && !escaped, s);
    }
  }

  lemma {:induction false} PatternPassed(pattern: string, escaped: bool, s: string)
    requires RegexTail(pattern + "/", escaped) == Some(|pattern|)
    ensures CallContent(pattern + ("/" + s), 1, Regex(escaped)) == Later(|pattern| + 1, CallContent(s, 1, Code))
    decreases |pattern|
  {
    var t := pattern + ("/" + s);
    if pattern == "" {
      assert t[0] == '/' && t[1..] == s;
      assert "" + "/" == "/";
    } else {
      var p := pattern + "/";
      assert t[0] == pattern[0] && t[1..] == pattern[1..] + ("/" + s);
      assert p[0] == pattern[0] && p[1..] == pattern[1..] + "/";
      PatternPassed(pattern[1..], pattern[0] == '\\' && !escaped, s);
    }
  }

  lemma ComparisonPassed(operator: string, text: string, joint: string, s: string)
    requires IsComparison(operator) && ValueOk(text, joint) && CallContent(s, 1, Code).Some?
    ensures var t := ComparisonText(operator, text);
            CallContent(t + s, 1, Code) == Later(|t|, CallContent(s, 1, Code))
  {
    hide CallContent, EscapePending, FindText;
    var quote := QuoteFor(text);
    var inner := text + ([quote] + s);
    QuotedPassed(text, quote, false, s);
    QuoteOpens(quote, inner);
    RulePanics.PlainPassed("x" + operator, [quote] + inner);
    assert ComparisonText(operator, text) + s == ("x" + operator) + ([quote] + inner);
  }

  lemma QuoteOpens(quote: char, inner: string)
    requires quote == '"' || quote == '\''
    ensures CallContent([quote] + inner, 1, Code) == Later(1, CallContent(inner, 1, Quoted(quote, false)))
  {
    assert ([quote] + inner)[1..] == inner;
  }

  lemma {:induction false} ComparisonsPassed(operator: string, joint: string, values: seq<string>)
    requires IsComparison(operator) && (joint == ANY || joint == EVERY) && ValuesOk(values, joint)
    ensures var t := ComparisonsText(operator, joint, values);
            CallContent(t + ")", 1, Code) == Some(|t|)
    decreases values
  {
    hide CallContent, ComparisonText;
    assert ValueOk(values[0], joint);
    var first := ComparisonText(operator, values[0]);
    ParenthesisCloses();
    if |values| == 1 {
      ComparisonPassed(operator, values[0], joint, ")");
    } else {
      var rest := ComparisonsText(operator, joint, values[1..]);
      ComparisonsPassed(operator, joint, values[1..]);
      RulePanics.PlainPassed(joint, rest + ")");
      ComparisonPassed(operator, values[0], joint, joint + (rest + ")"));
      assert (first + (joint + rest)) + ")" == first + (joint + (rest + ")"));
    }
  }

  lemma ParenthesisCloses()
    ensures CallContent(")", 1, Code) == Some(0)
  {
  }

  lemma RegexPassed(pattern: string)
    requires IsRegexText(pattern)
    ensures CallContent(RegexText(pattern) + ")", 1, Code) == Some(|RegexText(pattern)|)
  {
    hide CallContent, RegexTail;
    var s := ".test(x))";
    TestPassed();
    PatternPassed(pattern, false, s);
    SlashOpens(pattern + ("/" + s));
    assert RegexText(pattern) + ")" == "/" + (pattern + ("/" + s));
  }

  lemma SlashOpens(inner: string)
    ensures CallContent("/" + inner, 1, Code) == Later(1, CallContent(inner, 1, Regex(false)))
  {
    assert ("/" + inner)[1..] == inner;
  }

  lemma TestPassed()
    ensures CallContent(".test(x))", 1, Code) == Some(8)
  {
    assert CallContent("))", 2, Code) == Some(1) by {
      assert "))"[1..] == ")";
    }
    assert CallContent("x))", 2, Code) == Some(2) by {
      assert "x))"[1..] == "))";
    }
    assert CallContent("(x))", 1, Code) == Some(3) by {
      assert "(x))"[1..] == "x))";
    }
    RulePanics.PlainPassed(".test", "(x))");
    assert ".test" + "(x))" == ".test(x))";
  }

  lemma BodyPassed(lambda: Lambda)
    requires LambdaOk(lambda)
    ensures CallContent(BodyText(lambda) + ")", 1, Code) == Some(|BodyText(lambda)|)
  {
    hide CallContent, ComparisonsText, RegexText, ValuesOk, IsRegexText;
    match lambda
    case EqAny(values) =>
      ComparisonsPassed("==", ANY, values);
    case NeAll(values) =>
      ComparisonsPassed("!=", EVERY, values);
    case RegexMatches(pattern) =>
      RegexPassed(pattern);
    case RegexNotMatches(pattern) =>
      RegexPassed(pattern);
      RulePanics.PlainPassed("!", RegexText(pattern) + ")");
      assert ("!" + RegexText(pattern)) + ")" == "!" + (RegexText(pattern) + ")");
  }

  lemma PatternReads(lambda: Lambda)
    requires LambdaOk(lambda) && (lambda.RegexMatches? || lambda.RegexNotMatches?)
    ensures ParseLambda(LambdaText(lambda)) == IsLambda(lambda)
  {
    hide SplitOnce, Trim, RegexLambda, SplitText, ComparedValues, IsIdentifier, IsRegexText, RegexText;
    var body := BodyText(lambda);
    RegexEnds(lambda.pattern);
    ArrowReads(body);
    if lambda.RegexMatches? {
      RegexReads(lambda.pattern);
    } else {
      NegatedReads(lambda.pattern);
    }
  }

  /** A written lambda is read as the lambda it was, and ends at the parenthesis behind it, unless a character
      of several bytes is on the way there. */
  lemma WrittenLambdaReads(lambda: Lambda, rest: string)
    requires LambdaOk(lambda)
    ensures var text := LambdaText(lambda);
            && ParseLambda(text) == IsLambda(lambda)
            && CallContent(text + ")", 1, Code) == Some(|text|)
            && CallEnd(text + (")" + rest), 1, Code) == if IsAsciiText(text) then Closed(|text|) else InsideCharacter
  {
    hide CallContent, CallEnd, ParseLambda, ComparisonsText, RegexText, ValuesOk, IsRegexText, IsAsciiText;
    BodyPassed(lambda);
    RulePanics.PlainPassed("x=>", BodyText(lambda) + ")");
    assert ("x=>" + BodyText(lambda)) + ")" == "x=>" + (BodyText(lambda) + ")");
    ContentEnds(LambdaText(lambda), rest);
    match lambda
    case EqAny(values) =>
      EqualReads(values);
    case NeAll(values) =>
      NotEqualReads(values);
    case _ =>
      PatternReads(lambda);
  }

  // ---------------------------------------------------------------------------------------------
  // Characters of several bytes
  // ---------------------------------------------------------------------------------------------

  predicate AsciiLambda(lambda: Lambda) {
    match lambda
    case EqAny(values) => forall k | 0 <= k < |values| :: IsAsciiText(values[k])
    case NeAll(values) => forall k | 0 <= k < |values| :: IsAsciiText(values[k])
    case RegexMatches(pattern) => IsAsciiText(pattern)
    case RegexNotMatches(pattern) => IsAsciiText(pattern)
  }

  lemma ComparisonIsAscii(operator: string, text: string)
    requires IsComparison(operator)
    ensures IsAsciiText(ComparisonText(operator, text)) <==> IsAsciiText(text)
  {
    AsciiBehind("x", operator + QuotedText(text));
    AsciiBehind(operator, QuotedText(text));
    AsciiBehind([QuoteFor(text)], text + [QuoteFor(text)]);
    AsciiJoin(text, [QuoteFor(text)]);
  }

  lemma {:induction false} ComparisonsAreAscii(operator: string, joint: string, values: seq<string>)
    requires IsComparison(operator) && (joint == ANY || joint == EVERY) && values != []
    ensures IsAsciiText(ComparisonsText(operator, joint, values))
       <==> forall k | 0 <= k < |values| :: IsAsciiText(values[k])
    decreases values
  {
    var first := ComparisonText(operator, values[0]);
    ComparisonIsAscii(operator, values[0]);
    assert IsAsciiText(joint);
    hide IsAsciiText, ComparisonText;
    if |values| > 1 {
      var rest := ComparisonsText(operator, joint, values[1..]);
      AsciiJoin(first, joint + rest);
      AsciiBehind(joint, rest);
      ComparisonsAreAscii(operator, joint, values[1..]);
      assert forall k | 0 < k < |values| :: values[k] == values[1..][k - 1];
    }
  }

  lemma RegexIsAscii(pattern: string)
    ensures IsAsciiText(RegexText(pattern)) <==> IsAsciiText(pattern)
  {
    AsciiBehind("/", pattern + "/.test(x)");
    AsciiJoin(pattern, "/.test(x)");
  }

  lemma LambdaIsAsciiIff(lambda: Lambda)
    requires LambdaOk(lambda)
    ensures IsAsciiText(LambdaText(lambda)) <==> AsciiLambda(lambda)
  {
    hide ComparisonsText, RegexText, ValueOk, IsRegexText;
    AsciiBehind("x=>", BodyText(lambda));
    match lambda
    case EqAny(values) =>
      ComparisonsAreAscii("==", ANY, values);
    case NeAll(values) =>
      ComparisonsAreAscii("!=", EVERY, values);
    case RegexMatches(pattern) =>
      RegexIsAscii(pattern);
    case RegexNotMatches(pattern) =>
      RegexIsAscii(pattern);
      AsciiBehind("!", RegexText(pattern));
  }
}
