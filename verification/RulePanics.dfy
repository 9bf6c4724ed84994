/** Texts on which the parser of rule expressions slices out of range: lambdas that compare their parameter with
    a single quotation mark, and literals or lambdas with a character of several bytes. */
module RulePanics {
  import opened Bytes
  import opened Rules
  import opened RuleParsing
  import opened RuleSyntax
  import opened RuleTokens
  import opened RuleRoundTrip

  // ---------------------------------------------------------------------------------------------
  // Which lambdas panic
  // ---------------------------------------------------------------------------------------------

  /** The part compares the parameter with something. */
  predicate Compares(part: string, variable: string, operator: string) {
    var sides := SplitOnce(Trim(part), operator);
    sides.Some? && Trim(sides.value.0) == variable
  }

  function RightSide(part: string, operator: string): string
    requires SplitOnce(Trim(part), operator).Some?
  {
    Trim(SplitOnce(Trim(part), operator).value.1)
  }

  predicate IsQuoted(s: string) {
    |s| >= 2 && (s[0] == '\'' || s[0] == '"') && s[|s| - 1] == s[0]
  }

  predicate IsQuote(s: string) {
    s == "'" || s == "\""
  }

  predicate Good(part: string, variable: string, operator: string) {
    Compares(part, variable, operator) && IsQuoted(RightSide(part, operator))
  }

  predicate QuoteAt(part: string, variable: string, operator: string) {
    Compares(part, variable, operator) && IsQuote(RightSide(part, operator))
  }

  /** Before part `k` everything compares the parameter with a quoted string. */
  predicate GoodBefore(parts: seq<string>, k: nat, variable: string, operator: string)
    requires k <= |parts|
  {
    forall j | 0 <= j < k :: Good(parts[j], variable, operator)
  }

  predicate ReachesQuote(parts: seq<string>, variable: string, operator: string) {
    exists k | 0 <= k < |parts| :: GoodBefore(parts, k, variable, operator) && QuoteAt(parts[k], variable, operator)
  }

  predicate ReachesOther(parts: seq<string>, variable: string, operator: string) {
    exists k | 0 <= k < |parts| ::
      GoodBefore(parts, k, variable, operator) && !Compares(parts[k], variable, operator)
  }

  lemma QuoteReadIff(s: string)
    ensures StaticString(s) == QuotesOverlap <==> IsQuote(s)
    ensures StaticString(s).Unquoted? <==> IsQuoted(s)
  {
    if |s| == 1 {
      assert s == [s[0]];
    }
  }

  lemma PartReadIff(part: string, variable: string, operator: string)
    ensures var r := ComparedValue(Trim(part), variable, operator);
            && (r.Other? <==> !Compares(part, variable, operator))
            && (r.LoneQuote? <==> QuoteAt(part, variable, operator))
            && (r.Value? <==> Good(part, variable, operator))
  {
    hide StaticString, SplitOnce, Trim;
    if Compares(part, variable, operator) {
      QuoteReadIff(RightSide(part, operator));
    }
  }

  lemma GoodBeforeShifts(parts: seq<string>, k: nat, variable: string, operator: string)
    requires k < |parts|
    ensures GoodBefore(parts, k + 1, variable, operator)
       <==> Good(parts[0], variable, operator) && GoodBefore(parts[1..], k, variable, operator)
  {
    hide Good;
    assert forall j | 0 < j < k + 1 :: parts[j] == parts[1..][j - 1];
    assert forall j | 0 <= j < k :: parts[1..][j] == parts[j + 1];
  }

  /** What is reached is in the first part, or reached in the others behind a good first part. */
  lemma QuoteShifts(parts: seq<string>, variable: string, operator: string)
    requires parts != []
    ensures ReachesQuote(parts, variable, operator)
       <==> QuoteAt(parts[0], variable, operator)
            || (Good(parts[0], variable, operator) && ReachesQuote(parts[1..], variable, operator))
  {
    hide QuoteAt, Good;
    var p := parts[1..];
    if k :| 0 <= k < |parts| && GoodBefore(parts, k, variable, operator) && QuoteAt(parts[k], variable, operator) {
      if k > 0 {
        GoodBeforeShifts(parts, k - 1, variable, operator);
        assert QuoteAt(p[k - 1], variable, operator);
      }
    }
    if k :| Good(parts[0], variable, operator) && 0 <= k < |p| && GoodBefore(p, k, variable, operator)
            && QuoteAt(p[k], variable, operator) {
      GoodBeforeShifts(parts, k, variable, operator);
      assert QuoteAt(parts[k + 1], variable, operator);
    }
    if QuoteAt(parts[0], variable, operator) {
      assert GoodBefore(parts, 0, variable, operator);
    }
  }

  lemma OtherShifts(parts: seq<string>, variable: string, operator: string)
    requires parts != []
    ensures ReachesOther(parts, variable, operator)
       <==> !Compares(parts[0], variable, operator)
            || (Good(parts[0], variable, operator) && ReachesOther(parts[1..], variable, operator))
  {
    hide Compares, Good;
    var p := parts[1..];
    if k :| 0 <= k < |parts| && GoodBefore(parts, k, variable, operator) && !Compares(parts[k], variable, operator) {
      if k > 0 {
        GoodBeforeShifts(parts, k - 1, variable, operator);
        assert !Compares(p[k - 1], variable, operator);
      }
    }
    if k :| Good(parts[0], variable, operator) && 0 <= k < |p| && GoodBefore(p, k, variable, operator)
            && !Compares(p[k], variable, operator) {
      GoodBeforeShifts(parts, k, variable, operator);
      assert !Compares(parts[k + 1], variable, operator);
    }
    if !Compares(parts[0], variable, operator) {
      assert GoodBefore(parts, 0, variable, operator);
    }
  }

  /** The comparisons are read from the left: the first part that does not compare the parameter with a quoted
      string decides. */
  lemma {:induction false} PartsReadIff(parts: seq<string>, variable: string, operator: string)
    ensures ComparedValues(parts, variable, operator).PanickedForm? <==> ReachesQuote(parts, variable, operator)
    ensures ComparedValues(parts, variable, operator).OtherForm? <==> ReachesOther(parts, variable, operator)
  {
    hide ComparedValue, Compares, QuoteAt, Good, Trim, GoodBefore;
    if parts != [] {
      PartReadIff(parts[0], variable, operator);
      PartsReadIff(parts[1..], variable, operator);
      hide ReachesQuote, ReachesOther;
      QuoteShifts(parts, variable, operator);
      OtherShifts(parts, variable, operator);
    }
  }

  /** Reading the text of a lambda slices out of range exactly when, after a parameter and no regex, the
      comparison splitting reaches a part that compares the parameter with a single quotation mark. */
  lemma LambdaPanicsIff(content: string)
    ensures ParseLambda(content) == PanickedLambda
       <==> var sides := SplitOnce(content, "=>");
            && sides.Some? && IsIdentifier(Trim(sides.value.0))
            && var variable, body := Trim(sides.value.0), Trim(sides.value.1);
               && RegexLambda(body, variable, true) == NoRegex && RegexLambda(body, variable, false) == NoRegex
               && (|| ReachesQuote(SplitText(body, "||"), variable, "==")
                   || (&& ReachesOther(SplitText(body, "||"), variable, "==")
                       && ReachesQuote(SplitText(body, "&&"), variable, "!=")))
  {
    hide SplitOnce, Trim, RegexLambda, SplitText, ComparedValues, ReachesQuote, ReachesOther, IsIdentifier;
    var sides := SplitOnce(content, "=>");
    if sides.Some? {
      var variable, body := Trim(sides.value.0), Trim(sides.value.1);
      PartsReadIff(SplitText(body, "||"), variable, "==");
      PartsReadIff(SplitText(body, "&&"), variable, "!=");
    }
  }

  // ---------------------------------------------------------------------------------------------
  // Which expressions panic
  // ---------------------------------------------------------------------------------------------

  /** A panic ends everything around it. */
  lemma PanicRises(s: string)
    requires ParsePostfix(s) == Panics && !At(SkipWs(s), "!")
    ensures ParseImported(s) == Panic
  {
    hide ParsePostfix, SkipWs, MoreOperands;
    SkippedPostfix(s);
    assert ParseUnary(s) == Panics;
    BinaryPanics(s, 1);
  }

  lemma {:induction false} BinaryPanics(s: string, level: nat)
    requires 1 <= level <= UNARY && ParseUnary(s) == Panics
    ensures ParseBinary(s, level) == Panics
    decreases UNARY - level
  {
    hide ParseUnary, MoreOperands;
    if level < UNARY {
      BinaryPanics(s, level + 1);
    }
  }

  /** A filter by such a lambda panics behind any receiver and in front of anything. */
  lemma FilterPanics(receiver: Tree, name: string, content: string, rest: string)
    requires Proper(receiver) && IsReceiver(receiver) && (name == "filter" || name == "findIndex")
    requires CallContent(content + ")", 1, Code) == Some(|content|) && ParseLambda(content) == PanickedLambda
    ensures ParseImported(Text(receiver, "." + (name + ("(" + (content + (")" + rest)))))) == Panic
  {
    hide ParsePostfix, ParseLambda, CallContent, SkipWs, Ends, MethodCall, Proper, PropertyName, ParseIdentifier, Meaning;
    var inside := content + (")" + rest);
    ReceiverEnds(receiver, "", name, "", inside);
    var s := "" + ("." + (name + ("" + ("(" + inside))));
    PostfixReads(receiver, s);
    CallPanics(Meaning(receiver), name, content, rest);
    assert ("(" + inside)[1..] == inside;
    assert s == "." + (name + ("(" + inside));
    assert MoreMembers(Meaning(receiver), s) == Panics;
    TextBegins(receiver, s);
    PanicRises(Text(receiver, s));
  }

  lemma CallPanics(receiver: Expr, name: string, content: string, rest: string)
    requires name == "filter" || name == "findIndex"
    requires CallContent(content + ")", 1, Code) == Some(|content|) && ParseLambda(content) == PanickedLambda
    ensures ParseMethodCall(receiver, name, content + (")" + rest)) == Panics
  {
    hide ParseLambda, CallContent, CallEnd;
    ContentEnds(content, rest);
  }

  // ---------------------------------------------------------------------------------------------
  // One such text
  // ---------------------------------------------------------------------------------------------

  lemma FindBehind(p: string, s: string, token: string)
    requires token != "" && token[0] !in p && At(s, token)
    ensures FindText(p + s, token) == Some(|p|)
  {
    FindPast(p, s, token);
  }

  predicate IsPlainText(s: string) {
    forall k | 0 <= k < |s| :: s[k] != '\'' && s[k] != '"' && s[k] != '/' && s[k] != '(' && s[k] != ')'
  }

  lemma {:induction false} PlainPassed(p: string, s: string)
    requires IsPlainText(p) && CallContent(s, 1, Code).Some?
    ensures CallContent(p + s, 1, Code) == Some(|p| + CallContent(s, 1, Code).value)
  {
    if p == "" {
      assert p + s == s;
    } else {
      assert (p + s)[0] == p[0] && (p + s)[1..] == p[1..] + s;
      PlainPassed(p[1..], s);
    }
  }

  /** The bars stand inside the quoted string, but the text of the lambda is split at them all the same. */
  lemma QuotedBarsPanic()
    ensures ParseImported("a.filter(x => x == '||')") == Panic
  {
    var receiver := PathToken("", "a", []);
    ReceiverIsProper(receiver);
    BarsInContent();
    BarsInLambda();
    Spelled(receiver);
    hide ParseImported, ParseLambda, CallContent, Text, Proper, IsReceiver;
    FilterPanics(receiver, "filter", "x => x == '||'", "");
  }

  lemma ReceiverIsProper(receiver: Tree)
    requires receiver == PathToken("", "a", [])
    ensures Proper(receiver) && IsReceiver(receiver)
  {
    assert BeginsName("a");
  }

  lemma Spelled(receiver: Tree)
    requires receiver == PathToken("", "a", [])
    ensures Text(receiver, "." + ("filter" + ("(" + ("x => x == '||'" + (")" + "")))))
         == "a.filter(x => x == '||')"
  {
    var call := "." + ("filter" + ("(" + ("x => x == '||'" + (")" + ""))));
    assert PartsText([], call) == call;
    CallSpelled();
    assert Text(receiver, call) == "" + ("a" + call);
  }

  lemma CallSpelled()
    ensures "" + ("a" + ("." + ("filter" + ("(" + ("x => x == '||'" + (")" + "")))))) == "a.filter(x => x == '||')"
  {
    assert "x => x == '||'" + (")" + "") == "x => x == '||')";
    assert "filter" + ("(" + "x => x == '||')") == "filter(x => x == '||')";
  }

  lemma BarsInContent()
    ensures CallContent("x => x == '||'" + ")", 1, Code) == Some(14)
  {
    assert CallContent(")", 1, Code) == Some(0);
    assert CallContent("')", 1, Quoted('\'', false)) == Some(1);
    assert CallContent("||')", 1, Quoted('\'', false)) == Some(3) by {
      assert "||')"[1..] == "|')" && "|')"[1..] == "')";
    }
    assert CallContent("'||')", 1, Code) == Some(4) by {
      assert "'||')"[1..] == "||')";
    }
    PlainPassed("x => x == ", "'||')");
    assert "x => x == '||'" + ")" == "x => x == " + "'||')";
  }

  lemma BarsInLambda()
    ensures ParseLambda("x => x == '||'") == PanickedLambda
  {
    ArrowSplits();
    BarsSplit();
    EqualsSplits();
    NoRegexThere();
    TrimmedTexts();
    hide SplitOnce, SplitText, Trim, RegexLambda, ComparedValue;
    assert ["x == '", "'"][0] == "x == '";
  }

  lemma ArrowSplits()
    ensures SplitOnce("x => x == '||'", "=>") == Some(("x ", " x == '||'"))
  {
    FindBehind("x ", "=> x == '||'", "=>");
    assert "x => x == '||'" == "x " + "=> x == '||'";
  }

  lemma BarsSplit()
    ensures SplitText("x == '||'", "||") == ["x == '", "'"]
  {
    FindBehind("x == '", "||'", "||");
    assert "x == '||'" == "x == '" + "||'";
    assert SplitText("'", "||") == ["'"] by {
      assert "'"[1..] == "";
    }
    assert "x == '||'"[8..] == "'";
  }

  lemma EqualsSplits()
    ensures ComparedValue("x == '", "x", "==") == LoneQuote
  {
    FindBehind("x ", "== '", "==");
    assert "x == '" == "x " + "== '";
    TrimmedTexts();
    hide Trim;
    assert SplitOnce("x == '", "==") == Some(("x ", " '"));
  }

  lemma NoRegexThere()
    ensures RegexLambda("x == '||'", "x", true) == NoRegex && RegexLambda("x == '||'", "x", false) == NoRegex
  {
    var body := "x == '||'";
    assert body[0] == 'x';
    At1(body, '/');
    At1(body, '!');
    hide At, RegexTail, Trim;
  }

  lemma TrimmedTexts()
    ensures Trim("x ") == "x" && Trim(" x == '||'") == "x == '||'" && Trim("x == '") == "x == '" && Trim(" '") == "'"
  {
    Untrimmed("x");
    Untrimmed("x == '||'");
    Untrimmed("x == '");
    Untrimmed("'");
    assert [' '] + "x == '||'" == " x == '||'" && [' '] + "'" == " '" && "x "[..1] == "x";
    assert TrimEnd("x ") == TrimEnd("x") && TrimStart("x ") == "x ";
  }

  lemma Untrimmed(s: string)
    requires s != "" && !IsTrimmed(s[0]) && !IsTrimmed(s[|s| - 1])
    ensures TrimStart(s) == s && TrimEnd(s) == s && TrimStart([' '] + s) == s
  {
    assert ([' '] + s)[1..] == s;
  }

  // ---------------------------------------------------------------------------------------------
  // Characters of several bytes
  // ---------------------------------------------------------------------------------------------

  function Before(mark: Option<nat>, n: nat): Option<nat> {
    if mark.Some? && mark.value < n then mark else None
  }

  /** The way to a mark is cut off exactly by a character of several bytes with no mark up to it. */
  lemma CutOffIff(s: string, mark: Option<nat>)
    requires mark.Some? ==> mark.value < |s|
    ensures EndingOf(s, mark) == InsideCharacter
       <==> exists k | 0 <= k < |s| :: !IsAscii(s[k]) && Before(mark, k + 1).None?
  {
    var n := if mark.Some? then mark.value else |s|;
    if !IsAsciiText(s[..n]) {
      var k :| 0 <= k < n && !IsAscii(s[..n][k]);
      assert !IsAscii(s[k]) && Before(mark, k + 1).None?;
    }
    if k :| 0 <= k < |s| && !IsAscii(s[k]) && Before(mark, k + 1).None? {
      assert s[..n][k] == s[k];
    }
  }

  lemma {:induction false} QuoteInFront(s: string, quote: char, n: nat)
    requires n <= |s|
    ensures StringTail(s[..n], quote) == Before(StringTail(s, quote), n)
    decreases n
  {
    if n > 0 && s[0] != quote {
      assert s[..n][1..] == s[1..][..n - 1];
      QuoteInFront(s[1..], quote, n - 1);
    }
  }

  lemma {:induction false} SlashInFront(s: string, escaped: bool, n: nat)
    requires n <= |s|
    ensures RegexTail(s[..n], escaped) == Before(RegexTail(s, escaped), n)
    decreases n
  {
    if n > 0 && !(s[0] == '/' && !escaped) {
      assert s[..n][1..] == s[1..][..n - 1];
      SlashInFront(s[1..], s[0] == '\\' && !escaped, n - 1);
    }
  }

  lemma {:induction false} ParenthesisInFront(s: string, depth: nat, quoting: Quoting, n: nat)
    requires n <= |s| && depth > 0
    ensures CallContent(s[..n], depth, quoting) == Before(CallContent(s, depth, quoting), n)
    decreases n
  {
    if n > 0 && !Closes(quoting, s[0], depth) {
      assert s[..n][1..] == s[1..][..n - 1];
      ParenthesisInFront(s[1..], DepthAfter(quoting, s[0], depth), QuotingAfter(quoting, s[0]), n - 1);
    }
  }

  /** A string panics exactly when such a character stands in it before the closing quote, or before the end of
      the text when there is none. */
  lemma StringPanicsIff(s: string)
    requires s != ""
    ensures var t := s[1..];
            ParseString(s) == Panics <==>
            exists k | 0 <= k < |t| :: !IsAscii(t[k]) && StringTail(t[..k + 1], s[0]).None?
  {
    hide StringTail, StringEnd, EndingOf;
    var t := s[1..];
    StringEndIs(t, s[0]);
    CutOffIff(t, StringTail(t, s[0]));
    forall n: nat | n <= |t|
      ensures StringTail(t[..n], s[0]) == Before(StringTail(t, s[0]), n)
    {
      QuoteInFront(t, s[0], n);
    }
  }

  /** So does a regex, with the next slash that no backslash escapes. */
  lemma RegexPanicsIff(s: string)
    requires s != ""
    ensures var t := s[1..];
            ParseRegex(s) == Panics <==>
            exists k | 0 <= k < |t| :: !IsAscii(t[k]) && RegexTail(t[..k + 1], false).None?
  {
    hide RegexTail, RegexEnd, EndingOf;
    var t := s[1..];
    RegexEndIs(t, false);
    CutOffIff(t, RegexTail(t, false));
    forall n: nat | n <= |t|
      ensures RegexTail(t[..n], false) == Before(RegexTail(t, false), n)
    {
      SlashInFront(t, false, n);
    }
  }

  /** And so does the content of a call of `filter` or `findIndex`, with the parenthesis that closes it. */
  lemma ContentPanicsIff(s: string)
    ensures CallEnd(s, 1, Code) == InsideCharacter
       <==> exists k | 0 <= k < |s| :: !IsAscii(s[k]) && CallContent(s[..k + 1], 1, Code).None?
  {
    hide CallContent, CallEnd, EndingOf;
    CallEndIs(s, 1, Code);
    CutOffIff(s, CallContent(s, 1, Code));
    forall n: nat | n <= |s|
      ensures CallContent(s[..n], 1, Code) == Before(CallContent(s, 1, Code), n)
    {
      ParenthesisInFront(s, 1, Code, n);
    }
  }

  /** A filter with such content panics whatever the content says. */
  lemma CutContentPanics(receiver: Tree, name: string, s: string)
    requires Proper(receiver) && IsReceiver(receiver) && (name == "filter" || name == "findIndex")
    requires CallEnd(s, 1, Code) == InsideCharacter
    ensures ParseImported(Text(receiver, "." + (name + ("(" + s)))) == Panic
  {
    hide ParsePostfix, CallEnd, SkipWs, Ends, MethodCall, Proper, PropertyName, ParseIdentifier, Meaning;
    ReceiverEnds(receiver, "", name, "", s);
    var t := "" + ("." + (name + ("" + ("(" + s))));
    PostfixReads(receiver, t);
    assert ("(" + s)[1..] == s;
    assert t == "." + (name + ("(" + s));
    TextBegins(receiver, t);
    PanicRises(Text(receiver, t));
  }

  /** One such text: a single accented letter in quotes. */
  lemma AccentPanics()
    ensures ParseImported("'\U{E9}'") == Panic
  {
    var t := StringToken("", '\'', "\U{E9}");
    assert Text(t, "") == "'\U{E9}'";
    assert !IsAscii("\U{E9}"[0]);
    ParseUndoesPrint(t, "");
  }
}
