/** Printing and parsing a rule expression: the parser returns the tree that was written. */
module RuleRoundTrip {
  import opened Bytes
  import opened Rules
  import opened RuleParsing
  import opened RuleSyntax
  import opened RuleTokens

  // ---------------------------------------------------------------------------------------------
  // What may follow an expression
  // ---------------------------------------------------------------------------------------------

  /** A token ends here, and no parenthesis or member follows. */
  predicate Boundary(rest: string) {
    NumberEnds(rest) && !At(SkipWs(rest), "(") && !At(SkipWs(rest), ".")
  }

  /** No operator tighter than the level follows. */
  predicate Stops(rest: string, level: nat) {
    Boundary(rest) && forall i | level < i < UNARY :: OpAt(SkipWs(rest), i).None?
  }

  /** What a text may begin with when an operand follows an operator. */
  predicate OperandStarts(s: string) {
    s != "" && s[0] != '=' && s[0] != '&' && s[0] != '|' && s[0] != '<' && s[0] != '>'
  }

  /** The tests of `OpAt`, character by character. */
  lemma OpAtReads(t: string, level: nat)
    requires t != "" && (|t| > 1 ==> OperandStarts(t[1..]) || t[1] == '=' || t[1] == '&' || t[1] == '|' || t[1] == '>')
    ensures var two := |t| > 1;
            OpAt(t, level) ==
            if level == 1 then (if two && t[0] == '|' && t[1] == '|' then Some(Or) else None)
            else if level == 2 then (if two && t[0] == '&' && t[1] == '&' then Some(And) else None)
            else if level == 3 then
              if two && t[1] == '=' && t[0] == '=' then Some(Eq)
              else if two && t[1] == '=' && t[0] == '!' then Some(Ne)
              else if two && t[1] == '=' && t[0] == '<' then Some(Le)
              else if two && t[1] == '=' && t[0] == '>' then Some(Ge)
              else if t[0] == '<' then Some(Lt)
              else if t[0] == '>' then Some(Gt)
              else None
            else if level == 4 then (if t[0] == '&' && !(two && t[1] == '&') then Some(BitAnd) else None)
            else if level == 5 then (if two && t[0] == '>' && t[1] == '>' then Some(Shr) else None)
            else if level == 6 then (if t[0] == '+' then Some(Add) else if t[0] == '-' then Some(Sub) else None)
            else if level == 7 then
              if t[0] == '*' then Some(Mul) else if t[0] == '/' then Some(Div) else if t[0] == '%' then Some(Rem) else None
            else None
  {
  }

  lemma OperatorStart(op: BinaryOp, operand: string)
    requires OperandStarts(operand)
    ensures var t := OpText(op) + operand;
            && t[0] == OpText(op)[0]
            && t[|OpText(op)|..] == operand
            && |t| > 1 && t[1] == (if |OpText(op)| == 2 then OpText(op)[1] else operand[0])
  {
  }

  /** In front of an operand the operator itself is found at its level, and nothing at tighter levels. */
  lemma OperatorReads(op: BinaryOp, operand: string, level: nat)
    requires OperandStarts(operand) && level >= LevelOf(op)
    ensures OpAt(OpText(op) + operand, level) == if level == LevelOf(op) then Some(op) else None
  {
    hide OpAt;
    var t := OpText(op) + operand;
    OperatorStart(op, operand);
    OpAtReads(t, level);
  }

  lemma OperatorFollows(white: string, op: BinaryOp, operand: string)
    requires AllSpace(white) && OperandStarts(operand)
    ensures var rest := white + (OpText(op) + operand);
            && SkipWs(rest) == OpText(op) + operand
            && OpAt(SkipWs(rest), LevelOf(op)) == Some(op)
            && SkipWs(rest)[|OpText(op)|..] == operand
            && Stops(rest, LevelOf(op))
  {
    hide OpAt;
    var token := OpText(op) + operand;
    var rest := white + token;
    OperatorStart(op, operand);
    assert !IsSpace(token[0]) && !IsIdentifierChar(token[0]) && token[0] != '.' && token[0] != '(';
    SkipToToken(white, token);
    assert rest[0] == if white == "" then token[0] else white[0];
    forall i | LevelOf(op) <= i < UNARY
      ensures OpAt(token, i) == if i == LevelOf(op) then Some(op) else None
    {
      OperatorReads(op, operand, i);
    }
  }

  predicate IsCloser(c: char) {
    c == ')' || c == ',' || c == '?' || c == ':'
  }

  lemma NoOperatorAtCloser(token: string, level: nat)
    requires token != "" && IsCloser(token[0])
    ensures OpAt(token, level).None?
  {
    var op := OpAt(token, level);
    if op.Some? {
      assert OpText(op.value)[0] == token[0];
      OperatorIsNoCloser(op.value);
    }
  }

  lemma OperatorIsNoCloser(op: BinaryOp)
    ensures !IsCloser(OpText(op)[0])
  {
  }

  lemma CloserFollows(white: string, c: char, rest: string)
    requires AllSpace(white) && IsCloser(c)
    ensures var s := white + ([c] + rest);
            SkipWs(s) == [c] + rest && Stops(s, 0) && ([c] + rest)[1..] == rest
  {
    var token := [c] + rest;
    var s := white + token;
    SkipToToken(white, token);
    assert s[0] == if white == "" then c else white[0];
    forall i | 0 < i < UNARY
      ensures OpAt(token, i).None?
    {
      NoOperatorAtCloser(token, i);
    }
  }

  lemma EndStops(white: string)
    requires AllSpace(white)
    ensures SkipWs(white) == "" && Stops(white, 0)
  {
    SkipWhite(white, "");
    assert white + "" == white;
    assert forall i | 0 < i < UNARY :: OpAt("", i).None?;
  }

  // ---------------------------------------------------------------------------------------------
  // How texts begin
  // ---------------------------------------------------------------------------------------------

  /** The first character of a tree that is no white space. */
  predicate Begins(s: string, unary: bool) {
    && s != "" && !IsSpace(s[0]) && OperandStarts(s) && s[0] != ')'
    && (s[0] == '!' ==> unary)
  }

  lemma WhiteStarts(white: string, token: string)
    requires AllSpace(white) && OperandStarts(token)
    ensures OperandStarts(white + token)
  {
    assert (white + token)[0] == if white == "" then token[0] else white[0];
  }

  lemma TokenBegins(white: string, token: string, unary: bool)
    requires AllSpace(white) && Begins(token, unary)
    ensures Begins(SkipWs(white + token), unary) && OperandStarts(white + token)
  {
    SkipToToken(white, token);
    WhiteStarts(white, token);
  }

  lemma NumberBegins(minus: string, mantissa: string, exponent: string, rest: string)
    requires NumberOk(minus, mantissa, exponent)
    ensures var token := (minus + (mantissa + exponent)) + rest;
            Begins(token, false) && (IsDigit(token[0]) || token[0] == '-')
  {
    MantissaIsSome(mantissa);
    var token := (minus + (mantissa + exponent)) + rest;
    assert token[0] == if minus == "" then mantissa[0] else '-';
  }

  lemma NameBegins(name: string, rest: string)
    requires IsIdentifierText(name)
    ensures Begins(name + rest, false) && (name + rest)[0] == name[0]
  {
  }

  lemma {:induction false} TextBegins(t: Tree, rest: string)
    requires Proper(t)
    ensures Begins(SkipWs(Text(t, rest)), Level(t) <= UNARY) && OperandStarts(Text(t, rest))
    decreases t, 1
  {
    hide SkipWs, NumberOk, Begins, OperandStarts, BeginsName, IsRegexText, CallContent, PropertyName, BuiltinNamed;
    match t
    case WordToken(white, word) =>
      WordBegins(word, rest);
      TokenBegins(white, word + rest, false);
    case NumberToken(white, minus, mantissa, exponent) =>
      NumberBegins(minus, mantissa, exponent, rest);
      TokenBegins(white, (minus + (mantissa + exponent)) + rest, false);
    case StringToken(white, quote, text) =>
      SignBegins(quote, text + ([quote] + rest));
      TokenBegins(white, [quote] + (text + ([quote] + rest)), false);
    case RegexToken(white, pattern) =>
      SignBegins('/', pattern + ("/" + rest));
      TokenBegins(white, "/" + (pattern + ("/" + rest)), false);
    case PathToken(white, first, more) =>
      NameBeginning(first, PartsText(more, rest));
      TokenBegins(white, first + PartsText(more, rest), false);
    case CallTree(white, name, gap, args) =>
      NameBeginning(name, gap + ("(" + ArgumentsText(args, rest)));
      TokenBegins(white, name + (gap + ("(" + ArgumentsText(args, rest))), false);
    case Paren(white, inner, closing) =>
      SignBegins('(', Text(inner, closing + (")" + rest)));
      TokenBegins(white, "(" + Text(inner, closing + (")" + rest)), false);
    case NotTree(white, operand) =>
      SignBegins('!', Text(operand, rest));
      TokenBegins(white, "!" + Text(operand, rest), true);
    case _ =>
      CompoundBegins(t, rest);
  }

  lemma SignBegins(c: char, rest: string)
    requires c == '\'' || c == '"' || c == '/' || c == '(' || c == '!'
    ensures Begins([c] + rest, c == '!')
  {
  }

  lemma WordBegins(word: string, rest: string)
    requires word == "true" || word == "false" || word == "null"
    ensures Begins(word + rest, false)
  {
    assert (word + rest)[0] == word[0];
  }

  lemma NameBeginning(name: string, rest: string)
    requires BeginsName(name)
    ensures Begins(name + rest, false) && (name + rest)[0] == name[0]
  {
    NameBegins(name, rest);
  }

  lemma CompoundBegins(t: Tree, rest: string)
    requires Proper(t)
    requires t.MethodTree? || t.LambdaTree? || t.LengthTree? || t.MemberTree? || t.BinaryTree? || t.ConditionalTree?
    ensures Begins(SkipWs(Text(t, rest)), Level(t) <= UNARY) && OperandStarts(Text(t, rest))
    decreases t, 0
  {
    hide SkipWs, NumberOk, BeginsName, IsRegexText, CallContent, PropertyName, BuiltinNamed, MethodCall, LambdaCall;
    match t
    case MethodTree(receiver, white, name, gap, args) =>
      TextBegins(receiver, white + ("." + (name + (gap + ("(" + ArgumentsText(args, rest))))));
    case LambdaTree(receiver, white, name, gap, content) =>
      TextBegins(receiver, white + ("." + (name + (gap + ("(" + (content + (")" + rest)))))));
    case LengthTree(receiver, white) =>
      TextBegins(receiver, white + ("." + ("length" + rest)));
    case MemberTree(receiver, white, name) =>
      TextBegins(receiver, white + ("." + (name + rest)));
    case BinaryTree(op, left, white, right) =>
      TextBegins(left, white + (OpText(op) + Text(right, rest)));
    case ConditionalTree(condition, white, whenTrue, between, whenFalse) =>
      TextBegins(condition, white + ("?" + Text(whenTrue, between + (":" + Text(whenFalse, rest)))));
  }

  // ---------------------------------------------------------------------------------------------
  // White space in front changes nothing
  // ---------------------------------------------------------------------------------------------

  lemma SkippedPostfix(s: string)
    ensures ParsePostfix(SkipWs(s)) == ParsePostfix(s)
  {
    hide MoreMembers, ParseProperty, ParseConditional, ParseRegex, ParseString, ParseNumber;
    SkipWsTwice(s);
    SkippedPrimary(s);
  }

  lemma SkippedPrimary(s: string)
    ensures ParsePrimary(SkipWs(s)) == ParsePrimary(s)
  {
    hide ParseProperty, ParseConditional, ParseRegex, ParseString, ParseNumber;
    SkipWsTwice(s);
  }

  lemma {:induction false} SkippedBinary(s: string, level: nat)
    requires 1 <= level <= UNARY
    ensures ParseBinary(SkipWs(s), level) == ParseBinary(s, level)
    decreases UNARY - level
  {
    hide ParseUnary, MoreOperands, ParsePostfix;
    if level == UNARY {
      SkippedUnary(s);
    } else {
      SkippedBinary(s, level + 1);
    }
  }

  lemma SkippedUnary(s: string)
    ensures ParseUnary(SkipWs(s)) == ParseUnary(s)
  {
    hide ParsePostfix;
    SkipWsTwice(s);
  }

  lemma SkippedConditional(s: string)
    ensures ParseConditional(SkipWs(s)) == ParseConditional(s)
  {
    hide ParseBinary;
    SkippedBinary(s, 1);
  }

  lemma SkippedOperands(acc: Expr, s: string, level: nat)
    requires 1 <= level < UNARY
    ensures MoreOperands(acc, SkipWs(s), level) == MoreOperands(acc, s, level)
  {
    hide ParseBinary;
    SkipWsTwice(s);
  }

  lemma SkippedMembers(acc: Expr, s: string, t: string)
    requires SkipWs(s) == SkipWs(t)
    ensures MoreMembers(acc, s) == MoreMembers(acc, t)
  {
    hide ParseMethodCall;
  }

  // ---------------------------------------------------------------------------------------------
  // Primaries
  // ---------------------------------------------------------------------------------------------

  /** The token at the end of the tree ends where `rest` begins. */
  predicate Ends(t: Tree, rest: string) {
    match t
    case NumberToken(_, _, _, _) => NumberEnds(rest)
    case PathToken(_, _, _) => PathEnds(rest)
    case LengthTree(_, _) => NameEnds(rest) && !At(SkipWs(rest), "(")
    case MemberTree(_, _, _) => NameEnds(rest) && !At(SkipWs(rest), "(")
    case _ => true
  }

  lemma BoundaryEnds(t: Tree, rest: string)
    requires Boundary(rest)
    ensures Ends(t, rest)
  {
  }

  lemma NoWordAhead(name: string, rest: string, word: string)
    requires NameEnds(rest) && !At(name, word) && forall k | 0 <= k < |word| :: IsIdentifierChar(word[k])
    ensures !At(name + rest, word)
  {
    assert rest != "" ==> (name + rest)[|name|] == rest[0];
    assert |word| <= |name| ==> (name + rest)[..|word|] == name[..|word|];
  }

  lemma NameDispatch(name: string, rest: string)
    requires BeginsName(name) && NameEnds(rest)
    ensures ParsePrimary(name + rest) == ParseProperty(name + rest)
  {
    hide ParseProperty, ParseConditional, ParseRegex, ParseString, ParseNumber;
    NoWordAhead(name, rest, "true");
    NoWordAhead(name, rest, "false");
    NoWordAhead(name, rest, "null");
    assert (name + rest)[0] == name[0];
  }

  lemma WordReads(word: string, rest: string)
    requires word == "true" || word == "false" || word == "null"
    ensures ParsePrimary(word + rest) == Got(Meaning(WordToken("", word)), rest)
  {
    hide ParseProperty, ParseConditional, ParseRegex, ParseString, ParseNumber;
    assert (word + rest)[0] == word[0];
    Pieces(word, rest);
  }

  lemma NumberDispatch(s: string)
    requires s != "" && (IsDigit(s[0]) || s[0] == '-')
    ensures ParsePrimary(s) == ParseNumber(s)
  {
    hide ParseProperty, ParseConditional, ParseRegex, ParseString, ParseNumber;
  }

  lemma QuoteDispatch(s: string)
    requires s != "" && (s[0] == '\'' || s[0] == '"')
    ensures ParsePrimary(s) == ParseString(s)
  {
    hide ParseProperty, ParseConditional, ParseRegex, ParseString, ParseNumber;
  }

  lemma SlashDispatch(s: string)
    requires s != "" && s[0] == '/'
    ensures ParsePrimary(s) == ParseRegex(s)
  {
    hide ParseProperty, ParseConditional, ParseRegex, ParseString, ParseNumber;
  }

  /** What is read is the meaning, and what is left is `rest`, its white space aside; or a character of several
      bytes is in the way. */
  predicate Reads(r: Taken<Expr>, ascii: bool, e: Expr, rest: string) {
    if ascii then r.Got? && r.value == e && SkipWs(r.rest) == SkipWs(rest) else r == Panics
  }

  lemma TokenReads(t: Tree, rest: string)
    requires Proper(t) && Ends(t, rest)
    requires t.WordToken? || t.NumberToken? || t.StringToken? || t.RegexToken? || t.PathToken?
    ensures Reads(ParsePrimary(Text(t, rest)), AsciiTree(t), Meaning(t), rest)
  {
    hide ParsePrimary, ParseProperty, ParseRegex, ParseString, ParseNumber, SkipWs, PropertyName, MapProperty, IsRegexText,
      NumberOk, BeginsName, PathEnds, NumberEnds;
    match t
    case WordToken(white, word) =>
      WordReads(word, rest);
      AfterWhite(white, word + rest);
    case NumberToken(white, minus, mantissa, exponent) =>
      var s := (minus + (mantissa + exponent)) + rest;
      NumberBegins(minus, mantissa, exponent, rest);
      NumberDispatch(s);
      NumberReads(minus, mantissa, exponent, rest);
      AfterWhite(white, s);
    case StringToken(white, quote, text) =>
      var s := [quote] + (text + ([quote] + rest));
      QuoteDispatch(s);
      StringReads(quote, text, rest);
      AfterWhite(white, s);
    case RegexToken(white, pattern) =>
      var s := "/" + (pattern + ("/" + rest));
      SlashDispatch(s);
      RegexReads(pattern, rest);
      AfterWhite(white, s);
    case PathToken(white, first, more) =>
      PathTokenReads(first, more, rest);
      AfterWhite(white, first + PartsText(more, rest));
  }

  lemma PathTokenReads(first: string, more: seq<Part>, rest: string)
    requires BeginsName(first) && PropertyName(first).Some?
    requires (forall k | 0 <= k < |more| :: PartOk(more[k])) && PathEnds(rest)
    ensures Reads(ParsePrimary(first + PartsText(more, rest)), true, Property([MapProperty(first)] + NamesOf(more)), rest)
  {
    hide ParsePrimary, ParseProperty, SkipWs, PropertyName, MapProperty;
    PartsStart(more, rest);
    NameDispatch(first, PartsText(more, rest));
    PathReads(first, more, rest);
    SkipWsTwice(rest);
  }

  lemma AfterWhite(white: string, token: string)
    requires AllSpace(white)
    ensures ParsePrimary(white + token) == ParsePrimary(token)
  {
    hide ParsePrimary;
    SkippedPrimary(white + token);
    SkippedPrimary(token);
    NoWhite(white, token);
  }

  lemma NoWhite(white: string, token: string)
    requires AllSpace(white)
    ensures "" + token == token && SkipWs(white + token) == SkipWs(token)
  {
    SkipWhite(white, token);
  }

  // ---------------------------------------------------------------------------------------------
  // Whole expressions
  // ---------------------------------------------------------------------------------------------

  lemma {:induction false} PrimaryReads(t: Tree, rest: string)
    requires Proper(t) && Level(t) == PRIMARY && Ends(t, rest)
    ensures Reads(ParsePrimary(Text(t, rest)), AsciiTree(t), Meaning(t), rest)
    decreases t, 5
  {
    hide ParsePrimary, Ends, Reads;
    match t
    case CallTree(white, name, gap, args) =>
      CallReads(white, name, gap, args, rest);
    case Paren(white, inner, closing) =>
      ParenReads(white, inner, closing, rest);
    case _ =>
      TokenReads(t, rest);
  }

  lemma ParenReads(white: string, inner: Tree, closing: string, rest: string)
    requires AllSpace(white) && Proper(inner) && AllSpace(closing)
    ensures Reads(ParsePrimary(Text(Paren(white, inner, closing), rest)), AsciiTree(inner), Meaning(inner), rest)
    decreases inner, 50
  {
    hide ParseConditional, SkipWs;
    var s := Text(inner, closing + (")" + rest));
    SkipToToken(white, "(" + s);
    assert ("(" + s)[1..] == s;
    CloserFollows(closing, ')', rest);
    ConditionalReads(inner, closing + (")" + rest));
    SkipWsTwice(closing + (")" + rest));
  }

  lemma CallReads(white: string, name: string, gap: string, args: Arguments, rest: string)
    requires AllSpace(white) && BeginsName(name) && BuiltinNamed(name).Some? && AllSpace(gap) && ArgumentsProper(args)
    ensures var t := CallTree(white, name, gap, args);
            Reads(ParsePrimary(Text(t, rest)), AsciiTree(t), Meaning(t), rest)
    decreases args, 50
  {
    hide ParsePrimary, ParseArgs, SkipWs, BuiltinNamed, ParseIdentifier;
    var open := "(" + ArgumentsText(args, rest);
    var s := name + (gap + open);
    SkippedPrimary(white + s);
    SkippedPrimary(s);
    NoWhite(white, s);
    GapEnds(gap, open);
    NameDispatch(name, gap + open);
    IdentifierReads(name, gap + open);
    SkipToToken(gap, open);
    assert open[1..] == ArgumentsText(args, rest);
    ArgumentsRead(args, rest);
  }

  lemma GapEnds(gap: string, open: string)
    requires AllSpace(gap) && open != "" && (open[0] == '(' || open[0] == '.')
    ensures NameEnds(gap + open)
  {
    assert (gap + open)[0] == if gap == "" then open[0] else gap[0];
  }

  lemma {:induction false} ArgumentsRead(args: Arguments, rest: string)
    requires ArgumentsProper(args)
    ensures ParseArgs(ArgumentsText(args, rest)) == OrPanics(AsciiArguments(args), Got(ArgumentsMeaning(args), rest))
    decreases args, 40
  {
    hide ParseArgList, SkipWs;
    match args
    case NoArguments(white) =>
      SkipToToken(white, ")" + rest);
      assert (")" + rest)[1..] == rest;
    case _ =>
      var s := ArgumentsText(args, rest);
      ArgumentsBegin(args, rest);
      ArgumentListReads(args, rest, []);
      SkippedArgList(s, []);
      assert [] + ArgumentsMeaning(args) == ArgumentsMeaning(args);
  }

  lemma ArgumentsBegin(args: Arguments, rest: string)
    requires ArgumentsProper(args) && !args.NoArguments?
    ensures !At(SkipWs(ArgumentsText(args, rest)), ")")
  {
    hide SkipWs;
    match args
    case LastArgument(arg, white) =>
      TextBegins(arg, white + (")" + rest));
    case Argument(arg, white, next) =>
      TextBegins(arg, white + ("," + ArgumentsText(next, rest)));
  }

  lemma SkippedArgList(s: string, acc: seq<Expr>)
    ensures ParseArgList(SkipWs(s), acc) == ParseArgList(s, acc)
  {
    hide ParseConditional;
    SkippedConditional(s);
  }

  lemma {:induction false} ArgumentListReads(args: Arguments, rest: string, acc: seq<Expr>)
    requires ArgumentsProper(args) && !args.NoArguments?
    ensures ParseArgList(ArgumentsText(args, rest), acc)
         == OrPanics(AsciiArguments(args), Got(acc + ArgumentsMeaning(args), rest))
    decreases args, 30
  {
    hide ParseConditional, SkipWs, Stops, ParseArgList;
    match args
    case LastArgument(arg, white) =>
      CloserFollows(white, ')', rest);
      ConditionalReads(arg, white + (")" + rest));
      SkipWsTwice(white + (")" + rest));
      LastOfList(Text(arg, white + (")" + rest)), AsciiTree(arg), Meaning(arg), SkipWs(white + (")" + rest)), rest, acc);
    case Argument(arg, white, next) =>
      var tail := ArgumentsText(next, rest);
      CloserFollows(white, ',', tail);
      ConditionalReads(arg, white + ("," + tail));
      SkipWsTwice(white + ("," + tail));
      NextOfList(Text(arg, white + ("," + tail)), AsciiTree(arg), Meaning(arg), SkipWs(white + ("," + tail)), tail, acc);
      ArgumentListReads(next, rest, acc + [Meaning(arg)]);
      assert acc + [Meaning(arg)] + ArgumentsMeaning(next) == acc + ArgumentsMeaning(args);
  }

  lemma LastOfList(s: string, ascii: bool, arg: Expr, after: string, rest: string, acc: seq<Expr>)
    requires ParseConditional(s) == OrPanics(ascii, Got(arg, after)) && SkipWs(after) == ")" + rest
    ensures ParseArgList(s, acc) == OrPanics(ascii, Got(acc + [arg], rest))
  {
    hide ParseConditional, SkipWs;
    At1(rest, ')');
  }

  lemma NextOfList(s: string, ascii: bool, arg: Expr, after: string, rest: string, acc: seq<Expr>)
    requires ParseConditional(s) == OrPanics(ascii, Got(arg, after)) && SkipWs(after) == "," + rest
    ensures ParseArgList(s, acc) == OrPanics(ascii, ParseArgList(rest, acc + [arg]))
  {
    hide ParseConditional, SkipWs;
    At1(rest, ',');
    At1("," + rest, ')');
  }

  /** A dot and a name in front of `rest`, the white space before the dot skipped. */
  lemma MemberFollows(white: string, name: string, rest: string)
    requires AllSpace(white) && IsIdentifierText(name) && NameEnds(rest)
    ensures var s := white + ("." + (name + rest));
            && NameEnds(s) && !At(SkipWs(s), "(") && At(SkipWs(s), ".")
            && ParseIdentifier(SkipWs(s)[1..]) == Got(name, rest)
  {
    var token := "." + (name + rest);
    SkipToToken(white, token);
    assert token[1..] == name + rest;
    IdentifierReads(name, rest);
    GapEnds(white, token);
  }

  lemma ReceiverEnds(receiver: Tree, white: string, name: string, gap: string, more: string)
    requires IsReceiver(receiver) && AllSpace(white) && IsIdentifierText(name) && AllSpace(gap)
    ensures var s := white + ("." + (name + (gap + ("(" + more))));
            && Ends(receiver, s)
            && At(SkipWs(s), ".") && ParseIdentifier(SkipWs(s)[1..]) == Got(name, gap + ("(" + more))
            && SkipWs(gap + ("(" + more)) == "(" + more
  {
    GapEnds(gap, "(" + more);
    MemberFollows(white, name, gap + ("(" + more));
    SkipToToken(gap, "(" + more);
  }

  lemma {:induction false} PostfixReads(t: Tree, rest: string)
    requires Proper(t) && Level(t) >= POSTFIX && Ends(t, rest)
    ensures ParsePostfix(Text(t, rest)) == OrPanics(AsciiTree(t), MoreMembers(Meaning(t), rest))
    decreases t, 10
  {
    hide ParsePrimary, MoreMembers, SkipWs, MethodCall, LambdaCall, CallContent, PropertyName, ParsePostfix, PathEnds, NumberEnds;
    if t.MethodTree? {
      MethodReads(t.receiver, t.white, t.name, t.gap, t.args, rest);
    } else if t.LambdaTree? {
      LambdaTreeReads(t.receiver, t.white, t.name, t.gap, t.content, rest);
    } else if t.LengthTree? {
      MemberReads(t.receiver, t.white, "length", rest);
    } else if t.MemberTree? {
      MemberReads(t.receiver, t.white, t.name, rest);
    } else {
      PrimaryReads(t, rest);
      PrimaryThenMembers(Text(t, rest), AsciiTree(t), Meaning(t), rest);
    }
  }

  lemma PrimaryThenMembers(s: string, ascii: bool, e: Expr, rest: string)
    requires Reads(ParsePrimary(s), ascii, e, rest)
    ensures ParsePostfix(s) == OrPanics(ascii, MoreMembers(e, rest))
  {
    hide ParsePrimary, MoreMembers;
    if ascii {
      SkippedMembers(e, ParsePrimary(s).rest, rest);
    }
  }

  lemma MethodReads(receiver: Tree, white: string, name: string, gap: string, args: Arguments, rest: string)
    requires Proper(MethodTree(receiver, white, name, gap, args))
    ensures var t := MethodTree(receiver, white, name, gap, args);
            ParsePostfix(Text(t, rest)) == OrPanics(AsciiTree(t), MoreMembers(Meaning(t), rest))
    decreases MethodTree(receiver, white, name, gap, args), 0
  {
    hide ParsePostfix, ParseArgs, SkipWs, MethodCall, ParseIdentifier, Ends;
    var inside := ArgumentsText(args, rest);
    ReceiverEnds(receiver, white, name, gap, inside);
    PostfixReads(receiver, white + ("." + (name + (gap + ("(" + inside)))));
    assert ("(" + inside)[1..] == inside;
    ArgumentsRead(args, rest);
  }

  lemma LambdaTreeReads(receiver: Tree, white: string, name: string, gap: string, content: string, rest: string)
    requires Proper(LambdaTree(receiver, white, name, gap, content))
    ensures var t := LambdaTree(receiver, white, name, gap, content);
            ParsePostfix(Text(t, rest)) == OrPanics(AsciiTree(t), MoreMembers(Meaning(t), rest))
    decreases LambdaTree(receiver, white, name, gap, content), 0
  {
    hide ParsePostfix, ParseMethodCall, SkipWs, LambdaCall, ParseIdentifier, Ends, CallContent;
    var inside := content + (")" + rest);
    ReceiverEnds(receiver, white, name, gap, inside);
    PostfixReads(receiver, white + ("." + (name + (gap + ("(" + inside)))));
    assert ("(" + inside)[1..] == inside;
    LambdaReads(Meaning(receiver), name, content, rest);
  }

  /** `.length` and further path members. */
  lemma MemberReads(receiver: Tree, white: string, name: string, rest: string)
    requires Proper(receiver) && IsReceiver(receiver) && !receiver.PathToken? && AllSpace(white) && IsIdentifierText(name)
    requires NameEnds(rest) && !At(SkipWs(rest), "(")
    requires name == "length" || (PropertyName(name).Some? && Meaning(receiver).Property?)
    ensures var t := if name == "length" then LengthTree(receiver, white) else MemberTree(receiver, white, name);
            ParsePostfix(Text(t, rest)) == OrPanics(AsciiTree(t), MoreMembers(Meaning(t), rest))
    decreases receiver, 20
  {
    MemberParts(receiver, white, name, rest);
    hide ParsePostfix, MoreMembers, SkipWs, MapProperty, Ends, Text, AsciiTree, Meaning, Proper;
    EndsBeforeMember(receiver, white, name, rest);
    PostfixReads(receiver, white + ("." + (name + rest)));
    MemberStep(Meaning(receiver), white, name, rest);
  }

  lemma MemberParts(receiver: Tree, white: string, name: string, rest: string)
    requires name == "length" || Meaning(receiver).Property?
    ensures var t := if name == "length" then LengthTree(receiver, white) else MemberTree(receiver, white, name);
            && Text(t, rest) == Text(receiver, white + ("." + (name + rest)))
            && AsciiTree(t) == AsciiTree(receiver)
            && Meaning(t)
               == if name == "length" then Call(Size, [Meaning(receiver)])
                  else Property(Meaning(receiver).path + [MapProperty(name)])
  {
    hide MapProperty;
  }

  lemma MemberStep(acc: Expr, white: string, name: string, rest: string)
    requires AllSpace(white) && IsIdentifierText(name) && NameEnds(rest) && !At(SkipWs(rest), "(")
    requires name == "length" || (PropertyName(name).Some? && acc.Property?)
    ensures MoreMembers(acc, white + ("." + (name + rest)))
         == MoreMembers(if name == "length" then Call(Size, [acc]) else Property(acc.path + [MapProperty(name)]), rest)
  {
    hide SkipWs, ParseIdentifier, MapProperty, ParseMethodCall, NameEnds;
    MemberFollows(white, name, rest);
    SkipWsTwice(rest);
    SkippedMembers(if name == "length" then Call(Size, [acc]) else Property(acc.path + [MapProperty(name)]),
                   SkipWs(rest), rest);
  }

  lemma EndsBeforeMember(receiver: Tree, white: string, name: string, rest: string)
    requires IsReceiver(receiver) && !receiver.PathToken? && AllSpace(white) && IsIdentifierText(name) && NameEnds(rest)
    ensures Ends(receiver, white + ("." + (name + rest)))
  {
    hide SkipWs, ParseIdentifier;
    MemberFollows(white, name, rest);
  }

  lemma {:induction false} UnaryReads(t: Tree, rest: string)
    requires Proper(t) && Level(t) >= UNARY && Boundary(rest)
    ensures ParseUnary(Text(t, rest)) == OrPanics(AsciiTree(t), Got(Meaning(t), SkipWs(rest)))
    decreases t, 15
  {
    hide ParsePostfix, SkipWs, Boundary;
    if t.NotTree? {
      var operand := Text(t.operand, rest);
      SkipToToken(t.white, "!" + operand);
      assert ("!" + operand)[1..] == operand;
      UnaryReads(t.operand, rest);
    } else {
      TextBegins(t, rest);
      BoundaryEnds(t, rest);
      SkippedPostfix(Text(t, rest));
      PostfixReads(t, rest);
      NoMembers(Meaning(t), rest);
    }
  }

  lemma NoMembers(e: Expr, rest: string)
    requires Boundary(rest)
    ensures MoreMembers(e, rest) == Got(e, SkipWs(rest))
  {
    hide ParseMethodCall;
  }

  /** A tree of a level or tighter is read, and then the parser looks for further operands. */
  lemma {:induction false} BinaryReads(t: Tree, rest: string, level: nat)
    requires Proper(t) && 1 <= level < UNARY && Level(t) >= level && Stops(rest, level)
    requires Level(t) == COMPARISON ==> OpAt(SkipWs(rest), COMPARISON).None?
    ensures ParseBinary(Text(t, rest), level) == OrPanics(AsciiTree(t), MoreOperands(Meaning(t), rest, level))
    decreases t, 30 - level, 0
  {
    hide ParseUnary, MoreOperands, OpAt, SkipWs, Boundary, ParseBinary;
    if Level(t) > level {
      TighterReads(t, rest, level + 1);
      ThenOperands(Text(t, rest), AsciiTree(t), Meaning(t), rest, level);
    } else {
      OperatorNodeReads(t, rest);
    }
  }

  lemma ThenOperands(s: string, ascii: bool, e: Expr, rest: string, level: nat)
    requires 1 <= level < UNARY && ParseBinary(s, level + 1) == OrPanics(ascii, Got(e, SkipWs(rest)))
    ensures ParseBinary(s, level) == OrPanics(ascii, MoreOperands(e, rest, level))
  {
    hide MoreOperands, SkipWs;
    SkippedOperands(e, rest, level);
  }

  lemma NoOperands(e: Expr, rest: string, level: nat)
    requires 1 <= level < UNARY && OpAt(SkipWs(rest), level).None?
    ensures MoreOperands(e, rest, level) == Got(e, SkipWs(rest))
  {
    hide ParseBinary, OpAt;
  }

  /** A tree of a level or tighter, with no operator of that level behind it. */
  lemma TighterReads(t: Tree, rest: string, level: nat)
    requires Proper(t) && 1 < level <= UNARY && Level(t) >= level && Stops(rest, level - 1)
    ensures ParseBinary(Text(t, rest), level) == OrPanics(AsciiTree(t), Got(Meaning(t), SkipWs(rest)))
    decreases t, 30 - level, 1
  {
    hide ParseUnary, MoreOperands, OpAt, SkipWs, Boundary;
    if level == UNARY {
      UnaryReads(t, rest);
    } else {
      BinaryReads(t, rest, level);
      NoOperands(Meaning(t), rest, level);
    }
  }

  lemma OperatorNodeReads(t: Tree, rest: string)
    requires Proper(t) && t.BinaryTree? && Stops(rest, LevelOf(t.op))
    requires LevelOf(t.op) == COMPARISON ==> OpAt(SkipWs(rest), COMPARISON).None?
    ensures ParseBinary(Text(t, rest), LevelOf(t.op))
         == OrPanics(AsciiTree(t), MoreOperands(Meaning(t), rest, LevelOf(t.op)))
    decreases t, 10
  {
    hide MoreOperands, OpAt, SkipWs, Boundary, ParseBinary;
    var BinaryTree(op, left, white, right) := t;
    var level := LevelOf(op);
    var operand := Text(right, rest);
    var s := white + (OpText(op) + operand);
    TextBegins(right, rest);
    OperatorFollows(white, op, operand);
    LeftReads(left, s, level);
    TighterReads(right, rest, level + 1);
    OneOperand(Meaning(left), s, op, AsciiTree(right), Meaning(right), rest);
  }

  lemma LeftReads(left: Tree, s: string, level: nat)
    requires Proper(left) && 1 <= level < UNARY && Stops(s, level)
    requires Level(left) >= (if level == COMPARISON then COMPARISON + 1 else level)
    ensures ParseBinary(Text(left, s), level) == OrPanics(AsciiTree(left), MoreOperands(Meaning(left), s, level))
    decreases left, 40
  {
    hide MoreOperands, OpAt, SkipWs, Boundary, ParseBinary;
    if Level(left) == COMPARISON {
      StopsAt(s, level, COMPARISON);
    }
    BinaryReads(left, s, level);
  }

  lemma StopsAt(s: string, level: nat, i: nat)
    requires Stops(s, level) && level < i < UNARY
    ensures OpAt(SkipWs(s), i).None?
  {
  }

  lemma OneOperand(acc: Expr, s: string, op: BinaryOp, ascii: bool, right: Expr, rest: string)
    requires OpAt(SkipWs(s), LevelOf(op)) == Some(op)
    requires ParseBinary(SkipWs(s)[|OpText(op)|..], LevelOf(op) + 1) == OrPanics(ascii, Got(right, SkipWs(rest)))
    requires LevelOf(op) == COMPARISON ==> OpAt(SkipWs(rest), COMPARISON).None?
    ensures MoreOperands(acc, s, LevelOf(op))
         == OrPanics(ascii, MoreOperands(Binary(op, acc, right), rest, LevelOf(op)))
  {
    hide OpAt, ParseBinary;
    SkippedOperands(Binary(op, acc, right), rest, LevelOf(op));
    if LevelOf(op) == COMPARISON {
      NoOperands(Binary(op, acc, right), rest, COMPARISON);
    }
  }

  /** A whole expression is read up to what cannot continue it. */
  lemma {:induction false} ConditionalReads(t: Tree, rest: string)
    requires Proper(t) && Stops(rest, 0) && !At(SkipWs(rest), "?")
    ensures ParseConditional(Text(t, rest)) == OrPanics(AsciiTree(t), Got(Meaning(t), SkipWs(rest)))
    decreases t, 40
  {
    hide ParseBinary, OpAt, SkipWs, Stops;
    SkipWsTwice(rest);
    if t.ConditionalTree? {
      var ConditionalTree(condition, white, whenTrue, between, whenFalse) := t;
      var last := Text(whenFalse, rest);
      var second := Text(whenTrue, between + (":" + last));
      CloserFollows(white, '?', second);
      ConditionReads(condition, white + ("?" + second));
      CloserFollows(between, ':', last);
      ConditionalReads(whenTrue, between + (":" + last));
      ConditionalReads(whenFalse, rest);
      SkipWsTwice(white + ("?" + second));
      SkipWsTwice(between + (":" + last));
    } else {
      ConditionReads(t, rest);
    }
  }

  lemma ConditionReads(t: Tree, rest: string)
    requires Proper(t) && Level(t) > 0 && Stops(rest, 0)
    ensures ParseBinary(Text(t, rest), 1) == OrPanics(AsciiTree(t), Got(Meaning(t), SkipWs(rest)))
    decreases t, 35
  {
    hide ParseBinary, OpAt, SkipWs, Boundary, MoreOperands;
    BinaryReads(t, rest, 1);
    NoOperands(Meaning(t), rest, 1);
  }

  // ---------------------------------------------------------------------------------------------
  // Characters of several bytes
  // ---------------------------------------------------------------------------------------------

  lemma MemberIsAscii(white: string, name: string, rest: string)
    requires AllSpace(white) && IsIdentifierText(name)
    ensures IsAsciiText(white + ("." + (name + rest))) <==> IsAsciiText(rest)
  {
    AsciiBehind(white, "." + (name + rest));
    AsciiBehind(".", name + rest);
    AsciiBehind(name, rest);
  }

  lemma CallIsAscii(white: string, name: string, gap: string, rest: string)
    requires AllSpace(white) && IsIdentifierText(name) && AllSpace(gap)
    ensures IsAsciiText(white + ("." + (name + (gap + ("(" + rest))))) <==> IsAsciiText(rest)
  {
    MemberIsAscii(white, name, gap + ("(" + rest));
    SignIsAscii(gap, "(", rest);
  }

  lemma SignIsAscii(white: string, sign: string, rest: string)
    requires AllSpace(white) && IsAsciiText(sign)
    ensures IsAsciiText(white + (sign + rest)) <==> IsAsciiText(rest)
  {
    AsciiBehind(white, sign + rest);
    AsciiBehind(sign, rest);
  }

  lemma {:induction false} PartsAreAscii(more: seq<Part>, rest: string)
    requires forall k | 0 <= k < |more| :: PartOk(more[k])
    ensures IsAsciiText(PartsText(more, rest)) <==> IsAsciiText(rest)
    decreases more
  {
    hide IsAsciiText;
    if more != [] {
      assert PartOk(more[0]);
      MemberIsAscii(more[0].white, more[0].name, PartsText(more[1..], rest));
      PartsAreAscii(more[1..], rest);
    }
  }

  lemma QuotedIsAscii(white: string, mark: string, text: string, rest: string)
    requires AllSpace(white) && IsAsciiText(mark)
    ensures IsAsciiText(white + (mark + (text + (mark + rest)))) <==> IsAsciiText(text) && IsAsciiText(rest)
  {
    SignIsAscii(white, mark, text + (mark + rest));
    AsciiJoin(text, mark + rest);
    AsciiBehind(mark, rest);
  }

  lemma NumberIsAscii(minus: string, mantissa: string, exponent: string)
    requires NumberOk(minus, mantissa, exponent)
    ensures IsAsciiText(minus + (mantissa + exponent))
  {
    hide IsMantissa;
    assert IsAsciiText(exponent) by {
      if exponent != "" {
        DigitsAreAscii(exponent);
      }
    }
    AsciiJoin(mantissa, exponent);
    AsciiJoin(minus, mantissa + exponent);
  }

  lemma DigitsAreAscii(exponent: string)
    requires ExponentOk(exponent)
    ensures IsAsciiText(exponent)
  {
    forall k | 0 <= k < |exponent|
      ensures IsAscii(exponent[k])
    {
      if k > 1 {
        assert exponent[1..][k - 1] == exponent[k] == exponent[2..][k - 2];
      }
    }
  }

  lemma TokenIsAscii(t: Tree, rest: string)
    requires Proper(t)
    requires t.WordToken? || t.NumberToken? || t.StringToken? || t.RegexToken? || t.PathToken?
    ensures IsAsciiText(Text(t, rest)) <==> AsciiTree(t) && IsAsciiText(rest)
  {
    hide NumberOk, IsRegexText, PropertyName, PartsText;
    match t
    case WordToken(white, word) =>
      SignIsAscii(white, word, rest);
    case NumberToken(white, minus, mantissa, exponent) =>
      NumberIsAscii(minus, mantissa, exponent);
      SignIsAscii(white, minus + (mantissa + exponent), rest);
    case StringToken(white, quote, text) =>
      QuotedIsAscii(white, [quote], text, rest);
    case RegexToken(white, pattern) =>
      QuotedIsAscii(white, "/", pattern, rest);
    case PathToken(white, first, more) =>
      SignIsAscii(white, first, PartsText(more, rest));
      PartsAreAscii(more, rest);
  }

  /** The text of a tree has characters of several bytes in its strings, regexes and lambdas only. */
  lemma {:induction false} TextIsAsciiIff(t: Tree, rest: string)
    requires Proper(t)
    ensures IsAsciiText(Text(t, rest)) <==> AsciiTree(t) && IsAsciiText(rest)
    decreases t
  {
    hide IsAsciiText, AllSpace, IsIdentifierText, NumberOk, IsRegexText, CallContent, PropertyName, BuiltinNamed, MethodCall,
      LambdaCall, Meaning, IsReceiver;
    match t
    case CallTree(white, name, gap, args) =>
      Signs();
      NameIsAscii(name);
      SignIsAscii(white, name, gap + ("(" + ArgumentsText(args, rest)));
      SignIsAscii(gap, "(", ArgumentsText(args, rest));
      ArgumentsAreAsciiIff(args, rest);
    case Paren(white, inner, closing) =>
      Signs();
      SignIsAscii(white, "(", Text(inner, closing + (")" + rest)));
      TextIsAsciiIff(inner, closing + (")" + rest));
      SignIsAscii(closing, ")", rest);
    case MethodTree(receiver, white, name, gap, args) =>
      TextIsAsciiIff(receiver, white + ("." + (name + (gap + ("(" + ArgumentsText(args, rest))))));
      CallIsAscii(white, name, gap, ArgumentsText(args, rest));
      ArgumentsAreAsciiIff(args, rest);
    case LambdaTree(receiver, white, name, gap, content) =>
      TextIsAsciiIff(receiver, white + ("." + (name + (gap + ("(" + (content + (")" + rest)))))));
      assert IsIdentifierText(name) by {
        LambdaNames();
      }
      CallIsAscii(white, name, gap, content + (")" + rest));
      ContentIsAscii(content, rest);
    case LengthTree(receiver, white) =>
      TextIsAsciiIff(receiver, white + ("." + ("length" + rest)));
      LambdaNames();
      MemberIsAscii(white, "length", rest);
    case MemberTree(receiver, white, name) =>
      TextIsAsciiIff(receiver, white + ("." + (name + rest)));
      MemberIsAscii(white, name, rest);
    case NotTree(white, operand) =>
      Signs();
      SignIsAscii(white, "!", Text(operand, rest));
      TextIsAsciiIff(operand, rest);
    case BinaryTree(op, left, white, right) =>
      TextIsAsciiIff(left, white + (OpText(op) + Text(right, rest)));
      OperatorIsAscii(op);
      SignIsAscii(white, OpText(op), Text(right, rest));
      TextIsAsciiIff(right, rest);
    case ConditionalTree(condition, white, whenTrue, between, whenFalse) =>
      Signs();
      var last := Text(whenFalse, rest);
      var second := Text(whenTrue, between + (":" + last));
      TextIsAsciiIff(condition, white + ("?" + second));
      SignIsAscii(white, "?", second);
      TextIsAsciiIff(whenTrue, between + (":" + last));
      SignIsAscii(between, ":", last);
      TextIsAsciiIff(whenFalse, rest);
    case _ =>
      TokenIsAscii(t, rest);
  }

  lemma Signs()
    ensures IsAsciiText("(") && IsAsciiText(")") && IsAsciiText("!") && IsAsciiText("?") && IsAsciiText(":")
    ensures IsAsciiText(",")
  {
  }

  lemma NameIsAscii(name: string)
    requires BeginsName(name)
    ensures IsAsciiText(name)
  {
  }

  lemma LambdaNames()
    ensures IsIdentifierText("filter") && IsIdentifierText("findIndex") && IsIdentifierText("length")
  {
  }

  lemma WhiteIsAscii(white: string)
    requires AllSpace(white)
    ensures IsAsciiText(white)
  {
  }

  lemma ContentIsAscii(content: string, rest: string)
    ensures IsAsciiText(content + (")" + rest)) <==> IsAsciiText(content) && IsAsciiText(rest)
  {
    AsciiJoin(content, ")" + rest);
    AsciiBehind(")", rest);
  }

  lemma OperatorIsAscii(op: BinaryOp)
    ensures IsAsciiText(OpText(op))
  {
  }

  lemma {:induction false} ArgumentsAreAsciiIff(args: Arguments, rest: string)
    requires ArgumentsProper(args)
    ensures IsAsciiText(ArgumentsText(args, rest)) <==> AsciiArguments(args) && IsAsciiText(rest)
    decreases args
  {
    hide IsAsciiText, Text, AllSpace, Proper;
    Signs();
    match args
    case NoArguments(white) =>
      SignIsAscii(white, ")", rest);
    case LastArgument(arg, white) =>
      TextIsAsciiIff(arg, white + (")" + rest));
      SignIsAscii(white, ")", rest);
    case Argument(arg, white, next) =>
      TextIsAsciiIff(arg, white + ("," + ArgumentsText(next, rest)));
      SignIsAscii(white, ",", ArgumentsText(next, rest));
      ArgumentsAreAsciiIff(next, rest);
  }

  /** The round trip: a properly parenthesised text is parsed to the tree it was written from when all its
      characters are of one byte, and otherwise a slice is out of range. */
  lemma ParseUndoesPrint(t: Tree, white: string)
    requires Proper(t) && AllSpace(white)
    ensures ParseImported(Text(t, white)) == if IsAsciiText(Text(t, white)) then Read(Meaning(t)) else Panic
    ensures IsAsciiText(Text(t, white)) <==> AsciiTree(t)
  {
    hide ParseConditional, IsAsciiText;
    EndStops(white);
    ConditionalReads(t, white);
    TextIsAsciiIff(t, white);
    WhiteIsAscii(white);
  }
}
