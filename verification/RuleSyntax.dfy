/** How rule expressions are written: trees with their white space and parentheses that print themselves. */
module RuleSyntax {
  import opened Bytes
  import opened Rules
  import opened RuleParsing

  /** A further part of a path, with the white space in front of its dot. */
  datatype Part = Part(white: string, name: string)

  datatype Tree =
    | WordToken(white: string, word: string)
    | NumberToken(white: string, minus: string, mantissa: string, exponent: string)
    | StringToken(white: string, quote: char, text: string)
    | RegexToken(white: string, pattern: string)
    | PathToken(white: string, first: string, more: seq<Part>)
    | CallTree(white: string, name: string, gap: string, args: Arguments)
    | Paren(white: string, inner: Tree, closing: string)
    | MethodTree(receiver: Tree, white: string, name: string, gap: string, args: Arguments)
    | LambdaTree(receiver: Tree, white: string, name: string, gap: string, content: string)
    | LengthTree(receiver: Tree, white: string)
    | MemberTree(receiver: Tree, white: string, name: string)
    | NotTree(white: string, operand: Tree)
    | BinaryTree(op: BinaryOp, left: Tree, white: string, right: Tree)
    | ConditionalTree(condition: Tree, white: string, whenTrue: Tree, between: string, whenFalse: Tree)

  datatype Arguments =
    | NoArguments(white: string)
    | LastArgument(arg: Tree, white: string)
    | Argument(arg: Tree, white: string, next: Arguments)

  // ---------------------------------------------------------------------------------------------
  // Printing: the text of a tree, followed by `rest`
  // ---------------------------------------------------------------------------------------------

  function PartsText(more: seq<Part>, rest: string): string {
    if more == [] then rest else more[0].white + ("." + (more[0].name + PartsText(more[1..], rest)))
  }

  function Text(t: Tree, rest: string): string {
    match t
    case WordToken(white, word) => white + (word + rest)
    case NumberToken(white, minus, mantissa, exponent) => white + ((minus + (mantissa + exponent)) + rest)
    case StringToken(white, quote, text) => white + ([quote] + (text + ([quote] + rest)))
    case RegexToken(white, pattern) => white + ("/" + (pattern + ("/" + rest)))
    case PathToken(white, first, more) => white + (first + PartsText(more, rest))
    case CallTree(white, name, gap, args) => white + (name + (gap + ("(" + ArgumentsText(args, rest))))
    case Paren(white, inner, closing) => white + ("(" + Text(inner, closing + (")" + rest)))
    case MethodTree(receiver, white, name, gap, args) =>
      Text(receiver, white + ("." + (name + (gap + ("(" + ArgumentsText(args, rest))))))
    case LambdaTree(receiver, white, name, gap, content) =>
      Text(receiver, white + ("." + (name + (gap + ("(" + (content + (")" + rest)))))))
    case LengthTree(receiver, white) => Text(receiver, white + ("." + ("length" + rest)))
    case MemberTree(receiver, white, name) => Text(receiver, white + ("." + (name + rest)))
    case NotTree(white, operand) => white + ("!" + Text(operand, rest))
    case BinaryTree(op, left, white, right) => Text(left, white + (OpText(op) + Text(right, rest)))
    case ConditionalTree(condition, white, whenTrue, between, whenFalse) =>
      Text(condition, white + ("?" + Text(whenTrue, between + (":" + Text(whenFalse, rest)))))
  }

  function ArgumentsText(args: Arguments, rest: string): string {
    match args
    case NoArguments(white) => white + (")" + rest)
    case LastArgument(arg, white) => Text(arg, white + (")" + rest))
    case Argument(arg, white, next) => Text(arg, white + ("," + ArgumentsText(next, rest)))
  }

  function Print(t: Tree): string {
    Text(t, "")
  }

  // ---------------------------------------------------------------------------------------------
  // Meaning
  // ---------------------------------------------------------------------------------------------

  const NOTHING := NullLit

  function OrNothing(e: Option<Expr>): Expr {
    if e.Some? then e.value else NOTHING
  }

  function NamesOf(more: seq<Part>): seq<string> {
    if more == [] then [] else [MapProperty(more[0].name)] + NamesOf(more[1..])
  }

  function Meaning(t: Tree): Expr {
    match t
    case WordToken(_, word) => if word == "null" then NullLit else BoolLit(word == "true")
    case NumberToken(_, minus, mantissa, exponent) => NumberLit(minus + (mantissa + exponent))
    case StringToken(_, _, text) => StringLit(text)
    case RegexToken(_, pattern) => StringLit(pattern)
    case PathToken(_, first, more) => Property([MapProperty(first)] + NamesOf(more))
    case CallTree(_, name, _, args) =>
      if BuiltinNamed(name).None? then NOTHING else Call(BuiltinNamed(name).value, ArgumentsMeaning(args))
    case Paren(_, inner, _) => Meaning(inner)
    case MethodTree(receiver, _, name, _, args) => OrNothing(MethodCall(Meaning(receiver), name, ArgumentsMeaning(args)))
    case LambdaTree(receiver, _, name, _, content) => OrNothing(LambdaCall(Meaning(receiver), name, content))
    case LengthTree(receiver, _) => Call(Size, [Meaning(receiver)])
    case MemberTree(receiver, _, name) =>
      if Meaning(receiver).Property? then Property(Meaning(receiver).path + [MapProperty(name)]) else NOTHING
    case NotTree(_, operand) => Not(Meaning(operand))
    case BinaryTree(op, left, _, right) => Binary(op, Meaning(left), Meaning(right))
    case ConditionalTree(condition, _, whenTrue, _, whenFalse) =>
      Conditional(Meaning(condition), Meaning(whenTrue), Meaning(whenFalse))
  }

  function LambdaCall(receiver: Expr, name: string, content: string): Option<Expr> {
    var form := ParseLambda(content);
    if !form.IsLambda? then None
    else if name == "filter" then FilterCall(receiver, form.lambda)
    else FindIndexCall(receiver, form.lambda)
  }

  function ArgumentsMeaning(args: Arguments): seq<Expr> {
    match args
    case NoArguments(_) => []
    case LastArgument(arg, _) => [Meaning(arg)]
    case Argument(arg, _, next) => [Meaning(arg)] + ArgumentsMeaning(next)
  }

  // ---------------------------------------------------------------------------------------------
  // Properly written: spelling, and parentheses where precedence requires them
  // ---------------------------------------------------------------------------------------------

  const POSTFIX := 9
  const PRIMARY := 10

  function Level(t: Tree): nat {
    match t
    case ConditionalTree(_, _, _, _, _) => 0
    case BinaryTree(op, _, _, _) => LevelOf(op)
    case NotTree(_, _) => UNARY
    case MethodTree(_, _, _, _, _) => POSTFIX
    case LambdaTree(_, _, _, _, _) => POSTFIX
    case LengthTree(_, _) => POSTFIX
    case MemberTree(_, _, _) => POSTFIX
    case _ => PRIMARY
  }

  predicate AllSpace(s: string) {
    forall k | 0 <= k < |s| :: IsSpace(s[k])
  }

  predicate IsIdentifierText(s: string) {
    s != "" && forall k | 0 <= k < |s| :: IsIdentifierChar(s[k])
  }

  /** A name that can begin an expression. */
  predicate BeginsName(s: string) {
    IsIdentifierText(s) && !IsDigit(s[0]) && !At(s, "true") && !At(s, "false") && !At(s, "null")
  }

  predicate PartOk(p: Part) {
    AllSpace(p.white) && IsIdentifierText(p.name) && PropertyName(p.name).Some?
  }

  /** Digits with at most one dot; a dot may come first behind a minus only. */
  predicate NumberOk(minus: string, mantissa: string, exponent: string) {
    && (minus == "" || minus == "-")
    && IsMantissa(mantissa) && (forall k | 0 <= k < |mantissa| :: IsDigit(mantissa[k]) || mantissa[k] == '.')
    && (minus == "" ==> IsDigit(mantissa[0]))
    && (exponent == "" || ExponentOk(exponent))
  }

  predicate ExponentOk(s: string) {
    && |s| > 1 && (s[0] == 'e' || s[0] == 'E')
    && (if s[1] == '+' || s[1] == '-' then AreDigits(s[2..]) else AreDigits(s[1..]))
  }

  predicate AreDigits(s: string) {
    s != "" && forall k | 0 <= k < |s| :: IsDigit(s[k])
  }

  /** No slash that no backslash escapes. */
  predicate IsRegexText(s: string) {
    RegexTail(s + "/", false) == Some(|s|) && |s| <= MAX_REGEX_PATTERN_BYTES
  }

  /** A receiver that a member can follow without being taken for a part of it. */
  predicate IsReceiver(t: Tree) {
    Level(t) >= POSTFIX && !t.NumberToken?
  }

  predicate Proper(t: Tree) {
    match t
    case WordToken(white, word) => AllSpace(white) && (word == "true" || word == "false" || word == "null")
    case NumberToken(white, minus, mantissa, exponent) => AllSpace(white) && NumberOk(minus, mantissa, exponent)
    case StringToken(white, quote, text) =>
      AllSpace(white) && (quote == '\'' || quote == '"') && quote !in text && |text| <= MAX_PROFILE_STRING_BYTES
    case RegexToken(white, pattern) => AllSpace(white) && IsRegexText(pattern)
    case PathToken(white, first, more) =>
      && AllSpace(white) && BeginsName(first) && PropertyName(first).Some?
      && forall k | 0 <= k < |more| :: PartOk(more[k])
    case CallTree(white, name, gap, args) =>
      AllSpace(white) && BeginsName(name) && BuiltinNamed(name).Some? && AllSpace(gap) && ArgumentsProper(args)
    case Paren(white, inner, closing) => AllSpace(white) && Proper(inner) && AllSpace(closing)
    case MethodTree(receiver, white, name, gap, args) =>
      && Proper(receiver) && IsReceiver(receiver) && AllSpace(white) && IsIdentifierText(name) && AllSpace(gap)
      && name != "filter" && name != "findIndex" && ArgumentsProper(args)
      && MethodCall(Meaning(receiver), name, ArgumentsMeaning(args)).Some?
    case LambdaTree(receiver, white, name, gap, content) =>
      && Proper(receiver) && IsReceiver(receiver) && AllSpace(white) && AllSpace(gap)
      && (name == "filter" || name == "findIndex")
      && CallContent(content + ")", 1, Code) == Some(|content|) && LambdaCall(Meaning(receiver), name, content).Some?
    case LengthTree(receiver, white) =>
      Proper(receiver) && IsReceiver(receiver) && !receiver.PathToken? && AllSpace(white)
    case MemberTree(receiver, white, name) =>
      && Proper(receiver) && IsReceiver(receiver) && !receiver.PathToken? && AllSpace(white)
      && IsIdentifierText(name) && name != "length" && PropertyName(name).Some? && Meaning(receiver).Property?
    case NotTree(white, operand) => AllSpace(white) && Proper(operand) && Level(operand) >= UNARY
    case BinaryTree(op, left, white, right) =>
      && Proper(left) && AllSpace(white) && Proper(right)
      && Level(left) >= (if LevelOf(op) == COMPARISON then COMPARISON + 1 else LevelOf(op))
      && Level(right) > LevelOf(op)
    case ConditionalTree(condition, white, whenTrue, between, whenFalse) =>
      && Proper(condition) && Level(condition) > 0 && AllSpace(white) && Proper(whenTrue) && AllSpace(between)
      && Proper(whenFalse)
  }

  predicate ArgumentsProper(args: Arguments) {
    match args
    case NoArguments(white) => AllSpace(white)
    case LastArgument(arg, white) => Proper(arg) && AllSpace(white)
    case Argument(arg, white, next) => Proper(arg) && AllSpace(white) && !next.NoArguments? && ArgumentsProper(next)
  }

  // ---------------------------------------------------------------------------------------------
  // Characters of one byte
  // ---------------------------------------------------------------------------------------------

  /** No string, regex or lambda of the tree holds a character of several bytes; nothing else can. */
  predicate AsciiTree(t: Tree) {
    match t
    case StringToken(_, _, text) => IsAsciiText(text)
    case RegexToken(_, pattern) => IsAsciiText(pattern)
    case CallTree(_, _, _, args) => AsciiArguments(args)
    case Paren(_, inner, _) => AsciiTree(inner)
    case MethodTree(receiver, _, _, _, args) => AsciiTree(receiver) && AsciiArguments(args)
    case LambdaTree(receiver, _, _, _, content) => AsciiTree(receiver) && IsAsciiText(content)
    case LengthTree(receiver, _) => AsciiTree(receiver)
    case MemberTree(receiver, _, _) => AsciiTree(receiver)
    case NotTree(_, operand) => AsciiTree(operand)
    case BinaryTree(_, left, _, right) => AsciiTree(left) && AsciiTree(right)
    case ConditionalTree(condition, _, whenTrue, _, whenFalse) =>
      AsciiTree(condition) && AsciiTree(whenTrue) && AsciiTree(whenFalse)
    case _ => true
  }

  predicate AsciiArguments(args: Arguments) {
    match args
    case NoArguments(_) => true
    case LastArgument(arg, _) => AsciiTree(arg)
    case Argument(arg, _, next) => AsciiTree(arg) && AsciiArguments(next)
  }
}
