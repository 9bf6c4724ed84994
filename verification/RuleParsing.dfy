/** What the expression parser does with the text from its offset on, as functions of that text. */
module RuleParsing {
  import opened Bytes
  import opened Rules

  const MAX_IDENTIFIER_BYTES := 128
  const MAX_PROFILE_STRING_BYTES := 4096
  const MAX_REGEX_PATTERN_BYTES := 512

  /** A value and the text after it, a refusal, whose message is not kept, or a slice out of range, which ends
      everything. */
  datatype Taken<+T> = Got(value: T, rest: string) | Refused | Panics {
    predicate IsFailure() {
      !Got?
    }

    function PropagateFailure<U>(): Taken<U>
      requires !Got?
    {
      if Refused? then Refused else Panics
    }

    function Extract(): (T, string)
      requires Got?
    {
      (value, rest)
    }
  }

  predicate IsSpace(c: char) {
    c == ' ' || c == '\t' || c == '\n' || c == '\r' || c == 12 as char
  }

  predicate IsDigit(c: char) {
    '0' <= c <= '9'
  }

  predicate IsIdentifierChar(c: char) {
    IsDigit(c) || 'a' <= c <= 'z' || 'A' <= c <= 'Z' || c == '_'
  }

  predicate At(s: string, token: string) {
    token <= s
  }

  function SkipWs(s: string): (r: string)
    ensures |r| <= |s| && (r == "" || !IsSpace(r[0]))
  {
    if s != "" && IsSpace(s[0]) then SkipWs(s[1..]) else s
  }

  lemma SkipWsTwice(s: string)
    ensures SkipWs(SkipWs(s)) == SkipWs(s)
  {
  }

  // ---------------------------------------------------------------------------------------------
  // Tokens
  // ---------------------------------------------------------------------------------------------

  function IdentifierRun(s: string): (n: nat)
    ensures n <= |s| && (forall k | 0 <= k < n :: IsIdentifierChar(s[k]))
    ensures n < |s| ==> !IsIdentifierChar(s[n])
  {
    if s == "" || !IsIdentifierChar(s[0]) then 0 else 1 + IdentifierRun(s[1..])
  }

  function ParseIdentifier(s: string): (r: Taken<string>)
    ensures r.Got? ==> |r.rest| < |s|
  {
    var n := IdentifierRun(s);
    if n == 0 then Refused else Got(s[..n], s[n..])
  }

  function MapProperty(name: string): string {
    if name == "Length" then "declaredLength"
    else if name == "realLength" then "discoveredLength"
    else if name == "isEncrypted" then "encrypted"
    else if name == "containsMetadata" then "hasMetadata"
    else if name == "isCatalogMetadata" then "catalogMetadata"
    else name
  }

  function PropertyName(name: string): Option<string> {
    if |MapProperty(name)| > MAX_IDENTIFIER_BYTES then None else Some(MapProperty(name))
  }

  function BuiltinNamed(name: string): Option<Builtin> {
    if name == "hasParseFact" then Some(HasParseFact)
    else if name == "size" then Some(Size)
    else if name == "isEmpty" then Some(IsEmpty)
    else if name == "contains" then Some(Contains)
    else if name == "all" then Some(All)
    else if name == "exists" then Some(Exists)
    else if name == "matches" then Some(Matches)
    else None
  }

  predicate IsAscii(c: char) {
    c as int < 0x80
  }

  predicate IsAsciiText(s: string) {
    forall k | 0 <= k < |s| :: IsAscii(s[k])
  }

  /** What stepping byte by byte towards a closing mark leads to: the mark, the end of the text, or the inside
      of a character of several bytes, where slicing is out of range. */
  datatype Ending = Closed(at: nat) | Endless | InsideCharacter

  function Later(n: nat, found: Option<nat>): Option<nat> {
    if found.None? then None else Some(n + found.value)
  }

  function Delayed(n: nat, end: Ending): Ending {
    if end.Closed? then Closed(n + end.at) else end
  }

  /** The position of the closing quote; there are no escapes. */
  function StringTail(s: string, quote: char): (r: Option<nat>)
    ensures r.Some? ==> r.value < |s| && s[r.value] == quote && quote !in s[..r.value]
  {
    if s == "" then None
    else if s[0] == quote then Some(0)
    else
      var more := StringTail(s[1..], quote);
      if more.None? then None else Some(1 + more.value)
  }

  /** The way to it. */
  function StringEnd(s: string, quote: char): (r: Ending)
    ensures r.Closed? ==> r.at < |s|
  {
    if s == "" then Endless
    else if s[0] == quote then Closed(0)
    else if !IsAscii(s[0]) then InsideCharacter
    else Delayed(1, StringEnd(s[1..], quote))
  }

  /** The literal between the ends of `s`, when it is not too long. */
  function Literal(s: string, end: Ending, max: nat): (r: Taken<Expr>)
    requires end.Closed? ==> end.at < |s|
    ensures r.Got? ==> |r.rest| < |s|
  {
    match end
    case InsideCharacter => Panics
    case Endless => Refused
    case Closed(n) => if n > max then Refused else Got(StringLit(s[..n]), s[n + 1..])
  }

  function ParseString(s: string): (r: Taken<Expr>)
    requires s != ""
    ensures r.Got? ==> |r.rest| < |s|
  {
    Literal(s[1..], StringEnd(s[1..], s[0]), MAX_PROFILE_STRING_BYTES)
  }

  /** The position of the next slash that no backslash escapes. */
  function RegexTail(s: string, escaped: bool): (r: Option<nat>)
    ensures r.Some? ==> r.value < |s|
  {
    if s == "" then None
    else if s[0] == '/' && !escaped then Some(0)
    else
      var more := RegexTail(s[1..], s[0] == '\\' && !escaped);
      if more.None? then None else Some(1 + more.value)
  }

  /** The way to it. */
  function RegexEnd(s: string, escaped: bool): (r: Ending)
    ensures r.Closed? ==> r.at < |s|
  {
    if s == "" then Endless
    else if s[0] == '/' && !escaped then Closed(0)
    else if !IsAscii(s[0]) then InsideCharacter
    else Delayed(1, RegexEnd(s[1..], s[0] == '\\' && !escaped))
  }

  function ParseRegex(s: string): (r: Taken<Expr>)
    requires s != ""
    ensures r.Got? ==> |r.rest| < |s|
  {
    Literal(s[1..], RegexEnd(s[1..], false), MAX_REGEX_PATTERN_BYTES)
  }

  function MantissaRun(s: string): (n: nat)
    ensures n <= |s| && (forall k | 0 <= k < n :: IsDigit(s[k]) || s[k] == '.')
    ensures n < |s| ==> !IsDigit(s[n]) && s[n] != '.'
  {
    if s == "" || (!IsDigit(s[0]) && s[0] != '.') then 0 else 1 + MantissaRun(s[1..])
  }

  function DigitRun(s: string): (n: nat)
    ensures n <= |s| && (forall k | 0 <= k < n :: IsDigit(s[k]))
    ensures n < |s| ==> !IsDigit(s[n])
  {
    if s == "" || !IsDigit(s[0]) then 0 else 1 + DigitRun(s[1..])
  }

  /** Digits with at most one dot among them. */
  predicate IsMantissa(s: string) {
    && (exists k | 0 <= k < |s| :: IsDigit(s[k]))
    && forall i, j | 0 <= i < j < |s| && s[i] == '.' :: s[j] != '.'
  }

  /** The length of an exponent: none, or nothing when it has no digits. */
  function ExponentLength(s: string): (r: Option<nat>)
    ensures r.Some? ==> r.value <= |s|
  {
    if s == "" || (s[0] != 'e' && s[0] != 'E') then Some(0)
    else
      var sign := if |s| > 1 && (s[1] == '+' || s[1] == '-') then 1 else 0;
      var n := DigitRun(s[1 + sign..]);
      if n == 0 then None else Some(1 + sign + n)
  }

  function MinusLength(s: string): (n: nat)
    ensures n <= |s|
  {
    if At(s, "-") then 1 else 0
  }

  function ParseNumber(s: string): (r: Taken<Expr>)
    ensures r.Got? ==> |r.rest| < |s|
  {
    var unsigned := s[MinusLength(s)..];
    var n := MantissaRun(unsigned);
    var exponent := ExponentLength(unsigned[n..]);
    if exponent.None? || !IsMantissa(unsigned[..n]) then Refused
    else
      var end := MinusLength(s) + n + exponent.value;
      Got(NumberLit(s[..end]), s[end..])
  }

  // ---------------------------------------------------------------------------------------------
  // Lambdas
  // ---------------------------------------------------------------------------------------------

  datatype Lambda = EqAny(values: seq<string>) | NeAll(values: seq<string>) | RegexMatches(pattern: string)
    | RegexNotMatches(pattern: string)

  /** Unicode white space; between tokens only that of ASCII but the vertical tab is skipped. */
  predicate IsTrimmed(c: char) {
    var n := c as int;
    || IsSpace(c) || n == 0x0B || n == 0x85 || n == 0xA0 || n == 0x1680 || 0x2000 <= n <= 0x200A
    || n == 0x2028 || n == 0x2029 || n == 0x202F || n == 0x205F || n == 0x3000
  }

  function TrimStart(s: string): (r: string)
    ensures |r| <= |s|
  {
    if s != "" && IsTrimmed(s[0]) then TrimStart(s[1..]) else s
  }

  function TrimEnd(s: string): (r: string)
    ensures |r| <= |s|
  {
    if s != "" && IsTrimmed(s[|s| - 1]) then TrimEnd(s[..|s| - 1]) else s
  }

  function Trim(s: string): (r: string)
    ensures |r| <= |s|
  {
    TrimEnd(TrimStart(s))
  }

  function FindText(s: string, token: string): (r: Option<nat>)
    ensures r.Some? ==> r.value + |token| <= |s|
  {
    if At(s, token) then Some(0)
    else if s == "" then None
    else
      var more := FindText(s[1..], token);
      if more.None? then None else Some(1 + more.value)
  }

  function SplitOnce(s: string, token: string): Option<(string, string)> {
    var i := FindText(s, token);
    if i.None? then None else Some((s[..i.value], s[i.value + |token|..]))
  }

  function SplitText(s: string, token: string): (r: seq<string>)
    requires token != ""
    ensures r != []
    decreases |s|
  {
    var i := FindText(s, token);
    if i.None? then [s] else [s[..i.value]] + SplitText(s[i.value + |token|..], token)
  }

  predicate IsIdentifier(s: string) {
    s != "" && !IsDigit(s[0]) && forall c | c in s :: IsIdentifierChar(c)
  }

  /** What reading a quoted string leads to; of a single quote the range to be sliced out is upside down. */
  datatype Unquoted = NoQuotes | QuotesOverlap | Unquoted(text: string)

  function StaticString(s: string): Unquoted {
    if s == "" || (s[0] != '\'' && s[0] != '"') || s[|s| - 1] != s[0] then NoQuotes
    else if |s| == 1 then QuotesOverlap
    else Unquoted(s[1..|s| - 1])
  }

  /** One comparison of the parameter with a string. */
  datatype Compared = Other | NoString | LoneQuote | Value(text: string)

  function ComparedValue(s: string, variable: string, operator: string): Compared {
    var sides := SplitOnce(s, operator);
    if sides.None? || Trim(sides.value.0) != variable then Other
    else
      match StaticString(Trim(sides.value.1))
      case NoQuotes => NoString
      case QuotesOverlap => LoneQuote
      case Unquoted(text) => Value(text)
  }

  datatype ComparedAll = OtherForm | MalformedForm | PanickedForm | Values(values: seq<string>)

  function ComparedValues(parts: seq<string>, variable: string, operator: string): ComparedAll {
    if parts == [] then Values([])
    else match ComparedValue(Trim(parts[0]), variable, operator)
      case Other => OtherForm
      case NoString => MalformedForm
      case LoneQuote => PanickedForm
      case Value(text) =>
        match ComparedValues(parts[1..], variable, operator)
        case Values(values) => Values([text] + values)
        case other => other
  }

  datatype RegexForm = NoRegex | BadRegex | Pattern(text: string)

  function RegexLambda(s: string, variable: string, positive: bool): RegexForm {
    if !positive && !At(s, "!") then NoRegex
    else
      var t := if positive then s else Trim(s[1..]);
      if !At(t, "/") then NoRegex
      else
        var end := RegexTail(t[1..], false);
        if end.None? then BadRegex
        else if Trim(t[1..][end.value + 1..]) == ".test(" + variable + ")" then Pattern(t[1..][..end.value])
        else NoRegex
  }

  datatype LambdaForm = NoLambda | PanickedLambda | IsLambda(lambda: Lambda)

  /** Comparisons joined by `||` or `&&`, or a regex test, negated or not. */
  function ParseLambda(content: string): LambdaForm {
    var sides := SplitOnce(content, "=>");
    if sides.None? || !IsIdentifier(Trim(sides.value.0)) then NoLambda
    else
      var variable := Trim(sides.value.0);
      var body := Trim(sides.value.1);
      match RegexLambda(body, variable, true)
      case BadRegex => NoLambda
      case Pattern(text) => IsLambda(RegexMatches(text))
      case NoRegex =>
        match RegexLambda(body, variable, false)
        case BadRegex => NoLambda
        case Pattern(text) => IsLambda(RegexNotMatches(text))
        case NoRegex =>
          match ComparedValues(SplitText(body, "||"), variable, "==")
          case MalformedForm => NoLambda
          case PanickedForm => PanickedLambda
          case Values(values) => IsLambda(EqAny(values))
          case OtherForm =>
            match ComparedValues(SplitText(body, "&&"), variable, "!=")
            case Values(values) => IsLambda(NeAll(values))
            case PanickedForm => PanickedLambda
            case _ => NoLambda
  }

  function StringArgs(values: seq<string>): Option<seq<Expr>> {
    if exists v | v in values :: |v| > MAX_PROFILE_STRING_BYTES then None
    else Some(seq(|values|, i requires 0 <= i < |values| => StringLit(values[i])))
  }

  function FilterCall(receiver: Expr, lambda: Lambda): Option<Expr> {
    match lambda
    case EqAny(values) =>
      var args := StringArgs(values);
      if args.None? then None else Some(Call(FilterEquals, [receiver] + args.value))
    case NeAll(values) =>
      var args := StringArgs(values);
      if args.None? then None else Some(Call(FilterNotEquals, [receiver] + args.value))
    case RegexMatches(pattern) =>
      if |pattern| > MAX_REGEX_PATTERN_BYTES then None else Some(Call(FilterMatches, [receiver, StringLit(pattern)]))
    case RegexNotMatches(pattern) =>
      if |pattern| > MAX_REGEX_PATTERN_BYTES then None else Some(Call(FilterNotMatches, [receiver, StringLit(pattern)]))
  }

  function FindIndexCall(receiver: Expr, lambda: Lambda): Option<Expr> {
    if !lambda.EqAny? then None
    else
      var args := StringArgs(lambda.values);
      if args.None? then None else Some(Call(FindIndexEquals, [receiver] + args.value))
  }

  datatype Quoting = Code | Quoted(quote: char, escaped: bool) | Regex(escaped: bool)

  /** What a character of the content of a call leads to. */
  function QuotingAfter(quoting: Quoting, c: char): Quoting {
    match quoting
    case Quoted(quote, escaped) => if c == quote && !escaped then Code else Quoted(quote, c == '\\' && !escaped)
    case Regex(escaped) => if c == '/' && !escaped then Code else Regex(c == '\\' && !escaped)
    case Code => if c == '\'' || c == '"' then Quoted(c, false) else if c == '/' then Regex(false) else Code
  }

  predicate Closes(quoting: Quoting, c: char, depth: nat) {
    quoting.Code? && c == ')' && depth == 1
  }

  function DepthAfter(quoting: Quoting, c: char, depth: nat): (r: nat)
    requires depth > 0 && !Closes(quoting, c, depth)
    ensures r > 0
  {
    if !quoting.Code? then depth else if c == '(' then depth + 1 else if c == ')' then depth - 1 else depth
  }

  /** The position of the parenthesis that closes a call, strings and regexes stepped over. */
  function CallContent(s: string, depth: nat, quoting: Quoting): (r: Option<nat>)
    requires depth > 0
    ensures r.Some? ==> r.value < |s|
  {
    if s == "" then None
    else if Closes(quoting, s[0], depth) then Some(0)
    else Later(1, CallContent(s[1..], DepthAfter(quoting, s[0], depth), QuotingAfter(quoting, s[0])))
  }

  /** The way to it. */
  function CallEnd(s: string, depth: nat, quoting: Quoting): (r: Ending)
    requires depth > 0
    ensures r.Closed? ==> r.at < |s|
  {
    if s == "" then Endless
    else if Closes(quoting, s[0], depth) then Closed(0)
    else if !IsAscii(s[0]) then InsideCharacter
    else Delayed(1, CallEnd(s[1..], DepthAfter(quoting, s[0], depth), QuotingAfter(quoting, s[0])))
  }

  // ---------------------------------------------------------------------------------------------
  // Operators
  // ---------------------------------------------------------------------------------------------

  const COMPARISON := 3
  const UNARY := 8

  /** From the loosest level to the tightest. */
  function LevelOf(op: BinaryOp): (level: nat)
    ensures 1 <= level < UNARY
  {
    match op
    case Or => 1
    case And => 2
    case Eq => 3
    case Ne => 3
    case Le => 3
    case Ge => 3
    case Lt => 3
    case Gt => 3
    case BitAnd => 4
    case Shr => 5
    case Add => 6
    case Sub => 6
    case Mul => 7
    case Div => 7
    case Rem => 7
  }

  function OpText(op: BinaryOp): (text: string)
    ensures text != ""
  {
    match op
    case Or => "||"
    case And => "&&"
    case Eq => "=="
    case Ne => "!="
    case Le => "<="
    case Ge => ">="
    case Lt => "<"
    case Gt => ">"
    case BitAnd => "&"
    case Shr => ">>"
    case Add => "+"
    case Sub => "-"
    case Mul => "*"
    case Div => "/"
    case Rem => "%"
  }

  /** The operator of one level at the front, tried in the parser's order. */
  function OpAt(t: string, level: nat): (op: Option<BinaryOp>)
    ensures op.Some? ==> LevelOf(op.value) == level && At(t, OpText(op.value))
  {
    match level
    case 1 => if At(t, "||") then Some(Or) else None
    case 2 => if At(t, "&&") then Some(And) else None
    case 3 =>
      if At(t, "==") then Some(Eq)
      else if At(t, "!=") then Some(Ne)
      else if At(t, "<=") then Some(Le)
      else if At(t, ">=") then Some(Ge)
      else if At(t, "<") then Some(Lt)
      else if At(t, ">") then Some(Gt)
      else None
    case 4 => if At(t, "&") && !At(t, "&&") then Some(BitAnd) else None
    case 5 => if At(t, ">>") then Some(Shr) else None
    case 6 => if At(t, "+") then Some(Add) else if At(t, "-") then Some(Sub) else None
    case 7 => if At(t, "*") then Some(Mul) else if At(t, "/") then Some(Div) else if At(t, "%") then Some(Rem) else None
    case _ => None
  }

  // ---------------------------------------------------------------------------------------------
  // Expressions
  // ---------------------------------------------------------------------------------------------

  function ParseConditional(s: string): (r: Taken<Expr>)
    ensures r.Got? ==> |r.rest| < |s|
    decreases |s|, 20
  {
    var (condition, afterCondition) :- ParseBinary(s, 1);
    var t := SkipWs(afterCondition);
    if !At(t, "?") then Got(condition, t)
    else
      var (whenTrue, afterTrue) :- ParseConditional(t[1..]);
      var u := SkipWs(afterTrue);
      if !At(u, ":") then Refused
      else
        var (whenFalse, rest) :- ParseConditional(u[1..]);
        Got(Conditional(condition, whenTrue, whenFalse), rest)
  }

  /** An expression of a level and all tighter ones. */
  function ParseBinary(s: string, level: nat): (r: Taken<Expr>)
    requires 1 <= level <= UNARY
    ensures r.Got? ==> |r.rest| < |s|
    decreases |s|, 10 + UNARY - level
  {
    if level == UNARY then ParseUnary(s)
    else
      var (first, rest) :- ParseBinary(s, level + 1);
      MoreOperands(first, rest, level)
  }

  /** Further operands of a level, taken from left to right; comparisons take one at most. */
  function MoreOperands(acc: Expr, s: string, level: nat): (r: Taken<Expr>)
    requires 1 <= level < UNARY
    ensures r.Got? ==> |r.rest| <= |s|
    decreases |s|, 10 + UNARY - level
  {
    var t := SkipWs(s);
    var op := OpAt(t, level);
    if op.None? then Got(acc, t)
    else
      var (right, rest) :- ParseBinary(t[|OpText(op.value)|..], level + 1);
      if level == COMPARISON then Got(Binary(op.value, acc, right), rest)
      else MoreOperands(Binary(op.value, acc, right), rest, level)
  }

  function ParseUnary(s: string): (r: Taken<Expr>)
    ensures r.Got? ==> |r.rest| < |s|
    decreases |s|, 5
  {
    var t := SkipWs(s);
    if At(t, "!") then
      var (operand, rest) :- ParseUnary(t[1..]);
      Got(Not(operand), rest)
    else ParsePostfix(t)
  }

  function ParsePostfix(s: string): (r: Taken<Expr>)
    ensures r.Got? ==> |r.rest| < |s|
    decreases |s|, 4
  {
    var (first, rest) :- ParsePrimary(s);
    MoreMembers(first, rest)
  }

  function MoreMembers(acc: Expr, s: string): (r: Taken<Expr>)
    ensures r.Got? ==> |r.rest| <= |s|
    decreases |s|, 4
  {
    var t := SkipWs(s);
    if !At(t, ".") then Got(acc, t)
    else
      var (member, afterMember) :- ParseIdentifier(t[1..]);
      var u := SkipWs(afterMember);
      if At(u, "(") then
        var (call, rest) :- ParseMethodCall(acc, member, u[1..]);
        MoreMembers(call, rest)
      else if member == "length" then MoreMembers(Call(Size, [acc]), u)
      else if acc.Property? && PropertyName(member).Some? then
        MoreMembers(Property(acc.path + [PropertyName(member).value]), u)
      else Refused
  }

  predicate LiteralStarts(t: string) {
    || At(t, "/") || At(t, "\"") || At(t, "'") || At(t, "true") || At(t, "false") || At(t, "null")
    || (t != "" && (IsDigit(t[0]) || t[0] == '-'))
  }

  /** The words match as prefixes: `trueish` is a literal and three letters more. */
  function LiteralAt(t: string): (r: Taken<Expr>)
    requires LiteralStarts(t)
    ensures r.Got? ==> |r.rest| < |t|
  {
    if At(t, "/") then ParseRegex(t)
    else if At(t, "\"") || At(t, "'") then ParseString(t)
    else if At(t, "true") then Got(BoolLit(true), t[4..])
    else if At(t, "false") then Got(BoolLit(false), t[5..])
    else if At(t, "null") then Got(NullLit, t[4..])
    else ParseNumber(t)
  }

  function ParsePrimary(s: string): (r: Taken<Expr>)
    ensures r.Got? ==> |r.rest| < |s|
    decreases |s|, 3
  {
    var t := SkipWs(s);
    if At(t, "(") then
      var (inner, afterInner) :- ParseConditional(t[1..]);
      var u := SkipWs(afterInner);
      if At(u, ")") then Got(inner, u[1..]) else Refused
    else if LiteralStarts(t) then LiteralAt(t)
    else ParseProperty(t)
  }

  function ParseProperty(s: string): (r: Taken<Expr>)
    ensures r.Got? ==> |r.rest| < |s|
    decreases |s|, 2
  {
    var (first, afterFirst) :- ParseIdentifier(s);
    var t := SkipWs(afterFirst);
    if At(t, "(") then
      var (args, rest) :- ParseArgs(t[1..]);
      if BuiltinNamed(first).None? then Refused else Got(Call(BuiltinNamed(first).value, args), rest)
    else if PropertyName(first).None? then Refused
    else MoreParts([PropertyName(first).value], t)
  }

  /** Further parts of a path; a part in front of a parenthesis is a method and left alone. */
  function MoreParts(parts: seq<string>, s: string): (r: Taken<Expr>)
    ensures r.Got? ==> |r.rest| <= |s|
    decreases |s|
  {
    var t := SkipWs(s);
    if !At(t, ".") then Got(Property(parts), t)
    else
      var (member, afterMember) :- ParseIdentifier(t[1..]);
      if At(SkipWs(afterMember), "(") then Got(Property(parts), t)
      else if PropertyName(member).None? then Refused
      else MoreParts(parts + [PropertyName(member).value], afterMember)
  }

  /** Arguments after the opening parenthesis. */
  function ParseArgs(s: string): (r: Taken<seq<Expr>>)
    ensures r.Got? ==> |r.rest| < |s|
    decreases |s|, 22
  {
    var t := SkipWs(s);
    if At(t, ")") then Got([], t[1..]) else ParseArgList(t, [])
  }

  function ParseArgList(s: string, acc: seq<Expr>): (r: Taken<seq<Expr>>)
    ensures r.Got? ==> |r.rest| < |s|
    decreases |s|, 21
  {
    var (arg, rest) :- ParseConditional(s);
    var t := SkipWs(rest);
    if At(t, ")") then Got(acc + [arg], t[1..])
    else if At(t, ",") then ParseArgList(t[1..], acc + [arg])
    else Refused
  }

  function ParseMethodCall(receiver: Expr, name: string, s: string): (r: Taken<Expr>)
    ensures r.Got? ==> |r.rest| < |s|
    decreases |s|, 23
  {
    if name == "filter" || name == "findIndex" then
      match CallEnd(s, 1, Code)
      case InsideCharacter => Panics
      case Endless => Refused
      case Closed(n) =>
        var form := ParseLambda(s[..n]);
        if form.NoLambda? then Refused
        else if form.PanickedLambda? then Panics
        else
          var call := if name == "filter" then FilterCall(receiver, form.lambda) else FindIndexCall(receiver, form.lambda);
          if call.None? then Refused else Got(call.value, s[n + 1..])
    else
      var (args, rest) :- ParseArgs(s);
      if MethodCall(receiver, name, args).None? then Refused
      else Got(MethodCall(receiver, name, args).value, rest)
  }

  function MethodCall(receiver: Expr, name: string, args: seq<Expr>): Option<Expr> {
    if receiver == Property(["Math"]) && name == "abs" then
      if |args| != 1 then None else Some(Call(Abs, args))
    else if name == "length" then if args != [] then None else Some(Call(Size, [receiver]))
    else if |args| != 1 then None
    else if name == "test" then Some(Call(Matches, [receiver] + args))
    else if name == "contains" then Some(Call(Contains, [receiver] + args))
    else if name == "split" then Some(Call(Split, [receiver] + args))
    else if name == "slice" then Some(Call(Slice, [receiver] + args))
    else if name == "indexOf" then Some(Call(IndexOf, [receiver] + args))
    else if name == "search" then Some(Call(Search, [receiver] + args))
    else None
  }

  /** What a caller gets to see. */
  datatype Reply<+T> = Read(value: T) | Refusal | Panic {
    function Failed<U>(): Reply<U>
      requires !Read?
    {
      if Refusal? then Refusal else Panic
    }
  }

  /** A whole text is an expression and nothing after it. */
  function ParseImported(text: string): Reply<Expr> {
    match ParseConditional(text)
    case Refused => Refusal
    case Panics => Panic
    case Got(e, rest) => if SkipWs(rest) == "" then Read(e) else Refusal
  }
}
