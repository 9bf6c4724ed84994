/** Writing a rule expression with only the parentheses that precedence requires. */
module RulePrinting {
  import opened Bytes
  import opened Rules
  import opened RuleParsing
  import opened RuleSyntax
  import opened RuleTokens
  import opened RuleRoundTrip
  import opened RuleLambdas

  /** Parentheses around a tree too loose for its place. */
  function Wrap(t: Tree, level: nat): (r: Tree)
    ensures level <= PRIMARY ==> Level(r) >= level
    ensures Meaning(r) == Meaning(t) && (Proper(t) ==> Proper(r))
  {
    if Level(t) >= level then t else Paren("", t, "")
  }

  function WrapReceiver(t: Tree): (r: Tree)
    ensures IsReceiver(r) && Meaning(r) == Meaning(t) && (Proper(t) ==> Proper(r))
  {
    if IsReceiver(t) then t else Paren("", t, "")
  }

  function LeftLevel(op: BinaryOp): nat {
    if LevelOf(op) == COMPARISON then COMPARISON + 1 else LevelOf(op)
  }

  function NameOf(builtin: Builtin): string {
    match builtin
    case HasParseFact => "hasParseFact"
    case Size => "size"
    case IsEmpty => "isEmpty"
    case Contains => "contains"
    case All => "all"
    case Exists => "exists"
    case Matches => "matches"
    case Split => "split"
    case Slice => "slice"
    case IndexOf => "indexOf"
    case Search => "search"
    case Abs => "abs"
    case _ => "filter"
  }

  predicate IsMethod(builtin: Builtin) {
    builtin == Split || builtin == Slice || builtin == IndexOf || builtin == Search
  }

  /** The lambda of a call of `filter` or `findIndex` with these arguments. */
  function LambdaOf(builtin: Builtin, args: seq<Expr>): Option<Lambda> {
    if args == [] || exists k | 0 < k < |args| :: !args[k].StringLit? then None
    else
      var texts := seq(|args| - 1, i requires 0 <= i < |args| - 1 => args[i + 1].text);
      match builtin
      case FilterEquals => Some(EqAny(texts))
      case FindIndexEquals => Some(EqAny(texts))
      case FilterNotEquals => Some(NeAll(texts))
      case FilterMatches => if |texts| == 1 then Some(RegexMatches(texts[0])) else None
      case FilterNotMatches => if |texts| == 1 then Some(RegexNotMatches(texts[0])) else None
      case _ => None
  }

  predicate TakesLambda(builtin: Builtin, args: seq<Expr>) {
    LambdaOf(builtin, args).Some? && LambdaOk(LambdaOf(builtin, args).value)
  }

  function LambdaName(builtin: Builtin): string {
    if builtin == FindIndexEquals then "findIndex" else "filter"
  }

  // ---------------------------------------------------------------------------------------------
  // The writer
  // ---------------------------------------------------------------------------------------------

  function WriteParts(names: seq<string>): seq<Part> {
    if names == [] then [] else [Part("", names[0])] + WriteParts(names[1..])
  }

  function WriteNumber(digits: string): Tree {
    var minus := digits[..MinusLength(digits)];
    var unsigned := digits[MinusLength(digits)..];
    NumberToken("", minus, unsigned[..MantissaRun(unsigned)], unsigned[MantissaRun(unsigned)..])
  }

  function Write(e: Expr): Tree {
    match e
    case BoolLit(flag) => WordToken("", if flag then "true" else "false")
    case NullLit => WordToken("", "null")
    case NumberLit(digits) => WriteNumber(digits)
    case StringLit(text) => StringToken("", QuoteFor(text), text)
    case Property(path) => if path == [] then WordToken("", "null") else PathToken("", path[0], WriteParts(path[1..]))
    case Not(operand) => NotTree("", Wrap(Write(operand), UNARY))
    case Binary(op, left, right) =>
      BinaryTree(op, Wrap(Write(left), LeftLevel(op)), "", Wrap(Write(right), LevelOf(op) + 1))
    case Conditional(condition, whenTrue, whenFalse) =>
      ConditionalTree(Wrap(Write(condition), 1), "", Write(whenTrue), "", Write(whenFalse))
    case Call(builtin, args) =>
      if IsMethod(builtin) && |args| == 2 then
        MethodTree(WrapReceiver(Write(args[0])), "", NameOf(builtin), "", LastArgument(Write(args[1]), ""))
      else if builtin == Abs && |args| == 1 then
        MethodTree(PathToken("", "Math", []), "", "abs", "", LastArgument(Write(args[0]), ""))
      else if TakesLambda(builtin, args) then
        LambdaTree(
          WrapReceiver(Write(args[0])), "", LambdaName(builtin), "", LambdaText(LambdaOf(builtin, args).value))
      else CallTree("", NameOf(builtin), "", WriteArguments(args))
  }

  function WriteArguments(args: seq<Expr>): Arguments {
    if args == [] then NoArguments("")
    else if |args| == 1 then LastArgument(Write(args[0]), "")
    else Argument(Write(args[0]), "", WriteArguments(args[1..]))
  }

  // ---------------------------------------------------------------------------------------------
  // What can be written
  // ---------------------------------------------------------------------------------------------

  /** A name that is no renamed property. */
  predicate NameOk(name: string) {
    IsIdentifierText(name) && MapProperty(name) == name && |name| <= MAX_IDENTIFIER_BYTES
  }

  predicate PathOk(path: seq<string>) {
    path != [] && BeginsName(path[0]) && forall k | 0 <= k < |path| :: NameOk(path[k])
  }

  predicate NumberTextOk(digits: string) {
    var t := WriteNumber(digits);
    NumberOk(t.minus, t.mantissa, t.exponent)
  }

  /** Everything that has a spelling: strings that some quotes can stand around, plain names, calls of the
      right form, and lambdas that the splitting of their text leaves whole. */
  predicate Writable(e: Expr) {
    match e
    case BoolLit(_) => true
    case NullLit => true
    case NumberLit(digits) => NumberTextOk(digits)
    case StringLit(text) => ('"' !in text || '\'' !in text) && |text| <= MAX_PROFILE_STRING_BYTES
    case Property(path) => PathOk(path)
    case Not(operand) => Writable(operand)
    case Binary(_, left, right) => Writable(left) && Writable(right)
    case Conditional(condition, whenTrue, whenFalse) => Writable(condition) && Writable(whenTrue) && Writable(whenFalse)
    case Call(builtin, args) =>
      && (BuiltinNamed(NameOf(builtin)) == Some(builtin) || (IsMethod(builtin) && |args| == 2)
          || (builtin == Abs && |args| == 1) || TakesLambda(builtin, args))
      && forall k | 0 <= k < |args| :: Writable(args[k])
  }

  // ---------------------------------------------------------------------------------------------
  // What is written is proper and means the expression
  // ---------------------------------------------------------------------------------------------

  lemma {:induction false} PartsWritten(names: seq<string>)
    requires forall k | 0 <= k < |names| :: NameOk(names[k])
    ensures NamesOf(WriteParts(names)) == names
    ensures forall k | 0 <= k < |WriteParts(names)| :: PartOk(WriteParts(names)[k])
  {
    if names != [] {
      assert NameOk(names[0]);
      PartsWritten(names[1..]);
      assert WriteParts(names)[1..] == WriteParts(names[1..]);
    }
  }

  lemma PathWritten(path: seq<string>)
    requires PathOk(path)
    ensures IsWritten(Write(Property(path)), Property(path))
  {
    hide NameOk, BeginsName, MapProperty;
    PartsWritten(path[1..]);
    PlainName(path[0]);
    assert [path[0]] + path[1..] == path;
  }

  lemma PlainName(name: string)
    requires NameOk(name)
    ensures MapProperty(name) == name && PropertyName(name).Some?
  {
  }

  /** The tree is well written and means the expression. */
  predicate IsWritten(t: Tree, e: Expr) {
    Proper(t) && Meaning(t) == e
  }

  lemma LiteralWritten(e: Expr)
    requires Writable(e) && (e.BoolLit? || e.NullLit? || e.StringLit?)
    ensures IsWritten(Write(e), e)
  {
  }

  lemma NumberWritten(digits: string)
    requires NumberTextOk(digits)
    ensures IsWritten(Write(NumberLit(digits)), NumberLit(digits))
  {
    hide NumberOk, MantissaRun, MinusLength;
    var unsigned := digits[MinusLength(digits)..];
    assert unsigned == unsigned[..MantissaRun(unsigned)] + unsigned[MantissaRun(unsigned)..];
    assert digits == digits[..MinusLength(digits)] + unsigned;
    assert Write(NumberLit(digits)) == WriteNumber(digits);
  }

  lemma NotIsWritten(t: Tree, operand: Expr)
    requires IsWritten(t, operand)
    ensures IsWritten(NotTree("", Wrap(t, UNARY)), Not(operand))
  {
    hide Wrap;
    var w := Wrap(t, UNARY);
    assert Proper(w) && Level(w) >= UNARY && Meaning(w) == operand;
    NotParts(w);
  }

  lemma NotParts(t: Tree)
    requires Proper(t) && Level(t) >= UNARY
    ensures Proper(NotTree("", t)) && Meaning(NotTree("", t)) == Not(Meaning(t))
  {
    hide NumberOk, IsRegexText, CallContent, LambdaCall, MethodCall, BuiltinNamed, BeginsName, IsReceiver, ArgumentsProper,
      ArgumentsMeaning, IsIdentifierText, MapProperty, NamesOf, PropertyName;
    assert AllSpace("");
  }

  lemma BinaryIsWritten(op: BinaryOp, l: Tree, left: Expr, r: Tree, right: Expr)
    requires IsWritten(l, left) && IsWritten(r, right)
    ensures IsWritten(BinaryTree(op, Wrap(l, LeftLevel(op)), "", Wrap(r, LevelOf(op) + 1)), Binary(op, left, right))
  {
    hide Wrap, LevelOf;
    var w, v := Wrap(l, LeftLevel(op)), Wrap(r, LevelOf(op) + 1);
    assert Proper(w) && Level(w) >= LeftLevel(op) && Meaning(w) == left;
    assert Proper(v) && Level(v) > LevelOf(op) && Meaning(v) == right;
    BinaryParts(op, w, v);
  }

  lemma BinaryParts(op: BinaryOp, l: Tree, r: Tree)
    requires Proper(l) && Level(l) >= LeftLevel(op) && Proper(r) && Level(r) > LevelOf(op)
    ensures Proper(BinaryTree(op, l, "", r)) && Meaning(BinaryTree(op, l, "", r)) == Binary(op, Meaning(l), Meaning(r))
  {
    hide LevelOf, NumberOk, IsRegexText, CallContent, LambdaCall, MethodCall, BuiltinNamed, BeginsName, IsReceiver, ArgumentsProper,
      ArgumentsMeaning, IsIdentifierText, MapProperty, NamesOf, PropertyName;
    assert AllSpace("");
  }

  lemma ConditionalIsWritten(c: Tree, condition: Expr, t: Tree, whenTrue: Expr, f: Tree, whenFalse: Expr)
    requires IsWritten(c, condition) && IsWritten(t, whenTrue) && IsWritten(f, whenFalse)
    ensures IsWritten(ConditionalTree(Wrap(c, 1), "", t, "", f), Conditional(condition, whenTrue, whenFalse))
  {
    hide Wrap;
    var w := Wrap(c, 1);
    assert Proper(w) && Level(w) > 0 && Meaning(w) == condition;
    ConditionalParts(w, t, f);
  }

  lemma ConditionalParts(c: Tree, t: Tree, f: Tree)
    requires Proper(c) && Level(c) > 0 && Proper(t) && Proper(f)
    ensures Proper(ConditionalTree(c, "", t, "", f))
    ensures Meaning(ConditionalTree(c, "", t, "", f)) == Conditional(Meaning(c), Meaning(t), Meaning(f))
  {
    hide NumberOk, IsRegexText, CallContent, LambdaCall, MethodCall, BuiltinNamed, BeginsName, IsReceiver, ArgumentsProper,
      ArgumentsMeaning, IsIdentifierText, MapProperty, NamesOf, PropertyName;
    assert AllSpace("");
  }

  lemma MethodIsWritten(builtin: Builtin, name: string, receiver: Tree, e: Expr, t: Tree, arg: Expr)
    requires IsWritten(receiver, e) && IsWritten(t, arg) && IsReceiver(receiver)
    requires IsIdentifierText(name) && name != "filter" && name != "findIndex"
    requires MethodCall(e, name, [arg]).Some?
    ensures IsWritten(
      MethodTree(receiver, "", name, "", LastArgument(t, "")), MethodCall(e, name, [arg]).value)
  {
    hide MethodCall, IsIdentifierText, IsReceiver, NumberOk, IsRegexText, CallContent, LambdaCall, BuiltinNamed, BeginsName,
      MapProperty, NamesOf, PropertyName;
    assert ArgumentsProper(LastArgument(t, ""));
    assert ArgumentsMeaning(LastArgument(t, "")) == [arg];
  }

  lemma WriteOnce(e: Expr)
    ensures e.Not? ==> Write(e) == NotTree("", Wrap(Write(e.operand), UNARY))
    ensures e.Binary? ==>
              Write(e) == BinaryTree(e.op, Wrap(Write(e.left), LeftLevel(e.op)), "", Wrap(Write(e.right), LevelOf(e.op) + 1))
    ensures e.Conditional? ==>
              Write(e)
              == ConditionalTree(Wrap(Write(e.condition), 1), "", Write(e.whenTrue), "", Write(e.whenFalse))
  {
    hide Wrap, LeftLevel, LevelOf;
  }

  lemma {:induction false} WrittenIsProper(e: Expr)
    requires Writable(e)
    ensures IsWritten(Write(e), e)
    decreases e
  {
    hide NumberTextOk, PathOk, Write, IsWritten, BuiltinNamed, NameOf, TakesLambda;
    match e
    case NumberLit(digits) =>
      NumberWritten(digits);
    case Property(path) =>
      PathWritten(path);
    case Not(operand) =>
      WrittenIsProper(operand);
      WriteOnce(e);
      NotIsWritten(Write(operand), operand);
    case Binary(op, left, right) =>
      WrittenIsProper(left);
      WrittenIsProper(right);
      WriteOnce(e);
      BinaryIsWritten(op, Write(left), left, Write(right), right);
    case Conditional(condition, whenTrue, whenFalse) =>
      WrittenIsProper(condition);
      WrittenIsProper(whenTrue);
      WrittenIsProper(whenFalse);
      WriteOnce(e);
      ConditionalIsWritten(Write(condition), condition, Write(whenTrue), whenTrue, Write(whenFalse), whenFalse);
    case Call(builtin, args) =>
      ArgumentsAreProper(e, args);
      CallWritten(builtin, args);
    case _ =>
      LiteralWritten(e);
  }

  /** The arguments of a call, all smaller than the call itself. */
  lemma {:induction false} ArgumentsAreProper(e: Expr, args: seq<Expr>)
    requires forall k | 0 <= k < |args| :: args[k] < e && Writable(args[k])
    ensures ArgumentsProper(WriteArguments(args)) && ArgumentsMeaning(WriteArguments(args)) == args
    ensures forall k | 0 <= k < |args| :: IsWritten(Write(args[k]), args[k])
    decreases e, |args|
  {
    hide Write, Writable, Proper, Meaning;
    if args != [] {
      WrittenIsProper(args[0]);
      ArgumentsAreProper(e, args[1..]);
      assert forall k | 0 < k < |args| :: args[k] == args[1..][k - 1];
      assert args == [args[0]] + args[1..];
    }
  }

  lemma OtherNames()
    ensures BuiltinNamed("abs").None? && BuiltinNamed("split").None? && BuiltinNamed("slice").None?
    ensures BuiltinNamed("indexOf").None? && BuiltinNamed("search").None? && BuiltinNamed("filter").None?
  {
    assert "abs"[1] != "all"[1];
    assert "indexOf"[1] != "isEmpty"[1] && "indexOf"[1] != "matches"[1];
    assert "search"[0] != "exists"[0] && "filter"[0] != "exists"[0];
  }

  lemma NameIsName(builtin: Builtin)
    requires BuiltinNamed(NameOf(builtin)) == Some(builtin)
    ensures BeginsName(NameOf(builtin)) && !IsMethod(builtin) && builtin != Abs
  {
    OtherNames();
    match builtin
    case HasParseFact =>
      assert NameOf(builtin)[0] == 'h';
    case Size =>
      assert NameOf(builtin)[0] == 's';
    case IsEmpty =>
      assert NameOf(builtin)[0] == 'i';
    case Contains =>
      assert NameOf(builtin)[0] == 'c';
    case All =>
      assert NameOf(builtin)[0] == 'a';
    case Exists =>
      assert NameOf(builtin)[0] == 'e';
    case Matches =>
      assert NameOf(builtin)[0] == 'm';
    case _ =>
  }

  lemma MethodIsMethod(builtin: Builtin, receiver: Expr, arg: Expr)
    requires IsMethod(builtin)
    ensures IsIdentifierText(NameOf(builtin)) && NameOf(builtin) != "filter" && NameOf(builtin) != "findIndex"
    ensures MethodCall(receiver, NameOf(builtin), [arg]) == Some(Call(builtin, [receiver, arg]))
  {
    assert [receiver] + [arg] == [receiver, arg];
    assert "split"[1] != "slice"[1] && "search"[0] != "length"[0];
  }

  lemma MathIsPath()
    ensures var math := PathToken("", "Math", []);
            Proper(math) && IsReceiver(math) && Meaning(math) == Property(["Math"])
  {
  }

  lemma AbsIsMethod(arg: Expr)
    ensures IsIdentifierText("abs") && MethodCall(Property(["Math"]), "abs", [arg]) == Some(Call(Abs, [arg]))
  {
  }

  lemma MethodWritten(builtin: Builtin, args: seq<Expr>)
    requires IsMethod(builtin) && |args| == 2
    requires IsWritten(Write(args[0]), args[0]) && IsWritten(Write(args[1]), args[1])
    ensures IsWritten(Write(Call(builtin, args)), Call(builtin, args))
  {
    hide MethodCall, NameOf, IsIdentifierText, WrapReceiver, IsReceiver, IsMethod, Proper, Meaning;
    MethodIsMethod(builtin, args[0], args[1]);
    var receiver := WrapReceiver(Write(args[0]));
    MethodIsWritten(builtin, NameOf(builtin), receiver, args[0], Write(args[1]), args[1]);
    assert args == [args[0], args[1]];
  }

  lemma AbsWritten(args: seq<Expr>)
    requires |args| == 1 && IsWritten(Write(args[0]), args[0])
    ensures IsWritten(Write(Call(Abs, args)), Call(Abs, args))
  {
    hide MethodCall, IsIdentifierText, IsReceiver, Proper, Meaning;
    MathIsPath();
    AbsIsMethod(args[0]);
    MethodIsWritten(Abs, "abs", PathToken("", "Math", []), Property(["Math"]), Write(args[0]), args[0]);
    assert args == [args[0]];
  }

  lemma TextsAreArguments(args: seq<Expr>, texts: seq<string>)
    requires args != [] && |texts| == |args| - 1
    requires forall k | 0 < k < |args| :: args[k] == StringLit(texts[k - 1])
    requires forall k | 0 <= k < |texts| :: |texts[k]| <= MAX_PROFILE_STRING_BYTES
    ensures StringArgs(texts).Some? && [args[0]] + StringArgs(texts).value == args
  {
  }

  /** The call that a lambda stands for is the one it was taken from. */
  lemma LambdaIsCall(builtin: Builtin, args: seq<Expr>)
    requires TakesLambda(builtin, args)
    ensures LambdaCall(args[0], LambdaName(builtin), LambdaText(LambdaOf(builtin, args).value)) == Some(Call(builtin, args))
  {
    hide ParseLambda, LambdaText, RegexTail, EscapePending, FindText;
    var lambda := LambdaOf(builtin, args).value;
    WrittenLambdaReads(lambda, "");
    assert |"findIndex"| != |"filter"|;
    if lambda.EqAny? || lambda.NeAll? {
      TextsAreArguments(args, lambda.values);
    } else {
      assert args == [args[0], StringLit(lambda.pattern)];
    }
  }

  lemma LambdaParts(receiver: Tree, name: string, content: string)
    requires Proper(receiver) && IsReceiver(receiver) && (name == "filter" || name == "findIndex")
    requires CallContent(content + ")", 1, Code) == Some(|content|) && LambdaCall(Meaning(receiver), name, content).Some?
    ensures IsWritten(LambdaTree(receiver, "", name, "", content), LambdaCall(Meaning(receiver), name, content).value)
  {
    hide NumberOk, IsRegexText, CallContent, LambdaCall, MethodCall, BuiltinNamed, BeginsName, IsReceiver, ArgumentsProper,
      ArgumentsMeaning, IsIdentifierText, MapProperty, NamesOf, PropertyName;
    assert AllSpace("");
  }

  lemma LambdaWritten(builtin: Builtin, args: seq<Expr>)
    requires TakesLambda(builtin, args) && args != [] && IsWritten(Write(args[0]), args[0])
    requires !(IsMethod(builtin) && |args| == 2) && !(builtin == Abs && |args| == 1)
    ensures IsWritten(Write(Call(builtin, args)), Call(builtin, args))
  {
    hide LambdaCall, CallContent, LambdaText, LambdaOf, LambdaOk, WrapReceiver, IsReceiver, Proper, Meaning;
    var lambda := LambdaOf(builtin, args).value;
    LambdaIsCall(builtin, args);
    WrittenLambdaReads(lambda, "");
    LambdaParts(WrapReceiver(Write(args[0])), LambdaName(builtin), LambdaText(lambda));
  }

  lemma LambdaIsNoMethod(builtin: Builtin, args: seq<Expr>)
    requires TakesLambda(builtin, args)
    ensures !IsMethod(builtin) && builtin != Abs && args != []
  {
  }

  lemma CallWritten(builtin: Builtin, args: seq<Expr>)
    requires BuiltinNamed(NameOf(builtin)) == Some(builtin) || (IsMethod(builtin) && |args| == 2)
          || (builtin == Abs && |args| == 1) || TakesLambda(builtin, args)
    requires ArgumentsProper(WriteArguments(args)) && ArgumentsMeaning(WriteArguments(args)) == args
    requires forall k | 0 <= k < |args| :: IsWritten(Write(args[k]), args[k])
    ensures IsWritten(Write(Call(builtin, args)), Call(builtin, args))
  {
    hide BuiltinNamed, NameOf, BeginsName, IsMethod, WriteArguments, TakesLambda;
    if IsMethod(builtin) && |args| == 2 {
      MethodWritten(builtin, args);
    } else if builtin == Abs && |args| == 1 {
      AbsWritten(args);
    } else if TakesLambda(builtin, args) {
      LambdaIsNoMethod(builtin, args);
      LambdaWritten(builtin, args);
    } else {
      NameIsName(builtin);
    }
  }

  /** Every string in the expression, whatever it stands for, has characters of one byte only. */
  predicate AsciiExpr(e: Expr) {
    match e
    case StringLit(text) => IsAsciiText(text)
    case Not(operand) => AsciiExpr(operand)
    case Binary(_, left, right) => AsciiExpr(left) && AsciiExpr(right)
    case Conditional(condition, whenTrue, whenFalse) => AsciiExpr(condition) && AsciiExpr(whenTrue) && AsciiExpr(whenFalse)
    case Call(_, args) => forall k | 0 <= k < |args| :: AsciiExpr(args[k])
    case _ => true
  }

  /** Any expression that can be written is parsed back from its text with minimal parentheses when its strings
      have characters of one byte only, and otherwise a slice is out of range. */
  lemma EveryWritableExpressionRoundTrips(e: Expr)
    requires Writable(e)
    ensures ParseImported(Print(Write(e))) == if AsciiExpr(e) then Read(e) else Panic
  {
    hide ParseImported, Writable, AsciiExpr, IsAsciiText;
    WrittenIsProper(e);
    WrittenIsAsciiIff(e);
    ParseUndoesPrint(Write(e), "");
  }

  lemma {:induction false} WrittenIsAsciiIff(e: Expr)
    requires Writable(e)
    ensures AsciiTree(Write(e)) <==> AsciiExpr(e)
    decreases e
  {
    hide NumberTextOk, PathOk, BuiltinNamed, NameOf, TakesLambda, Write, Wrap, IsAsciiText;
    WriteOnce(e);
    match e
    case Call(builtin, args) =>
      ArgumentsAreAsciiIff(e, args);
      CallIsAsciiIff(builtin, args);
    case Not(operand) =>
      WrittenIsAsciiIff(operand);
      WrapIsAscii(Write(operand), UNARY);
    case Binary(op, left, right) =>
      WrittenIsAsciiIff(left);
      WrittenIsAsciiIff(right);
      WrapIsAscii(Write(left), LeftLevel(op));
      WrapIsAscii(Write(right), LevelOf(op) + 1);
    case Conditional(condition, whenTrue, whenFalse) =>
      WrittenIsAsciiIff(condition);
      WrittenIsAsciiIff(whenTrue);
      WrittenIsAsciiIff(whenFalse);
      WrapIsAscii(Write(condition), 1);
    case _ =>
      TokenIsAsciiIff(e);
  }

  lemma TokenIsAsciiIff(e: Expr)
    requires !e.Call? && !e.Not? && !e.Binary? && !e.Conditional?
    ensures AsciiTree(Write(e)) <==> AsciiExpr(e)
  {
  }

  lemma {:induction false} ArgumentsAreAsciiIff(e: Expr, args: seq<Expr>)
    requires forall k | 0 <= k < |args| :: args[k] < e && Writable(args[k])
    ensures AsciiArguments(WriteArguments(args)) <==> forall k | 0 <= k < |args| :: AsciiExpr(args[k])
    ensures forall k | 0 <= k < |args| :: AsciiTree(Write(args[k])) <==> AsciiExpr(args[k])
    decreases e, |args|
  {
    hide Write, Writable, AsciiTree, AsciiExpr;
    if args != [] {
      WrittenIsAsciiIff(args[0]);
      ArgumentsAreAsciiIff(e, args[1..]);
      assert forall k | 0 < k < |args| :: args[k] == args[1..][k - 1];
    }
  }

  lemma LambdaTextIsAsciiIff(builtin: Builtin, args: seq<Expr>)
    requires TakesLambda(builtin, args)
    ensures IsAsciiText(LambdaText(LambdaOf(builtin, args).value)) <==> forall k | 0 < k < |args| :: AsciiExpr(args[k])
  {
    hide LambdaText, LambdaOk, IsAsciiText;
    LambdaIsAsciiIff(LambdaOf(builtin, args).value);
    var texts := seq(|args| - 1, i requires 0 <= i < |args| - 1 => args[i + 1].text);
    forall k | 0 < k < |args|
      ensures AsciiExpr(args[k]) <==> IsAsciiText(texts[k - 1])
    {
      assert args[k].text == texts[k - 1];
    }
    if forall k | 0 < k < |args| :: AsciiExpr(args[k]) {
      assert forall k | 0 <= k < |texts| :: AsciiExpr(args[k + 1]) && IsAsciiText(texts[k]);
    }
  }

  lemma WrapIsAscii(t: Tree, level: nat)
    ensures AsciiTree(Wrap(t, level)) == AsciiTree(t) && AsciiTree(WrapReceiver(t)) == AsciiTree(t)
  {
    hide IsReceiver;
  }

  lemma MethodCallIsWritten(builtin: Builtin, args: seq<Expr>)
    requires IsMethod(builtin) && |args| == 2
    ensures Write(Call(builtin, args))
         == MethodTree(WrapReceiver(Write(args[0])), "", NameOf(builtin), "", LastArgument(Write(args[1]), ""))
  {
    hide NameOf, WrapReceiver, TakesLambda, LambdaOf, LambdaText, WriteArguments;
  }

  lemma MethodIsAsciiIff(builtin: Builtin, args: seq<Expr>)
    requires IsMethod(builtin) && |args| == 2
    ensures AsciiTree(Write(Call(builtin, args))) <==> AsciiTree(Write(args[0])) && AsciiTree(Write(args[1]))
  {
    hide Write, NameOf, WrapReceiver;
    MethodCallIsWritten(builtin, args);
    WrapIsAscii(Write(args[0]), 0);
    assert AsciiArguments(LastArgument(Write(args[1]), "")) == AsciiTree(Write(args[1]));
  }

  lemma LambdaCallIsAsciiIff(builtin: Builtin, args: seq<Expr>)
    requires TakesLambda(builtin, args) && args != [] && !IsMethod(builtin) && builtin != Abs
    ensures AsciiTree(Write(Call(builtin, args)))
       <==> AsciiTree(Write(args[0])) && forall k | 0 < k < |args| :: AsciiExpr(args[k])
  {
    hide NameOf, WrapReceiver, LambdaText, LambdaOf, LambdaOk, IsAsciiText, AsciiExpr;
    WrapIsAscii(Write(args[0]), 0);
    LambdaTextIsAsciiIff(builtin, args);
  }

  lemma PlainCallIsAsciiIff(builtin: Builtin, args: seq<Expr>)
    requires !(IsMethod(builtin) && |args| == 2) && !(builtin == Abs && |args| == 1) && !TakesLambda(builtin, args)
    ensures AsciiTree(Write(Call(builtin, args))) == AsciiArguments(WriteArguments(args))
  {
    hide NameOf, WrapReceiver, TakesLambda, LambdaOf, LambdaText, WriteArguments;
  }

  lemma AbsIsAsciiIff(args: seq<Expr>)
    requires |args| == 1
    ensures AsciiTree(Write(Call(Abs, args))) == AsciiTree(Write(args[0]))
  {
    hide NameOf, WrapReceiver, TakesLambda, LambdaOf, LambdaText, WriteArguments;
    assert AsciiArguments(LastArgument(Write(args[0]), "")) == AsciiTree(Write(args[0]));
  }

  lemma CallIsAsciiIff(builtin: Builtin, args: seq<Expr>)
    requires AsciiArguments(WriteArguments(args)) <==> forall k | 0 <= k < |args| :: AsciiExpr(args[k])
    requires forall k | 0 <= k < |args| :: AsciiTree(Write(args[k])) <==> AsciiExpr(args[k])
    ensures AsciiTree(Write(Call(builtin, args))) <==> forall k | 0 <= k < |args| :: AsciiExpr(args[k])
  {
    hide Write, AsciiTree, AsciiExpr, TakesLambda, WriteArguments, AsciiArguments;
    if IsMethod(builtin) && |args| == 2 {
      MethodIsAsciiIff(builtin, args);
    } else if builtin == Abs && |args| == 1 {
      AbsIsAsciiIff(args);
    } else if TakesLambda(builtin, args) {
      LambdaIsNoMethod(builtin, args);
      LambdaCallIsAsciiIff(builtin, args);
    } else {
      PlainCallIsAsciiIff(builtin, args);
    }
  }

  // ---------------------------------------------------------------------------------------------
  // The words are taken as prefixes
  // ---------------------------------------------------------------------------------------------

  lemma {:induction false} NoOperators(s: string, e: Expr, rest: string, level: nat)
    requires 1 <= level <= UNARY && ParseUnary(s) == Got(e, rest) && SkipWs(rest) == rest
    requires forall i | 0 < i < UNARY :: OpAt(rest, i).None?
    ensures ParseBinary(s, level) == Got(e, rest)
    decreases UNARY - level
  {
    hide ParseUnary, OpAt, SkipWs;
    if level < UNARY {
      NoOperators(s, e, rest, level + 1);
    }
  }

  lemma NoOperatorInName(rest: string, level: nat)
    requires rest == "" || IsIdentifierChar(rest[0])
    ensures OpAt(rest, level).None?
  {
    var op := OpAt(rest, level);
    if op.Some? {
      assert OpText(op.value)[0] == rest[0];
      OperatorIsNoName(op.value);
    }
  }

  lemma OperatorIsNoName(op: BinaryOp)
    ensures !IsIdentifierChar(OpText(op)[0])
  {
  }

  lemma TokenAlone(s: string, e: Expr, more: string)
    requires SkipWs(s) == s && !At(s, "!") && ParsePrimary(s) == Got(e, more)
    requires SkipWs(more) == more && !At(more, ".")
    ensures ParseUnary(s) == Got(e, more)
  {
    hide ParsePrimary, SkipWs, ParseMethodCall, ParseIdentifier;
    assert ParsePostfix(s) == MoreMembers(e, more);
  }

  /** A name that begins with `true`, `false` or `null` is cut there. */
  lemma WordPrefixIsCut(word: string, more: string)
    requires word == "true" || word == "false" || word == "null"
    requires forall k | 0 <= k < |more| :: IsIdentifierChar(more[k])
    ensures ParseImported(word + more) == if more == "" then Read(Meaning(WordToken("", word))) else Refusal
  {
    hide OpAt, ParseUnary, ParsePrimary, ParseBinary;
    var s := word + more;
    var e := Meaning(WordToken("", word));
    WordReads(word, more);
    assert s[0] == word[0] && SkipWs(s) == s;
    assert more != "" ==> IsIdentifierChar(more[0]);
    assert SkipWs(more) == more;
    At1(s, '!');
    At1(more, '.');
    At1(more, '?');
    TokenAlone(s, e, more);
    forall i | 0 < i < UNARY
      ensures OpAt(more, i).None?
    {
      NoOperatorInName(more, i);
    }
    NoOperators(s, e, more, 1);
  }

  /** A plain name is read as a property exactly when it does not begin with one of the words. */
  lemma NameIsPropertyIff(name: string)
    requires IsIdentifierText(name) && !IsDigit(name[0]) && PropertyName(name).Some?
    ensures ParseImported(name) == Read(Property([MapProperty(name)]))
       <==> !At(name, "true") && !At(name, "false") && !At(name, "null")
  {
    hide ParseImported, MapProperty;
    if At(name, "true") {
      Cut(name, "true");
    } else if At(name, "false") {
      Cut(name, "false");
    } else if At(name, "null") {
      Cut(name, "null");
    } else {
      var t := PathToken("", name, []);
      ParseUndoesPrint(t, "");
      assert Text(t, "") == name by {
        assert "" + (name + "") == name;
      }
      assert Meaning(t) == Property([MapProperty(name)]);
    }
  }

  lemma Cut(name: string, word: string)
    requires IsIdentifierText(name) && At(name, word) && (word == "true" || word == "false" || word == "null")
    ensures ParseImported(name) != Read(Property([MapProperty(name)]))
  {
    hide ParseImported;
    assert name == word + name[|word|..];
    WordPrefixIsCut(word, name[|word|..]);
  }
}
