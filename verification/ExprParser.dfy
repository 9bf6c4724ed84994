/** The recursive-descent parser of rule expressions, an offset moving over its input, and its agreement
    with the functions of the text. */
module ExprParsing {
  import opened Bytes
  import opened Rules
  import opened RuleParsing

  /** A method's result against what the text says: the same value with the offset behind it, a refusal, or a
      panic. */
  ghost predicate Agrees<T>(r: Reply<T>, rest: string, spec: Taken<T>) {
    match spec
    case Got(value, after) => r == Read(value) && rest == after
    case Refused => r == Refusal
    case Panics => r == Panic
  }

  /** The same for tokens that cannot panic. */
  ghost predicate AgreesOnToken<T>(r: Option<T>, rest: string, spec: Taken<T>) {
    if r.Some? then spec == Got(r.value, rest) else spec == Refused
  }

  function ReplyOf<T>(r: Option<T>): Reply<T> {
    if r.Some? then Read(r.value) else Refusal
  }

  class ExprParser {
    const input: string
    var offset: nat

    constructor (input: string)
      ensures Valid() && this.input == input && Remaining() == input
    {
      this.input := input;
      offset := 0;
    }

    ghost predicate Valid()
      reads this
    {
      offset <= |input|
    }

    function Remaining(): string
      requires Valid()
      reads this
    {
      input[offset..]
    }

    predicate Sees(token: string)
      requires Valid()
      reads this
      ensures Sees(token) <==> At(Remaining(), token)
    {
      token <= input[offset..]
    }

    method Advance(n: nat)
      requires Valid() && offset + n <= |input|
      modifies this
      ensures Valid() && n <= |old(Remaining())| && Remaining() == old(Remaining())[n..] && offset == old(offset) + n
    {
      Suffix(input, offset, n);
      offset := offset + n;
    }

    method SkipWhite()
      requires Valid()
      modifies this
      ensures Valid() && Remaining() == SkipWs(old(Remaining()))
    {
      while offset < |input| && IsSpace(input[offset])
        invariant Valid() && SkipWs(Remaining()) == SkipWs(old(Remaining()))
      {
        Advance(1);
      }
    }

    /** Skips white space in any case, and the token if it is there. */
    method Consume(token: string) returns (found: bool)
      requires Valid()
      modifies this
      ensures Valid()
      ensures var t := SkipWs(old(Remaining()));
              && found == At(t, token) && Remaining() == (if found then t[|token|..] else t)
              && (found ==> offset >= |token| && input[offset - |token|..] == t)
    {
      SkipWhite();
      found := Sees(token);
      if found {
        Advance(|token|);
      }
    }

    // -------------------------------------------------------------------------------------------
    // Tokens
    // -------------------------------------------------------------------------------------------

    method ParseIdentifier() returns (r: Option<string>)
      requires Valid()
      modifies this
      ensures Valid() && AgreesOnToken(r, Remaining(), RuleParsing.ParseIdentifier(old(Remaining())))
    {
      var start := offset;
      while offset < |input| && IsIdentifierChar(input[offset])
        invariant Valid() && start <= offset
        invariant IdentifierRun(old(Remaining())) == offset - start + IdentifierRun(Remaining())
      {
        Advance(1);
      }
      if offset == start {
        return None;
      }
      Piece(input, start, offset);
      Suffix(input, start, offset - start);
      return Some(input[start..offset]);
    }

    /** Steps byte by byte to the closing quote; the inside of a character of several bytes is out of range. */
    method SkipToQuote(quote: char) returns (end: Ending)
      requires Valid()
      modifies this
      ensures Valid() && offset >= old(offset)
      ensures var spec := StringEnd(old(Remaining()), quote);
              if spec.Closed? then end == Closed(offset) && offset == old(offset) + spec.at else end == spec
    {
      while offset < |input|
        invariant Valid() && old(offset) <= offset
        invariant StringEnd(old(Remaining()), quote) == Delayed(offset - old(offset), StringEnd(Remaining(), quote))
      {
        if input[offset] == quote {
          return Closed(offset);
        }
        if !IsAscii(input[offset]) {
          return InsideCharacter;
        }
        Advance(1);
      }
      return Endless;
    }

    /** Steps to the next slash that no backslash escapes. */
    method SkipToSlash() returns (end: Ending)
      requires Valid()
      modifies this
      ensures Valid() && offset >= old(offset)
      ensures var spec := RegexEnd(old(Remaining()), false);
              if spec.Closed? then end == Closed(offset) && offset == old(offset) + spec.at else end == spec
    {
      var escaped := false;
      while offset < |input|
        invariant Valid() && old(offset) <= offset
        invariant RegexEnd(old(Remaining()), false) == Delayed(offset - old(offset), RegexEnd(Remaining(), escaped))
      {
        var c := input[offset];
        if c == '/' && !escaped {
          return Closed(offset);
        }
        escaped := c == '\\' && !escaped;
        if !IsAscii(c) {
          return InsideCharacter;
        }
        Advance(1);
      }
      return Endless;
    }

    /** The literal between `start` and the offset, where its closing mark stands. */
    method FinishLiteral(start: nat, end: Ending, max: nat) returns (r: Reply<Expr>)
      requires Valid() && start <= offset && (end.Closed? ==> end.at == offset < |input|)
      modifies this
      ensures Valid()
      ensures var relative := if end.Closed? then Closed(old(offset) - start) else end;
              Agrees(r, Remaining(), Literal(input[start..], relative, max))
    {
      match end {
        case InsideCharacter =>
          return Panic;
        case Endless =>
          return Refusal;
        case Closed(_) =>
      }
      var value := input[start..offset];
      Piece(input, start, offset);
      Suffix(input, start, offset - start + 1);
      Advance(1);
      return if |value| > max then Refusal else Read(StringLit(value));
    }

    method ParseString() returns (r: Reply<Expr>)
      requires Valid() && Remaining() != ""
      modifies this
      ensures Valid() && Agrees(r, Remaining(), RuleParsing.ParseString(old(Remaining())))
    {
      hide StringEnd, Literal;
      var quote := input[offset];
      Advance(1);
      var start := offset;
      var end := SkipToQuote(quote);
      r := FinishLiteral(start, end, MAX_PROFILE_STRING_BYTES);
    }

    method ParseRegexLiteral() returns (r: Reply<Expr>)
      requires Valid() && Remaining() != ""
      modifies this
      ensures Valid() && Agrees(r, Remaining(), ParseRegex(old(Remaining())))
    {
      hide RegexEnd, Literal;
      Advance(1);
      var start := offset;
      var end := SkipToSlash();
      r := FinishLiteral(start, end, MAX_REGEX_PATTERN_BYTES);
    }

    method SkipMantissa()
      requires Valid()
      modifies this
      ensures Valid() && Remaining() == old(Remaining())[MantissaRun(old(Remaining()))..]
      ensures offset == old(offset) + MantissaRun(old(Remaining()))
    {
      ghost var start := offset;
      while offset < |input| && (IsDigit(input[offset]) || input[offset] == '.')
        invariant Valid() && start <= offset
        invariant MantissaRun(old(Remaining())) == offset - start + MantissaRun(Remaining())
      {
        Advance(1);
      }
      Suffix(input, start, offset - start);
    }

    method SkipDigits()
      requires Valid()
      modifies this
      ensures Valid() && offset == old(offset) + DigitRun(old(Remaining()))
    {
      ghost var start := offset;
      while offset < |input| && IsDigit(input[offset])
        invariant Valid() && start <= offset
        invariant DigitRun(old(Remaining())) == offset - start + DigitRun(Remaining())
      {
        Advance(1);
      }
    }

    /** An exponent needs a digit. */
    method SkipExponent() returns (ok: bool)
      requires Valid()
      modifies this
      ensures Valid()
      ensures ok == ExponentLength(old(Remaining())).Some?
      ensures ok ==> offset == old(offset) + ExponentLength(old(Remaining())).value
    {
      ghost var s := Remaining();
      if offset >= |input| || (input[offset] != 'e' && input[offset] != 'E') {
        return true;
      }
      Advance(1);
      if offset < |input| && (input[offset] == '+' || input[offset] == '-') {
        Advance(1);
        Suffix(s, 1, 1);
      }
      var exponentStart := offset;
      SkipDigits();
      return offset != exponentStart;
    }

    method ParseNumber() returns (r: Option<Expr>)
      requires Valid()
      modifies this
      ensures Valid() && AgreesOnToken(r, Remaining(), RuleParsing.ParseNumber(old(Remaining())))
    {
      hide MantissaRun, ExponentLength, IsMantissa;
      var start := offset;
      ghost var s := Remaining();
      if Sees("-") {
        Advance(1);
      }
      ghost var unsigned := Remaining();
      assert unsigned == s[MinusLength(s)..];
      var mantissaStart := offset;
      SkipMantissa();
      var mantissaEnd := offset;
      var ok := SkipExponent();
      if !ok {
        return None;
      }
      Piece(input, mantissaStart, mantissaEnd);
      Piece(input, start, offset);
      Suffix(input, start, offset - start);
      if !IsMantissa(input[mantissaStart..mantissaEnd]) {
        return None;
      }
      return Some(NumberLit(input[start..offset]));
    }

    /** Steps to the parenthesis that closes a call. */
    method SkipToCallEnd() returns (end: Ending)
      requires Valid()
      modifies this
      ensures Valid() && offset >= old(offset)
      ensures var spec := CallEnd(old(Remaining()), 1, Code);
              if spec.Closed? then end == Closed(offset) && offset == old(offset) + spec.at else end == spec
    {
      var depth := 1;
      var quoting := Code;
      while offset < |input|
        invariant Valid() && old(offset) <= offset && depth > 0
        invariant CallEnd(old(Remaining()), 1, Code)
               == Delayed(offset - old(offset), CallEnd(Remaining(), depth, quoting))
      {
        var c := input[offset];
        match quoting {
          case Quoted(quote, escaped) =>
            quoting := if c == quote && !escaped then Code else Quoted(quote, c == '\\' && !escaped);
          case Regex(escaped) =>
            quoting := if c == '/' && !escaped then Code else Regex(c == '\\' && !escaped);
          case Code =>
            if c == '\'' || c == '"' {
              quoting := Quoted(c, false);
            } else if c == '/' {
              quoting := Regex(false);
            } else if c == '(' {
              depth := depth + 1;
            } else if c == ')' {
              if depth == 1 {
                return Closed(offset);
              }
              depth := depth - 1;
            }
        }
        if !IsAscii(c) {
          return InsideCharacter;
        }
        Advance(1);
      }
      return Endless;
    }

    /** The raw text of a call up to the parenthesis that closes it. */
    method TakeCallContent() returns (r: Reply<string>)
      requires Valid()
      modifies this
      ensures Valid()
      ensures var s := old(Remaining());
              match CallEnd(s, 1, Code)
              case InsideCharacter => r == Panic
              case Endless => r == Refusal
              case Closed(n) => r == Read(s[..n]) && Remaining() == s[n + 1..]
    {
      hide CallEnd;
      var start := offset;
      var end := SkipToCallEnd();
      match end {
        case InsideCharacter =>
          return Panic;
        case Endless =>
          return Refusal;
        case Closed(_) =>
      }
      var content := input[start..offset];
      Piece(input, start, offset);
      Suffix(input, start, offset - start + 1);
      Advance(1);
      return Read(content);
    }

    // -------------------------------------------------------------------------------------------
    // Expressions
    // -------------------------------------------------------------------------------------------

    method ParseConditional() returns (r: Reply<Expr>)
      requires Valid()
      modifies this
      ensures Valid() && Agrees(r, Remaining(), RuleParsing.ParseConditional(old(Remaining())))
      decreases |input| - offset, 20
    {
      hide ParseBinary, SkipWs;
      var condition := ParseOr();
      if !condition.Read? {
        return condition;
      }
      var question := Consume("?");
      if !question {
        return condition;
      }
      var whenTrue := ParseConditional();
      if !whenTrue.Read? {
        return whenTrue;
      }
      var colon := Consume(":");
      if !colon {
        return Refusal;
      }
      var whenFalse := ParseConditional();
      if !whenFalse.Read? {
        return whenFalse;
      }
      return Read(Conditional(condition.value, whenTrue.value, whenFalse.value));
    }

    method ParseOr() returns (r: Reply<Expr>)
      requires Valid()
      modifies this
      ensures Valid() && Agrees(r, Remaining(), ParseBinary(old(Remaining()), 1))
      decreases |input| - offset, 19
    {
      hide SkipWs, ParseBinary, MoreOperands;
      LevelOnce(Remaining(), 1);
      r := ParseAnd();
      if !r.Read? {
        return;
      }
      while true
        invariant Valid() && r.Read? && offset > old(offset)
        invariant MoreOperands(r.value, Remaining(), 1) == ParseBinary(old(Remaining()), 1)
        decreases |input| - offset
      {
        OperandsOnce(r.value, Remaining(), 1);
        var found := Consume("||");
        if !found {
          return;
        }
        var right := ParseAnd();
        if !right.Read? {
          return right;
        }
        r := Read(Binary(Or, r.value, right.value));
      }
    }

    method ParseAnd() returns (r: Reply<Expr>)
      requires Valid()
      modifies this
      ensures Valid() && Agrees(r, Remaining(), ParseBinary(old(Remaining()), 2))
      decreases |input| - offset, 18
    {
      hide SkipWs, ParseBinary, MoreOperands;
      LevelOnce(Remaining(), 2);
      r := ParseComparison();
      if !r.Read? {
        return;
      }
      while true
        invariant Valid() && r.Read? && offset > old(offset)
        invariant MoreOperands(r.value, Remaining(), 2) == ParseBinary(old(Remaining()), 2)
        decreases |input| - offset
      {
        OperandsOnce(r.value, Remaining(), 2);
        var found := Consume("&&");
        if !found {
          return;
        }
        var right := ParseComparison();
        if !right.Read? {
          return right;
        }
        r := Read(Binary(And, r.value, right.value));
      }
    }

    /** An operator where white space has been skipped already. */
    method ConsumeOperator(op: BinaryOp) returns (found: bool)
      requires Valid() && SkipWs(Remaining()) == Remaining()
      modifies this
      ensures Valid() && found == At(old(Remaining()), OpText(op))
      ensures if found then Remaining() == old(Remaining())[|OpText(op)|..] else Remaining() == old(Remaining())
    {
      hide SkipWs, OpText;
      found := Consume(OpText(op));
    }

    /** The comparison operator at the offset, if there is one. */
    method ConsumeComparison() returns (op: Option<BinaryOp>)
      requires Valid()
      modifies this
      ensures Valid()
      ensures var t := SkipWs(old(Remaining()));
              op == OpAt(t, COMPARISON) && Remaining() == if op.None? then t else t[|OpText(op.value)|..]
    {
      hide SkipWs, OpAt, At, OpText;
      SkipWsTwice(Remaining());
      ComparisonAt(SkipWs(Remaining()));
      SkipWhite();
      var found := ConsumeOperator(Eq);
      if found {
        return Some(Eq);
      }
      found := ConsumeOperator(Ne);
      if found {
        return Some(Ne);
      }
      found := ConsumeOperator(Le);
      if found {
        return Some(Le);
      }
      found := ConsumeOperator(Ge);
      if found {
        return Some(Ge);
      }
      found := ConsumeOperator(Lt);
      if found {
        return Some(Lt);
      }
      found := ConsumeOperator(Gt);
      return if found then Some(Gt) else None;
    }

    method ParseComparison() returns (r: Reply<Expr>)
      requires Valid()
      modifies this
      ensures Valid() && Agrees(r, Remaining(), ParseBinary(old(Remaining()), COMPARISON))
      decreases |input| - offset, 17
    {
      hide SkipWs, ParseBinary, MoreOperands, OpAt;
      LevelOnce(Remaining(), COMPARISON);
      var left := ParseBitwiseAnd();
      if !left.Read? {
        return left;
      }
      OperandsOnce(left.value, Remaining(), COMPARISON);
      var op := ConsumeComparison();
      if op.None? {
        return left;
      }
      var right := ParseBitwiseAnd();
      return if right.Read? then Read(Binary(op.value, left.value, right.value)) else right;
    }

    method ParseBitwiseAnd() returns (r: Reply<Expr>)
      requires Valid()
      modifies this
      ensures Valid() && Agrees(r, Remaining(), ParseBinary(old(Remaining()), 4))
      decreases |input| - offset, 16
    {
      hide SkipWs, ParseBinary, MoreOperands;
      LevelOnce(Remaining(), 4);
      r := ParseShift();
      if !r.Read? {
        return;
      }
      while true
        invariant Valid() && r.Read? && offset > old(offset)
        invariant MoreOperands(r.value, Remaining(), 4) == ParseBinary(old(Remaining()), 4)
        decreases |input| - offset
      {
        OperandsOnce(r.value, Remaining(), 4);
        SkipWhite();
        if !Sees("&") || Sees("&&") {
          return;
        }
        Advance(1);
        var right := ParseShift();
        if !right.Read? {
          return right;
        }
        r := Read(Binary(BitAnd, r.value, right.value));
      }
    }

    method ParseShift() returns (r: Reply<Expr>)
      requires Valid()
      modifies this
      ensures Valid() && Agrees(r, Remaining(), ParseBinary(old(Remaining()), 5))
      decreases |input| - offset, 15
    {
      hide SkipWs, ParseBinary, MoreOperands;
      LevelOnce(Remaining(), 5);
      r := ParseAdditive();
      if !r.Read? {
        return;
      }
      while true
        invariant Valid() && r.Read? && offset > old(offset)
        invariant MoreOperands(r.value, Remaining(), 5) == ParseBinary(old(Remaining()), 5)
        decreases |input| - offset
      {
        OperandsOnce(r.value, Remaining(), 5);
        var found := Consume(">>");
        if !found {
          return;
        }
        var right := ParseAdditive();
        if !right.Read? {
          return right;
        }
        r := Read(Binary(Shr, r.value, right.value));
      }
    }

    method ConsumeAdditive() returns (op: Option<BinaryOp>)
      requires Valid()
      modifies this
      ensures Valid()
      ensures var t := SkipWs(old(Remaining()));
              op == OpAt(t, 6) && Remaining() == if op.None? then t else t[|OpText(op.value)|..]
    {
      hide SkipWs;
      SkipWsTwice(Remaining());
      var found := Consume("+");
      if found {
        return Some(Add);
      }
      found := Consume("-");
      return if found then Some(Sub) else None;
    }

    method ParseAdditive() returns (r: Reply<Expr>)
      requires Valid()
      modifies this
      ensures Valid() && Agrees(r, Remaining(), ParseBinary(old(Remaining()), 6))
      decreases |input| - offset, 14
    {
      hide SkipWs, ParseBinary, MoreOperands;
      LevelOnce(Remaining(), 6);
      r := ParseMultiplicative();
      if !r.Read? {
        return;
      }
      while true
        invariant Valid() && r.Read? && offset > old(offset)
        invariant MoreOperands(r.value, Remaining(), 6) == ParseBinary(old(Remaining()), 6)
        decreases |input| - offset
      {
        OperandsOnce(r.value, Remaining(), 6);
        var op := ConsumeAdditive();
        if op.None? {
          return;
        }
        var right := ParseMultiplicative();
        if !right.Read? {
          return right;
        }
        r := Read(Binary(op.value, r.value, right.value));
      }
    }

    method ConsumeMultiplicative() returns (op: Option<BinaryOp>)
      requires Valid()
      modifies this
      ensures Valid()
      ensures var t := SkipWs(old(Remaining()));
              op == OpAt(t, 7) && Remaining() == if op.None? then t else t[|OpText(op.value)|..]
    {
      hide SkipWs, OpAt, At, OpText;
      SkipWsTwice(Remaining());
      MultiplicativeAt(SkipWs(Remaining()));
      SkipWhite();
      var found := ConsumeOperator(Mul);
      if found {
        return Some(Mul);
      }
      found := ConsumeOperator(Div);
      if found {
        return Some(Div);
      }
      found := ConsumeOperator(Rem);
      return if found then Some(Rem) else None;
    }

    method ParseMultiplicative() returns (r: Reply<Expr>)
      requires Valid()
      modifies this
      ensures Valid() && Agrees(r, Remaining(), ParseBinary(old(Remaining()), 7))
      decreases |input| - offset, 13
    {
      hide SkipWs, ParseBinary, MoreOperands;
      LevelOnce(Remaining(), 7);
      r := ParseUnary();
      if !r.Read? {
        return;
      }
      while true
        invariant Valid() && r.Read? && offset > old(offset)
        invariant MoreOperands(r.value, Remaining(), 7) == ParseBinary(old(Remaining()), 7)
        decreases |input| - offset
      {
        OperandsOnce(r.value, Remaining(), 7);
        var op := ConsumeMultiplicative();
        if op.None? {
          return;
        }
        var right := ParseUnary();
        if !right.Read? {
          return right;
        }
        r := Read(Binary(op.value, r.value, right.value));
      }
    }

    method ParseUnary() returns (r: Reply<Expr>)
      requires Valid()
      modifies this
      ensures Valid() && Agrees(r, Remaining(), ParseBinary(old(Remaining()), UNARY))
      decreases |input| - offset, 5
    {
      hide SkipWs, RuleParsing.ParsePostfix;
      SkipWsTwice(Remaining());
      UnaryIsTightest(Remaining());
      SkipWhite();
      var bang := Consume("!");
      if bang {
        UnaryIsTightest(Remaining());
        var operand := ParseUnary();
        return if operand.Read? then Read(Not(operand.value)) else operand;
      }
      r := ParsePostfix();
    }

    method ParsePostfix() returns (r: Reply<Expr>)
      requires Valid()
      modifies this
      ensures Valid() && Agrees(r, Remaining(), RuleParsing.ParsePostfix(old(Remaining())))
      decreases |input| - offset, 4
    {
      hide SkipWs, At, PropertyName;
      hide RuleParsing.ParsePrimary, RuleParsing.ParseIdentifier, RuleParsing.ParseMethodCall;
      r := ParsePrimary();
      if !r.Read? {
        return;
      }
      while true
        invariant Valid() && r.Read? && offset > old(offset)
        invariant MoreMembers(r.value, Remaining()) == RuleParsing.ParsePostfix(old(Remaining()))
        decreases |input| - offset
      {
        SkipWsTwice(Remaining());
        SkipWhite();
        var dot := Consume(".");
        if !dot {
          return;
        }
        var member := ParseIdentifier();
        if member.None? {
          return Refusal;
        }
        var open := Consume("(");
        if open {
          r := ParseMethodCall(r.value, member.value);
        } else if member.value == "length" {
          r := Read(Call(Size, [r.value]));
        } else {
          r := ReplyOf(AppendPropertyMember(r.value, member.value));
        }
        if !r.Read? {
          return;
        }
      }
    }

    method ParsePrimary() returns (r: Reply<Expr>)
      requires Valid()
      modifies this
      ensures Valid() && Agrees(r, Remaining(), RuleParsing.ParsePrimary(old(Remaining())))
      decreases |input| - offset, 3
    {
      hide SkipWs, RuleParsing.ParseConditional, LiteralAt, LiteralStarts, RuleParsing.ParseProperty;
      SkipWsTwice(Remaining());
      SkipWhite();
      var open := Consume("(");
      if open {
        var inner := ParseConditional();
        if !inner.Read? {
          return inner;
        }
        var close := Consume(")");
        return if close then inner else Refusal;
      }
      if LiteralStarts(Remaining()) {
        r := ParseLiteral();
      } else {
        r := ParseProperty();
      }
    }

    /** Literals of all kinds, where one starts. */
    method ParseLiteral() returns (r: Reply<Expr>)
      requires Valid() && LiteralStarts(Remaining())
      modifies this
      ensures Valid() && Agrees(r, Remaining(), LiteralAt(old(Remaining())))
    {
      hide RuleParsing.ParseNumber, RuleParsing.ParseString, ParseRegex;
      if Sees("/") {
        r := ParseRegexLiteral();
        return;
      } else if Sees("\"") || Sees("'") {
        r := ParseString();
        return;
      } else if Sees("true") {
        Advance(4);
        return Read(BoolLit(true));
      } else if Sees("false") {
        Advance(5);
        return Read(BoolLit(false));
      } else if Sees("null") {
        Advance(4);
        return Read(NullLit);
      }
      var literal := ParseNumber();
      return ReplyOf(literal);
    }

    method ParseProperty() returns (r: Reply<Expr>)
      requires Valid()
      modifies this
      ensures Valid() && Agrees(r, Remaining(), RuleParsing.ParseProperty(old(Remaining())))
      decreases |input| - offset, 2
    {
      hide SkipWs, RuleParsing.ParseArgs, BuiltinNamed, PropertyName, RuleParsing.ParseIdentifier, MoreParts;
      var first := ParseIdentifier();
      if first.None? {
        return Refusal;
      }
      var open := Consume("(");
      if open {
        var args := ParseCallArgs();
        if !args.Read? {
          return args.Failed();
        }
        if BuiltinNamed(first.value).None? {
          return Refusal;
        }
        return Read(Call(BuiltinNamed(first.value).value, args.value));
      }
      if PropertyName(first.value).None? {
        return Refusal;
      }
      r := ParsePathParts([PropertyName(first.value).value]);
    }

    /** Further parts of a path; a member in front of a parenthesis is put back with its dot. */
    method ParsePathParts(first: seq<string>) returns (r: Reply<Expr>)
      requires Valid()
      modifies this
      ensures Valid() && Agrees(r, Remaining(), MoreParts(first, old(Remaining())))
    {
      hide SkipWs, PropertyName, RuleParsing.ParseIdentifier;
      var parts := first;
      while true
        invariant Valid() && MoreParts(parts, Remaining()) == MoreParts(first, old(Remaining()))
        decreases |input| - offset
      {
        var dot := Consume(".");
        if !dot {
          return Read(Property(parts));
        }
        var memberStart := offset;
        var member := ParseIdentifier();
        if member.None? {
          return Refusal;
        }
        var afterMember := offset;
        SkipWhite();
        if Sees("(") {
          offset := memberStart - 1;
          return Read(Property(parts));
        }
        offset := afterMember;
        if PropertyName(member.value).None? {
          return Refusal;
        }
        parts := parts + [PropertyName(member.value).value];
      }
    }

    method ParseCallArgs() returns (r: Reply<seq<Expr>>)
      requires Valid()
      modifies this
      ensures Valid() && Agrees(r, Remaining(), ParseArgs(old(Remaining())))
      decreases |input| - offset, 21
    {
      hide SkipWs, RuleParsing.ParseConditional, ParseArgList;
      var close := Consume(")");
      if close {
        return Read([]);
      }
      var args := [];
      ghost var t := Remaining();
      while true
        invariant Valid() && offset >= old(offset)
        invariant ParseArgList(Remaining(), args) == ParseArgList(t, [])
        decreases |input| - offset
      {
        ArgListOnce(Remaining(), args);
        var arg := ParseConditional();
        if !arg.Read? {
          return arg.Failed();
        }
        args := args + [arg.value];
        SkipWsTwice(Remaining());
        close := Consume(")");
        if close {
          return Read(args);
        }
        var comma := Consume(",");
        if !comma {
          return Refusal;
        }
      }
    }

    method ParseMethodCall(receiver: Expr, name: string) returns (r: Reply<Expr>)
      requires Valid()
      modifies this
      ensures Valid() && Agrees(r, Remaining(), RuleParsing.ParseMethodCall(receiver, name, old(Remaining())))
      decreases |input| - offset, 22
    {
      hide ParseArgs, MethodCall, CallEnd, ParseLambda, FilterCall, FindIndexCall;
      if name == "filter" || name == "findIndex" {
        var content := TakeCallContent();
        if !content.Read? {
          return content.Failed();
        }
        var form := ParseLambda(content.value);
        match form {
          case NoLambda =>
            return Refusal;
          case PanickedLambda =>
            return Panic;
          case IsLambda(lambda) =>
            return ReplyOf(if name == "filter" then FilterCall(receiver, lambda) else FindIndexCall(receiver, lambda));
        }
      }
      var args := ParseCallArgs();
      return if args.Read? then ReplyOf(MethodCall(receiver, name, args.value)) else args.Failed();
    }
  }

  lemma ComparisonAt(t: string)
    ensures OpAt(t, COMPARISON) ==
            if At(t, OpText(Eq)) then Some(Eq)
            else if At(t, OpText(Ne)) then Some(Ne)
            else if At(t, OpText(Le)) then Some(Le)
            else if At(t, OpText(Ge)) then Some(Ge)
            else if At(t, OpText(Lt)) then Some(Lt)
            else if At(t, OpText(Gt)) then Some(Gt)
            else None
  {
    hide At;
  }

  lemma MultiplicativeAt(t: string)
    ensures OpAt(t, 7) ==
            if At(t, OpText(Mul)) then Some(Mul)
            else if At(t, OpText(Div)) then Some(Div)
            else if At(t, OpText(Rem)) then Some(Rem)
            else None
  {
    hide At;
  }

  lemma ArgListOnce(s: string, acc: seq<Expr>)
    ensures ParseArgList(s, acc) ==
            var arg := RuleParsing.ParseConditional(s);
            if !arg.Got? then arg.PropagateFailure()
            else
              var t := SkipWs(arg.rest);
              if At(t, ")") then Got(acc + [arg.value], t[1..])
              else if At(t, ",") then ParseArgList(t[1..], acc + [arg.value])
              else Refused
  {
    hide RuleParsing.ParseConditional;
  }

  function AppendPropertyMember(e: Expr, member: string): Option<Expr> {
    if e.Property? && PropertyName(member).Some? then Some(Property(e.path + [PropertyName(member).value])) else None
  }

  lemma UnaryIsTightest(s: string)
    ensures ParseBinary(s, UNARY) == RuleParsing.ParseUnary(s)
  {
  }

  /** A whole text must be one expression. */
  method ParseImportedExpr(input: string) returns (r: Reply<Expr>)
    ensures r == ParseImported(input)
  {
    hide RuleParsing.ParseConditional, SkipWs;
    var parser := new ExprParser(input);
    r := parser.ParseConditional();
    if !r.Read? {
      return;
    }
    parser.SkipWhite();
    return if parser.Remaining() == "" then r else Refusal;
  }

  /** One level of the grammar: an operand of the next level and what may follow it. */
  lemma LevelOnce(s: string, level: nat)
    requires 1 <= level < UNARY
    ensures ParseBinary(s, level) ==
            var first := ParseBinary(s, level + 1);
            if !first.Got? then first else MoreOperands(first.value, first.rest, level)
  {
    hide MoreOperands;
  }

  lemma OperandsOnce(acc: Expr, s: string, level: nat)
    requires 1 <= level < UNARY
    ensures MoreOperands(acc, s, level) ==
            var t := SkipWs(s);
            var op := OpAt(t, level);
            if op.None? then Got(acc, t)
            else
              var right := ParseBinary(t[|OpText(op.value)|..], level + 1);
              if !right.Got? then right
              else if level == COMPARISON then Got(Binary(op.value, acc, right.value), right.rest)
              else MoreOperands(Binary(op.value, acc, right.value), right.rest, level)
  {
    hide ParseBinary, OpAt;
  }
}
