/** The rule evaluator, counting its instructions, and its agreement with the budgeted evaluation. */
module RuleEvaluation {
  import opened Bytes
  import opened Rules
  import opened Evaluation
  import RuleParsing

  datatype RuleOutcome = Passed | Failed

  function OutcomeOf(r: Outcome<ModelValue>): Outcome<RuleOutcome> {
    if r.Failure? then Failure(r.error)
    else if !r.value.BoolValue? then Failure(Faulted(TypeMismatch))
    else Answer(if r.value.flag then Passed else Failed)
  }

  class RuleEvaluator {
    const env: Env
    const maxObjectDepth: nat
    var instructions: nat

    constructor (env: Env, maxObjectDepth: nat)
      ensures this.env == env && this.maxObjectDepth == maxObjectDepth
    {
      this.env := env;
      this.maxObjectDepth := maxObjectDepth;
      instructions := 0;
    }

    /** The method did to the answer and the counter what the budgeted evaluation does. */
    ghost predicate Does(r: Outcome<ModelValue>, spec: (Outcome<ModelValue>, nat))
      reads this
    {
      (r, instructions) == spec
    }

    /** Each evaluation starts a new budget: the outcome depends on the rule alone. */
    method Evaluate(test: Expr) returns (r: Outcome<RuleOutcome>)
      modifies this
      ensures r == OutcomeOf(Run(env, test, 0, 0, maxObjectDepth).0)
    {
      instructions := 0;
      var value := Eval(test, 0);
      return OutcomeOf(value);
    }

    method Eval(e: Expr, depth: nat) returns (r: Outcome<ModelValue>)
      modifies this
      ensures Does(r, Run(env, e, depth, old(instructions), maxObjectDepth))
      decreases e, 10
    {
      hide StepOf;
      instructions := instructions + 1;
      if instructions > MAX_RULE_INSTRUCTIONS {
        return Failure(InstructionBudget);
      }
      if depth > MAX_RULE_DEPTH || depth > maxObjectDepth {
        return Failure(DepthBudget);
      }
      r := EvalNode(e, depth);
    }

    method EvalNode(e: Expr, depth: nat) returns (r: Outcome<ModelValue>)
      modifies this
      ensures Does(r, RunFrom(env, e, depth, old(instructions), maxObjectDepth, []))
      decreases e, 9
    {
      hide Run, CallStep;
      match e
      case BoolLit(flag) =>
        return Answer(BoolValue(flag));
      case NumberLit(digits) =>
        return Answer(NumberValue(env.literal(digits)));
      case StringLit(text) =>
        return Answer(StringValue(text));
      case NullLit =>
        return Answer(NullValue);
      case Property(path) =>
        if path == [] {
          return Failure(Faulted(UnknownProperty));
        }
        return env.property(path).Lift();
      case Not(operand) =>
        var value := Eval(operand, depth + 1);
        if value.Failure? {
          return value;
        }
        AfterOperand(e, depth, old(instructions), []);
        if !value.value.BoolValue? {
          return Failure(Faulted(TypeMismatch));
        }
        return Answer(BoolValue(!value.value.flag));
      case Binary(op, left, right) =>
        r := EvalBinary(e, depth);
      case Conditional(condition, whenTrue, whenFalse) =>
        r := EvalConditional(e, depth);
      case Call(builtin, args) =>
        r := EvalCall(e, depth);
    }

    /** One operand evaluated. */
    lemma AfterOperand(e: Expr, depth: nat, used: nat, values: seq<ModelValue>)
      requires |values| <= Arity(e) && StepOf(env, e, values).Operand?
      ensures var (v, after) := Run(env, StepOf(env, e, values).e, depth + 1, used, maxObjectDepth);
              RunFrom(env, e, depth, used, maxObjectDepth, values) ==
              if v.Failure? then (v, after)
              else RunFrom(env, e, depth, after, maxObjectDepth, values + [v.value])
    {
      hide Run, StepOf;
    }

    lemma AfterAll(e: Expr, depth: nat, used: nat, values: seq<ModelValue>)
      requires |values| <= Arity(e) && StepOf(env, e, values).Finish?
      ensures RunFrom(env, e, depth, used, maxObjectDepth, values) == (StepOf(env, e, values).result.Lift(), used)
    {
      hide Run, StepOf;
    }

    method EvalConditional(e: Expr, depth: nat) returns (r: Outcome<ModelValue>)
      requires e.Conditional?
      modifies this
      ensures Does(r, RunFrom(env, e, depth, old(instructions), maxObjectDepth, []))
      decreases e, 8
    {
      hide Run, RunFrom;
      AfterOperand(e, depth, instructions, []);
      var condition := Eval(e.condition, depth + 1);
      if condition.Failure? {
        return condition;
      }
      var values := [] + [condition.value];
      if !condition.value.BoolValue? {
        AfterAll(e, depth, instructions, values);
        return Failure(Faulted(TypeMismatch));
      }
      AfterOperand(e, depth, instructions, values);
      if condition.value.flag {
        r := Eval(e.whenTrue, depth + 1);
      } else {
        r := Eval(e.whenFalse, depth + 1);
      }
      if r.Answer? {
        AfterAll(e, depth, instructions, values + [r.value]);
      }
    }

    method EvalBinary(e: Expr, depth: nat) returns (r: Outcome<ModelValue>)
      requires e.Binary?
      modifies this
      ensures Does(r, RunFrom(env, e, depth, old(instructions), maxObjectDepth, []))
      decreases e, 8
    {
      hide Run, RunFrom, Operate;
      AfterOperand(e, depth, instructions, []);
      var left := Eval(e.left, depth + 1);
      if left.Failure? {
        return left;
      }
      var values := [] + [left.value];
      if e.op == And || e.op == Or {
        if !left.value.BoolValue? {
          AfterAll(e, depth, instructions, values);
          return Failure(Faulted(TypeMismatch));
        }
        if left.value.flag == (e.op == Or) {
          AfterAll(e, depth, instructions, values);
          return left;
        }
      }
      AfterOperand(e, depth, instructions, values);
      var right := Eval(e.right, depth + 1);
      if right.Failure? {
        return right;
      }
      AfterAll(e, depth, instructions, values + [right.value]);
      if e.op == And || e.op == Or {
        return if right.value.BoolValue? then right else Failure(Faulted(TypeMismatch));
      }
      return Operate(env, e.op, left.value, right.value).Lift();
    }

    method EvalCall(e: Expr, depth: nat) returns (r: Outcome<ModelValue>)
      requires e.Call?
      modifies this
      ensures Does(r, RunFrom(env, e, depth, old(instructions), maxObjectDepth, []))
      decreases e, 8
    {
      if e.builtin == All || e.builtin == Exists {
        r := EvalBooleanFold(e, depth);
      } else if TakesOne(e.builtin) {
        r := EvalSingleArg(e, depth);
      } else if TakesTwo(e.builtin) {
        r := EvalTwoArgs(e, depth);
      } else {
        r := EvalCollection(e, depth);
      }
    }

    method EvalSingleArg(e: Expr, depth: nat) returns (r: Outcome<ModelValue>)
      requires e.Call? && TakesOne(e.builtin)
      modifies this
      ensures Does(r, RunFrom(env, e, depth, old(instructions), maxObjectDepth, []))
      decreases e, 7
    {
      hide Run, RunFrom, Apply1;
      if |e.args| != 1 {
        AfterAll(e, depth, instructions, []);
        return Failure(Faulted(TypeMismatch));
      }
      AfterOperand(e, depth, instructions, []);
      var value := Eval(e.args[0], depth + 1);
      if value.Failure? {
        return value;
      }
      AfterAll(e, depth, instructions, [] + [value.value]);
      return Apply1(env, e.builtin, value.value).Lift();
    }

    method EvalTwoArgs(e: Expr, depth: nat) returns (r: Outcome<ModelValue>)
      requires e.Call? && TakesTwo(e.builtin)
      modifies this
      ensures Does(r, RunFrom(env, e, depth, old(instructions), maxObjectDepth, []))
      decreases e, 7
    {
      hide Run, RunFrom, Apply2;
      if |e.args| != 2 {
        AfterAll(e, depth, instructions, []);
        return Failure(Faulted(TypeMismatch));
      }
      AfterOperand(e, depth, instructions, []);
      var first := Eval(e.args[0], depth + 1);
      if first.Failure? {
        return first;
      }
      var values := [] + [first.value];
      AfterOperand(e, depth, instructions, values);
      var second := Eval(e.args[1], depth + 1);
      if second.Failure? {
        return second;
      }
      AfterAll(e, depth, instructions, values + [second.value]);
      r := ApplyTwo(e.builtin, first.value, second.value);
    }

    method ApplyTwo(builtin: Builtin, a: ModelValue, b: ModelValue) returns (r: Outcome<ModelValue>)
      ensures r == Apply2(env, builtin, a, b).Lift()
    {
      if builtin == Split && a.StringValue? && b.StringValue? {
        var parts := SplitInto(a.text, b.text, env.maxArrayLen);
        return ListOf(parts).Lift();
      }
      return Apply2(env, builtin, a, b).Lift();
    }

    /** `all` and `exists` stop at the first argument that decides them. */
    method EvalBooleanFold(e: Expr, depth: nat) returns (r: Outcome<ModelValue>)
      requires e.Call? && (e.builtin == All || e.builtin == Exists)
      modifies this
      ensures Does(r, RunFrom(env, e, depth, old(instructions), maxObjectDepth, []))
      decreases e, 7
    {
      hide Run, RunFrom;
      var allRequired := e.builtin == All;
      ghost var values := [];
      for i := 0 to |e.args|
        invariant |values| == i
        invariant values != [] ==> values[i - 1] == BoolValue(allRequired)
        invariant RunFrom(env, e, depth, instructions, maxObjectDepth, values)
               == RunFrom(env, e, depth, old(instructions), maxObjectDepth, [])
      {
        AfterOperand(e, depth, instructions, values);
        var value := Eval(e.args[i], depth + 1);
        if value.Failure? {
          return value;
        }
        values := values + [value.value];
        if !value.value.BoolValue? {
          AfterAll(e, depth, instructions, values);
          return Failure(Faulted(TypeMismatch));
        }
        if value.value.flag != allRequired {
          AfterAll(e, depth, instructions, values);
          return Answer(BoolValue(!allRequired));
        }
      }
      AfterAll(e, depth, instructions, values);
      return Answer(BoolValue(allRequired));
    }

    /** Filters and `findIndex`: the collection, and then arguments that must be strings. */
    method EvalCollection(e: Expr, depth: nat) returns (r: Outcome<ModelValue>)
      requires e.Call? && !TakesOne(e.builtin) && !TakesTwo(e.builtin) && e.builtin != All && e.builtin != Exists
      modifies this
      ensures Does(r, RunFrom(env, e, depth, old(instructions), maxObjectDepth, []))
      decreases e, 7
    {
      hide Run, RunFrom, ApplyMany;
      if e.args == [] {
        AfterAll(e, depth, instructions, []);
        return Failure(Faulted(TypeMismatch));
      }
      AfterOperand(e, depth, instructions, []);
      var collection := Eval(e.args[0], depth + 1);
      if collection.Failure? {
        return collection;
      }
      var values := [] + [collection.value];
      for i := 1 to |e.args|
        invariant |values| == i && values[0] == collection.value && AllStrings(values[1..])
        invariant RunFrom(env, e, depth, instructions, maxObjectDepth, values)
               == RunFrom(env, e, depth, old(instructions), maxObjectDepth, [])
      {
        AfterOperand(e, depth, instructions, values);
        var value := Eval(e.args[i], depth + 1);
        if value.Failure? {
          return value;
        }
        values := values + [value.value];
        assert values[1..][i - 1] == value.value;
        if !value.value.StringValue? {
          AfterAll(e, depth, instructions, values);
          return Failure(Faulted(TypeMismatch));
        }
      }
      AfterAll(e, depth, instructions, values);
      r := ApplyCollection(e.builtin, values);
    }

    method ApplyCollection(builtin: Builtin, values: seq<ModelValue>) returns (r: Outcome<ModelValue>)
      requires (IsFilter(builtin) || builtin == FindIndexEquals) && values != [] && AllStrings(values[1..])
      ensures r == ApplyMany(env, builtin, values).Lift()
    {
      if builtin == FindIndexEquals {
        return ApplyMany(env, builtin, values).Lift();
      }
      var kept := FilterInto(builtin, values[0], Texts(values[1..]));
      return ListOf(kept).Lift();
    }

    method FilterInto(builtin: Builtin, collection: ModelValue, predicates: seq<string>)
      returns (r: Checked<seq<ModelValue>>)
      requires IsFilter(builtin)
      ensures r == FilterValues(env, builtin, collection, predicates)
    {
      hide Keeps;
      if !collection.ListValue? {
        return Wrong(TypeMismatch);
      }
      var filtered := [];
      var items := collection.items;
      assert items[0..] == items;
      for i := 0 to |items|
        invariant FilterItems(env, builtin, predicates, items[i..], filtered)
               == FilterItems(env, builtin, predicates, items, [])
      {
        assert items[i..][1..] == items[i + 1..];
        if !items[i].StringValue? {
          return Wrong(TypeMismatch);
        }
        var keep := Keeps(env, builtin, predicates, items[i].text);
        if keep.Wrong? {
          return Wrong(keep.fault);
        }
        if keep.value {
          filtered := filtered + [items[i]];
        }
      }
      return Fine(filtered);
    }
  }

  method SplitInto(text: string, separator: string, cap: nat) returns (r: Checked<seq<ModelValue>>)
    ensures r == SplitString(text, separator, cap)
  {
    if separator == "" {
      return Wrong(TypeMismatch);
    }
    var parts := RuleParsing.SplitText(text, separator);
    var values := [];
    assert parts[0..] == parts;
    for i := 0 to |parts|
      invariant SplitParts(parts[i..], values, cap) == SplitParts(parts, [], cap)
    {
      assert parts[i..][1..] == parts[i + 1..];
      if |values| >= cap {
        return Wrong(SizeBudget);
      }
      if ByteLength(parts[i]) > RuleParsing.MAX_PROFILE_STRING_BYTES {
        return Wrong(TextTooLong);
      }
      values := values + [StringValue(parts[i])];
    }
    return Fine(values);
  }
}
