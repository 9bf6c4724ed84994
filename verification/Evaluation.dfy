/** What rule expressions mean, without a budget and with one. */
module Evaluation {
  import opened Bytes
  import opened Rules
  import RuleParsing
  import Bits

  datatype ModelValue =
    | NullValue
    | BoolValue(flag: bool)
    | NumberValue(number: real)
    | StringValue(text: string)
    | KeyValue(key: nat, generation: nat)
    | ListValue(items: seq<ModelValue>)

  /** What can go wrong besides the budget of the evaluation itself. */
  datatype Fault = TypeMismatch | SizeBudget | TextTooLong | UnknownProperty | BadRegex

  datatype EvalError = InstructionBudget | DepthBudget | Faulted(fault: Fault)

  datatype Outcome<+T> = Answer(value: T) | Failure(error: EvalError) {
    predicate IsFailure() {
      Failure?
    }

    function PropagateFailure<U>(): Outcome<U>
      requires Failure?
    {
      Failure(error)
    }

    function Extract(): T
      requires Answer?
    {
      value
    }

    predicate OverBudget() {
      Failure? && (error == InstructionBudget || error == DepthBudget)
    }
  }

  datatype Checked<+T> = Fine(value: T) | Wrong(fault: Fault) {
    predicate IsFailure() {
      Wrong?
    }

    function PropagateFailure<U>(): Checked<U>
      requires Wrong?
    {
      Wrong(fault)
    }

    function Extract(): T
      requires Fine?
    {
      value
    }

    function Lift(): Outcome<T> {
      if Fine? then Answer(value) else Failure(Faulted(fault))
    }
  }

  /** The object a rule is about and everything else that is not part of the expression: its properties,
      the parse facts, regular expressions and what number a literal spells. */
  datatype Env = Env(
    property: seq<string> -> Checked<ModelValue>,
    hasParseFact: string -> bool,
    regexMatches: (string, string) -> Checked<bool>,
    regexFind: (string, string) -> Checked<int>,
    literal: string -> real,
    maxArrayLen: nat)

  // ---------------------------------------------------------------------------------------------
  // Values
  // ---------------------------------------------------------------------------------------------

  const EPSILON: real := 1.0 / 4503599627370496.0
  const MIN_I32 := -0x8000_0000
  const MAX_I32 := 0x7FFF_FFFF

  function Abs(x: real): real {
    if x < 0.0 then -x else x
  }

  function Trunc(x: real): int {
    if x < 0.0 then -((-x).Floor) else x.Floor
  }

  function ExpectBool(v: ModelValue): Checked<bool> {
    if v.BoolValue? then Fine(v.flag) else Wrong(TypeMismatch)
  }

  function ExpectNumber(v: ModelValue): Checked<real> {
    if v.NumberValue? then Fine(v.number) else Wrong(TypeMismatch)
  }

  function ExpectIntegral(v: ModelValue): Checked<int> {
    var x :- ExpectNumber(v);
    if Abs(x - Trunc(x) as real) > EPSILON then Wrong(TypeMismatch)
    else if x < MIN_I32 as real || x > MAX_I32 as real then Wrong(TypeMismatch)
    else Fine(Trunc(x))
  }

  function ExpectShift(v: ModelValue): Checked<nat> {
    var n :- ExpectIntegral(v);
    if 0 <= n < 64 then Fine(n) else Wrong(TypeMismatch)
  }

  function ExpectIndex(v: ModelValue): Checked<nat> {
    var n :- ExpectIntegral(v);
    if n < 0 then Wrong(TypeMismatch) else Fine(n)
  }

  /** An integer as a number, refused outside 32 bits. */
  function FromInt(n: int): Checked<ModelValue> {
    if MIN_I32 <= n <= MAX_I32 then Fine(NumberValue(n as real)) else Wrong(SizeBudget)
  }

  function FromSize(n: nat): Checked<ModelValue> {
    if n < 0x1_0000_0000 then Fine(NumberValue(n as real)) else Wrong(SizeBudget)
  }

  predicate ValuesEqual(a: ModelValue, b: ModelValue) {
    if a.NumberValue? && b.NumberValue? then Abs(a.number - b.number) < EPSILON else a == b
  }

  /** How many bytes a character takes in UTF-8. */
  function Width(c: char): (n: nat)
    ensures 1 <= n <= 4
  {
    if c as int < 0x80 then 1 else if c as int < 0x800 then 2 else if c as int < 0x1_0000 then 3 else 4
  }

  function ByteLength(s: string): nat {
    if s == "" then 0 else Width(s[0]) + ByteLength(s[1..])
  }

  /** The text from a byte on; nothing when the byte is inside a character or behind the end. */
  function FromByte(s: string, n: nat): Option<string> {
    if n == 0 then Some(s)
    else if s == "" || n < Width(s[0]) then None
    else FromByte(s[1..], n - Width(s[0]))
  }

  function CollectionLen(v: ModelValue): Checked<nat> {
    match v
    case StringValue(text) => Fine(ByteLength(text))
    case ListValue(items) => Fine(|items|)
    case _ => Wrong(TypeMismatch)
  }

  /** The first position of an equal value. */
  function IndexIn(items: seq<ModelValue>, v: ModelValue): (r: Option<nat>)
    ensures r.Some? ==> r.value < |items| && ValuesEqual(items[r.value], v)
                        && forall k | 0 <= k < r.value :: !ValuesEqual(items[k], v)
    ensures r.None? ==> forall k | 0 <= k < |items| :: !ValuesEqual(items[k], v)
  {
    if items == [] then None
    else if ValuesEqual(items[0], v) then Some(0)
    else
      var more := IndexIn(items[1..], v);
      if more.None? then None else Some(1 + more.value)
  }

  function IndexOrMinusOne(i: Option<nat>): int {
    if i.None? then -1 else i.value
  }

  function ContainsValue(haystack: ModelValue, needle: ModelValue): Checked<bool> {
    if haystack.StringValue? && needle.StringValue? then
      Fine(RuleParsing.FindText(haystack.text, needle.text).Some?)
    else if haystack.ListValue? then Fine(IndexIn(haystack.items, needle).Some?)
    else Wrong(TypeMismatch)
  }

  function IndexOfValue(collection: ModelValue, needle: ModelValue): Checked<int> {
    if collection.StringValue? && needle.StringValue? then
      var i := RuleParsing.FindText(collection.text, needle.text);
      Fine(if i.None? then -1 else ByteLength(collection.text[..i.value]))
    else if collection.ListValue? then Fine(IndexOrMinusOne(IndexIn(collection.items, needle)))
    else Wrong(TypeMismatch)
  }

  function SliceValue(collection: ModelValue, start: nat): Checked<ModelValue> {
    match collection
    case ListValue(items) => Fine(ListValue(if start <= |items| then items[start..] else []))
    case StringValue(text) =>
      var found := FromByte(text, start);
      var tail := if found.Some? then found.value else "";
      if ByteLength(tail) > RuleParsing.MAX_PROFILE_STRING_BYTES then Wrong(TextTooLong) else Fine(StringValue(tail))
    case _ => Wrong(TypeMismatch)
  }

  /** The parts of a split string, refused beyond the cap or when a part is too long. */
  function SplitParts(parts: seq<string>, acc: seq<ModelValue>, cap: nat): Checked<seq<ModelValue>> {
    if parts == [] then Fine(acc)
    else if |acc| >= cap then Wrong(SizeBudget)
    else if ByteLength(parts[0]) > RuleParsing.MAX_PROFILE_STRING_BYTES then Wrong(TextTooLong)
    else SplitParts(parts[1..], acc + [StringValue(parts[0])], cap)
  }

  function SplitString(text: string, separator: string, cap: nat): Checked<seq<ModelValue>> {
    if separator == "" then Wrong(TypeMismatch) else SplitParts(RuleParsing.SplitText(text, separator), [], cap)
  }

  predicate IsFilter(builtin: Builtin) {
    builtin == FilterEquals || builtin == FilterNotEquals || builtin == FilterMatches || builtin == FilterNotMatches
  }

  /** Whether a filter keeps a string. */
  function Keeps(env: Env, builtin: Builtin, predicates: seq<string>, text: string): Checked<bool>
    requires IsFilter(builtin)
  {
    if builtin == FilterEquals then Fine(text in predicates)
    else if builtin == FilterNotEquals then Fine(text !in predicates)
    else if predicates == [] then Wrong(TypeMismatch)
    else
      var matched :- env.regexMatches(predicates[0], text);
      Fine(if builtin == FilterMatches then matched else !matched)
  }

  function FilterItems(env: Env, builtin: Builtin, predicates: seq<string>, items: seq<ModelValue>, acc: seq<ModelValue>)
    : Checked<seq<ModelValue>>
    requires IsFilter(builtin)
  {
    if items == [] then Fine(acc)
    else if !items[0].StringValue? then Wrong(TypeMismatch)
    else
      var kept :- Keeps(env, builtin, predicates, items[0].text);
      FilterItems(env, builtin, predicates, items[1..], if kept then acc + [items[0]] else acc)
  }

  function FilterValues(env: Env, builtin: Builtin, collection: ModelValue, predicates: seq<string>)
    : Checked<seq<ModelValue>>
    requires IsFilter(builtin)
  {
    if !collection.ListValue? then Wrong(TypeMismatch)
    else FilterItems(env, builtin, predicates, collection.items, [])
  }

  function FindIndexEqualsIn(items: seq<ModelValue>, predicates: seq<string>): (r: Option<nat>)
    ensures r.Some? ==> r.value < |items|
  {
    if items == [] then None
    else if items[0].StringValue? && items[0].text in predicates then Some(0)
    else
      var more := FindIndexEqualsIn(items[1..], predicates);
      if more.None? then None else Some(1 + more.value)
  }

  predicate AllStrings(values: seq<ModelValue>) {
    forall k | 0 <= k < |values| :: values[k].StringValue?
  }

  function Texts(values: seq<ModelValue>): seq<string>
    requires AllStrings(values)
  {
    seq(|values|, i requires 0 <= i < |values| => values[i].text)
  }

  function Remainder(a: real, b: real): real
    requires b != 0.0
  {
    a - b * (Trunc(a / b) as real)
  }

  /** A comparison or arithmetic operator; a divisor close to zero is refused. */
  function OnNumbers(op: BinaryOp, a: real, b: real): Checked<ModelValue> {
    if op == Le then Fine(BoolValue(a <= b))
    else if op == Ge then Fine(BoolValue(a >= b))
    else if op == Lt then Fine(BoolValue(a < b))
    else if op == Gt then Fine(BoolValue(a > b))
    else if op == Add then Fine(NumberValue(a + b))
    else if op == Sub then Fine(NumberValue(a - b))
    else if op == Mul then Fine(NumberValue(a * b))
    else if Abs(b) < EPSILON then Wrong(TypeMismatch)
    else Fine(NumberValue(if op == Div then a / b else Remainder(a, b)))
  }

  /** The bits both numbers have in two's complement. */
  function BitAnd(a: int, b: int): int
    decreases if a < 0 then -1 - a else a
  {
    if a == 0 || b == 0 then 0
    else if a == -1 then b
    else 2 * BitAnd(a / 2, b / 2) + a % 2 * (b % 2)
  }

  /** An operator other than `&&` and `||` on two values. */
  function Operate(env: Env, op: BinaryOp, left: ModelValue, right: ModelValue): Checked<ModelValue> {
    match op
    case Eq => Fine(BoolValue(ValuesEqual(left, right)))
    case Ne => Fine(BoolValue(!ValuesEqual(left, right)))
    case And => Fine(BoolValue(false))
    case Or => Fine(BoolValue(false))
    case BitAnd =>
      var a :- ExpectIntegral(left);
      var b :- ExpectIntegral(right);
      FromInt(BitAnd(a, b))
    case Shr =>
      var shift :- ExpectShift(right);
      var a :- ExpectIntegral(left);
      FromInt(a / Bits.Pow2(shift))
    case _ =>
      var a :- ExpectNumber(left);
      var b :- ExpectNumber(right);
      OnNumbers(op, a, b)
  }

  // ---------------------------------------------------------------------------------------------
  // One node: which operand is evaluated next, and the value once enough are known
  // ---------------------------------------------------------------------------------------------

  datatype Step = Operand(e: Expr) | Finish(result: Checked<ModelValue>)

  /** How many operands of a node can be evaluated at most. */
  function Arity(e: Expr): nat {
    match e
    case Not(_) => 1
    case Binary(_, _, _) => 2
    case Conditional(_, _, _) => 2
    case Call(_, args) => |args|
    case _ => 0
  }

  function NumberOf(size: Checked<nat>): Checked<ModelValue> {
    if size.Wrong? then Wrong(size.fault) else FromSize(size.value)
  }

  function BoolOf(b: Checked<bool>): Checked<ModelValue> {
    if b.Wrong? then Wrong(b.fault) else Fine(BoolValue(b.value))
  }

  function IntOf(n: Checked<int>): Checked<ModelValue> {
    if n.Wrong? then Wrong(n.fault) else FromInt(n.value)
  }

  function ListOf(items: Checked<seq<ModelValue>>): Checked<ModelValue> {
    if items.Wrong? then Wrong(items.fault) else Fine(ListValue(items.value))
  }

  /** The built-ins of one argument. */
  function Apply1(env: Env, builtin: Builtin, v: ModelValue): Checked<ModelValue> {
    match builtin
    case HasParseFact => if v.StringValue? then Fine(BoolValue(env.hasParseFact(v.text))) else Wrong(TypeMismatch)
    case Size => NumberOf(CollectionLen(v))
    case IsEmpty =>
      var n :- CollectionLen(v);
      Fine(BoolValue(n == 0))
    case _ =>
      var x :- ExpectNumber(v);
      Fine(NumberValue(Abs(x)))
  }

  /** The built-ins of two arguments. */
  function Apply2(env: Env, builtin: Builtin, a: ModelValue, b: ModelValue): Checked<ModelValue> {
    match builtin
    case Contains => BoolOf(ContainsValue(a, b))
    case Slice =>
      var start :- ExpectIndex(b);
      SliceValue(a, start)
    case IndexOf => IntOf(IndexOfValue(a, b))
    case _ =>
      if !a.StringValue? || !b.StringValue? then Wrong(TypeMismatch)
      else if builtin == Matches then BoolOf(env.regexMatches(a.text, b.text))
      else if builtin == Search then IntOf(env.regexFind(b.text, a.text))
      else ListOf(SplitString(a.text, b.text, env.maxArrayLen))
  }

  /** Filters and `findIndex`, the collection first and then strings only. */
  function ApplyMany(env: Env, builtin: Builtin, values: seq<ModelValue>): Checked<ModelValue>
    requires (IsFilter(builtin) || builtin == FindIndexEquals) && values != [] && AllStrings(values[1..])
  {
    if builtin == FindIndexEquals then
      if !values[0].ListValue? then Wrong(TypeMismatch)
      else IntOf(Fine(IndexOrMinusOne(FindIndexEqualsIn(values[0].items, Texts(values[1..])))))
    else ListOf(FilterValues(env, builtin, values[0], Texts(values[1..])))
  }

  predicate TakesOne(builtin: Builtin) {
    builtin == HasParseFact || builtin == Size || builtin == IsEmpty || builtin == Builtin.Abs
  }

  predicate TakesTwo(builtin: Builtin) {
    || builtin == Contains || builtin == Matches || builtin == Split || builtin == Slice || builtin == IndexOf
    || builtin == Search
  }

  function CallStep(env: Env, builtin: Builtin, args: seq<Expr>, values: seq<ModelValue>): (next: Step)
    requires |values| <= |args|
    ensures next.Operand? ==> |values| < |args| && next.e == args[|values|]
  {
    if builtin == All || builtin == Exists then
      if values != [] && !values[|values| - 1].BoolValue? then Finish(Wrong(TypeMismatch))
      else if values != [] && values[|values| - 1].flag == (builtin == Exists) then
        Finish(Fine(BoolValue(builtin == Exists)))
      else if |values| == |args| then Finish(Fine(BoolValue(builtin == All)))
      else Operand(args[|values|])
    else if TakesOne(builtin) then
      if |args| != 1 then Finish(Wrong(TypeMismatch))
      else if values == [] then Operand(args[0])
      else Finish(Apply1(env, builtin, values[0]))
    else if TakesTwo(builtin) then
      if |args| != 2 then Finish(Wrong(TypeMismatch))
      else if |values| < 2 then Operand(args[|values|])
      else Finish(Apply2(env, builtin, values[0], values[1]))
    else if args == [] then Finish(Wrong(TypeMismatch))
    else if |values| > 1 && !AllStrings(values[1..]) then Finish(Wrong(TypeMismatch))
    else if |values| < |args| then Operand(args[|values|])
    else Finish(ApplyMany(env, builtin, values))
  }

  /** What a node does once its operands so far have the values `values`. */
  function StepOf(env: Env, e: Expr, values: seq<ModelValue>): (next: Step)
    requires |values| <= Arity(e)
    ensures next.Operand? ==> |values| < Arity(e) && next.e < e
  {
    match e
    case BoolLit(flag) => Finish(Fine(BoolValue(flag)))
    case NumberLit(digits) => Finish(Fine(NumberValue(env.literal(digits))))
    case StringLit(text) => Finish(Fine(StringValue(text)))
    case NullLit => Finish(Fine(NullValue))
    case Property(path) => Finish(if path == [] then Wrong(UnknownProperty) else env.property(path))
    case Not(operand) =>
      if values == [] then Operand(operand)
      else if values[0].BoolValue? then Finish(Fine(BoolValue(!values[0].flag)))
      else Finish(Wrong(TypeMismatch))
    case Binary(op, left, right) =>
      if values == [] then Operand(left)
      else if op == And || op == Or then
        if !values[0].BoolValue? then Finish(Wrong(TypeMismatch))
        else if values[0].flag == (op == Or) then Finish(Fine(BoolValue(op == Or)))
        else if |values| == 1 then Operand(right)
        else Finish(BoolOf(ExpectBool(values[1])))
      else if |values| == 1 then Operand(right)
      else Finish(Operate(env, op, values[0], values[1]))
    case Conditional(condition, whenTrue, whenFalse) =>
      if values == [] then Operand(condition)
      else if !values[0].BoolValue? then Finish(Wrong(TypeMismatch))
      else if |values| == 1 then Operand(if values[0].flag then whenTrue else whenFalse)
      else Finish(Fine(values[1]))
    case Call(builtin, args) => CallStep(env, builtin, args, values)
  }

  // ---------------------------------------------------------------------------------------------
  // Without a budget
  // ---------------------------------------------------------------------------------------------

  function Meaning(env: Env, e: Expr): Checked<ModelValue>
    decreases e, Arity(e) + 1
  {
    MeaningFrom(env, e, [])
  }

  function MeaningFrom(env: Env, e: Expr, values: seq<ModelValue>): Checked<ModelValue>
    requires |values| <= Arity(e)
    decreases e, Arity(e) - |values|
  {
    match StepOf(env, e, values)
    case Finish(result) => result
    case Operand(operand) =>
      var v :- Meaning(env, operand);
      MeaningFrom(env, e, values + [v])
  }

  /** How many nodes the evaluation visits. */
  function Visits(env: Env, e: Expr): nat
    decreases e, Arity(e) + 1
  {
    1 + VisitsFrom(env, e, [])
  }

  function VisitsFrom(env: Env, e: Expr, values: seq<ModelValue>): nat
    requires |values| <= Arity(e)
    decreases e, Arity(e) - |values|
  {
    match StepOf(env, e, values)
    case Finish(_) => 0
    case Operand(operand) =>
      Visits(env, operand)
      + (if Meaning(env, operand).Fine? then VisitsFrom(env, e, values + [Meaning(env, operand).value]) else 0)
  }

  /** How far below the node the deepest visited node lies. */
  function Reach(env: Env, e: Expr): nat
    decreases e, Arity(e) + 1
  {
    ReachFrom(env, e, [])
  }

  function Max(a: nat, b: nat): nat {
    if a < b then b else a
  }

  function ReachFrom(env: Env, e: Expr, values: seq<ModelValue>): nat
    requires |values| <= Arity(e)
    decreases e, Arity(e) - |values|
  {
    match StepOf(env, e, values)
    case Finish(_) => 0
    case Operand(operand) =>
      Max(
        1 + Reach(env, operand),
        if Meaning(env, operand).Fine? then ReachFrom(env, e, values + [Meaning(env, operand).value]) else 0)
  }

  // ---------------------------------------------------------------------------------------------
  // With a budget
  // ---------------------------------------------------------------------------------------------

  const MAX_RULE_INSTRUCTIONS := 512
  const MAX_RULE_DEPTH := 32

  function DepthLimit(maxObjectDepth: nat): nat {
    if maxObjectDepth < MAX_RULE_DEPTH then maxObjectDepth else MAX_RULE_DEPTH
  }

  /** The answer and the instructions used, `used` of them before. */
  function Run(env: Env, e: Expr, depth: nat, used: nat, maxDepth: nat): (Outcome<ModelValue>, nat)
    decreases e, Arity(e) + 1
  {
    if used + 1 > MAX_RULE_INSTRUCTIONS then (Failure(InstructionBudget), used + 1)
    else if depth > DepthLimit(maxDepth) then (Failure(DepthBudget), used + 1)
    else RunFrom(env, e, depth, used + 1, maxDepth, [])
  }

  function RunFrom(env: Env, e: Expr, depth: nat, used: nat, maxDepth: nat, values: seq<ModelValue>)
    : (Outcome<ModelValue>, nat)
    requires |values| <= Arity(e)
    decreases e, Arity(e) - |values|
  {
    match StepOf(env, e, values)
    case Finish(result) => (result.Lift(), used)
    case Operand(operand) =>
      var (r, after) := Run(env, operand, depth + 1, used, maxDepth);
      if r.Failure? then (r, after) else RunFrom(env, e, depth, after, maxDepth, values + [r.value])
  }

  /** Within the budget the evaluation answers as without one; beyond it, it reports the budget. */
  predicate Refines(
      r: (Outcome<ModelValue>, nat), meaning: Checked<ModelValue>, visits: nat, fits: bool, used: nat) {
    if fits then r == (meaning.Lift(), used + visits) else r.0.OverBudget()
  }

  /** The budgeted evaluation is the unbounded one exactly when at most 512 nodes are visited and none
      deeper than the limit; otherwise, and only then, it reports a budget error. */
  lemma {:induction false} RunRefinesMeaningIff(env: Env, e: Expr, depth: nat, used: nat, maxDepth: nat)
    requires used <= MAX_RULE_INSTRUCTIONS
    ensures var fits := used + Visits(env, e) <= MAX_RULE_INSTRUCTIONS && depth + Reach(env, e) <= DepthLimit(maxDepth);
            Refines(Run(env, e, depth, used, maxDepth), Meaning(env, e), Visits(env, e), fits, used)
    decreases e, Arity(e) + 1
  {
    hide StepOf, DepthLimit;
    if used < MAX_RULE_INSTRUCTIONS && depth <= DepthLimit(maxDepth) {
      RunFromRefines(env, e, depth, used + 1, maxDepth, []);
    }
  }

  lemma {:induction false} RunFromRefines(
      env: Env, e: Expr, depth: nat, used: nat, maxDepth: nat, values: seq<ModelValue>)
    requires used <= MAX_RULE_INSTRUCTIONS && |values| <= Arity(e) && depth <= DepthLimit(maxDepth)
    ensures var fits := && used + VisitsFrom(env, e, values) <= MAX_RULE_INSTRUCTIONS
                        && depth + ReachFrom(env, e, values) <= DepthLimit(maxDepth);
            Refines(
              RunFrom(env, e, depth, used, maxDepth, values), MeaningFrom(env, e, values),
              VisitsFrom(env, e, values), fits, used)
    decreases e, Arity(e) - |values|
  {
    hide StepOf, DepthLimit;
    var next := StepOf(env, e, values);
    if next.Operand? {
      RunRefinesMeaningIff(env, next.e, depth + 1, used, maxDepth);
      var meaning := Meaning(env, next.e);
      if used + Visits(env, next.e) <= MAX_RULE_INSTRUCTIONS && meaning.Fine? {
        RunFromRefines(env, e, depth, used + Visits(env, next.e), maxDepth, values + [meaning.value]);
      }
    }
  }

  // ---------------------------------------------------------------------------------------------
  // A static bound
  // ---------------------------------------------------------------------------------------------

  function Nodes(e: Expr): nat
    decreases e
  {
    match e
    case Not(operand) => 1 + Nodes(operand)
    case Binary(_, left, right) => 1 + Nodes(left) + Nodes(right)
    case Conditional(condition, whenTrue, whenFalse) => 1 + Nodes(condition) + Nodes(whenTrue) + Nodes(whenFalse)
    case Call(_, args) => 1 + NodesOf(e, args)
    case _ => 1
  }

  /** The nodes of arguments that are all smaller than `e`. */
  function NodesOf(e: Expr, args: seq<Expr>): nat
    requires forall k | 0 <= k < |args| :: args[k] < e
    decreases e, |args|
  {
    if args == [] then 0 else Nodes(args[0]) + NodesOf(e, args[1..])
  }

  /** The nodes below `e` that its evaluation may still visit. */
  function Unvisited(e: Expr, values: seq<ModelValue>): nat
    requires |values| <= Arity(e)
  {
    match e
    case Not(operand) => if values == [] then Nodes(operand) else 0
    case Binary(_, left, right) =>
      if values == [] then Nodes(left) + Nodes(right) else if |values| == 1 then Nodes(right) else 0
    case Conditional(condition, whenTrue, whenFalse) =>
      if values == [] then Nodes(condition) + Nodes(whenTrue) + Nodes(whenFalse)
      else if |values| == 1 then Nodes(whenTrue) + Nodes(whenFalse)
      else 0
    case Call(_, args) => NodesOf(e, args[|values|..])
    case _ => 0
  }

  lemma OperandIsUnvisited(env: Env, e: Expr, values: seq<ModelValue>, v: ModelValue)
    requires |values| <= Arity(e) && StepOf(env, e, values).Operand?
    ensures Nodes(StepOf(env, e, values).e) + Unvisited(e, values + [v]) <= Unvisited(e, values)
  {
    hide CallStep, Operate, BoolOf, ExpectBool;
    if e.Call? {
      assert e.args[|values|..][1..] == e.args[|values| + 1..];
    }
  }

  /** No node is visited twice. */
  lemma {:induction false} VisitsAtMostNodes(env: Env, e: Expr)
    ensures Visits(env, e) <= Nodes(e)
    decreases e, Arity(e) + 1
  {
    hide StepOf;
    VisitsAtMostUnvisited(env, e, []);
    if e.Call? {
      assert e.args[0..] == e.args;
    }
  }

  lemma {:induction false} VisitsAtMostUnvisited(env: Env, e: Expr, values: seq<ModelValue>)
    requires |values| <= Arity(e)
    ensures VisitsFrom(env, e, values) <= Unvisited(e, values)
    decreases e, Arity(e) - |values|
  {
    hide StepOf, Unvisited, Nodes;
    var next := StepOf(env, e, values);
    if next.Operand? {
      VisitsAtMostNodes(env, next.e);
      var meaning := Meaning(env, next.e);
      OperandIsUnvisited(env, e, values, if meaning.Fine? then meaning.value else NullValue);
      if meaning.Fine? {
        VisitsAtMostUnvisited(env, e, values + [meaning.value]);
      }
    }
  }

  function Height(e: Expr): nat
    decreases e
  {
    match e
    case Not(operand) => 1 + Height(operand)
    case Binary(_, left, right) => 1 + Max(Height(left), Height(right))
    case Conditional(condition, whenTrue, whenFalse) =>
      1 + Max(Height(condition), Max(Height(whenTrue), Height(whenFalse)))
    case Call(_, args) => HeightOf(e, args)
    case _ => 0
  }

  function HeightOf(e: Expr, args: seq<Expr>): nat
    requires forall k | 0 <= k < |args| :: args[k] < e
    decreases e, |args|
  {
    if args == [] then 0 else Max(1 + Height(args[0]), HeightOf(e, args[1..]))
  }

  lemma {:induction false} ArgumentHeight(e: Expr, args: seq<Expr>, k: nat)
    requires k < |args| && forall i | 0 <= i < |args| :: args[i] < e
    ensures 1 + Height(args[k]) <= HeightOf(e, args)
    decreases |args|
  {
    if k > 0 {
      ArgumentHeight(e, args[1..], k - 1);
    }
  }

  lemma OperandIsLower(env: Env, e: Expr, values: seq<ModelValue>)
    requires |values| <= Arity(e) && StepOf(env, e, values).Operand?
    ensures 1 + Height(StepOf(env, e, values).e) <= Height(e)
  {
    if e.Call? {
      ArgumentHeight(e, e.args, |values|);
    }
  }

  lemma {:induction false} ReachAtMostHeight(env: Env, e: Expr)
    ensures Reach(env, e) <= Height(e)
    decreases e, Arity(e) + 1
  {
    hide StepOf, Height;
    ReachFromAtMostHeight(env, e, []);
  }

  lemma {:induction false} ReachFromAtMostHeight(env: Env, e: Expr, values: seq<ModelValue>)
    requires |values| <= Arity(e)
    ensures ReachFrom(env, e, values) <= Height(e)
    decreases e, Arity(e) - |values|
  {
    hide StepOf, Height;
    var next := StepOf(env, e, values);
    if next.Operand? {
      ReachAtMostHeight(env, next.e);
      OperandIsLower(env, e, values);
      if Meaning(env, next.e).Fine? {
        ReachFromAtMostHeight(env, e, values + [Meaning(env, next.e).value]);
      }
    }
  }

  /** A rule of at most 512 nodes, no deeper than the limit, never exceeds the budget. */
  lemma SmallRulesStayWithinBudget(env: Env, e: Expr, maxDepth: nat)
    requires Nodes(e) <= MAX_RULE_INSTRUCTIONS && Height(e) <= DepthLimit(maxDepth)
    ensures Run(env, e, 0, 0, maxDepth) == (Meaning(env, e).Lift(), Visits(env, e))
  {
    hide Run, Meaning, Visits, Reach, DepthLimit;
    RunRefinesMeaningIff(env, e, 0, 0, maxDepth);
    VisitsAtMostNodes(env, e);
    ReachAtMostHeight(env, e);
  }

  // ---------------------------------------------------------------------------------------------
  // Filters and splitting
  // ---------------------------------------------------------------------------------------------

  /** The filter that keeps what this one drops. */
  function Opposite(filter: Builtin): (r: Builtin)
    requires IsFilter(filter)
    ensures IsFilter(r) && r != filter
  {
    match filter
    case FilterEquals => FilterNotEquals
    case FilterNotEquals => FilterEquals
    case FilterMatches => FilterNotMatches
    case _ => FilterMatches
  }

  /** Every item is a string, and the filter has an answer for it. */
  predicate Answered(env: Env, filter: Builtin, predicates: seq<string>, items: seq<ModelValue>)
    requires IsFilter(filter)
  {
    forall k | 0 <= k < |items| :: items[k].StringValue? && Keeps(env, filter, predicates, items[k].text).Fine?
  }

  /** Only something other than a string stops a filter by equality. */
  lemma EqualityAnswers(env: Env, filter: Builtin, predicates: seq<string>, items: seq<ModelValue>)
    requires filter == FilterEquals || filter == FilterNotEquals
    ensures Answered(env, filter, predicates, items) <==> AllStrings(items)
  {
  }

  /** A filter and its opposite fail alike, exactly where an item has no answer, and otherwise share out
      the items of a list between them. */
  lemma {:induction false} FiltersPartition(
      env: Env, filter: Builtin, predicates: seq<string>, items: seq<ModelValue>,
      kept: seq<ModelValue>, dropped: seq<ModelValue>)
    requires IsFilter(filter)
    ensures var a := FilterItems(env, filter, predicates, items, kept);
            var b := FilterItems(env, Opposite(filter), predicates, items, dropped);
            && (a.Fine? <==> Answered(env, filter, predicates, items))
            && (b.Fine? <==> Answered(env, filter, predicates, items))
            && (a.Wrong? ==> b == Wrong(a.fault))
            && (filter == FilterEquals || filter == FilterNotEquals ==> (a.Fine? <==> AllStrings(items)))
            && (a.Fine? ==> multiset(a.value) + multiset(b.value) == multiset(kept) + multiset(dropped) + multiset(items))
    decreases items
  {
    hide AllStrings;
    if filter == FilterEquals || filter == FilterNotEquals {
      EqualityAnswers(env, filter, predicates, items);
    }
    if items != [] && items[0].StringValue? {
      assert items == [items[0]] + items[1..];
      var keep := Keeps(env, filter, predicates, items[0].text);
      OppositeNegates(env, filter, predicates, items[0].text);
      hide Keeps, Opposite;
      if keep.Fine? {
        var more := if keep.value then kept + [items[0]] else kept;
        var others := if keep.value then dropped else dropped + [items[0]];
        FiltersPartition(env, filter, predicates, items[1..], more, others);
        AnsweredStep(env, filter, predicates, items);
      }
    }
  }

  lemma OppositeNegates(env: Env, filter: Builtin, predicates: seq<string>, text: string)
    requires IsFilter(filter)
    ensures var kept := Keeps(env, filter, predicates, text);
            Keeps(env, Opposite(filter), predicates, text) ==
            if kept.Fine? then Fine(!kept.value) else Wrong(kept.fault)
  {
  }

  lemma AnsweredStep(env: Env, filter: Builtin, predicates: seq<string>, items: seq<ModelValue>)
    requires IsFilter(filter) && items != []
    requires items[0].StringValue? && Keeps(env, filter, predicates, items[0].text).Fine?
    ensures Answered(env, filter, predicates, items) <==> Answered(env, filter, predicates, items[1..])
  {
    hide Keeps;
    if Answered(env, filter, predicates, items[1..]) {
      forall k | 0 < k < |items|
        ensures items[k].StringValue? && Keeps(env, filter, predicates, items[k].text).Fine?
      {
        assert items[k] == items[1..][k - 1];
      }
    }
  }

  function Join(parts: seq<string>, separator: string): string {
    if parts == [] then ""
    else if |parts| == 1 then parts[0]
    else parts[0] + separator + Join(parts[1..], separator)
  }

  lemma OneLater(s: string, i: nat, token: string)
    requires 0 < i && i + |token| <= |s|
    requires s[1..] == s[1..][..i - 1] + token + s[1..][i - 1 + |token|..]
    ensures s == s[..i] + token + s[i + |token|..]
  {
    var t := s[1..];
    assert s == [s[0]] + t;
    assert s[..i] == [s[0]] + t[..i - 1] && s[i + |token|..] == t[i - 1 + |token|..];
  }

  lemma {:induction false} FoundThere(s: string, token: string)
    requires RuleParsing.FindText(s, token).Some?
    ensures var i := RuleParsing.FindText(s, token).value;
            s == s[..i] + token + s[i + |token|..]
  {
    var i := RuleParsing.FindText(s, token).value;
    if RuleParsing.At(s, token) {
      assert s[..|token|] == token && s == token + s[|token|..];
    } else {
      FoundThere(s[1..], token);
      OneLater(s, i, token);
    }
  }

  /** The parts of a split string, joined again, are the string. */
  lemma {:induction false} JoinUndoesSplit(s: string, separator: string)
    requires separator != ""
    ensures Join(RuleParsing.SplitText(s, separator), separator) == s
    decreases |s|
  {
    var i := RuleParsing.FindText(s, separator);
    if i.Some? {
      var tail := s[i.value + |separator|..];
      FoundThere(s, separator);
      JoinUndoesSplit(tail, separator);
      var parts := RuleParsing.SplitText(s, separator);
      assert parts[1..] == RuleParsing.SplitText(tail, separator);
    }
  }

  // ---------------------------------------------------------------------------------------------
  // Bytes and characters
  // ---------------------------------------------------------------------------------------------

  lemma {:induction false} ByteLengthJoins(a: string, b: string)
    ensures ByteLength(a + b) == ByteLength(a) + ByteLength(b)
  {
    if a == "" {
      assert a + b == b;
    } else {
      assert (a + b)[0] == a[0] && (a + b)[1..] == a[1..] + b;
      ByteLengthJoins(a[1..], b);
    }
  }

  /** From behind some text on there is the rest. */
  lemma {:induction false} FromByteBehind(a: string, b: string)
    ensures FromByte(a + b, ByteLength(a)) == Some(b)
  {
    if a == "" {
      assert a + b == b;
    } else {
      assert (a + b)[0] == a[0] && (a + b)[1..] == a[1..] + b;
      FromByteBehind(a[1..], b);
    }
  }

  /** A text can be cut at a byte exactly when a character begins there or the text ends there. */
  lemma {:induction false} CutsAtCharactersIff(s: string, n: nat)
    ensures FromByte(s, n).Some? <==> exists i: nat | i <= |s| :: ByteLength(s[..i]) == n
    decreases s
  {
    if FromByte(s, n).Some? {
      var i := CutAt(s, n);
      assert ByteLength(s[..i]) == n;
    }
    if i: nat :| i <= |s| && ByteLength(s[..i]) == n {
      assert s[..i] + s[i..] == s;
      FromByteBehind(s[..i], s[i..]);
    }
  }

  lemma {:induction false} CutAt(s: string, n: nat) returns (i: nat)
    requires FromByte(s, n).Some?
    ensures i <= |s| && ByteLength(s[..i]) == n && FromByte(s, n) == Some(s[i..])
    decreases s
  {
    if n == 0 {
      i := 0;
    } else {
      i := CutAt(s[1..], n - Width(s[0]));
      assert s[..i + 1][1..] == s[1..][..i];
      i := i + 1;
    }
  }

  /** `slice` of a string at what `indexOf` returns is its end from the needle on; between them they have the
      size of the whole. */
  lemma SliceAtIndexOf(a: string, b: string)
    requires RuleParsing.FindText(a, b).Some? && ByteLength(a) <= RuleParsing.MAX_PROFILE_STRING_BYTES
    ensures var i := IndexOfValue(StringValue(a), StringValue(b));
            && i.Fine? && i.value >= 0
            && var tail := SliceValue(StringValue(a), i.value);
               && tail.Fine? && tail.value.StringValue? && b <= tail.value.text
               && i.value + ByteLength(tail.value.text) == ByteLength(a)
  {
    var k := RuleParsing.FindText(a, b).value;
    FoundThere(a, b);
    assert a[..k] + a[k..] == a;
    assert a[k..] == b + a[k + |b|..] by {
      assert a == a[..k] + (b + a[k + |b|..]);
    }
    ByteLengthJoins(a[..k], a[k..]);
    FromByteBehind(a[..k], a[k..]);
  }
}
