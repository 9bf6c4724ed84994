/** What a rule expression means, told clause by clause of the expression, with nothing of the way it is
    evaluated. */
module RuleMeaning {
  import opened Bytes
  import opened Rules
  import opened Evaluation
  import opened StandardTables
  import Bits
  import RuleParsing
  import RuleEvaluation

  // ---------------------------------------------------------------------------------------------
  // Numbers
  // ---------------------------------------------------------------------------------------------

  /** 2^-52, the distance of 1 from the next 64-bit float. */
  const TINY: real := 0.0000000000000002220446049250313080847263336181640625

  predicate Close(x: real, y: real) {
    -TINY < x - y < TINY
  }

  predicate Same(a: ModelValue, b: ModelValue) {
    match (a, b)
    case (NumberValue(x), NumberValue(y)) => Close(x, y)
    case _ => a == b
  }

  /** The next integer towards zero. */
  function Whole(x: real): int {
    if x >= 0.0 || x.Floor as real == x then x.Floor else x.Floor + 1
  }

  /** A number within 32 bits is taken for an integer when it is at most 2^-52 further from zero. */
  function Integral(v: ModelValue): Checked<int> {
    if !v.NumberValue? then Wrong(TypeMismatch)
    else
      var x := v.number;
      if -TINY <= x - Whole(x) as real <= TINY && -2147483648.0 <= x <= 2147483647.0 then Fine(Whole(x))
      else Wrong(TypeMismatch)
  }

  /** An integer result, within 32 bits. */
  function Int32(n: int): Checked<ModelValue> {
    if -2147483648 <= n <= 2147483647 then Fine(NumberValue(n as real)) else Wrong(SizeBudget)
  }

  function Count(n: nat): Checked<ModelValue> {
    if n <= 4294967295 then Fine(NumberValue(n as real)) else Wrong(SizeBudget)
  }

  function Truth(v: Checked<ModelValue>): Checked<bool> {
    match v
    case Fine(BoolValue(flag)) => Fine(flag)
    case Fine(_) => Wrong(TypeMismatch)
    case Wrong(fault) => Wrong(fault)
  }

  function Said(b: Checked<bool>): Checked<ModelValue> {
    if b.Fine? then Fine(BoolValue(b.value)) else Wrong(b.fault)
  }

  // ---------------------------------------------------------------------------------------------
  // Texts and lists
  // ---------------------------------------------------------------------------------------------

  /** The UTF-8 form of a character. */
  function Encoded(c: char): seq<byte> {
    var n := c as int;
    if n < 128 then [n]
    else if n < 2048 then [192 + n / 64, 128 + n % 64]
    else if n < 65536 then [224 + n / 4096, 128 + n / 64 % 64, 128 + n % 64]
    else [240 + n / 262144, 128 + n / 4096 % 64, 128 + n / 64 % 64, 128 + n % 64]
  }

  function Utf8(s: string): seq<byte> {
    if s == "" then [] else Encoded(s[0]) + Utf8(s[1..])
  }

  /** The text behind `n` bytes; nothing when a character is cut in two or the text is shorter. */
  ghost function Behind(s: string, n: nat): string {
    if i: nat :| i <= |s| && |Utf8(s[..i])| == n then s[i..] else ""
  }

  predicate OccursIn(s: string, needle: string, i: nat) {
    i + |needle| <= |s| && s[i..i + |needle|] == needle
  }

  /** The first place of a needle. */
  ghost function Place(s: string, needle: string): (r: Option<nat>)
    ensures r.Some? ==> r.value + |needle| <= |s|
  {
    if i: nat :| OccursIn(s, needle, i) && forall k: nat | k < i :: !OccursIn(s, needle, k) then Some(i) else None
  }

  /** The text between the separators, taken from the left. */
  ghost function Parts(s: string, separator: string): seq<string>
    requires separator != ""
    decreases |s|
  {
    match Place(s, separator)
    case None => [s]
    case Some(i) => [s[..i]] + Parts(s[i + |separator|..], separator)
  }

  /** The position of the first item that passes, or -1. */
  ghost function First(items: seq<ModelValue>, passes: ModelValue -> bool): int {
    if i: nat :| i < |items| && passes(items[i]) && forall k | 0 <= k < i :: !passes(items[k]) then i else -1
  }

  ghost function SizeIn(v: ModelValue): Checked<nat> {
    match v
    case StringValue(text) => Fine(|Utf8(text)|)
    case ListValue(items) => Fine(|items|)
    case _ => Wrong(TypeMismatch)
  }

  predicate Short(text: string) {
    |Utf8(text)| <= 4096
  }

  /** At most `cap` short parts; of the two limits the one that is passed first is reported. */
  ghost function SplitSense(text: string, separator: string, cap: nat): Checked<ModelValue> {
    if separator == "" then Wrong(TypeMismatch)
    else
      var parts := Parts(text, separator);
      if exists k | 0 <= k < |parts| && k < cap :: !Short(parts[k]) then Wrong(TextTooLong)
      else if |parts| > cap then Wrong(SizeBudget)
      else Fine(ListValue(seq(|parts|, i requires 0 <= i < |parts| => StringValue(parts[i]))))
  }

  /** Whether a filter by words keeps a text. */
  function Chosen(env: Env, filter: Builtin, words: seq<string>, text: string): Checked<bool>
    requires IsFilter(filter)
  {
    match filter
    case FilterEquals => Fine(exists k | 0 <= k < |words| :: words[k] == text)
    case FilterNotEquals => Fine(forall k | 0 <= k < |words| :: words[k] != text)
    case _ =>
      if |words| == 0 then Wrong(TypeMismatch)
      else
        match env.regexMatches(words[0], text)
        case Fine(hit) => Fine(hit == (filter == FilterMatches))
        case Wrong(fault) => Wrong(fault)
  }

  function FilterSense(env: Env, filter: Builtin, words: seq<string>, items: seq<ModelValue>): Checked<seq<ModelValue>>
    requires IsFilter(filter)
  {
    if items == [] then Fine([])
    else if !items[0].StringValue? then Wrong(TypeMismatch)
    else
      var chosen :- Chosen(env, filter, words, items[0].text);
      var others :- FilterSense(env, filter, words, items[1..]);
      Fine(if chosen then [items[0]] + others else others)
  }

  // ---------------------------------------------------------------------------------------------
  // Operators and built-ins on values
  // ---------------------------------------------------------------------------------------------

  function Compare(op: BinaryOp, x: real, y: real): bool
    requires op in {Le, Ge, Lt, Gt}
  {
    match op
    case Lt => x < y
    case Gt => y < x
    case Le => !(y < x)
    case _ => !(x < y)
  }

  /** What is left of a number when another has been taken from it as often as it goes, towards zero. */
  function Leftover(x: real, y: real): real
    requires y != 0.0
  {
    x - y * (Whole(x / y) as real)
  }

  /** Arithmetic on numbers; dividing by what is close to zero is refused. */
  function Arithmetic(op: BinaryOp, x: real, y: real): Checked<ModelValue>
    requires op in {Add, Sub, Mul, Div, Rem}
  {
    match op
    case Add => Fine(NumberValue(x + y))
    case Sub => Fine(NumberValue(x - y))
    case Mul => Fine(NumberValue(x * y))
    case _ =>
      if Close(y, 0.0) then Wrong(TypeMismatch)
      else if op == Div then Fine(NumberValue(x / y))
      else Fine(NumberValue(Leftover(x, y)))
  }

  /** An operator that needs both its operands. */
  function OperatorSense(op: BinaryOp, a: ModelValue, b: ModelValue): Checked<ModelValue>
    requires op != And && op != Or
  {
    match op
    case Eq => Fine(BoolValue(Same(a, b)))
    case Ne => Fine(BoolValue(!Same(a, b)))
    case BitAnd =>
      var m :- Integral(a);
      var n :- Integral(b);
      Int32(Evaluation.BitAnd(m, n))
    case Shr =>
      var n :- Integral(b);
      var m :- Integral(a);
      if 0 <= n <= 63 then Int32(m / Bits.Pow2(n)) else Wrong(TypeMismatch)
    case Lt | Gt | Le | Ge =>
      if !a.NumberValue? || !b.NumberValue? then Wrong(TypeMismatch)
      else Fine(BoolValue(Compare(op, a.number, b.number)))
    case Add | Sub | Mul | Div | Rem =>
      if !a.NumberValue? || !b.NumberValue? then Wrong(TypeMismatch)
      else Arithmetic(op, a.number, b.number)
  }

  ghost function OneSense(env: Env, builtin: Builtin, v: ModelValue): Checked<ModelValue>
    requires builtin in {HasParseFact, Builtin.Size, IsEmpty, Builtin.Abs}
  {
    match builtin
    case HasParseFact => if v.StringValue? then Fine(BoolValue(env.hasParseFact(v.text))) else Wrong(TypeMismatch)
    case Size =>
      var n :- SizeIn(v);
      Count(n)
    case IsEmpty =>
      if v.StringValue? then Fine(BoolValue(v.text == ""))
      else if v.ListValue? then Fine(BoolValue(v.items == []))
      else Wrong(TypeMismatch)
    case _ =>
      if !v.NumberValue? then Wrong(TypeMismatch)
      else Fine(NumberValue(if v.number >= 0.0 then v.number else 0.0 - v.number))
  }

  ghost function TwoSense(env: Env, builtin: Builtin, a: ModelValue, b: ModelValue): Checked<ModelValue>
    requires builtin in {Contains, Slice, IndexOf, Matches, Search, Split}
  {
    match builtin
    case Contains =>
      if a.StringValue? && b.StringValue? then Fine(BoolValue(exists i: nat :: OccursIn(a.text, b.text, i)))
      else if a.ListValue? then Fine(BoolValue(exists item | item in a.items :: Same(item, b)))
      else Wrong(TypeMismatch)
    case IndexOf =>
      if a.StringValue? && b.StringValue? then
        match Place(a.text, b.text)
        case None => Int32(-1)
        case Some(i) => Int32(|Utf8(a.text[..i])|)
      else if a.ListValue? then Int32(First(a.items, (v: ModelValue) => Same(v, b)))
      else Wrong(TypeMismatch)
    case Slice =>
      var n :- Integral(b);
      if n < 0 then Wrong(TypeMismatch)
      else if a.ListValue? then Fine(ListValue(if n < |a.items| then a.items[n..] else []))
      else if !a.StringValue? then Wrong(TypeMismatch)
      else if Short(Behind(a.text, n)) then Fine(StringValue(Behind(a.text, n)))
      else Wrong(TextTooLong)
    case Matches | Search | Split =>
      if !a.StringValue? || !b.StringValue? then Wrong(TypeMismatch)
      else if builtin == Matches then Said(env.regexMatches(a.text, b.text))
      else if builtin == Split then SplitSense(a.text, b.text, env.maxArrayLen)
      else
        match env.regexFind(b.text, a.text)
        case Fine(n) => Int32(n)
        case Wrong(fault) => Wrong(fault)
  }

  /** A filter of a list by words, and where the first of the words is in a list. */
  ghost function ManySense(env: Env, builtin: Builtin, list: ModelValue, words: seq<string>): Checked<ModelValue>
    requires IsFilter(builtin) || builtin == FindIndexEquals
  {
    if !list.ListValue? then Wrong(TypeMismatch)
    else if builtin == FindIndexEquals then
      Int32(First(list.items, (v: ModelValue) => v.StringValue? && exists k | 0 <= k < |words| :: words[k] == v.text))
    else
      var kept :- FilterSense(env, builtin, words, list.items);
      Fine(ListValue(kept))
  }

  // ---------------------------------------------------------------------------------------------
  // Expressions
  // ---------------------------------------------------------------------------------------------

  /** What an expression means for an object. Only what is needed is looked at: the second operand of `&&`
      and `||`, the arguments of `all` and `exists` and the branches of a conditional may be left alone. */
  ghost function Sense(env: Env, e: Expr): Checked<ModelValue>
    decreases e, 1
  {
    match e
    case BoolLit(flag) => Fine(BoolValue(flag))
    case NumberLit(digits) => Fine(NumberValue(env.literal(digits)))
    case StringLit(text) => Fine(StringValue(text))
    case NullLit => Fine(NullValue)
    case Property(path) => if |path| == 0 then Wrong(UnknownProperty) else env.property(path)
    case Not(operand) =>
      var flag :- Truth(Sense(env, operand));
      Fine(BoolValue(!flag))
    case Binary(And, left, right) =>
      var flag :- Truth(Sense(env, left));
      if flag then Said(Truth(Sense(env, right))) else Fine(BoolValue(false))
    case Binary(Or, left, right) =>
      var flag :- Truth(Sense(env, left));
      if flag then Fine(BoolValue(true)) else Said(Truth(Sense(env, right)))
    case Binary(op, left, right) =>
      var a :- Sense(env, left);
      var b :- Sense(env, right);
      OperatorSense(op, a, b)
    case Conditional(condition, whenTrue, whenFalse) =>
      var flag :- Truth(Sense(env, condition));
      if flag then Sense(env, whenTrue) else Sense(env, whenFalse)
    case Call(builtin, args) => CallSense(env, e)
  }

  ghost function CallSense(env: Env, e: Expr): Checked<ModelValue>
    requires e.Call?
    decreases e, 0
  {
    match e.builtin
    case All => AllSense(env, e, e.args)
    case Exists => ExistsSense(env, e, e.args)
    case HasParseFact | Size | IsEmpty | Abs =>
      if |e.args| != 1 then Wrong(TypeMismatch)
      else
        var v :- Sense(env, e.args[0]);
        OneSense(env, e.builtin, v)
    case Contains | Slice | IndexOf | Matches | Search | Split =>
      if |e.args| != 2 then Wrong(TypeMismatch)
      else
        var a :- Sense(env, e.args[0]);
        var b :- Sense(env, e.args[1]);
        TwoSense(env, e.builtin, a, b)
    case _ =>
      if |e.args| == 0 then Wrong(TypeMismatch)
      else
        var list :- Sense(env, e.args[0]);
        var words :- WordsSense(env, e, e.args[1..]);
        ManySense(env, e.builtin, list, words)
  }

  /** True unless one of the arguments is false. */
  ghost function AllSense(env: Env, e: Expr, args: seq<Expr>): Checked<ModelValue>
    requires forall k | 0 <= k < |args| :: args[k] < e
    decreases e, 0, |args|
  {
    if args == [] then Fine(BoolValue(true))
    else
      var flag :- Truth(Sense(env, args[0]));
      if flag then AllSense(env, e, args[1..]) else Fine(BoolValue(false))
  }

  /** False unless one of the arguments is true. */
  ghost function ExistsSense(env: Env, e: Expr, args: seq<Expr>): Checked<ModelValue>
    requires forall k | 0 <= k < |args| :: args[k] < e
    decreases e, 0, |args|
  {
    if args == [] then Fine(BoolValue(false))
    else
      var flag :- Truth(Sense(env, args[0]));
      if flag then Fine(BoolValue(true)) else ExistsSense(env, e, args[1..])
  }

  /** Arguments that must be strings. */
  ghost function WordsSense(env: Env, e: Expr, args: seq<Expr>): Checked<seq<string>>
    requires forall k | 0 <= k < |args| :: args[k] < e
    decreases e, 0, |args|
  {
    if args == [] then Fine([])
    else
      var v :- Sense(env, args[0]);
      if !v.StringValue? then Wrong(TypeMismatch)
      else
        var others :- WordsSense(env, e, args[1..]);
        Fine([v.text] + others)
  }

  // ---------------------------------------------------------------------------------------------
  // The operators compute what they mean
  // ---------------------------------------------------------------------------------------------

  lemma WholeIsTrunc(x: real)
    ensures Trunc(x) == Whole(x)
  {
  }

  lemma IntegralIs(v: ModelValue)
    ensures ExpectIntegral(v) == Integral(v)
  {
    if v.NumberValue? {
      WholeIsTrunc(v.number);
    }
  }

  lemma SameIs(a: ModelValue, b: ModelValue)
    ensures ValuesEqual(a, b) == Same(a, b)
  {
  }

  lemma RemainderMeans(x: real, y: real)
    requires y != 0.0
    ensures Remainder(x, y) == Leftover(x, y)
  {
    WholeIsTrunc(x / y);
    hide Trunc, Whole;
  }

  lemma NumbersMean(op: BinaryOp, x: real, y: real)
    requires op in {Le, Ge, Lt, Gt, Add, Sub, Mul, Div, Rem}
    ensures OnNumbers(op, x, y) ==
            if op in {Le, Ge, Lt, Gt} then Fine(BoolValue(Compare(op, x, y))) else Arithmetic(op, x, y)
  {
    hide Remainder, Leftover;
    if op == Rem && !Close(y, 0.0) {
      RemainderMeans(x, y);
    }
  }

  lemma OperatorMeans(env: Env, op: BinaryOp, a: ModelValue, b: ModelValue)
    requires op != And && op != Or
    ensures Operate(env, op, a, b) == OperatorSense(op, a, b)
  {
    SameIs(a, b);
    IntegralIs(a);
    IntegralIs(b);
    if a.NumberValue? && b.NumberValue? && op != Eq && op != Ne && op != BitAnd && op != Shr {
      NumbersMean(op, a.number, b.number);
    }
    hide OnNumbers, Arithmetic, Compare, ValuesEqual, Same, ExpectIntegral, Integral;
  }

  lemma {:induction false} HalfBits(a: int, b: int, k: nat)
    requires k > 0
    ensures BitOf(2 * a + b % 2, k) == BitOf(a, k - 1) && BitOf(2 * a + b % 2, 0) == b % 2
  {
  }

  lemma {:induction false} BitOfConstants(k: nat)
    ensures BitOf(0, k) == 0 && BitOf(-1, k) == 1
    decreases k
  {
    if k > 0 {
      BitOfConstants(k - 1);
    }
  }

  /** Each bit of `a & b`, the sign among them, is the product of the bits. */
  lemma {:induction false} BitAndIsBitwise(a: int, b: int, k: nat)
    ensures BitOf(Evaluation.BitAnd(a, b), k) == BitOf(a, k) * BitOf(b, k)
    decreases k
  {
    BitOfConstants(k);
    if a != 0 && b != 0 && a != -1 {
      var low := a % 2 * (b % 2);
      assert low % 2 == low;
      assert Evaluation.BitAnd(a, b) == 2 * Evaluation.BitAnd(a / 2, b / 2) + low % 2;
      if k > 0 {
        BitAndIsBitwise(a / 2, b / 2, k - 1);
        HalfBits(Evaluation.BitAnd(a / 2, b / 2), low, k);
      }
    }
  }

  // ---------------------------------------------------------------------------------------------
  // The text functions compute what they mean
  // ---------------------------------------------------------------------------------------------

  lemma {:induction false} Utf8Length(s: string)
    ensures |Utf8(s)| == ByteLength(s)
  {
    if s != "" {
      assert |Encoded(s[0])| == Width(s[0]);
      Utf8Length(s[1..]);
    }
  }

  lemma FromByteIsBehind(s: string, n: nat)
    ensures Behind(s, n) == if FromByte(s, n).Some? then FromByte(s, n).value else ""
  {
    forall i: nat | i <= |s|
      ensures |Utf8(s[..i])| == ByteLength(s[..i])
      ensures ByteLength(s[..i]) == n ==> FromByte(s, n) == Some(s[i..])
    {
      Utf8Length(s[..i]);
      assert s[..i] + s[i..] == s;
      FromByteBehind(s[..i], s[i..]);
    }
    if FromByte(s, n).Some? {
      var i := CutAt(s, n);
      assert |Utf8(s[..i])| == n;
    }
  }

  /** The needle occurs there first, or nowhere. */
  ghost predicate FirstThere(s: string, needle: string, place: Option<nat>) {
    if place.Some? then OccursIn(s, needle, place.value) && forall k: nat | k < place.value :: !OccursIn(s, needle, k)
    else forall k: nat :: !OccursIn(s, needle, k)
  }

  lemma OccursLater(s: string, needle: string, i: nat)
    requires s != "" && i > 0
    ensures OccursIn(s, needle, i) <==> OccursIn(s[1..], needle, i - 1)
  {
    if i + |needle| <= |s| {
      assert s[1..][i - 1..i - 1 + |needle|] == s[i..i + |needle|];
    }
  }

  lemma FirstLater(s: string, needle: string, place: Option<nat>)
    requires s != "" && !OccursIn(s, needle, 0) && FirstThere(s[1..], needle, place)
    ensures FirstThere(s, needle, if place.Some? then Some(place.value + 1) else None)
  {
    hide OccursIn;
    var t := s[1..];
    if place.Some? {
      OccursLater(s, needle, place.value + 1);
    }
    forall k: nat | place.None? || k <= place.value
      ensures !OccursIn(s, needle, k)
    {
      if k > 0 {
        OccursLater(s, needle, k);
        assert !OccursIn(t, needle, k - 1);
      }
    }
  }

  lemma {:induction false} FoundFirst(s: string, needle: string)
    ensures FirstThere(s, needle, RuleParsing.FindText(s, needle))
  {
    assert RuleParsing.At(s, needle) <==> OccursIn(s, needle, 0);
    if !RuleParsing.At(s, needle) && s != "" {
      FoundFirst(s[1..], needle);
      FirstLater(s, needle, RuleParsing.FindText(s[1..], needle));
      hide FirstThere;
    }
  }

  lemma FindTextIsPlace(s: string, needle: string)
    ensures RuleParsing.FindText(s, needle) == Place(s, needle)
  {
    FoundFirst(s, needle);
    hide OccursIn;
  }

  lemma {:induction false} SplitTextIsParts(s: string, separator: string)
    requires separator != ""
    ensures RuleParsing.SplitText(s, separator) == Parts(s, separator)
    decreases |s|
  {
    FindTextIsPlace(s, separator);
    var i := Place(s, separator);
    hide Place;
    if i.Some? {
      SplitTextIsParts(s[i.value + |separator|..], separator);
    }
  }

  /** Joining the parts to `acc` takes one round each. */
  lemma {:induction false} PartsAreTaken(parts: seq<string>, acc: seq<ModelValue>, cap: nat)
    requires |acc| <= cap
    ensures SplitParts(parts, acc, cap) ==
            if exists k | 0 <= k < |parts| && |acc| + k < cap :: !Short(parts[k]) then Wrong(TextTooLong)
            else if |acc| + |parts| > cap then Wrong(SizeBudget)
            else Fine(acc + seq(|parts|, i requires 0 <= i < |parts| => StringValue(parts[i])))
    decreases |parts|
  {
    hide Utf8, ByteLength;
    if parts == [] {
      assert acc + seq(0, i => StringValue("")) == acc;
    } else {
      Utf8Length(parts[0]);
      if |acc| < cap && Short(parts[0]) {
        var rest := parts[1..];
        PartsAreTaken(rest, acc + [StringValue(parts[0])], cap);
        if k :| 0 <= k < |parts| && |acc| + k < cap && !Short(parts[k]) {
          assert rest[k - 1] == parts[k];
        }
        if k :| 0 <= k < |rest| && |acc| + 1 + k < cap && !Short(rest[k]) {
          assert parts[k + 1] == rest[k];
        }
        assert acc + [StringValue(parts[0])] + seq(|rest|, i requires 0 <= i < |rest| => StringValue(rest[i]))
            == acc + seq(|parts|, i requires 0 <= i < |parts| => StringValue(parts[i]));
      }
    }
  }

  lemma SplitMeans(text: string, separator: string, cap: nat)
    ensures ListOf(SplitString(text, separator, cap)) == SplitSense(text, separator, cap)
  {
    if separator != "" {
      SplitTextIsParts(text, separator);
      var parts := Parts(text, separator);
      PartsAreTaken(parts, [], cap);
      hide Parts, SplitParts, Short;
      var all := seq(|parts|, i requires 0 <= i < |parts| => StringValue(parts[i]));
      assert [] + all == all;
    }
  }

  lemma IndexIsFirst(items: seq<ModelValue>, v: ModelValue)
    ensures IndexOrMinusOne(IndexIn(items, v)) == First(items, (x: ModelValue) => Same(x, v))
    ensures IndexIn(items, v).Some? <==> exists item | item in items :: Same(item, v)
  {
    var place := IndexIn(items, v);
    var passes := (x: ModelValue) => Same(x, v);
    forall k | 0 <= k < |items|
      ensures ValuesEqual(items[k], v) == passes(items[k])
    {
      SameIs(items[k], v);
    }
    hide Same, ValuesEqual, IndexIn;
    if place.Some? {
      assert passes(items[place.value]) && items[place.value] in items;
    }
  }

  lemma {:induction false} WordIsFirst(items: seq<ModelValue>, words: seq<string>)
    ensures var place := FindIndexEqualsIn(items, words);
            && (place.Some? ==> items[place.value].StringValue? && items[place.value].text in words)
            && forall k | 0 <= k < (if place.Some? then place.value else |items|) ::
                 !(items[k].StringValue? && items[k].text in words)
  {
    if items != [] && !(items[0].StringValue? && items[0].text in words) {
      WordIsFirst(items[1..], words);
      var place := FindIndexEqualsIn(items, words);
      forall k | 0 <= k < (if place.Some? then place.value else |items|)
        ensures !(items[k].StringValue? && items[k].text in words)
      {
        assert k > 0 ==> items[k] == items[1..][k - 1];
      }
    }
  }

  lemma FindIndexIsFirst(items: seq<ModelValue>, words: seq<string>)
    ensures IndexOrMinusOne(FindIndexEqualsIn(items, words))
         == First(items, (v: ModelValue) => v.StringValue? && exists k | 0 <= k < |words| :: words[k] == v.text)
  {
    WordIsFirst(items, words);
    var passes := (v: ModelValue) => v.StringValue? && exists k | 0 <= k < |words| :: words[k] == v.text;
    forall v: ModelValue
      ensures passes(v) <==> v.StringValue? && v.text in words
    {
    }
    var place := FindIndexEqualsIn(items, words);
    hide FindIndexEqualsIn;
    if place.Some? {
      assert passes(items[place.value]);
    }
  }

  lemma ChosenIsKept(env: Env, filter: Builtin, words: seq<string>, text: string)
    requires IsFilter(filter)
    ensures Keeps(env, filter, words, text) == Chosen(env, filter, words, text)
  {
  }

  lemma {:induction false} FilterMeans(
      env: Env, filter: Builtin, words: seq<string>, items: seq<ModelValue>, acc: seq<ModelValue>)
    requires IsFilter(filter)
    ensures var all := FilterSense(env, filter, words, items);
            FilterItems(env, filter, words, items, acc) == if all.Fine? then Fine(acc + all.value) else all
    decreases items
  {
    if items == [] {
      assert acc + [] == acc;
    } else if items[0].StringValue? {
      ChosenIsKept(env, filter, words, items[0].text);
      var chosen := Chosen(env, filter, words, items[0].text);
      hide Chosen, Keeps;
      if chosen.Fine? {
        FilterMeans(env, filter, words, items[1..], if chosen.value then acc + [items[0]] else acc);
        var others := FilterSense(env, filter, words, items[1..]);
        if others.Fine? {
          assert acc + [items[0]] + others.value == acc + ([items[0]] + others.value);
        }
      }
    }
  }

  // ---------------------------------------------------------------------------------------------
  // The built-ins compute what they mean
  // ---------------------------------------------------------------------------------------------

  lemma OneMeans(env: Env, builtin: Builtin, v: ModelValue)
    requires TakesOne(builtin)
    ensures Apply1(env, builtin, v) == OneSense(env, builtin, v)
  {
    if v.StringValue? {
      Utf8Length(v.text);
      hide Utf8;
      assert ByteLength(v.text) == 0 <==> v.text == "";
    }
  }

  lemma ContainsMeans(env: Env, a: ModelValue, b: ModelValue)
    ensures Apply2(env, Contains, a, b) == TwoSense(env, Contains, a, b)
  {
    if a.StringValue? && b.StringValue? {
      FoundFirst(a.text, b.text);
    } else if a.ListValue? {
      IndexIsFirst(a.items, b);
    }
    hide OccursIn, IndexIn, Same, RuleParsing.FindText, First;
  }

  lemma IndexOfMeans(env: Env, a: ModelValue, b: ModelValue)
    ensures Apply2(env, IndexOf, a, b) == TwoSense(env, IndexOf, a, b)
  {
    if a.StringValue? && b.StringValue? {
      FindTextIsPlace(a.text, b.text);
      var i := Place(a.text, b.text);
      if i.Some? {
        Utf8Length(a.text[..i.value]);
      }
    } else if a.ListValue? {
      IndexIsFirst(a.items, b);
    }
    hide IndexIn, Same, RuleParsing.FindText, First, Place, Utf8, ByteLength;
  }

  lemma SliceMeans(env: Env, a: ModelValue, b: ModelValue)
    ensures Apply2(env, Slice, a, b) == TwoSense(env, Slice, a, b)
  {
    IntegralIs(b);
    var n := Integral(b);
    hide ExpectIntegral, Integral;
    if n.Fine? && n.value >= 0 && a.StringValue? {
      FromByteIsBehind(a.text, n.value);
      Utf8Length(Behind(a.text, n.value));
    }
    hide Utf8, ByteLength, FromByte, Behind;
    if n.Fine? && a.ListValue? && n.value == |a.items| {
      assert a.items[n.value..] == [];
    }
  }

  lemma TwoMeans(env: Env, builtin: Builtin, a: ModelValue, b: ModelValue)
    requires TakesTwo(builtin)
    ensures Apply2(env, builtin, a, b) == TwoSense(env, builtin, a, b)
  {
    if builtin == Contains {
      ContainsMeans(env, a, b);
    } else if builtin == IndexOf {
      IndexOfMeans(env, a, b);
    } else if builtin == Slice {
      SliceMeans(env, a, b);
    } else {
      if a.StringValue? && b.StringValue? {
        SplitMeans(a.text, b.text, env.maxArrayLen);
      }
      hide SplitSense, SplitString;
    }
  }

  lemma ManyMeans(env: Env, builtin: Builtin, values: seq<ModelValue>)
    requires (IsFilter(builtin) || builtin == FindIndexEquals) && values != [] && AllStrings(values[1..])
    ensures ApplyMany(env, builtin, values) == ManySense(env, builtin, values[0], Texts(values[1..]))
  {
    if values[0].ListValue? {
      var words := Texts(values[1..]);
      if builtin == FindIndexEquals {
        FindIndexIsFirst(values[0].items, words);
      } else {
        FilterMeans(env, builtin, words, values[0].items, []);
        var all := FilterSense(env, builtin, words, values[0].items);
        assert all.Fine? ==> [] + all.value == all.value;
      }
    }
    hide First, FilterItems, FilterSense, FindIndexEqualsIn;
  }

  // ---------------------------------------------------------------------------------------------
  // Step by step, an expression comes to what it means
  // ---------------------------------------------------------------------------------------------

  /** The meaning of an operand that is evaluated next, and how it goes on. */
  lemma NextStep(env: Env, e: Expr, values: seq<ModelValue>)
    requires |values| <= Arity(e)
    ensures var next := StepOf(env, e, values);
            MeaningFrom(env, e, values) ==
            if next.Finish? then next.result
            else
              var v := Meaning(env, next.e);
              if v.Wrong? then Wrong(v.fault) else MeaningFrom(env, e, values + [v.value])
  {
  }

  /** The operands of an expression come to what they mean. */
  ghost predicate PartsMean(env: Env, e: Expr) {
    match e
    case Not(operand) => Meaning(env, operand) == Sense(env, operand)
    case Binary(_, left, right) => Meaning(env, left) == Sense(env, left) && Meaning(env, right) == Sense(env, right)
    case Conditional(condition, whenTrue, whenFalse) =>
      && Meaning(env, condition) == Sense(env, condition)
      && Meaning(env, whenTrue) == Sense(env, whenTrue) && Meaning(env, whenFalse) == Sense(env, whenFalse)
    case Call(_, args) => forall k | 0 <= k < |args| :: Meaning(env, args[k]) == Sense(env, args[k])
    case _ => true
  }

  lemma NotMeans(env: Env, e: Expr)
    requires e.Not? && PartsMean(env, e)
    ensures MeaningFrom(env, e, []) == Sense(env, e)
  {
    NextStep(env, e, []);
    var v := Meaning(env, e.operand);
    hide Meaning, MeaningFrom;
    if v.Fine? {
      NextStep(env, e, [] + [v.value]);
    }
  }

  lemma BinaryMeans(env: Env, e: Expr)
    requires e.Binary? && PartsMean(env, e)
    ensures MeaningFrom(env, e, []) == Sense(env, e)
  {
    hide Meaning, MeaningFrom, Operate, OperatorSense;
    NextStep(env, e, []);
    var a := Meaning(env, e.left);
    if a.Fine? {
      NextStep(env, e, [] + [a.value]);
      var b := Meaning(env, e.right);
      if b.Fine? {
        NextStep(env, e, [] + [a.value] + [b.value]);
        if e.op != And && e.op != Or {
          OperatorMeans(env, e.op, a.value, b.value);
        }
      }
    }
  }

  lemma ConditionalMeans(env: Env, e: Expr)
    requires e.Conditional? && PartsMean(env, e)
    ensures MeaningFrom(env, e, []) == Sense(env, e)
  {
    hide Meaning, MeaningFrom;
    NextStep(env, e, []);
    var condition := Meaning(env, e.condition);
    if condition.Fine? {
      NextStep(env, e, [] + [condition.value]);
      if condition.value.BoolValue? {
        var v := Meaning(env, if condition.value.flag then e.whenTrue else e.whenFalse);
        if v.Fine? {
          NextStep(env, e, [] + [condition.value] + [v.value]);
        }
      }
    }
  }

  /** So far no argument has decided. */
  lemma {:induction false} FoldMeans(env: Env, e: Expr, values: seq<ModelValue>)
    requires e.Call? && (e.builtin == All || e.builtin == Exists) && PartsMean(env, e)
    requires |values| <= |e.args| && forall k | 0 <= k < |values| :: values[k] == BoolValue(e.builtin == All)
    ensures MeaningFrom(env, e, values) ==
            if e.builtin == All then AllSense(env, e, e.args[|values|..]) else ExistsSense(env, e, e.args[|values|..])
    decreases |e.args| - |values|
  {
    hide Meaning, MeaningFrom, Sense;
    NextStep(env, e, values);
    if |values| < |e.args| {
      var v := Meaning(env, e.args[|values|]);
      assert e.args[|values|..][1..] == e.args[|values| + 1..];
      if v.Fine? {
        var longer := values + [v.value];
        if v.value == BoolValue(e.builtin == All) {
          FoldMeans(env, e, longer);
        } else {
          NextStep(env, e, longer);
        }
      }
    }
  }

  lemma OneMoreWord(values: seq<ModelValue>, v: ModelValue, others: seq<string>)
    requires values != [] && AllStrings(values[1..]) && v.StringValue?
    ensures AllStrings((values + [v])[1..])
    ensures Texts((values + [v])[1..]) + others == Texts(values[1..]) + ([v.text] + others)
  {
    assert (values + [v])[1..] == values[1..] + [v];
  }

  lemma OneWordNot(values: seq<ModelValue>, v: ModelValue)
    requires values != [] && !v.StringValue?
    ensures !AllStrings((values + [v])[1..])
  {
    assert (values + [v])[1..][|values| - 1] == v;
  }

  /** Behind the collection, only strings so far. */
  lemma {:induction false} WordsMean(env: Env, e: Expr, values: seq<ModelValue>)
    requires e.Call? && (IsFilter(e.builtin) || e.builtin == FindIndexEquals) && PartsMean(env, e)
    requires 0 < |values| <= |e.args| && AllStrings(values[1..])
    ensures var words := WordsSense(env, e, e.args[|values|..]);
            MeaningFrom(env, e, values) ==
            if words.Wrong? then Wrong(words.fault)
            else ManySense(env, e.builtin, values[0], Texts(values[1..]) + words.value)
    decreases |e.args| - |values|
  {
    hide Meaning, MeaningFrom, Sense, ManySense, ApplyMany, Texts, AllStrings;
    NextStep(env, e, values);
    if |values| == |e.args| {
      ManyMeans(env, e.builtin, values);
      assert Texts(values[1..]) + [] == Texts(values[1..]);
    } else {
      var v := Meaning(env, e.args[|values|]);
      assert e.args[|values|..][1..] == e.args[|values| + 1..];
      if v.Fine? && v.value.StringValue? {
        var others := WordsSense(env, e, e.args[|values| + 1..]);
        OneMoreWord(values, v.value, if others.Fine? then others.value else []);
        WordsMean(env, e, values + [v.value]);
      } else if v.Fine? {
        OneWordNot(values, v.value);
        NextStep(env, e, values + [v.value]);
      }
    }
  }

  lemma CallMeans(env: Env, e: Expr)
    requires e.Call? && PartsMean(env, e)
    ensures MeaningFrom(env, e, []) == Sense(env, e)
  {
    hide Meaning, MeaningFrom, Apply1, OneSense, Apply2, TwoSense, ApplyMany, ManySense;
    NextStep(env, e, []);
    if e.builtin == All || e.builtin == Exists {
      FoldMeans(env, e, []);
      assert e.args[0..] == e.args;
    } else if TakesOne(e.builtin) {
      if |e.args| == 1 && Meaning(env, e.args[0]).Fine? {
        var v := Meaning(env, e.args[0]).value;
        NextStep(env, e, [] + [v]);
        OneMeans(env, e.builtin, v);
      }
    } else if TakesTwo(e.builtin) {
      if |e.args| == 2 && Meaning(env, e.args[0]).Fine? {
        var a := Meaning(env, e.args[0]).value;
        NextStep(env, e, [] + [a]);
        if Meaning(env, e.args[1]).Fine? {
          var b := Meaning(env, e.args[1]).value;
          NextStep(env, e, [] + [a] + [b]);
          TwoMeans(env, e.builtin, a, b);
        }
      }
    } else if e.args != [] && Meaning(env, e.args[0]).Fine? {
      var list := Meaning(env, e.args[0]).value;
      WordsMean(env, e, [] + [list]);
      assert Texts([list][1..]) == [];
      var words := WordsSense(env, e, e.args[1..]);
      assert words.Fine? ==> [] + words.value == words.value;
    }
  }

  lemma {:induction false} MeaningIsSense(env: Env, e: Expr)
    ensures Meaning(env, e) == Sense(env, e)
  {
    match e
    case Not(operand) =>
      MeaningIsSense(env, operand);
      NotMeans(env, e);
    case Binary(_, left, right) =>
      MeaningIsSense(env, left);
      MeaningIsSense(env, right);
      BinaryMeans(env, e);
    case Conditional(condition, whenTrue, whenFalse) =>
      MeaningIsSense(env, condition);
      MeaningIsSense(env, whenTrue);
      MeaningIsSense(env, whenFalse);
      ConditionalMeans(env, e);
    case Call(_, args) =>
      forall k | 0 <= k < |args|
        ensures Meaning(env, args[k]) == Sense(env, args[k])
      {
        MeaningIsSense(env, args[k]);
      }
      CallMeans(env, e);
    case _ =>
  }

  /** The verdict of a rule: it passes when its expression means true and fails when it means false. */
  ghost function Verdict(env: Env, test: Expr): Outcome<RuleEvaluation.RuleOutcome> {
    match Truth(Sense(env, test))
    case Fine(true) => Answer(RuleEvaluation.Passed)
    case Fine(false) => Answer(RuleEvaluation.Failed)
    case Wrong(fault) => Failure(Faulted(fault))
  }

  /** What is evaluated under the budget is what the rule means, exactly when at most 512 nodes are visited and
      none deeper than the limit; otherwise a budget error is reported. */
  lemma EvaluationMeansIff(env: Env, test: Expr, maxDepth: nat)
    ensures var r := RuleEvaluation.OutcomeOf(Run(env, test, 0, 0, maxDepth).0);
            if Visits(env, test) <= 512 && Reach(env, test) <= (if maxDepth < 32 then maxDepth else 32) then
              r == Verdict(env, test) && !r.OverBudget()
            else r.OverBudget()
  {
    hide Run, Meaning, Sense, Visits, Reach;
    RunRefinesMeaningIff(env, test, 0, 0, maxDepth);
    MeaningIsSense(env, test);
  }
}
