/** The alphabet, the names and the operators of the rule language, as tables. */
module RuleTables {
  import opened Bytes
  import opened Rules
  import opened RuleParsing

  // ---------------------------------------------------------------------------------------------
  // Characters
  // ---------------------------------------------------------------------------------------------

  const SPACES := " \t\n\r\U{0C}"
  const LOWER := "abcdefghijklmnopqrstuvwxyz"
  const UPPER := "ABCDEFGHIJKLMNOPQRSTUVWXYZ"
  const DIGITS := "0123456789"

  /** The characters of property White_Space of the Unicode Character Database. */
  const WHITE_SPACE: seq<int> := [
    0x09, 0x0A, 0x0B, 0x0C, 0x0D, 0x20, 0x85, 0xA0, 0x1680,
    0x2000, 0x2001, 0x2002, 0x2003, 0x2004, 0x2005, 0x2006, 0x2007, 0x2008, 0x2009, 0x200A,
    0x2028, 0x2029, 0x202F, 0x205F, 0x3000]

  lemma SpaceByTable(c: char)
    ensures IsSpace(c) <==> c in SPACES
  {
  }

  lemma DigitByTable(c: char)
    ensures IsDigit(c) <==> c in DIGITS
  {
    if IsDigit(c) {
      var k := c as int - '0' as int;
      assert DIGITS[k] == c;
    }
  }

  lemma TrimmedByTable(c: char)
    ensures IsTrimmed(c) <==> c as int in WHITE_SPACE
  {
  }

  lemma LowerByTable(c: char)
    ensures 'a' <= c <= 'z' <==> c in LOWER
  {
    if 'a' <= c <= 'z' {
      var k := c as int - 'a' as int;
      assert LOWER[k] == c;
    }
  }

  lemma UpperByTable(c: char)
    ensures 'A' <= c <= 'Z' <==> c in UPPER
  {
    if 'A' <= c <= 'Z' {
      var k := c as int - 'A' as int;
      assert UPPER[k] == c;
    }
  }

  lemma IdentifierCharByTable(c: char)
    ensures IsIdentifierChar(c) <==> c in LOWER || c in UPPER || c in DIGITS || c == '_'
  {
    DigitByTable(c);
    LowerByTable(c);
    UpperByTable(c);
    hide LOWER, UPPER, DIGITS;
  }

  function Dots(s: string): nat {
    if s == "" then 0 else (if s[0] == '.' then 1 else 0) + Dots(s[1..])
  }

  lemma {:induction false} DotsCounted(s: string)
    ensures Dots(s) <= 1 <==> forall i, j | 0 <= i < j < |s| && s[i] == '.' :: s[j] != '.'
    ensures Dots(s) == 0 <==> forall i | 0 <= i < |s| :: s[i] != '.'
  {
    if s != "" {
      DotsCounted(s[1..]);
      assert forall i | 0 < i < |s| :: s[i] == s[1..][i - 1];
      if Dots(s) <= 1 {
        forall i, j | 0 <= i < j < |s| && s[i] == '.'
          ensures s[j] != '.'
        {
          assert s[j] == s[1..][j - 1];
        }
      } else if s[0] == '.' {
        var k :| 0 <= k < |s[1..]| && s[1..][k] == '.';
        assert s[k + 1] == '.';
      } else {
        var i, j :| 0 <= i < j < |s[1..]| && s[1..][i] == '.' && s[1..][j] == '.';
        assert s[i + 1] == '.' && s[j + 1] == '.';
      }
    }
  }

  /** A number has a digit, and one dot at most. */
  lemma MantissaByTable(s: string)
    ensures IsMantissa(s) <==> (exists k | 0 <= k < |s| :: s[k] in DIGITS) && Dots(s) <= 1
  {
    DotsCounted(s);
    forall k | 0 <= k < |s|
      ensures IsDigit(s[k]) <==> s[k] in DIGITS
    {
      DigitByTable(s[k]);
    }
    hide DIGITS, Dots, IsDigit;
  }

  // ---------------------------------------------------------------------------------------------
  // Names
  // ---------------------------------------------------------------------------------------------

  /** Names of properties that a rule may call otherwise. */
  const RENAMED: map<string, string> := map[
    "Length" := "declaredLength", "realLength" := "discoveredLength", "isEncrypted" := "encrypted",
    "containsMetadata" := "hasMetadata", "isCatalogMetadata" := "catalogMetadata"]

  lemma PropertyByTable(name: string)
    ensures MapProperty(name) == if name in RENAMED then RENAMED[name] else name
    ensures PropertyName(name) ==
            var mapped := if name in RENAMED then RENAMED[name] else name;
            if |mapped| <= 128 then Some(mapped) else None
  {
  }

  /** What can be called by its name alone. */
  const FUNCTIONS: map<string, Builtin> := map[
    "hasParseFact" := HasParseFact, "size" := Size, "isEmpty" := IsEmpty, "contains" := Contains, "all" := All,
    "exists" := Exists, "matches" := Matches]

  lemma FunctionByTable(name: string)
    ensures BuiltinNamed(name) == if name in FUNCTIONS then Some(FUNCTIONS[name]) else None
  {
  }

  /** What can be called behind a receiver, which becomes the first of two arguments. */
  const METHODS: map<string, Builtin> := map[
    "test" := Matches, "contains" := Contains, "split" := Split, "slice" := Slice, "indexOf" := IndexOf,
    "search" := Search]

  /** `length` takes no arguments, `Math.abs` takes one and has no receiver, and the methods of the table take one. */
  lemma MethodByTable(receiver: Expr, name: string, args: seq<Expr>)
    ensures MethodCall(receiver, name, args) ==
            if receiver == Property(["Math"]) && name == "abs" then
              (if |args| == 1 then Some(Call(Abs, args)) else None)
            else if name == "length" then (if |args| == 0 then Some(Call(Size, [receiver])) else None)
            else if name in METHODS && |args| == 1 then Some(Call(METHODS[name], [receiver, args[0]]))
            else None
  {
    if |args| == 1 {
      assert [receiver] + args == [receiver, args[0]];
    }
  }

  // ---------------------------------------------------------------------------------------------
  // Operators
  // ---------------------------------------------------------------------------------------------

  /** The operators of each level, the loosest level first; level 3 does not associate. */
  const LEVELS: seq<seq<(string, BinaryOp)>> := [
    [("||", Or)],
    [("&&", And)],
    [("==", Eq), ("!=", Ne), ("<=", Le), (">=", Ge), ("<", Lt), (">", Gt)],
    [("&", BitAnd)],
    [(">>", Shr)],
    [("+", Add), ("-", Sub)],
    [("*", Mul), ("/", Div), ("%", Rem)]]

  lemma OperatorByTable(op: BinaryOp)
    ensures 1 <= LevelOf(op) <= 7 && (OpText(op), op) in LEVELS[LevelOf(op) - 1]
  {
  }

  lemma LevelsByTable(level: nat, k: nat)
    requires level < 7 && k < |LEVELS[level]|
    ensures var (text, op) := LEVELS[level][k]; LevelOf(op) == level + 1 && OpText(op) == text
  {
  }

  // ---------------------------------------------------------------------------------------------
  // Lambdas
  // ---------------------------------------------------------------------------------------------

  /** What a lambda makes of a list: a filter by equality or by a pattern, negated or not, and a search for the
      first of some strings. */
  lemma LambdaByTable(receiver: Expr, lambda: Lambda)
    ensures FilterCall(receiver, lambda).Some? ==>
              var call := FilterCall(receiver, lambda).value;
              && call.Call? && |call.args| > 0 && call.args[0] == receiver
              && (lambda.EqAny? <==> call.builtin == FilterEquals)
              && (lambda.NeAll? <==> call.builtin == FilterNotEquals)
              && (lambda.RegexMatches? <==> call.builtin == FilterMatches)
              && (lambda.RegexNotMatches? <==> call.builtin == FilterNotMatches)
    ensures FindIndexCall(receiver, lambda).Some? ==>
              lambda.EqAny? && FindIndexCall(receiver, lambda).value.Call?
              && FindIndexCall(receiver, lambda).value.builtin == FindIndexEquals
  {
  }

  predicate IsWhite(c: char) {
    c as int in WHITE_SPACE
  }

  lemma {:induction false} TrimmedFront(s: string) returns (k: nat)
    ensures k <= |s| && TrimStart(s) == s[k..] && forall i | 0 <= i < k :: IsWhite(s[i])
    ensures k < |s| ==> !IsWhite(s[k])
  {
    k := 0;
    if s != "" {
      TrimmedByTable(s[0]);
      hide IsTrimmed, WHITE_SPACE;
      if IsTrimmed(s[0]) {
        var n := TrimmedFront(s[1..]);
        k := n + 1;
        assert forall i | 0 < i < k :: s[i] == s[1..][i - 1];
      }
    }
  }

  predicate AllWhite(s: string) {
    forall k | 0 <= k < |s| :: IsWhite(s[k])
  }

  lemma OneMoreWhite(s: string, k: nat)
    requires k < |s| && AllWhite(s[..|s| - 1][k..]) && IsWhite(s[|s| - 1])
    ensures AllWhite(s[k..])
  {
    hide IsWhite;
    assert s[k..] == s[..|s| - 1][k..] + [s[|s| - 1]];
  }

  lemma {:induction false} TrimmedBack(s: string)
    ensures TrimEnd(s) <= s && AllWhite(s[|TrimEnd(s)|..])
    ensures TrimEnd(s) != "" ==> !IsWhite(TrimEnd(s)[|TrimEnd(s)| - 1])
    decreases |s|
  {
    if s != "" {
      var last := s[|s| - 1];
      TrimmedByTable(last);
      assert IsTrimmed(last) <==> IsWhite(last);
      hide WHITE_SPACE, IsTrimmed, IsWhite, AllWhite;
      if IsTrimmed(last) {
        TrimmedBack(s[..|s| - 1]);
        assert TrimEnd(s) == TrimEnd(s[..|s| - 1]);
        hide TrimEnd;
        OneMoreWhite(s, |TrimEnd(s)|);
      } else {
        assert s[|s|..] == "" && AllWhite("");
      }
    }
  }

  /** Trimming takes the white space off both ends of a text and nothing else. */
  lemma TrimIs(s: string)
    ensures exists i, j | 0 <= i <= j <= |s| ::
              && Trim(s) == s[i..j] && AllWhite(s[..i]) && AllWhite(s[j..])
              && (i < j ==> !IsWhite(s[i]) && !IsWhite(s[j - 1]))
  {
    var i := TrimmedFront(s);
    var t := s[i..];
    TrimmedBack(t);
    hide IsWhite, TrimStart, TrimEnd;
    var j := i + |Trim(s)|;
    assert t[..|Trim(s)|] == s[i..j] && t[|Trim(s)|..] == s[j..];
    assert AllWhite(s[..i]);
  }

  /** A negated test is an exclamation mark, white space and a test. */
  lemma NegatedTest(s: string, variable: string)
    ensures RegexLambda(s, variable, false)
         == if |s| > 0 && s[0] == '!' then RegexLambda(Trim(s[1..]), variable, true) else NoRegex
  {
    hide RegexTail, Trim;
    assert At(s, "!") <==> |s| > 0 && s[0] == '!';
  }
}
