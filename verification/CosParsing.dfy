/** What the object parser does with the bytes from its cursor on, as functions of those bytes. */
module CosParsing {
  import opened Bytes
  import opened Cos

  datatype Limits = Limits(
    maxObjects: nat,
    maxObjectDepth: u32,
    maxArrayLen: nat,
    maxDictEntries: nat,
    maxNameBytes: nat,
    maxStringBytes: nat,
    maxStreamDeclaredBytes: nat,
    maxParseFacts: nat)

  /** A value and the bytes after it, or an error. */
  datatype Parsed<+T> = Good(value: T, rest: seq<byte>) | Bad(error: ParseError) {
    predicate IsFailure() {
      Bad?
    }

    function PropagateFailure<U>(): Parsed<U>
      requires Bad?
    {
      Bad(error)
    }

    function Extract(): (T, seq<byte>)
      requires Good?
    {
      (value, rest)
    }
  }

  const LF: byte := 10
  const CR: byte := 13
  const HASH: byte := 35
  const PERCENT: byte := 37
  const OPEN: byte := 40
  const CLOSE: byte := 41
  const PLUS: byte := 43
  const MINUS: byte := 45
  const DOT: byte := 46
  const SLASH: byte := 47
  const LESS: byte := 60
  const GREATER: byte := 62
  const LETTER_R: byte := 82
  const LBRACKET: byte := 91
  const BACKSLASH: byte := 92
  const RBRACKET: byte := 93
  const LETTER_F: byte := 102
  const LETTER_N: byte := 110
  const LETTER_T: byte := 116

  /** `%%EOF`, `true`, `false` and `null`. */
  const EOF_MARKER: seq<byte> := [37, 37, 69, 79, 70]
  const TRUE: seq<byte> := [116, 114, 117, 101]
  const FALSE: seq<byte> := [102, 97, 108, 115, 101]
  const NULL: seq<byte> := [110, 117, 108, 108]
  const DICT_OPEN: seq<byte> := [60, 60]
  const DICT_CLOSE: seq<byte> := [62, 62]

  predicate IsDelimiter(b: byte) {
    || b == OPEN || b == CLOSE || b == LESS || b == GREATER || b == LBRACKET || b == RBRACKET
    || b == 123 || b == 125 || b == SLASH || b == PERCENT
  }

  predicate IsDigit(b: byte) {
    48 <= b <= 57
  }

  predicate StartsWith(s: seq<byte>, expected: seq<byte>) {
    expected <= s
  }

  predicate StartsWithWs(s: seq<byte>) {
    s != [] && IsWs(s[0])
  }

  // ---------------------------------------------------------------------------------------------
  // White space and comments
  // ---------------------------------------------------------------------------------------------

  function SkipWs(s: seq<byte>): (r: seq<byte>)
    ensures |r| <= |s| && !StartsWithWs(r)
    ensures StartsWithWs(s) ==> |r| < |s|
  {
    if StartsWithWs(s) then SkipWs(s[1..]) else s
  }

  function SkipLine(s: seq<byte>): (r: seq<byte>)
    ensures |r| <= |s|
    ensures s != [] ==> |r| < |s|
  {
    if s == [] then []
    else if s[0] == LF || s[0] == CR then s[1..]
    else SkipLine(s[1..])
  }

  /** White space and comments; the end-of-file marker is not a comment. */
  function SkipSpace(s: seq<byte>): (r: seq<byte>)
    ensures |r| <= |s| && !StartsWithWs(r)
    ensures r != [] && r[0] == PERCENT ==> StartsWith(r, EOF_MARKER)
    decreases |s|
  {
    var t := SkipWs(s);
    if t == [] || t[0] != PERCENT || StartsWith(t, EOF_MARKER) then t else SkipSpace(SkipLine(t))
  }

  lemma SkipSpaceTwice(s: seq<byte>)
    ensures SkipSpace(SkipSpace(s)) == SkipSpace(s)
  {
  }

  // ---------------------------------------------------------------------------------------------
  // Numbers
  // ---------------------------------------------------------------------------------------------

  function DigitRun(s: seq<byte>): (n: nat)
    ensures n <= |s|
    ensures forall k | 0 <= k < n :: IsDigit(s[k])
    ensures n < |s| ==> !IsDigit(s[n])
  {
    if s == [] || !IsDigit(s[0]) then 0 else 1 + DigitRun(s[1..])
  }

  function Decimal(digits: seq<byte>): nat
    requires forall k | 0 <= k < |digits| :: IsDigit(digits[k])
  {
    if digits == [] then 0
    else
      assert IsDigit(digits[|digits| - 1]);
      var last: int := digits[|digits| - 1];
      10 * Decimal(digits[..|digits| - 1]) + last - 48
  }

  /** An optional unsigned number, refused when it exceeds `max`. */
  function ParseUnsigned(s: seq<byte>, max: nat): (r: Parsed<Option<nat>>)
    ensures r.Good? ==> |r.rest| <= |s|
    ensures r.Good? && r.value.Some? ==> |r.rest| < |s|
  {
    var t := SkipSpace(s);
    var n := DigitRun(t);
    if n == 0 then Good(None, t)
    else if Decimal(t[..n]) > max then Bad(Malformed)
    else Good(Some(Decimal(t[..n])), t[n..])
  }

  datatype Number = IntegerNumber(value: i64) | RealNumber(digits: seq<byte>)

  /** Digits and dots. */
  function NumberRun(s: seq<byte>): (n: nat)
    ensures n <= |s|
    ensures forall k | 0 <= k < n :: IsDigit(s[k]) || s[k] == DOT
    ensures n < |s| ==> !IsDigit(s[n]) && s[n] != DOT
  {
    if s == [] || (!IsDigit(s[0]) && s[0] != DOT) then 0 else 1 + NumberRun(s[1..])
  }

  function SignLength(s: seq<byte>): (n: nat)
    ensures n <= |s|
  {
    if s != [] && (s[0] == PLUS || s[0] == MINUS) then 1 else 0
  }

  predicate AllDigits(s: seq<byte>) {
    forall k | 0 <= k < |s| :: IsDigit(s[k])
  }

  /** `FINITE_LIMIT` is 2^1024 - 2^970: from there on a number rounds to infinity as a 64-bit float. */
  const TWO_TO_64: nat := 0x1_0000_0000_0000_0000
  const TWO_TO_320: nat := TWO_TO_64 * TWO_TO_64 * TWO_TO_64 * TWO_TO_64 * TWO_TO_64
  const FINITE_LIMIT: nat := 0x3F_FFFF_FFFF_FFFF * (0x400 * TWO_TO_320 * TWO_TO_320 * TWO_TO_320)

  predicate IsFinite(whole: seq<byte>)
    requires AllDigits(whole)
  {
    Decimal(whole) < FINITE_LIMIT
  }

  /** Digits around one dot, at least one digit, and not so large that the number becomes infinite. */
  predicate IsRealBody(body: seq<byte>) {
    && |body| >= 2
    && exists k | 0 <= k < |body| ::
         body[k] == DOT && AllDigits(body[..k]) && AllDigits(body[k + 1..]) && IsFinite(body[..k])
  }

  function SignedValue(sign: seq<byte>, digits: seq<byte>): int
    requires AllDigits(digits)
  {
    var magnitude: int := Decimal(digits);
    if sign == [MINUS] then -magnitude else magnitude
  }

  /** The number a token of digits and dots behind an optional sign spells. */
  function NumberOf(sign: seq<byte>, body: seq<byte>): Result<Number> {
    if DOT in body then
      if IsRealBody(body) then Ok(RealNumber(sign + body)) else Err(Malformed)
    else if body == [] || !AllDigits(body) then Err(Malformed)
    else
      var v := SignedValue(sign, body);
      if -0x8000_0000_0000_0000 <= v < 0x8000_0000_0000_0000 then Ok(IntegerNumber(v)) else Err(Malformed)
  }

  function ParseNumberToken(s: seq<byte>): (r: Parsed<Number>)
    ensures r.Good? ==> |r.rest| < |s|
  {
    var t := SkipSpace(s);
    var after := t[SignLength(t)..];
    var n := NumberRun(after);
    var number := NumberOf(t[..SignLength(t)], after[..n]);
    if number.Err? then Bad(number.error) else Good(number.value, after[n..])
  }

  /** The generation and the `R` of a reference after its number, if they are there. */
  function ParseReferenceTail(s: seq<byte>): (r: Parsed<Option<nat>>)
    ensures r.Good? ==> |r.rest| <= |s|
  {
    if !StartsWithWs(s) then Good(None, s)
    else
      var generation := ParseUnsigned(SkipWs(s), 0xFFFF);
      if generation.Bad? then Bad(generation.error)
      else if generation.value.None? || !StartsWithWs(generation.rest) then Good(None, s)
      else
        var t := SkipWs(generation.rest);
        if t != [] && t[0] == LETTER_R then Good(generation.value, t[1..]) else Good(None, s)
  }

  function ParseNumberOrReference(s: seq<byte>): (r: Parsed<CosObject>)
    ensures r.Good? ==> |r.rest| < |s|
  {
    var (first, rest) :- ParseNumberToken(s);
    match first
    case RealNumber(digits) => Good(Real(digits), rest)
    case IntegerNumber(value) =>
      var (generation, after) :- ParseReferenceTail(rest);
      if generation.None? then Good(Integer(value), rest)
      else if value < 0 || value >= 0x1_0000_0000 then Bad(Malformed)
      else if value == 0 || generation.value >= 0x1_0000 then Good(Integer(value), rest)
      else Good(Reference(ObjectKey(value, generation.value)), after)
  }

  // ---------------------------------------------------------------------------------------------
  // Names and strings
  // ---------------------------------------------------------------------------------------------

  function HexPair(high: byte, low: byte): Option<byte> {
    if HexDigit(high).None? || HexDigit(low).None? then None
    else
      var h: int := HexDigit(high).value;
      var l: int := HexDigit(low).value;
      if h < 16 && l < 16 then Some(16 * h + l) else None
  }

  function NameBytes(s: seq<byte>, acc: seq<byte>, limits: Limits): (r: Parsed<seq<byte>>)
    requires |acc| <= limits.maxNameBytes
    ensures r.Good? ==> |r.rest| <= |s| && |r.value| <= limits.maxNameBytes
    decreases |s|
  {
    if s == [] || IsDelimiter(s[0]) || IsWs(s[0]) then Good(acc, s)
    else if s[0] == HASH then
      if |s| < 3 || HexPair(s[1], s[2]).None? then Bad(Malformed)
      else if |acc| + 1 > limits.maxNameBytes then Bad(LimitExceeded(MaxNameBytes))
      else NameBytes(s[3..], acc + [HexPair(s[1], s[2]).value], limits)
    else if |acc| + 1 > limits.maxNameBytes then Bad(LimitExceeded(MaxNameBytes))
    else NameBytes(s[1..], acc + [s[0]], limits)
  }

  function ParseName(s: seq<byte>, limits: Limits): (r: Parsed<seq<byte>>)
    ensures r.Good? ==> |r.rest| < |s| && |r.value| <= limits.maxNameBytes
  {
    if s == [] || s[0] != SLASH then Bad(Malformed) else NameBytes(s[1..], [], limits)
  }

  /** The escapes the parser knows; octal codes and line continuations are not among them. */
  function Unescape(code: byte): byte {
    if code == 110 then 10
    else if code == 114 then 13
    else if code == 116 then 9
    else if code == 98 then 8
    else if code == 102 then 12
    else code
  }

  function LiteralBytes(s: seq<byte>, depth: u32, acc: seq<byte>, limits: Limits): (r: Parsed<seq<byte>>)
    requires depth > 0 && |acc| <= limits.maxStringBytes
    ensures r.Good? ==> |r.rest| < |s| && |r.value| <= limits.maxStringBytes
    decreases |s|
  {
    if s == [] then Bad(Malformed)
    else if s[0] == BACKSLASH && |s| == 1 then Bad(Malformed)
    else if s[0] == OPEN && depth == 0xFFFF_FFFF then Bad(ArithmeticOverflow)
    else if s[0] == CLOSE && depth == 1 then Good(acc, s[1..])
    else if |acc| + 1 > limits.maxStringBytes then Bad(LimitExceeded(MaxStringBytes))
    else if s[0] == BACKSLASH then LiteralBytes(s[2..], depth, acc + [Unescape(s[1])], limits)
    else if s[0] == OPEN then LiteralBytes(s[1..], depth + 1, acc + [OPEN], limits)
    else if s[0] == CLOSE then LiteralBytes(s[1..], depth - 1, acc + [CLOSE], limits)
    else LiteralBytes(s[1..], depth, acc + [s[0]], limits)
  }

  function ParseLiteral(s: seq<byte>, limits: Limits): (r: Parsed<seq<byte>>)
    ensures r.Good? ==> |r.rest| < |s| && |r.value| <= limits.maxStringBytes
  {
    if s == [] || s[0] != OPEN then Bad(Malformed) else LiteralBytes(s[1..], 1, [], limits)
  }

  /** The characters of a hexadecimal string up to its end, white space left out. */
  function HexChars(s: seq<byte>, acc: seq<byte>): (r: (seq<byte>, seq<byte>))
    ensures |r.1| <= |s|
    decreases |s|
  {
    if s == [] then (acc, s)
    else if s[0] == GREATER then (acc, s[1..])
    else if IsWs(s[0]) then HexChars(s[1..], acc)
    else HexChars(s[1..], acc + [s[0]])
  }

  function HexBytes(chars: seq<byte>): Option<seq<byte>>
    requires |chars| % 2 == 0
  {
    if chars == [] then Some([])
    else
      var first := HexPair(chars[0], chars[1]);
      var more := HexBytes(chars[2..]);
      if first.None? || more.None? then None else Some([first.value] + more.value)
  }

  function ParseHex(s: seq<byte>, limits: Limits): (r: Parsed<seq<byte>>)
    ensures r.Good? ==> |r.rest| < |s| && |r.value| <= limits.maxStringBytes
  {
    if s == [] || s[0] != LESS then Bad(Malformed)
    else
      var (chars, rest) := HexChars(s[1..], []);
      var bytes := HexBytes(if |chars| % 2 == 0 then chars else chars + [48]);
      if bytes.None? then Bad(Malformed)
      else if |bytes.value| > limits.maxStringBytes then Bad(LimitExceeded(MaxStringBytes))
      else Good(bytes.value, rest)
  }

  // ---------------------------------------------------------------------------------------------
  // Objects
  // ---------------------------------------------------------------------------------------------

  function Deeper(depth: u32): u32 {
    if depth == 0xFFFF_FFFF then depth else depth + 1
  }

  function ParseObject(s: seq<byte>, depth: u32, limits: Limits): (r: Parsed<CosObject>)
    ensures r.Good? ==> |r.rest| < |s|
    decreases |s|, 1
  {
    if depth > limits.maxObjectDepth then Bad(LimitExceeded(MaxObjectDepth))
    else
      var t := SkipSpace(s);
      if StartsWith(t, DICT_OPEN) then
        var (entries, rest) :- ParseEntries(t[2..], depth, map[], limits);
        Good(Dict(entries), rest)
      else if t == [] then Bad(Malformed)
      else if t[0] == LBRACKET then
        var (items, rest) :- ParseItems(t[1..], depth, [], limits);
        Good(Array(items), rest)
      else ParseLeaf(t, limits)
  }

  /** An object without parts, from its first byte on. */
  function ParseLeaf(t: seq<byte>, limits: Limits): (r: Parsed<CosObject>)
    requires t != []
    ensures r.Good? ==> |r.rest| < |t|
  {
    if t[0] == SLASH then
      var (bytes, rest) :- ParseName(t, limits);
      Good(Name(bytes), rest)
    else if t[0] == OPEN then
      var (bytes, rest) :- ParseLiteral(t, limits);
      Good(String(bytes), rest)
    else if t[0] == LESS then
      var (bytes, rest) :- ParseHex(t, limits);
      Good(String(bytes), rest)
    else if StartsWith(t, TRUE) then Good(Boolean(true), t[4..])
    else if StartsWith(t, FALSE) then Good(Boolean(false), t[5..])
    else if StartsWith(t, NULL) then Good(Null, t[4..])
    else if t[0] == MINUS || t[0] == PLUS || t[0] == DOT || IsDigit(t[0]) then ParseNumberOrReference(t)
    else Bad(Malformed)
  }

  /** The rest of an array, `acc` read already. */
  function ParseItems(s: seq<byte>, depth: u32, acc: seq<CosObject>, limits: Limits)
    : (r: Parsed<seq<CosObject>>)
    ensures r.Good? ==> |r.rest| < |s|
    decreases |s|, 2
  {
    var t := SkipSpace(s);
    if StartsWith(t, [RBRACKET]) then Good(acc, t[1..])
    else
      var (item, rest) :- ParseObject(t, Deeper(depth), limits);
      if |acc| + 1 > limits.maxArrayLen then Bad(LimitExceeded(MaxArrayLen))
      else ParseItems(rest, depth, acc + [item], limits)
  }

  /** The rest of a dictionary, `acc` read already; a repeated key counts against the cap again. */
  function ParseEntries(s: seq<byte>, depth: u32, acc: Dictionary, limits: Limits): (r: Parsed<Dictionary>)
    ensures r.Good? ==> |r.rest| < |s|
    decreases |s|, 2
  {
    var t := SkipSpace(s);
    if StartsWith(t, DICT_CLOSE) then Good(acc, t[2..])
    else
      var (key, afterKey) :- ParseName(t, limits);
      var (value, rest) :- ParseObject(afterKey, Deeper(depth), limits);
      if |acc| + 1 > limits.maxDictEntries then Bad(LimitExceeded(MaxDictEntries))
      else ParseEntries(rest, depth, acc[key := value], limits)
  }
}
