/** What the content tokenizer does with the bytes from its cursor on, as functions of those bytes. */
module ContentParsing {
  import opened Bytes
  import opened Cos
  import opened CosParsing

  datatype ContentLimits = ContentLimits(
    maxOps: nat,
    maxOperandCount: nat,
    maxOperandBytes: nat,
    maxOperatorNameBytes: nat,
    maxInlineImageBytes: nat,
    maxGraphicsDepth: u32,
    maxObjectDepth: u32,
    maxNameBytes: nat)

  datatype Operand =
    | NameOperand(name: seq<byte>)
    | IntegerOperand(value: i64)
    | BytesOperand(count: nat)
    | CompositeOperand(bytes: seq<byte>)
    | KeywordOperand(bytes: seq<byte>)

  datatype Token = OperandToken(operand: Operand) | OperatorToken(word: seq<byte>)

  /** Which words are finite decimal numbers is left to the float parser; any test will do. */
  type NumberTest = seq<byte> -> bool

  const KEYWORD_R: seq<byte> := [LETTER_R]
  const EI: seq<byte> := [69, 73]

  // ---------------------------------------------------------------------------------------------
  // Blanks, words and names
  // ---------------------------------------------------------------------------------------------

  /** From the end of the line on; the end of line itself stays. */
  function LineEnd(s: seq<byte>): (r: seq<byte>)
    ensures |r| <= |s|
    ensures s != [] && s[0] == PERCENT ==> |r| < |s|
  {
    if s == [] || s[0] == LF || s[0] == CR then s else LineEnd(s[1..])
  }

  function SkipBlanks(s: seq<byte>): (r: seq<byte>)
    ensures |r| <= |s| && !StartsWithWs(r) && (r != [] ==> r[0] != PERCENT)
    decreases |s|
  {
    var t := SkipWs(s);
    if t == [] || t[0] != PERCENT then t else SkipBlanks(LineEnd(t))
  }

  predicate IsRegular(b: byte) {
    !IsWs(b) && !IsDelimiter(b)
  }

  function RegularRun(s: seq<byte>): (n: nat)
    ensures n <= |s|
    ensures forall k | 0 <= k < n :: IsRegular(s[k])
    ensures n < |s| ==> !IsRegular(s[n])
  {
    if s == [] || !IsRegular(s[0]) then 0 else 1 + RegularRun(s[1..])
  }

  /** A number sign that two hexadecimal digits do not follow stands for itself. */
  function DecodeName(text: seq<byte>): seq<byte> {
    if text == [] then []
    else if text[0] == HASH && |text| >= 3 && HexPair(text[1], text[2]).Some? then
      [HexPair(text[1], text[2]).value] + DecodeName(text[3..])
    else [text[0]] + DecodeName(text[1..])
  }

  /** An optional sign and digits, within 64 bits. */
  function IntegerWord(word: seq<byte>): Option<i64> {
    var n := SignLength(word);
    if n == |word| || !AllDigits(word[n..]) then None
    else
      var value := SignedValue(word[..n], word[n..]);
      if -0x8000_0000_0000_0000 <= value < 0x8000_0000_0000_0000 then Some(value) else None
  }

  predicate IsKeyword(word: seq<byte>) {
    word == TRUE || word == FALSE || word == NULL || word == KEYWORD_R
  }

  /** A word nothing stands in, as in front of a stray closing delimiter, is refused. */
  function WordToken(word: seq<byte>, limits: ContentLimits, isNumber: NumberTest): (r: Result<Token>)
    ensures r.Ok? ==> word != []
  {
    if IsKeyword(word) then Ok(OperandToken(KeywordOperand(word)))
    else if IntegerWord(word).Some? then Ok(OperandToken(IntegerOperand(IntegerWord(word).value)))
    else if word == [] then Err(LimitExceeded(MaxOperatorNameBytes))
    else if isNumber(word) then Ok(OperandToken(BytesOperand(|word|)))
    else if |word| > limits.maxOperatorNameBytes then Err(LimitExceeded(MaxOperatorNameBytes))
    else Ok(OperatorToken(word))
  }

  // ---------------------------------------------------------------------------------------------
  // Strings, arrays and dictionaries: only where they end matters
  // ---------------------------------------------------------------------------------------------

  function LiteralEnd(s: seq<byte>, depth: u32): (r: Parsed<()>)
    requires depth > 0
    ensures r.Good? ==> |r.rest| < |s|
    decreases |s|
  {
    if s == [] then Bad(Malformed)
    else if s[0] == BACKSLASH then
      if |s| == 1 then Bad(Malformed) else LiteralEnd(s[2..], depth)
    else if s[0] == OPEN then
      if depth == 0xFFFF_FFFF then Bad(ArithmeticOverflow) else LiteralEnd(s[1..], depth + 1)
    else if s[0] == CLOSE then
      if depth == 1 then Good((), s[1..]) else LiteralEnd(s[1..], depth - 1)
    else LiteralEnd(s[1..], depth)
  }

  function HexEnd(s: seq<byte>): (r: Parsed<()>)
    ensures r.Good? ==> |r.rest| < |s|
  {
    if s == [] then Bad(Malformed)
    else if s[0] == GREATER then Good((), s[1..])
    else HexEnd(s[1..])
  }

  /** The end of an array or a dictionary; `stack` holds what must close the ones still open. */
  function CompositeEnd(s: seq<byte>, stack: seq<byte>, maxDepth: u32): (r: Parsed<()>)
    ensures r.Good? ==> |r.rest| < |s|
    decreases |s|, 1
  {
    if s == [] then Bad(Malformed)
    else if s[0] == LBRACKET then CompositeGoesOn(s[1..], stack + [RBRACKET], maxDepth, |s|)
    else if StartsWith(s, DICT_OPEN) then CompositeGoesOn(s[2..], stack + [GREATER], maxDepth, |s|)
    else if s[0] == RBRACKET then
      if stack == [] || stack[|stack| - 1] != RBRACKET then Bad(Malformed)
      else if |stack| == 1 then Good((), s[1..])
      else CompositeGoesOn(s[1..], stack[..|stack| - 1], maxDepth, |s|)
    else if StartsWith(s, DICT_CLOSE) then
      if stack == [] || stack[|stack| - 1] != GREATER then Bad(Malformed)
      else if |stack| == 1 then Good((), s[2..])
      else CompositeGoesOn(s[2..], stack[..|stack| - 1], maxDepth, |s|)
    else if s[0] == OPEN then
      var (_, rest) :- LiteralEnd(s[1..], 1);
      CompositeGoesOn(rest, stack, maxDepth, |s|)
    else if s[0] == LESS then
      var (_, rest) :- HexEnd(s[1..]);
      CompositeGoesOn(rest, stack, maxDepth, |s|)
    else CompositeGoesOn(s[1..], stack, maxDepth, |s|)
  }

  function CompositeGoesOn(s: seq<byte>, stack: seq<byte>, maxDepth: u32, ghost bound: nat): (r: Parsed<()>)
    requires |s| < bound
    ensures r.Good? ==> |r.rest| < |s|
    decreases bound, 0
  {
    if |stack| > maxDepth then Bad(LimitExceeded(MaxObjectDepth)) else CompositeEnd(s, stack, maxDepth)
  }

  // ---------------------------------------------------------------------------------------------
  // Tokens
  // ---------------------------------------------------------------------------------------------

  function NextToken(s: seq<byte>, limits: ContentLimits, isNumber: NumberTest): (r: Parsed<Option<Token>>)
    ensures r.Good? && r.value.Some? ==> |r.rest| < |s|
    ensures r.Good? && r.value.None? ==> r.rest == []
  {
    var t := SkipBlanks(s);
    if t == [] then Good(None, t) else TokenAt(t, limits, isNumber)
  }

  function TokenAt(t: seq<byte>, limits: ContentLimits, isNumber: NumberTest): (r: Parsed<Option<Token>>)
    requires t != []
    ensures r.Good? ==> r.value.Some? && |r.rest| < |t|
  {
    if t[0] == SLASH then
      var n := RegularRun(t[1..]);
      var name := DecodeName(t[1..][..n]);
      if |name| > limits.maxNameBytes then Bad(LimitExceeded(MaxNameBytes))
      else Good(Some(OperandToken(NameOperand(name))), t[1..][n..])
    else if t[0] == OPEN then
      var (_, rest) :- LiteralEnd(t[1..], 1);
      Good(Some(OperandToken(BytesOperand(|t| - |rest|))), rest)
    else if StartsWith(t, DICT_OPEN) then
      var (_, rest) :- CompositeEnd(t, [], limits.maxObjectDepth);
      var n := |t| - |rest|;
      if n > limits.maxOperandBytes then Bad(LimitExceeded(MaxOperandBytes))
      else Good(Some(OperandToken(CompositeOperand(t[..n]))), rest)
    else if t[0] == LESS then
      var (_, rest) :- HexEnd(t[1..]);
      Good(Some(OperandToken(BytesOperand(|t| - |rest|))), rest)
    else if t[0] == LBRACKET then
      var (_, rest) :- CompositeEnd(t, [], limits.maxObjectDepth);
      Good(Some(OperandToken(BytesOperand(|t| - |rest|))), rest)
    else
      var n := RegularRun(t);
      var token := WordToken(t[..n], limits, isNumber);
      if token.Err? then Bad(token.error) else Good(Some(token.value), t[n..])
  }

  // ---------------------------------------------------------------------------------------------
  // Inline images
  // ---------------------------------------------------------------------------------------------

  datatype InlineImage = InlineImage(
    width: Option<nat>,
    height: Option<nat>,
    colorSpace: Option<seq<byte>>,
    bitsPerComponent: Option<nat>,
    filters: seq<seq<byte>>)

  type ImageEntries = map<seq<byte>, Operand>

  /** Keys and values up to `ID` or the end; an operator can be a value. */
  function ImageEntriesOf(
      s: seq<byte>, key: Option<seq<byte>>, entries: ImageEntries, limits: ContentLimits, isNumber: NumberTest)
      : (r: Parsed<ImageEntries>)
    ensures r.Good? ==> |r.rest| <= |s|
    decreases |s|
  {
    var (token, rest) :- NextToken(s, limits, isNumber);
    match token
    case None => Good(entries, rest)
    case Some(OperatorToken(word)) =>
      if Matches(word, "ID") then Good(entries, rest)
      else if key.Some? then
        ImageEntriesOf(rest, None, entries[key.value := KeywordOperand(word)], limits, isNumber)
      else ImageEntriesOf(rest, None, entries, limits, isNumber)
    case Some(OperandToken(operand)) =>
      if key.Some? then ImageEntriesOf(rest, None, entries[key.value := operand], limits, isNumber)
      else ImageEntriesOf(rest, if operand.NameOperand? then Some(operand.name) else None, entries, limits, isNumber)
  }

  /** `EI` between white space and white space, a delimiter or the end. */
  predicate EndsData(s: seq<byte>, afterWs: bool) {
    afterWs && StartsWith(s, EI) && (|s| == 2 || !IsRegular(s[2]))
  }

  function DataEnd(s: seq<byte>, afterWs: bool, scanned: nat, max: nat): (r: Parsed<()>)
    ensures r.Good? ==> |r.rest| < |s|
    decreases |s|
  {
    if s == [] then Bad(Malformed)
    else if scanned > max then Bad(LimitExceeded(MaxInlineImageBytes))
    else if EndsData(s, afterWs) then Good((), s[2..])
    else DataEnd(s[1..], IsWs(s[0]), scanned + 1, max)
  }

  /** One byte of white space after `ID` is not data. */
  function ImageDataEnd(s: seq<byte>, max: nat): (r: Parsed<()>)
    ensures r.Good? ==> |r.rest| < |s|
  {
    if StartsWithWs(s) then DataEnd(s[1..], true, 0, max) else DataEnd(s, false, 0, max)
  }

  function CountAt(entries: ImageEntries, key: string): Option<nat>
    requires forall c | c in key :: c as int < 256
  {
    var k := Ascii(key);
    if k in entries && entries[k].IntegerOperand? && entries[k].value >= 0 then Some(entries[k].value) else None
  }

  function NameAt(entries: ImageEntries, key: string): Option<seq<byte>>
    requires forall c | c in key :: c as int < 256
  {
    var k := Ascii(key);
    if k in entries && entries[k].NameOperand? then Some(entries[k].name) else None
  }

  function Either<T>(a: Option<T>, b: Option<T>): Option<T> {
    if a.Some? then a else b
  }

  function Listed<T>(a: Option<T>): seq<T> {
    if a.Some? then [a.value] else []
  }

  function ImageOf(entries: ImageEntries): InlineImage {
    InlineImage(
      Either(CountAt(entries, "W"), CountAt(entries, "Width")),
      Either(CountAt(entries, "H"), CountAt(entries, "Height")),
      Either(NameAt(entries, "CS"), NameAt(entries, "ColorSpace")),
      Either(CountAt(entries, "BPC"), CountAt(entries, "BitsPerComponent")),
      Listed(NameAt(entries, "F")) + Listed(NameAt(entries, "Filter")))
  }

  /** The image after `BI`. */
  function ParseImage(s: seq<byte>, limits: ContentLimits, isNumber: NumberTest): (r: Parsed<InlineImage>)
    ensures r.Good? ==> |r.rest| < |s|
  {
    var (entries, rest) :- ImageEntriesOf(s, None, map[], limits, isNumber);
    var (_, after) :- ImageDataEnd(rest, limits.maxInlineImageBytes);
    Good(ImageOf(entries), after)
  }
}
