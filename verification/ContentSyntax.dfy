/** How content streams are written, section 7.8.2 and section 8.9.7 of ISO 32000-1: operands, operators and
    inline images as trees that print themselves. */
module ContentSyntax {
  import opened Bytes
  import opened Cos
  import opened CosParsing
  import opened CosSyntax
  import opened ContentParsing
  import opened StandardTables
  import opened ContentMeaning

  /** The inside of an array or a dictionary, as far as finding its end is concerned. */
  datatype Inside =
    | EndInside
    | Other(b: byte, next: Inside)
    | Quoted(body: Literal, next: Inside)
    | Digits(hex: seq<byte>, next: Inside)
    | Nested(dictionary: bool, inner: Inside, next: Inside)

  datatype Written =
    | NameText(pieces: seq<NamePiece>)
    | StringText(body: Literal)
    | HexText(hex: seq<byte>)
    | CompositeText(dictionary: bool, inside: Inside)
    | Word(word: seq<byte>)

  /** A token and the blanks in front of it. */
  datatype Item = Item(gap: seq<Blank>, token: Written)

  /** Keys and values, `ID`, one byte of white space, the data, white space, `EI`. */
  datatype ImageText = ImageText(entries: seq<Item>, gap: seq<Blank>, first: byte, data: seq<byte>, last: byte)

  datatype Operation = Operation(operands: seq<Item>, gap: seq<Blank>, word: seq<byte>, image: Option<ImageText>)

  const ID: seq<byte> := [73, 68]

  // ---------------------------------------------------------------------------------------------
  // Printing
  // ---------------------------------------------------------------------------------------------

  function OpenText(dictionary: bool): seq<byte> {
    if dictionary then DICT_OPEN else [LBRACKET]
  }

  function CloseText(dictionary: bool): seq<byte> {
    if dictionary then DICT_CLOSE else [RBRACKET]
  }

  function InsideText(inside: Inside, rest: seq<byte>): seq<byte> {
    match inside
    case EndInside => rest
    case Other(b, next) => [b] + InsideText(next, rest)
    case Quoted(body, next) => [OPEN] + LiteralText(body, [CLOSE] + InsideText(next, rest))
    case Digits(hex, next) => [LESS] + (hex + ([GREATER] + InsideText(next, rest)))
    case Nested(dictionary, inner, next) =>
      OpenText(dictionary) + InsideText(inner, CloseText(dictionary) + InsideText(next, rest))
  }

  function TokenText(token: Written, rest: seq<byte>): seq<byte> {
    match token
    case NameText(pieces) => [SLASH] + CosSyntax.NameText(pieces, rest)
    case StringText(body) => [OPEN] + LiteralText(body, [CLOSE] + rest)
    case HexText(hex) => [LESS] + (hex + ([GREATER] + rest))
    case CompositeText(dictionary, inside) => OpenText(dictionary) + InsideText(inside, CloseText(dictionary) + rest)
    case Word(word) => word + rest
  }

  function TokensText(items: seq<Item>, rest: seq<byte>): seq<byte> {
    if items == [] then rest else GapText(items[0].gap, TokenText(items[0].token, TokensText(items[1..], rest)))
  }

  function DataText(image: ImageText, rest: seq<byte>): seq<byte> {
    [image.first] + (image.data + ([image.last] + (EI + rest)))
  }

  function ImageTextOf(image: ImageText, rest: seq<byte>): seq<byte> {
    TokensText(image.entries, GapText(image.gap, ID + DataText(image, rest)))
  }

  function OperationText(o: Operation, rest: seq<byte>): seq<byte> {
    TokensText(o.operands, GapText(o.gap, o.word + AfterWord(o, rest)))
  }

  function AfterWord(o: Operation, rest: seq<byte>): seq<byte> {
    if o.image.Some? then ImageTextOf(o.image.value, rest) else rest
  }

  function StreamText(operations: seq<Operation>, gap: seq<Blank>): seq<byte> {
    if operations == [] then GapText(gap, []) else OperationText(operations[0], StreamText(operations[1..], gap))
  }

  // ---------------------------------------------------------------------------------------------
  // Spelling
  // ---------------------------------------------------------------------------------------------

  predicate BlankFits(blank: Blank) {
    match blank
    case White(b) => WhiteSpace(b)
    case Comment(text, eol) => (eol == LF || eol == CR) && LF !in text && CR !in text
  }

  predicate GapFits(gap: seq<Blank>) {
    forall k | 0 <= k < |gap| :: BlankFits(gap[k])
  }

  predicate HexSpelled(hex: seq<byte>) {
    GREATER !in hex && (hex == [] || hex[0] != LESS)
  }

  predicate InsideSpelled(inside: Inside) {
    match inside
    case EndInside => true
    case Other(b, next) =>
      b != LBRACKET && b != RBRACKET && b != LESS && b != GREATER && b != OPEN && InsideSpelled(next)
    case Quoted(body, next) => LiteralOk(body) && InsideSpelled(next)
    case Digits(hex, next) => HexSpelled(hex) && InsideSpelled(next)
    case Nested(_, inner, next) => InsideSpelled(inner) && InsideSpelled(next)
  }

  predicate WordSpelled(word: seq<byte>) {
    word != [] && forall k | 0 <= k < |word| :: Regular(word[k])
  }

  predicate TokenSpelled(token: Written) {
    match token
    case NameText(pieces) => NameOk(pieces)
    case StringText(body) => LiteralOk(body)
    case HexText(hex) => HexSpelled(hex)
    case CompositeText(_, inside) => InsideSpelled(inside)
    case Word(word) => WordSpelled(word)
  }

  /** A name and a word end where something irregular follows. */
  predicate WordEnds(rest: seq<byte>) {
    rest == [] || !Regular(rest[0])
  }

  /** The integer a word spells: an optional sign and at least one digit, within 64 bits. */
  function IntegerSpelled(word: seq<byte>): (r: Option<int>)
    ensures r.Some? ==> -0x8000_0000_0000_0000 <= r.value < 0x8000_0000_0000_0000
  {
    var signed := word != [] && word[0] in {43, 45};
    var digits := if signed then word[1..] else word;
    if digits == [] || !Decimals(digits) then None
    else
      var n := Positional(digits);
      var value := if word[0] == 45 then -n else n;
      if -0x8000_0000_0000_0000 <= value < 0x8000_0000_0000_0000 then Some(value) else None
  }

  /** A keyword, an integer, any other number or an operator, in this order. */
  function WordMeaning(word: seq<byte>, limits: ContentLimits, isNumber: NumberTest): Option<Token>
    requires WordSpelled(word)
  {
    if Characters(word) in {"true", "false", "null", "R"} then Some(OperandToken(KeywordOperand(word)))
    else if IntegerSpelled(word).Some? then Some(OperandToken(IntegerOperand(IntegerSpelled(word).value)))
    else if isNumber(word) then Some(OperandToken(BytesOperand(|word|)))
    else if |word| <= limits.maxOperatorNameBytes then Some(OperatorToken(word))
    else None
  }

  predicate TokenEnds(token: Written, rest: seq<byte>) {
    token.NameText? || token.Word? ==> WordEnds(rest)
  }

  // ---------------------------------------------------------------------------------------------
  // Meaning
  // ---------------------------------------------------------------------------------------------

  /** How deep strings nest in a composite. */
  predicate StringsFit(inside: Inside) {
    match inside
    case EndInside => true
    case Other(_, next) => StringsFit(next)
    case Quoted(body, next) => 1 + Nesting(body) <= 0xFFFF_FFFF && StringsFit(next)
    case Digits(_, next) => StringsFit(next)
    case Nested(_, inner, next) => StringsFit(inner) && StringsFit(next)
  }

  /** How deep composites nest inside a composite. */
  function Depth(inside: Inside): nat {
    match inside
    case EndInside => 0
    case Other(_, next) => Depth(next)
    case Quoted(_, next) => Depth(next)
    case Digits(_, next) => Depth(next)
    case Nested(_, inner, next) => if 1 + Depth(inner) < Depth(next) then Depth(next) else 1 + Depth(inner)
  }

  predicate TokenFits(token: Written, limits: ContentLimits, isNumber: NumberTest)
    requires TokenSpelled(token)
  {
    match token
    case NameText(pieces) => |NameValue(pieces)| <= limits.maxNameBytes
    case StringText(body) => 1 + Nesting(body) <= 0xFFFF_FFFF
    case HexText(_) => true
    case CompositeText(dictionary, inside) =>
      && StringsFit(inside) && 1 + Depth(inside) <= limits.maxObjectDepth
      && (dictionary ==> |TokenText(token, [])| <= limits.maxOperandBytes)
    case Word(word) => WordMeaning(word, limits, isNumber).Some?
  }

  function TokenValue(token: Written, limits: ContentLimits, isNumber: NumberTest): Token
    requires TokenSpelled(token) && TokenFits(token, limits, isNumber)
  {
    match token
    case NameText(pieces) => OperandToken(NameOperand(NameValue(pieces)))
    case CompositeText(true, _) => OperandToken(CompositeOperand(TokenText(token, [])))
    case Word(word) => WordMeaning(word, limits, isNumber).value
    case _ => OperandToken(BytesOperand(|TokenText(token, [])|))
  }

  // ---------------------------------------------------------------------------------------------
  // Items, images and operations
  // ---------------------------------------------------------------------------------------------

  /** Well spelled and within the limits, and no name or word runs into what follows it. */
  predicate TokensOk(items: seq<Item>, rest: seq<byte>, limits: ContentLimits, isNumber: NumberTest) {
    items != [] ==>
      && GapFits(items[0].gap)
      && TokenSpelled(items[0].token) && TokenFits(items[0].token, limits, isNumber)
      && TokenEnds(items[0].token, TokensText(items[1..], rest))
      && TokensOk(items[1..], rest, limits, isNumber)
  }

  function TokensValue(items: seq<Item>, rest: seq<byte>, limits: ContentLimits, isNumber: NumberTest): seq<Token>
    requires TokensOk(items, rest, limits, isNumber)
  {
    if items == [] then []
    else [TokenValue(items[0].token, limits, isNumber)] + TokensValue(items[1..], rest, limits, isNumber)
  }

  predicate AllOperands(tokens: seq<Token>) {
    forall k | 0 <= k < |tokens| :: tokens[k].OperandToken?
  }

  function OperandsOf(tokens: seq<Token>): (r: seq<Operand>)
    requires AllOperands(tokens)
    ensures |r| == |tokens|
  {
    if tokens == [] then [] else [tokens[0].operand] + OperandsOf(tokens[1..])
  }

  /** Keys and values in turn: only a name is a key, anything is a value. */
  function EntriesFrom(tokens: seq<Token>, key: Option<seq<byte>>, entries: ImageEntries): ImageEntries {
    if tokens == [] then entries
    else
      match tokens[0]
      case OperatorToken(word) =>
        EntriesFrom(tokens[1..], None, if key.Some? then entries[key.value := KeywordOperand(word)] else entries)
      case OperandToken(operand) =>
        if key.Some? then EntriesFrom(tokens[1..], None, entries[key.value := operand])
        else EntriesFrom(tokens[1..], if operand.NameOperand? then Some(operand.name) else None, entries)
  }

  predicate IsOperator(word: seq<byte>, limits: ContentLimits, isNumber: NumberTest)
    requires WordSpelled(word)
  {
    WordMeaning(word, limits, isNumber) == Some(OperatorToken(word))
  }

  /** `EI` begins here and stands alone. */
  predicate Alone(s: seq<byte>, afterWs: bool) {
    afterWs && EI <= s && WordEnds(s[2..])
  }

  /** `EI` stands alone somewhere in the data. */
  predicate EndsWithin(data: seq<byte>, afterWs: bool) {
    data != [] && (Alone(data, afterWs) || EndsWithin(data[1..], WhiteSpace(data[0])))
  }

  /** The data are within their cap and cannot be taken to end early. */
  predicate DataOk(data: seq<byte>, limits: ContentLimits) {
    !EndsWithin(data, true) && |data| + 1 <= limits.maxInlineImageBytes
  }

  /** Everything about an image but its data. */
  predicate ImageSpelled(image: ImageText, rest: seq<byte>, limits: ContentLimits, isNumber: NumberTest) {
    var behind := GapText(image.gap, ID + DataText(image, rest));
    && TokensOk(image.entries, behind, limits, isNumber)
    && OperatorToken(ID) !in TokensValue(image.entries, behind, limits, isNumber)
    && IsOperator(ID, limits, isNumber) && GapFits(image.gap)
    && WhiteSpace(image.first) && WhiteSpace(image.last) && WordEnds(rest)
  }

  function ImageValue(image: ImageText, rest: seq<byte>, limits: ContentLimits, isNumber: NumberTest): InlineImage
    requires ImageSpelled(image, rest, limits, isNumber)
  {
    var behind := GapText(image.gap, ID + DataText(image, rest));
    ImageOf(EntriesFrom(TokensValue(image.entries, behind, limits, isNumber), None, map[]))
  }

  predicate OperationSpelled(o: Operation, rest: seq<byte>, limits: ContentLimits, isNumber: NumberTest) {
    var behind := GapText(o.gap, o.word + AfterWord(o, rest));
    && TokensOk(o.operands, behind, limits, isNumber)
    && AllOperands(TokensValue(o.operands, behind, limits, isNumber))
    && GapFits(o.gap) && WordSpelled(o.word) && IsOperator(o.word, limits, isNumber) && WordEnds(AfterWord(o, rest))
    && (o.image.Some? <==> Characters(o.word) == "BI")
    && (o.image.Some? ==> ImageSpelled(o.image.value, rest, limits, isNumber))
  }

  function StepFor(o: Operation, rest: seq<byte>, limits: ContentLimits, isNumber: NumberTest): Step
    requires OperationSpelled(o, rest, limits, isNumber)
  {
    var behind := GapText(o.gap, o.word + AfterWord(o, rest));
    Step(
      o.word,
      OperandsOf(TokensValue(o.operands, behind, limits, isNumber)),
      if o.image.Some? then Some(ImageValue(o.image.value, rest, limits, isNumber)) else None,
      0)
  }

  /** Nothing about the operation exceeds a cap. */
  predicate OperationFits(o: Operation, rest: seq<byte>, limits: ContentLimits, isNumber: NumberTest)
    requires OperationSpelled(o, rest, limits, isNumber)
  {
    var step := StepFor(o, rest, limits, isNumber);
    && |step.operands| <= limits.maxOperandCount
    && TotalBytes(step.operands) <= limits.maxOperandBytes && TotalBytes(step.operands) <= 0xFFFF_FFFF_FFFF_FFFF
    && FaultOf(step, limits) == None
    && (o.image.Some? ==> DataOk(o.image.value.data, limits))
  }

  predicate StreamOk(operations: seq<Operation>, gap: seq<Blank>, limits: ContentLimits, isNumber: NumberTest) {
    if operations == [] then GapFits(gap)
    else
      var rest := StreamText(operations[1..], gap);
      && OperationSpelled(operations[0], rest, limits, isNumber)
      && OperationFits(operations[0], rest, limits, isNumber)
      && StreamOk(operations[1..], gap, limits, isNumber)
  }

  function StepsFor(operations: seq<Operation>, gap: seq<Blank>, limits: ContentLimits, isNumber: NumberTest): (r: seq<Step>)
    requires StreamOk(operations, gap, limits, isNumber)
    ensures |r| == |operations|
  {
    if operations == [] then []
    else
      [StepFor(operations[0], StreamText(operations[1..], gap), limits, isNumber)]
      + StepsFor(operations[1..], gap, limits, isNumber)
  }
}
