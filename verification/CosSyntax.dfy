/** How COS objects are written: the concrete syntax of section 7.3 of ISO 32000-1, with its white space
    and comments, as trees that print themselves. */
module CosSyntax {
  import opened Bytes
  import opened Cos
  import opened CosParsing
  import opened StandardTables

  datatype Blank = White(b: byte) | Comment(text: seq<byte>, eol: byte)

  datatype NamePiece = Plain(b: byte) | HexEscape(high: byte, low: byte)

  /** The inside of a literal string; parentheses nest. */
  datatype Literal =
    | EndLiteral
    | Raw(b: byte, next: Literal)
    | Escaped(code: byte, next: Literal)
    | Group(inner: Literal, next: Literal)

  /** The inside of a hexadecimal string; a lone last digit stands for its high half. */
  datatype Hex =
    | EndHex(white: seq<byte>)
    | LoneDigit(white: seq<byte>, high: byte, after: seq<byte>)
    | TwoDigits(white: seq<byte>, high: byte, between: seq<byte>, low: byte, next: Hex)

  datatype Syntax =
    | NullWord
    | BooleanWord(flag: bool)
    | IntegerToken(sign: seq<byte>, digits: seq<byte>)
    | RealToken(sign: seq<byte>, whole: seq<byte>, fraction: seq<byte>)
    | NameToken(pieces: seq<NamePiece>)
    | LiteralString(body: Literal)
    | HexString(hex: Hex)
    | ReferenceToken(sign: seq<byte>, number: seq<byte>, gap: seq<Blank>, generation: seq<byte>, white: seq<byte>)
    | ArrayText(items: Items)
    | DictText(entries: Entries)

  datatype Items = EndItems(gap: seq<Blank>) | Item(gap: seq<Blank>, value: Syntax, next: Items)

  datatype Entries =
    | EndEntries(gap: seq<Blank>)
    | Entry(gap: seq<Blank>, key: seq<NamePiece>, middle: seq<Blank>, value: Syntax, next: Entries)

  // ---------------------------------------------------------------------------------------------
  // Printing: the text of a tree, followed by `rest`
  // ---------------------------------------------------------------------------------------------

  function GapText(gap: seq<Blank>, rest: seq<byte>): seq<byte> {
    if gap == [] then rest
    else match gap[0]
      case White(b) => [b] + GapText(gap[1..], rest)
      case Comment(text, eol) => [PERCENT] + (text + ([eol] + GapText(gap[1..], rest)))
  }

  function NameText(pieces: seq<NamePiece>, rest: seq<byte>): seq<byte> {
    if pieces == [] then rest
    else match pieces[0]
      case Plain(b) => [b] + NameText(pieces[1..], rest)
      case HexEscape(high, low) => [HASH, high, low] + NameText(pieces[1..], rest)
  }

  function LiteralText(body: Literal, rest: seq<byte>): seq<byte> {
    match body
    case EndLiteral => rest
    case Raw(b, next) => [b] + LiteralText(next, rest)
    case Escaped(code, next) => [BACKSLASH, code] + LiteralText(next, rest)
    case Group(inner, next) => [OPEN] + LiteralText(inner, [CLOSE] + LiteralText(next, rest))
  }

  function HexText(hex: Hex, rest: seq<byte>): seq<byte> {
    match hex
    case EndHex(white) => white + rest
    case LoneDigit(white, high, after) => white + ([high] + (after + rest))
    case TwoDigits(white, high, between, low, next) =>
      white + ([high] + (between + ([low] + HexText(next, rest))))
  }

  function Text(c: Syntax, rest: seq<byte>): seq<byte> {
    match c
    case NullWord => NULL + rest
    case BooleanWord(flag) => (if flag then TRUE else FALSE) + rest
    case IntegerToken(sign, digits) => sign + (digits + rest)
    case RealToken(sign, whole, fraction) => sign + ((whole + [DOT] + fraction) + rest)
    case NameToken(pieces) => [SLASH] + NameText(pieces, rest)
    case LiteralString(body) => [OPEN] + LiteralText(body, [CLOSE] + rest)
    case HexString(hex) => [LESS] + HexText(hex, [GREATER] + rest)
    case ReferenceToken(sign, number, gap, generation, white) =>
      sign + (number + GapText(gap, generation + (white + ([LETTER_R] + rest))))
    case ArrayText(items) => [LBRACKET] + ItemsText(items, rest)
    case DictText(entries) => DICT_OPEN + EntriesText(entries, rest)
  }

  function ItemsText(items: Items, rest: seq<byte>): seq<byte> {
    match items
    case EndItems(gap) => GapText(gap, [RBRACKET] + rest)
    case Item(gap, value, next) => GapText(gap, Text(value, ItemsText(next, rest)))
  }

  function EntriesText(entries: Entries, rest: seq<byte>): seq<byte> {
    match entries
    case EndEntries(gap) => GapText(gap, DICT_CLOSE + rest)
    case Entry(gap, key, middle, value, next) =>
      GapText(gap, [SLASH] + NameText(key, GapText(middle, Text(value, EntriesText(next, rest)))))
  }

  function Print(c: Syntax): seq<byte> {
    Text(c, [])
  }

  // ---------------------------------------------------------------------------------------------
  // Spelling: what each token may consist of
  // ---------------------------------------------------------------------------------------------

  predicate AllWhite(s: seq<byte>) {
    forall k | 0 <= k < |s| :: WhiteSpace(s[k])
  }

  predicate BlankOk(blank: Blank) {
    match blank
    case White(b) => WhiteSpace(b)
    case Comment(text, eol) =>
      (eol == LF || eol == CR) && LF !in text && CR !in text && !StartsWith([PERCENT] + text, EOF_MARKER)
  }

  predicate GapOk(gap: seq<Blank>) {
    forall k | 0 <= k < |gap| :: BlankOk(gap[k])
  }

  predicate PieceOk(piece: NamePiece) {
    match piece
    case Plain(b) => Regular(b) && b != HASH
    case HexEscape(high, low) => ByteOf(high, low).Some?
  }

  predicate NameOk(pieces: seq<NamePiece>) {
    forall k | 0 <= k < |pieces| :: PieceOk(pieces[k])
  }

  predicate LiteralOk(body: Literal) {
    match body
    case EndLiteral => true
    case Raw(b, next) => b != BACKSLASH && b != OPEN && b != CLOSE && LiteralOk(next)
    case Escaped(_, next) => LiteralOk(next)
    case Group(inner, next) => LiteralOk(inner) && LiteralOk(next)
  }

  predicate HexOk(hex: Hex) {
    match hex
    case EndHex(white) => AllWhite(white)
    case LoneDigit(white, high, after) => AllWhite(white) && HexValueOf(high).Some? && AllWhite(after)
    case TwoDigits(white, high, between, low, next) =>
      AllWhite(white) && ByteOf(high, low).Some? && AllWhite(between) && HexOk(next)
  }

  predicate SignOk(sign: seq<byte>) {
    sign == [] || sign == [PLUS] || sign == [MINUS]
  }

  predicate IntegerOk(sign: seq<byte>, digits: seq<byte>) {
    && SignOk(sign) && digits != [] && AllDigits(digits)
    && -0x8000_0000_0000_0000 <= SignedValue(sign, digits) < 0x8000_0000_0000_0000
  }

  predicate ReferenceOk(sign: seq<byte>, number: seq<byte>, gap: seq<Blank>, generation: seq<byte>, white: seq<byte>) {
    && (sign == [] || sign == [PLUS]) && AllDigits(number) && 0 < Decimal(number) < 0x1_0000_0000
    && gap != [] && gap[0].White? && GapOk(gap)
    && generation != [] && AllDigits(generation) && Decimal(generation) < 0x1_0000
    && white != [] && AllWhite(white)
  }

  predicate Spelled(c: Syntax) {
    match c
    case NullWord => true
    case BooleanWord(_) => true
    case IntegerToken(sign, digits) => IntegerOk(sign, digits)
    case RealToken(sign, whole, fraction) =>
      SignOk(sign) && AllDigits(whole) && AllDigits(fraction) && whole + fraction != []
    case NameToken(pieces) => NameOk(pieces)
    case LiteralString(body) => LiteralOk(body)
    case HexString(hex) => HexOk(hex)
    case ReferenceToken(sign, number, gap, generation, white) => ReferenceOk(sign, number, gap, generation, white)
    case ArrayText(items) => ItemsSpelled(items)
    case DictText(entries) => EntriesSpelled(entries)
  }

  predicate ItemsSpelled(items: Items) {
    match items
    case EndItems(gap) => GapOk(gap)
    case Item(gap, value, next) => GapOk(gap) && Spelled(value) && ItemsSpelled(next)
  }

  predicate EntriesSpelled(entries: Entries) {
    match entries
    case EndEntries(gap) => GapOk(gap)
    case Entry(gap, key, middle, value, next) =>
      GapOk(gap) && NameOk(key) && GapOk(middle) && Spelled(value) && EntriesSpelled(next)
  }

  // ---------------------------------------------------------------------------------------------
  // Meaning
  // ---------------------------------------------------------------------------------------------

  function NameValue(pieces: seq<NamePiece>): seq<byte>
    requires NameOk(pieces)
  {
    if pieces == [] then []
    else
      [match pieces[0] case Plain(b) => b case HexEscape(high, low) => ByteOf(high, low).value]
      + NameValue(pieces[1..])
  }

  function LiteralValue(body: Literal): seq<byte> {
    match body
    case EndLiteral => []
    case Raw(b, next) => [b] + LiteralValue(next)
    case Escaped(code, next) => [EscapeValue(code)] + LiteralValue(next)
    case Group(inner, next) => [OPEN] + LiteralValue(inner) + [CLOSE] + LiteralValue(next)
  }

  /** How deep the parentheses nest. */
  function Nesting(body: Literal): nat {
    match body
    case EndLiteral => 0
    case Raw(_, next) => Nesting(next)
    case Escaped(_, next) => Nesting(next)
    case Group(inner, next) =>
      if 1 + Nesting(inner) < Nesting(next) then Nesting(next) else 1 + Nesting(inner)
  }

  function HexValue(hex: Hex): seq<byte>
    requires HexOk(hex)
  {
    match hex
    case EndHex(_) => []
    case LoneDigit(_, high, _) => [16 * HexValueOf(high).value]
    case TwoDigits(_, high, _, low, next) => [ByteOf(high, low).value] + HexValue(next)
  }

  function Value(c: Syntax): CosObject
    requires Spelled(c)
  {
    match c
    case NullWord => Null
    case BooleanWord(flag) => Boolean(flag)
    case IntegerToken(sign, digits) => Integer(SignedValue(sign, digits))
    case RealToken(sign, whole, fraction) => Real(sign + (whole + [DOT] + fraction))
    case NameToken(pieces) => Name(NameValue(pieces))
    case LiteralString(body) => String(LiteralValue(body))
    case HexString(hex) => String(HexValue(hex))
    case ReferenceToken(sign, number, gap, generation, white) =>
      Reference(ObjectKey(Decimal(number), Decimal(generation)))
    case ArrayText(items) => Array(ItemsValue(items))
    case DictText(entries) => Dict(EntriesValue(entries, map[]))
  }

  function ItemsValue(items: Items): seq<CosObject>
    requires ItemsSpelled(items)
  {
    match items
    case EndItems(_) => []
    case Item(_, value, next) => [Value(value)] + ItemsValue(next)
  }

  /** A repeated key keeps its last value. */
  function EntriesValue(entries: Entries, acc: Dictionary): Dictionary
    requires EntriesSpelled(entries)
  {
    match entries
    case EndEntries(_) => acc
    case Entry(_, key, _, value, next) => EntriesValue(next, acc[NameValue(key) := Value(value)])
  }

  // ---------------------------------------------------------------------------------------------
  // What must not run together, and what the parser accepts
  // ---------------------------------------------------------------------------------------------

  predicate NameEnds(rest: seq<byte>) {
    rest == [] || !Regular(rest[0])
  }

  predicate NumberEnds(rest: seq<byte>) {
    rest == [] || (!IsDigit(rest[0]) && rest[0] != DOT)
  }

  /** Every token of the tree ends where the text after it begins. */
  predicate Separated(c: Syntax, rest: seq<byte>) {
    match c
    case IntegerToken(_, _) => NumberEnds(rest)
    case RealToken(_, _, _) => NumberEnds(rest)
    case NameToken(_) => NameEnds(rest)
    case ArrayText(items) => ItemsSeparated(items, rest)
    case DictText(entries) => EntriesSeparated(entries, rest)
    case _ => true
  }

  predicate ItemsSeparated(items: Items, rest: seq<byte>) {
    match items
    case EndItems(_) => true
    case Item(_, value, next) => Separated(value, ItemsText(next, rest)) && ItemsSeparated(next, rest)
  }

  predicate EntriesSeparated(entries: Entries, rest: seq<byte>) {
    match entries
    case EndEntries(_) => true
    case Entry(_, _, middle, value, next) =>
      && NameEnds(GapText(middle, Text(value, EntriesText(next, rest))))
      && Separated(value, EntriesText(next, rest))
      && EntriesSeparated(next, rest)
  }

  /** White space and then an unsigned number that is no generation. */
  predicate OverlongFollows(rest: seq<byte>) {
    StartsWithWs(rest) && Decimal(SkipSpace(rest)[..DigitRun(SkipSpace(rest))]) > 0xFFFF
  }

  /** White space, a generation, white space and an `R`. */
  predicate ReferenceFollows(rest: seq<byte>) {
    && StartsWithWs(rest) && DigitRun(SkipSpace(rest)) > 0 && !OverlongFollows(rest)
    && var after := SkipSpace(rest)[DigitRun(SkipSpace(rest))..];
       StartsWithWs(after) && StartsWith(SkipWs(after), [LETTER_R])
  }

  /** The limits hold, every real number is finite, and no integer is directly followed by an unsigned
      number above 65535. */
  predicate Accepted(c: Syntax, rest: seq<byte>, depth: u32, limits: Limits)
    requires Spelled(c)
  {
    && depth <= limits.maxObjectDepth
    && match c
       case IntegerToken(sign, digits) =>
         !OverlongFollows(rest) && (ReferenceFollows(rest) ==> SignedValue(sign, digits) == 0)
       case RealToken(_, whole, _) => IsFinite(whole)
       case NameToken(pieces) => |NameValue(pieces)| <= limits.maxNameBytes
       case LiteralString(body) => LiteralAccepted(body, 1, 0, limits)
       case HexString(hex) => |HexValue(hex)| <= limits.maxStringBytes
       case ArrayText(items) => ItemsAccepted(items, rest, depth, 0, limits)
       case DictText(entries) => EntriesAccepted(entries, rest, depth, map[], limits)
       case _ => true
  }

  predicate LiteralAccepted(body: Literal, depth: u32, read: nat, limits: Limits) {
    read + |LiteralValue(body)| <= limits.maxStringBytes && depth + Nesting(body) <= 0xFFFF_FFFF
  }

  predicate ItemsAccepted(items: Items, rest: seq<byte>, depth: u32, read: nat, limits: Limits)
    requires ItemsSpelled(items)
  {
    match items
    case EndItems(_) => true
    case Item(_, value, next) =>
      && Accepted(value, ItemsText(next, rest), Deeper(depth), limits)
      && read + 1 <= limits.maxArrayLen
      && ItemsAccepted(next, rest, depth, read + 1, limits)
  }

  /** `acc` is what has been read of the dictionary. */
  predicate EntriesAccepted(entries: Entries, rest: seq<byte>, depth: u32, acc: Dictionary, limits: Limits)
    requires EntriesSpelled(entries)
  {
    match entries
    case EndEntries(_) => true
    case Entry(_, key, _, value, next) =>
      && |NameValue(key)| <= limits.maxNameBytes
      && Accepted(value, EntriesText(next, rest), Deeper(depth), limits)
      && |acc| + 1 <= limits.maxDictEntries
      && EntriesAccepted(next, rest, depth, acc[NameValue(key) := Value(value)], limits)
  }
}
