/** Printing and parsing an object: section 7.3 of ISO 32000-1 against the object parser. */
module CosRoundTrip {
  import opened Bytes
  import opened Cos
  import opened CosParsing
  import opened CosSyntax
  import opened CosTokens

  // ---------------------------------------------------------------------------------------------
  // How texts begin
  // ---------------------------------------------------------------------------------------------

  lemma TextStarts(c: Syntax, rest: seq<byte>)
    requires Spelled(c)
    ensures var t := Text(c, rest); Starts(t) && t[0] != RBRACKET && t[0] != LETTER_R
  {
    match c
    case IntegerToken(sign, digits) =>
      assert IsDigit(digits[0]);
    case RealToken(sign, whole, fraction) =>
      assert (whole + [DOT] + fraction)[0] == if whole == [] then DOT else whole[0];
    case ReferenceToken(sign, number, gap, generation, white) =>
      assert Decimal([]) == 0;
      assert IsDigit(number[0]);
    case _ =>
  }

  lemma HexIsNoDictionary(hex: Hex, rest: seq<byte>)
    requires HexOk(hex)
    ensures var t := [LESS] + HexText(hex, [GREATER] + rest); !StartsWith(t, DICT_OPEN)
  {
    var inner := HexText(hex, [GREATER] + rest);
    assert inner != [] && inner[0] != LESS;
    assert ([LESS] + inner)[1] == inner[0];
  }

  lemma LeafIsNoContainer(c: Syntax, rest: seq<byte>)
    requires Spelled(c) && !c.ArrayText? && !c.DictText?
    ensures var t := Text(c, rest); t[0] != LBRACKET && !StartsWith(t, DICT_OPEN)
  {
    TextStarts(c, rest);
    match c
    case IntegerToken(sign, digits) =>
      assert IsDigit(digits[0]);
    case RealToken(sign, whole, fraction) =>
      assert (whole + [DOT] + fraction)[0] == if whole == [] then DOT else whole[0];
    case ReferenceToken(sign, number, gap, generation, white) =>
      assert IsDigit(number[0]);
    case HexString(hex) =>
      HexIsNoDictionary(hex, rest);
    case _ =>
  }

  predicate IsNumeric(c: Syntax) {
    c.IntegerToken? || c.RealToken? || c.ReferenceToken?
  }

  lemma NumericDispatch(c: Syntax, rest: seq<byte>, limits: Limits)
    requires Spelled(c) && IsNumeric(c)
    ensures Text(c, rest) != [] && ParseLeaf(Text(c, rest), limits) == ParseNumberOrReference(Text(c, rest))
  {
    hide ParseNumberOrReference;
    TextStarts(c, rest);
    match c
    case IntegerToken(sign, digits) =>
      assert IsDigit(digits[0]);
    case RealToken(sign, whole, fraction) =>
      assert (whole + [DOT] + fraction)[0] == if whole == [] then DOT else whole[0];
    case ReferenceToken(sign, number, gap, generation, white) =>
      assert IsDigit(number[0]);
  }

  lemma NumericParses(c: Syntax, rest: seq<byte>, depth: u32, limits: Limits)
    requires Spelled(c) && Separated(c, rest) && IsNumeric(c) && depth <= limits.maxObjectDepth
    requires c.IntegerToken? ==> !ReferenceFollows(rest)
    ensures Outcome(ParseNumberOrReference(Text(c, rest)), Accepted(c, rest, depth, limits), Value(c), rest)
  {
    hide ParseNumberOrReference, OverlongFollows, ReferenceFollows, SignedValue, IsFinite;
    match c
    case IntegerToken(sign, digits) =>
      IntegerParses(sign, digits, rest);
    case RealToken(sign, whole, fraction) =>
      RealTokenParses(sign, whole, fraction, rest);
    case ReferenceToken(sign, number, gap, generation, white) =>
      ReferenceParses(sign, number, gap, generation, white, rest);
  }

  lemma WordParses(c: Syntax, rest: seq<byte>, limits: Limits)
    requires c.NullWord? || c.BooleanWord?
    ensures ParseLeaf(Text(c, rest), limits) == Good(Value(c), rest)
  {
    var t := Text(c, rest);
    match c
    case NullWord =>
      assert t[..4] == NULL && t[4..] == rest;
    case BooleanWord(true) =>
      assert t[..4] == TRUE && t[4..] == rest;
    case BooleanWord(false) =>
      assert t[..5] == FALSE && t[5..] == rest;
  }

  lemma LeafParses(c: Syntax, rest: seq<byte>, depth: u32, limits: Limits)
    requires Spelled(c) && Separated(c, rest) && !c.ArrayText? && !c.DictText? && depth <= limits.maxObjectDepth
    requires c.IntegerToken? ==> !ReferenceFollows(rest)
    ensures Text(c, rest) != []
    ensures Outcome(ParseLeaf(Text(c, rest), limits), Accepted(c, rest, depth, limits), Value(c), rest)
  {
    hide ParseNumberOrReference, ParseName, ParseLiteral, ParseHex;
    TextStarts(c, rest);
    if IsNumeric(c) {
      hide ParseLeaf;
      NumericDispatch(c, rest, limits);
      NumericParses(c, rest, depth, limits);
    } else {
      match c
      case NameToken(pieces) =>
        NameTokenParses(pieces, rest, limits);
      case LiteralString(body) =>
        LiteralStringParses(body, rest, limits);
      case HexString(hex) =>
        HexStringParses(hex, rest, limits);
      case _ =>
        WordParses(c, rest, limits);
    }
  }

  // ---------------------------------------------------------------------------------------------
  // Inside a container no `R` can follow a number
  // ---------------------------------------------------------------------------------------------

  /** After white space comes something, and it is no `R`. */
  predicate NoKeyword(s: seq<byte>) {
    !StartsWith(SkipWs(s), [LETTER_R])
  }

  lemma ItemsHaveNoKeyword(items: Items, rest: seq<byte>)
    requires ItemsSpelled(items)
    ensures NoKeyword(ItemsText(items, rest))
  {
    hide SkipWs;
    match items
    case EndItems(gap) =>
      SkipWsOverGap(gap, [RBRACKET] + rest);
    case Item(gap, value, next) =>
      TextStarts(value, ItemsText(next, rest));
      SkipWsOverGap(gap, Text(value, ItemsText(next, rest)));
  }

  predicate NoGeneration(t: seq<byte>) {
    var n := DigitRun(t);
    n > 0 ==> !StartsWithWs(t[n..]) || NoKeyword(t[n..])
  }

  lemma DigitsThen(digits: seq<byte>, tail: seq<byte>)
    requires AllDigits(digits) && (tail == [] || !IsDigit(tail[0])) && (!StartsWithWs(tail) || NoKeyword(tail))
    ensures NoGeneration(digits + tail)
  {
    hide NoKeyword;
    DigitRunIs(digits, tail);
  }

  lemma SignThen(sign: seq<byte>, tail: seq<byte>)
    requires SignOk(sign) && sign != []
    ensures NoGeneration(sign + tail)
  {
    NoDigits(sign + tail);
  }

  lemma IntegerIsNoGeneration(sign: seq<byte>, digits: seq<byte>, after: seq<byte>)
    requires IntegerOk(sign, digits) && NumberEnds(after) && NoKeyword(after)
    ensures NoGeneration(sign + (digits + after))
  {
    hide NoKeyword, NoGeneration, SignedValue;
    if sign == [] {
      assert sign + (digits + after) == digits + after;
      DigitsThen(digits, after);
    } else {
      SignThen(sign, digits + after);
    }
  }

  lemma RealIsNoGeneration(sign: seq<byte>, whole: seq<byte>, fraction: seq<byte>, after: seq<byte>)
    requires SignOk(sign) && AllDigits(whole)
    ensures NoGeneration(sign + ((whole + [DOT] + fraction) + after))
  {
    hide NoKeyword, NoGeneration;
    if sign == [] {
      var tail := [DOT] + (fraction + after);
      assert sign + ((whole + [DOT] + fraction) + after) == whole + tail;
      assert tail[0] == DOT && !IsDigit(tail[0]) && !StartsWithWs(tail);
      DigitsThen(whole, tail);
    } else {
      SignThen(sign, (whole + [DOT] + fraction) + after);
    }
  }

  lemma ReferenceIsNoGeneration(
      sign: seq<byte>, number: seq<byte>, gap: seq<Blank>, generation: seq<byte>, more: seq<byte>)
    requires SignOk(sign) && AllDigits(number) && gap != [] && gap[0].White? && GapOk(gap)
    requires generation != [] && AllDigits(generation)
    ensures NoGeneration(sign + (number + GapText(gap, generation + more)))
  {
    hide NoKeyword, NoGeneration;
    var tail := GapText(gap, generation + more);
    if sign == [] {
      assert sign + (number + tail) == number + tail;
      assert BlankOk(gap[0]) && IsDigit(generation[0]);
      TailHasNoKeyword(gap, generation + more);
      DigitsThen(number, tail);
    } else {
      SignThen(sign, number + tail);
    }
  }

  /** What follows the digits an item begins with is not a reference's end. */
  lemma ItemIsNoGeneration(c: Syntax, after: seq<byte>)
    requires Spelled(c) && Separated(c, after) && NoKeyword(after)
    ensures NoGeneration(Text(c, after))
  {
    hide NoKeyword, NoGeneration, SignedValue;
    match c
    case IntegerToken(sign, digits) =>
      IntegerIsNoGeneration(sign, digits, after);
    case RealToken(sign, whole, fraction) =>
      RealIsNoGeneration(sign, whole, fraction, after);
    case ReferenceToken(sign, number, gap, generation, white) =>
      ReferenceIsNoGeneration(sign, number, gap, generation, white + ([LETTER_R] + after));
    case _ =>
      NonNumericIsNoGeneration(c, after);
  }

  lemma NonNumericIsNoGeneration(c: Syntax, after: seq<byte>)
    requires Spelled(c) && !IsNumeric(c)
    ensures NoGeneration(Text(c, after))
  {
    hide NoKeyword;
    TextStarts(c, after);
    NoDigits(Text(c, after));
  }

  lemma TailHasNoKeyword(gap: seq<Blank>, token: seq<byte>)
    requires GapOk(gap) && Starts(token) && token[0] != LETTER_R
    ensures NoKeyword(GapText(gap, token))
  {
    hide SkipWs;
    SkipWsOverGap(gap, token);
  }

  lemma NoReferenceInArray(items: Items, rest: seq<byte>)
    requires ItemsSpelled(items) && ItemsSeparated(items, rest)
    ensures !ReferenceFollows(ItemsText(items, rest))
  {
    hide SkipWs, DigitRun;
    match items
    case EndItems(gap) =>
      SkipSpaceToToken(gap, [RBRACKET] + rest);
      NoDigits([RBRACKET] + rest);
    case Item(gap, value, next) =>
      var after := ItemsText(next, rest);
      TextStarts(value, after);
      SkipSpaceToToken(gap, Text(value, after));
      ItemsHaveNoKeyword(next, rest);
      ItemIsNoGeneration(value, after);
  }

  lemma NoDigits(s: seq<byte>)
    requires s != [] && !IsDigit(s[0])
    ensures DigitRun(s) == 0
  {
  }

  lemma NoReferenceInDictionary(entries: Entries, rest: seq<byte>)
    requires EntriesSpelled(entries)
    ensures !ReferenceFollows(EntriesText(entries, rest))
  {
    hide SkipWs, DigitRun;
    match entries
    case EndEntries(gap) =>
      SkipSpaceToToken(gap, DICT_CLOSE + rest);
      NoDigits(DICT_CLOSE + rest);
    case Entry(gap, key, middle, value, next) =>
      var token := [SLASH] + NameText(key, GapText(middle, Text(value, EntriesText(next, rest))));
      SkipSpaceToToken(gap, token);
      NoDigits(token);
  }

  // ---------------------------------------------------------------------------------------------
  // Containers
  // ---------------------------------------------------------------------------------------------

  /** Skipping blanks first changes nothing. */
  lemma ParseObjectAfterSpace(s: seq<byte>, depth: u32, limits: Limits)
    ensures ParseObject(s, depth, limits) == ParseObject(SkipSpace(s), depth, limits)
  {
    hide ParseItems, ParseEntries, ParseLeaf;
    SkipSpaceTwice(s);
  }

  lemma StartsIsSpaceless(s: seq<byte>)
    requires Starts(s)
    ensures SkipSpace(s) == s
  {
  }

  lemma ItemsOnce(gap: seq<Blank>, token: seq<byte>, depth: u32, acc: seq<CosObject>, limits: Limits)
    requires GapOk(gap) && Starts(token) && token[0] != RBRACKET
    ensures ParseItems(GapText(gap, token), depth, acc, limits) ==
            var item := ParseObject(token, Deeper(depth), limits);
            if item.Bad? then Bad(item.error)
            else if |acc| + 1 > limits.maxArrayLen then Bad(LimitExceeded(MaxArrayLen))
            else ParseItems(item.rest, depth, acc + [item.value], limits)
  {
    hide ParseObject;
    SkipSpaceToToken(gap, token);
  }

  lemma ItemsEnd(gap: seq<Blank>, rest: seq<byte>, depth: u32, acc: seq<CosObject>, limits: Limits)
    requires GapOk(gap)
    ensures ParseItems(GapText(gap, [RBRACKET] + rest), depth, acc, limits) == Good(acc, rest)
  {
    hide ParseObject;
    SkipSpaceToToken(gap, [RBRACKET] + rest);
    assert ([RBRACKET] + rest)[1..] == rest;
  }

  lemma EntriesEnd(gap: seq<Blank>, rest: seq<byte>, depth: u32, acc: Dictionary, limits: Limits)
    requires GapOk(gap)
    ensures ParseEntries(GapText(gap, DICT_CLOSE + rest), depth, acc, limits) == Good(acc, rest)
  {
    hide ParseObject, ParseName;
    SkipSpaceToToken(gap, DICT_CLOSE + rest);
    assert (DICT_CLOSE + rest)[..2] == DICT_CLOSE && (DICT_CLOSE + rest)[2..] == rest;
  }

  lemma EntriesOnce(gap: seq<Blank>, token: seq<byte>, depth: u32, acc: Dictionary, limits: Limits)
    requires GapOk(gap) && token != [] && token[0] == SLASH
    ensures ParseEntries(GapText(gap, token), depth, acc, limits) ==
            var key := ParseName(token, limits);
            if key.Bad? then Bad(key.error)
            else
              var value := ParseObject(key.rest, Deeper(depth), limits);
              if value.Bad? then Bad(value.error)
              else if |acc| + 1 > limits.maxDictEntries then Bad(LimitExceeded(MaxDictEntries))
              else ParseEntries(value.rest, depth, acc[key.value := value.value], limits)
  {
    hide ParseObject, ParseName;
    SkipSpaceToToken(gap, token);
    assert !StartsWith(token, DICT_CLOSE);
  }

  lemma ArrayOnce(s: seq<byte>, depth: u32, limits: Limits)
    ensures ParseObject([LBRACKET] + s, depth, limits) ==
            if depth > limits.maxObjectDepth then Bad(LimitExceeded(MaxObjectDepth))
            else
              var items := ParseItems(s, depth, [], limits);
              if items.Bad? then Bad(items.error) else Good(Array(items.value), items.rest)
  {
    hide ParseItems, ParseEntries, ParseLeaf;
    StartsIsSpaceless([LBRACKET] + s);
    assert ([LBRACKET] + s)[1..] == s;
  }

  lemma DictOnce(s: seq<byte>, depth: u32, limits: Limits)
    ensures ParseObject(DICT_OPEN + s, depth, limits) ==
            if depth > limits.maxObjectDepth then Bad(LimitExceeded(MaxObjectDepth))
            else
              var entries := ParseEntries(s, depth, map[], limits);
              if entries.Bad? then Bad(entries.error) else Good(Dict(entries.value), entries.rest)
  {
    hide ParseItems, ParseEntries, ParseLeaf;
    StartsIsSpaceless(DICT_OPEN + s);
    assert (DICT_OPEN + s)[..2] == DICT_OPEN && (DICT_OPEN + s)[2..] == s;
  }

  lemma LeafOnce(t: seq<byte>, depth: u32, limits: Limits)
    requires Starts(t) && t[0] != LBRACKET && !StartsWith(t, DICT_OPEN)
    ensures ParseObject(t, depth, limits) ==
            if depth > limits.maxObjectDepth then Bad(LimitExceeded(MaxObjectDepth)) else ParseLeaf(t, limits)
  {
    hide ParseItems, ParseEntries, ParseLeaf;
    StartsIsSpaceless(t);
  }

  /** A printed object is read back with the cursor at its end, or refused. */
  lemma {:induction false} ObjectParses(c: Syntax, rest: seq<byte>, depth: u32, limits: Limits)
    requires Spelled(c) && Separated(c, rest)
    requires c.IntegerToken? ==> !ReferenceFollows(rest)
    ensures Outcome(ParseObject(Text(c, rest), depth, limits), Accepted(c, rest, depth, limits), Value(c), rest)
    decreases c, 0
  {
    hide ParseObject, ParseItems, ParseEntries, ParseLeaf, ReferenceFollows, OverlongFollows;
    match c
    case ArrayText(items) =>
      ArrayOnce(ItemsText(items, rest), depth, limits);
      ItemsParse(items, rest, depth, [], limits);
      assert [] + ItemsValue(items) == ItemsValue(items);
    case DictText(entries) =>
      DictOnce(EntriesText(entries, rest), depth, limits);
      EntriesParse(entries, rest, depth, map[], limits);
    case _ =>
      TextStarts(c, rest);
      LeafIsNoContainer(c, rest);
      LeafOnce(Text(c, rest), depth, limits);
      if depth <= limits.maxObjectDepth {
        LeafParses(c, rest, depth, limits);
      }
  }

  lemma {:induction false} ItemsParse(items: Items, rest: seq<byte>, depth: u32, acc: seq<CosObject>, limits: Limits)
    requires ItemsSpelled(items) && ItemsSeparated(items, rest)
    ensures Outcome(
      ParseItems(ItemsText(items, rest), depth, acc, limits),
      ItemsAccepted(items, rest, depth, |acc|, limits), acc + ItemsValue(items), rest)
    decreases items
  {
    hide ParseObject, ParseItems, Accepted, Value, Text, Spelled, Separated, Deeper;
    match items
    case EndItems(gap) =>
      ItemsEnd(gap, rest, depth, acc, limits);
      assert acc + [] == acc;
    case Item(gap, value, next) =>
      var after := ItemsText(next, rest);
      TextStarts(value, after);
      ItemsOnce(gap, Text(value, after), depth, acc, limits);
      NoReferenceInArray(next, rest);
      ObjectParses(value, after, Deeper(depth), limits);
      if Accepted(value, after, Deeper(depth), limits) {
        ItemsParse(next, rest, depth, acc + [Value(value)], limits);
        assert acc + [Value(value)] + ItemsValue(next) == acc + ItemsValue(items);
      }
  }

  lemma {:induction false} EntriesParse(entries: Entries, rest: seq<byte>, depth: u32, acc: Dictionary, limits: Limits)
    requires EntriesSpelled(entries) && EntriesSeparated(entries, rest)
    ensures Outcome(
      ParseEntries(EntriesText(entries, rest), depth, acc, limits),
      EntriesAccepted(entries, rest, depth, acc, limits), EntriesValue(entries, acc), rest)
    decreases entries
  {
    hide ParseObject, ParseEntries, ParseName, Accepted, Value, Text, Spelled, Separated, Deeper, NameText, NameEnds;
    match entries
    case EndEntries(gap) =>
      EntriesEnd(gap, rest, depth, acc, limits);
    case Entry(gap, key, middle, value, next) =>
      var after := EntriesText(next, rest);
      var afterKey := GapText(middle, Text(value, after));
      EntriesOnce(gap, [SLASH] + NameText(key, afterKey), depth, acc, limits);
      NameTokenParses(key, afterKey, limits);
      ValueParses(middle, value, next, rest, depth, limits);
      if |NameValue(key)| <= limits.maxNameBytes && Accepted(value, after, Deeper(depth), limits) {
        EntriesParse(next, rest, depth, acc[NameValue(key) := Value(value)], limits);
      }
  }

  lemma ValueParses(middle: seq<Blank>, value: Syntax, next: Entries, rest: seq<byte>, depth: u32, limits: Limits)
    requires GapOk(middle) && Spelled(value) && EntriesSpelled(next) && Separated(value, EntriesText(next, rest))
    ensures var after := EntriesText(next, rest);
            Outcome(
              ParseObject(GapText(middle, Text(value, after)), Deeper(depth), limits),
              Accepted(value, after, Deeper(depth), limits), Value(value), after)
    decreases value, 1
  {
    hide ParseObject, Accepted, Value, Text, Spelled, Separated, Deeper;
    var after := EntriesText(next, rest);
    TextStarts(value, after);
    SkipSpaceToToken(middle, Text(value, after));
    ParseObjectAfterSpace(GapText(middle, Text(value, after)), Deeper(depth), limits);
    NoReferenceInDictionary(next, rest);
    ObjectParses(value, after, Deeper(depth), limits);
  }

  // ---------------------------------------------------------------------------------------------
  // Text in front of other text
  // ---------------------------------------------------------------------------------------------

  lemma {:induction false} GapSplits(gap: seq<Blank>, a: seq<byte>, b: seq<byte>)
    ensures GapText(gap, a + b) == GapText(gap, a) + b
  {
    if gap != [] {
      GapSplits(gap[1..], a, b);
      match gap[0]
      case White(w) =>
      case Comment(text, eol) =>
        var x := GapText(gap[1..], a);
        assert [PERCENT] + (text + ([eol] + (x + b))) == [PERCENT] + (text + ([eol] + x)) + b;
    }
  }

  lemma {:induction false} NameSplits(pieces: seq<NamePiece>, a: seq<byte>, b: seq<byte>)
    ensures NameText(pieces, a + b) == NameText(pieces, a) + b
  {
    if pieces != [] {
      NameSplits(pieces[1..], a, b);
    }
  }

  lemma {:induction false} LiteralSplits(body: Literal, a: seq<byte>, b: seq<byte>)
    ensures LiteralText(body, a + b) == LiteralText(body, a) + b
  {
    match body
    case EndLiteral =>
    case Raw(_, next) =>
      LiteralSplits(next, a, b);
    case Escaped(_, next) =>
      LiteralSplits(next, a, b);
    case Group(inner, next) =>
      LiteralSplits(next, a, b);
      assert [CLOSE] + (LiteralText(next, a) + b) == [CLOSE] + LiteralText(next, a) + b;
      LiteralSplits(inner, [CLOSE] + LiteralText(next, a), b);
  }

  lemma {:induction false} HexSplits(hex: Hex, a: seq<byte>, b: seq<byte>)
    ensures HexText(hex, a + b) == HexText(hex, a) + b
  {
    match hex
    case EndHex(white) =>
      assert white + (a + b) == white + a + b;
    case LoneDigit(white, high, after) =>
      assert white + ([high] + (after + (a + b))) == white + ([high] + (after + a)) + b;
    case TwoDigits(white, high, between, low, next) =>
      HexSplits(next, a, b);
      var x := HexText(next, a);
      assert white + ([high] + (between + ([low] + (x + b)))) == white + ([high] + (between + ([low] + x))) + b;
  }

  lemma ReferenceSplits(sign: seq<byte>, number: seq<byte>, gap: seq<Blank>, generation: seq<byte>, white: seq<byte>,
                        a: seq<byte>, b: seq<byte>)
    ensures var c := ReferenceToken(sign, number, gap, generation, white); Text(c, a + b) == Text(c, a) + b
  {
    var x := generation + (white + ([LETTER_R] + a));
    assert generation + (white + ([LETTER_R] + (a + b))) == x + b;
    GapSplits(gap, x, b);
    assert sign + (number + (GapText(gap, x) + b)) == sign + (number + GapText(gap, x)) + b;
  }

  lemma TokenSplits(c: Syntax, a: seq<byte>, b: seq<byte>)
    requires !c.ArrayText? && !c.DictText?
    ensures Text(c, a + b) == Text(c, a) + b
  {
    match c
    case NullWord =>
    case BooleanWord(_) =>
    case IntegerToken(sign, digits) =>
      assert sign + (digits + (a + b)) == sign + (digits + a) + b;
    case RealToken(sign, whole, fraction) =>
      var body := whole + [DOT] + fraction;
      assert sign + (body + (a + b)) == sign + (body + a) + b;
    case NameToken(pieces) =>
      NameSplits(pieces, a, b);
    case LiteralString(body) =>
      assert [CLOSE] + (a + b) == [CLOSE] + a + b;
      LiteralSplits(body, [CLOSE] + a, b);
    case HexString(hex) =>
      assert [GREATER] + (a + b) == [GREATER] + a + b;
      HexSplits(hex, [GREATER] + a, b);
    case ReferenceToken(sign, number, gap, generation, white) =>
      ReferenceSplits(sign, number, gap, generation, white, a, b);
  }

  lemma {:induction false} TextSplits(c: Syntax, a: seq<byte>, b: seq<byte>)
    ensures Text(c, a + b) == Text(c, a) + b
  {
    match c
    case ArrayText(items) =>
      ItemsSplit(items, a, b);
    case DictText(entries) =>
      EntriesSplit(entries, a, b);
    case _ =>
      TokenSplits(c, a, b);
  }

  lemma {:induction false} ItemsSplit(items: Items, a: seq<byte>, b: seq<byte>)
    ensures ItemsText(items, a + b) == ItemsText(items, a) + b
  {
    match items
    case EndItems(gap) =>
      assert [RBRACKET] + (a + b) == [RBRACKET] + a + b;
      GapSplits(gap, [RBRACKET] + a, b);
    case Item(gap, value, next) =>
      ItemsSplit(next, a, b);
      TextSplits(value, ItemsText(next, a), b);
      GapSplits(gap, Text(value, ItemsText(next, a)), b);
  }

  lemma {:induction false} EntriesSplit(entries: Entries, a: seq<byte>, b: seq<byte>)
    ensures EntriesText(entries, a + b) == EntriesText(entries, a) + b
  {
    match entries
    case EndEntries(gap) =>
      assert DICT_CLOSE + (a + b) == DICT_CLOSE + a + b;
      GapSplits(gap, DICT_CLOSE + a, b);
    case Entry(gap, key, middle, value, next) =>
      EntriesSplit(next, a, b);
      var v := Text(value, EntriesText(next, a));
      TextSplits(value, EntriesText(next, a), b);
      GapSplits(middle, v, b);
      NameSplits(key, GapText(middle, v), b);
      assert [SLASH] + (NameText(key, GapText(middle, v)) + b) == [SLASH] + NameText(key, GapText(middle, v)) + b;
      GapSplits(gap, [SLASH] + NameText(key, GapText(middle, v)), b);
  }

  lemma PrintInFront(c: Syntax, rest: seq<byte>)
    ensures Text(c, rest) == Print(c) + rest
  {
    assert [] + rest == rest;
    TextSplits(c, [], rest);
  }

  /** The round trip: a printed object, blanks in front of it and any text behind it that does not run
      into it, is parsed to itself with the cursor at its end exactly when the limits hold and no
      integer in it is directly followed by an unsigned number above 65535. */
  lemma ParseUndoesPrintIff(gap: seq<Blank>, c: Syntax, rest: seq<byte>, depth: u32, limits: Limits)
    requires GapOk(gap) && Spelled(c) && Separated(c, rest)
    ensures ParseObject(GapText(gap, Print(c) + rest), depth, limits) == Good(Value(c), rest)
       <==> Accepted(c, rest, depth, limits)
  {
    hide ParseObject, Accepted, Value;
    PrintInFront(c, rest);
    TextStarts(c, rest);
    SkipSpaceToToken(gap, Text(c, rest));
    ParseObjectAfterSpace(GapText(gap, Text(c, rest)), depth, limits);
    ParseObjectAfterSpace(Text(c, rest), depth, limits);
    StartsIsSpaceless(Text(c, rest));
    if c.IntegerToken? && ReferenceFollows(rest) {
      IntegerBeforeReference(c.sign, c.digits, rest, depth, limits);
    } else {
      ObjectParses(c, rest, depth, limits);
    }
  }

  lemma IntegerBeforeReference(sign: seq<byte>, digits: seq<byte>, rest: seq<byte>, depth: u32, limits: Limits)
    requires IntegerOk(sign, digits) && NumberEnds(rest) && ReferenceFollows(rest)
    ensures var c := IntegerToken(sign, digits);
            ParseObject(Text(c, rest), depth, limits) == Good(Value(c), rest) <==> Accepted(c, rest, depth, limits)
  {
    hide ParseObject, ParseLeaf, ParseNumberOrReference, SignedValue;
    var c := IntegerToken(sign, digits);
    TextStarts(c, rest);
    LeafIsNoContainer(c, rest);
    LeafOnce(Text(c, rest), depth, limits);
    NumericDispatch(c, rest, limits);
    IntegerParses(sign, digits, rest);
  }
}
