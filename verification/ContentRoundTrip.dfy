/** The round trip of content streams: what is written is what is read. */
module ContentRoundTrip {
  import opened Bytes
  import opened Cos
  import opened CosParsing
  import opened CosSyntax
  import opened ContentParsing
  import opened ContentMeaning
  import opened ContentSyntax
  import opened StandardTables
  import opened CosTokens
  import CosRoundTrip

  // ---------------------------------------------------------------------------------------------
  // Blanks
  // ---------------------------------------------------------------------------------------------

  lemma {:induction false} LineEndAfter(text: seq<byte>, eol: byte, rest: seq<byte>)
    requires (eol == LF || eol == CR) && LF !in text && CR !in text
    ensures LineEnd(text + ([eol] + rest)) == [eol] + rest
  {
    var s := text + ([eol] + rest);
    if text == [] {
      assert s == [eol] + rest;
    } else {
      assert s[0] == text[0] && s[1..] == text[1..] + ([eol] + rest);
      LineEndAfter(text[1..], eol, rest);
    }
  }

  lemma SkipBlanksOverBlank(blank: Blank, rest: seq<byte>)
    requires BlankFits(blank)
    ensures SkipBlanks(GapText([blank], rest)) == SkipBlanks(rest)
  {
    assert GapText([blank][1..], rest) == rest;
    match blank
    case White(b) =>
      SkipWsOnce(b, rest);
    case Comment(text, eol) =>
      var s := [PERCENT] + (text + ([eol] + rest));
      assert !IsWs(PERCENT) && SkipWs(s) == s;
      assert SkipBlanks(s) == SkipBlanks(LineEnd(s));
      assert s == ([PERCENT] + text) + ([eol] + rest);
      LineEndAfter([PERCENT] + text, eol, rest);
      SkipWsOnce(eol, rest);
  }

  lemma {:induction false} SkipBlanksOverGap(gap: seq<Blank>, rest: seq<byte>)
    requires GapFits(gap)
    ensures SkipBlanks(GapText(gap, rest)) == SkipBlanks(rest)
  {
    if gap != [] {
      GapStep(gap, rest);
      SkipBlanksOverBlank(gap[0], GapText(gap[1..], rest));
      SkipBlanksOverGap(gap[1..], rest);
    }
  }

  // ---------------------------------------------------------------------------------------------
  // Words and names
  // ---------------------------------------------------------------------------------------------

  lemma {:induction false} RegularRunIs(word: seq<byte>, rest: seq<byte>)
    requires (forall k | 0 <= k < |word| :: IsRegular(word[k])) && WordEnds(rest)
    ensures RegularRun(word + rest) == |word|
  {
    if word == [] {
      assert word + rest == rest;
    } else {
      assert (word + rest)[1..] == word[1..] + rest;
      RegularRunIs(word[1..], rest);
    }
  }

  lemma {:induction false} NameIsRegular(pieces: seq<NamePiece>)
    requires NameOk(pieces)
    ensures forall k | 0 <= k < |CosSyntax.NameText(pieces, [])| :: IsRegular(CosSyntax.NameText(pieces, [])[k])
  {
    if pieces != [] {
      assert PieceOk(pieces[0]);
      NameIsRegular(pieces[1..]);
    }
  }

  lemma {:induction false} NameDecodes(pieces: seq<NamePiece>)
    requires NameOk(pieces)
    ensures DecodeName(CosSyntax.NameText(pieces, [])) == NameValue(pieces)
  {
    if pieces != [] {
      var tail := CosSyntax.NameText(pieces[1..], []);
      assert PieceOk(pieces[0]);
      NameDecodes(pieces[1..]);
      match pieces[0]
      case Plain(b) =>
        assert ([b] + tail)[1..] == tail;
      case HexEscape(high, low) =>
        assert ([HASH, high, low] + tail)[3..] == tail;
    }
  }

  // ---------------------------------------------------------------------------------------------
  // Strings
  // ---------------------------------------------------------------------------------------------

  /** The end of a string is found behind its body, unless parentheses nest too deep to count. */
  predicate EndsBehind(body: Literal, rest: seq<byte>, depth: u32)
    requires depth > 0
  {
    if depth + Nesting(body) <= 0xFFFF_FFFF then LiteralEnd(LiteralText(body, rest), depth) == LiteralEnd(rest, depth)
    else LiteralEnd(LiteralText(body, rest), depth).Bad?
  }

  lemma {:induction false} LiteralPassed(body: Literal, rest: seq<byte>, depth: u32)
    requires LiteralOk(body) && depth > 0
    ensures EndsBehind(body, rest, depth)
  {
    match body
    case EndLiteral =>
    case Raw(b, next) =>
      assert ([b] + LiteralText(next, rest))[1..] == LiteralText(next, rest);
      LiteralPassed(next, rest, depth);
    case Escaped(code, next) =>
      assert ([BACKSLASH, code] + LiteralText(next, rest))[2..] == LiteralText(next, rest);
      LiteralPassed(next, rest, depth);
    case Group(inner, next) =>
      var after := [CLOSE] + LiteralText(next, rest);
      assert ([OPEN] + LiteralText(inner, after))[1..] == LiteralText(inner, after);
      assert after[1..] == LiteralText(next, rest);
      if depth < 0xFFFF_FFFF {
        LiteralPassed(inner, after, depth + 1);
        LiteralPassed(next, rest, depth);
      }
  }

  lemma StringPassed(body: Literal, rest: seq<byte>)
    requires LiteralOk(body)
    ensures var r := LiteralEnd(LiteralText(body, [CLOSE] + rest), 1);
            if 1 + Nesting(body) <= 0xFFFF_FFFF then r == Good((), rest) else r.Bad?
  {
    LiteralPassed(body, [CLOSE] + rest, 1);
    assert ([CLOSE] + rest)[1..] == rest;
  }

  lemma {:induction false} HexPassed(hex: seq<byte>, rest: seq<byte>)
    requires GREATER !in hex
    ensures HexEnd(hex + ([GREATER] + rest)) == Good((), rest)
  {
    var s := hex + ([GREATER] + rest);
    if hex == [] {
      assert s == [GREATER] + rest;
    } else {
      assert s[0] == hex[0] && s[1..] == hex[1..] + ([GREATER] + rest);
      HexPassed(hex[1..], rest);
    }
  }

  // ---------------------------------------------------------------------------------------------
  // Arrays and dictionaries
  // ---------------------------------------------------------------------------------------------

  /** The end of a composite is looked for behind its inside, unless something in it nests too deep. */
  predicate PassesInside(inside: Inside, rest: seq<byte>, stack: seq<byte>, max: u32) {
    if |stack| + Depth(inside) <= max && StringsFit(inside) then
      CompositeEnd(InsideText(inside, rest), stack, max) == CompositeEnd(rest, stack, max)
    else CompositeEnd(InsideText(inside, rest), stack, max).Bad?
  }

  lemma {:induction false} InsidePassed(inside: Inside, rest: seq<byte>, stack: seq<byte>, max: u32)
    requires InsideSpelled(inside) && stack != [] && |stack| <= max
    ensures PassesInside(inside, rest, stack, max)
    decreases inside, 1
  {
    match inside
    case EndInside =>
    case Other(b, next) =>
      OtherOnce(b, InsideText(next, rest), stack, max);
      InsidePassed(next, rest, stack, max);
    case Quoted(body, next) =>
      var after := InsideText(next, rest);
      QuotedOnce(body, after, stack, max);
      InsidePassed(next, rest, stack, max);
    case Digits(hex, next) =>
      var after := InsideText(next, rest);
      DigitsOnce(hex, after, stack, max);
      InsidePassed(next, rest, stack, max);
    case Nested(dictionary, inner, next) =>
      NestedPassed(dictionary, inner, next, rest, stack, max);
  }

  lemma OtherOnce(b: byte, s: seq<byte>, stack: seq<byte>, max: u32)
    requires b != LBRACKET && b != RBRACKET && b != LESS && b != GREATER && b != OPEN && |stack| <= max
    ensures CompositeEnd([b] + s, stack, max) == CompositeEnd(s, stack, max)
  {
    assert ([b] + s)[1..] == s;
  }

  lemma QuotedOnce(body: Literal, after: seq<byte>, stack: seq<byte>, max: u32)
    requires LiteralOk(body) && |stack| <= max
    ensures var r := CompositeEnd([OPEN] + LiteralText(body, [CLOSE] + after), stack, max);
            if 1 + Nesting(body) <= 0xFFFF_FFFF then r == CompositeEnd(after, stack, max) else r.Bad?
  {
    hide LiteralEnd;
    var t := LiteralText(body, [CLOSE] + after);
    assert ([OPEN] + t)[1..] == t;
    StringPassed(body, after);
  }

  lemma DigitsOnce(hex: seq<byte>, after: seq<byte>, stack: seq<byte>, max: u32)
    requires HexSpelled(hex) && |stack| <= max
    ensures CompositeEnd([LESS] + (hex + ([GREATER] + after)), stack, max) == CompositeEnd(after, stack, max)
  {
    hide HexEnd;
    var t := hex + ([GREATER] + after);
    assert t[0] != LESS;
    assert ([LESS] + t)[1..] == t;
    HexPassed(hex, after);
  }

  lemma BracketOpens(dictionary: bool, s: seq<byte>, stack: seq<byte>, max: u32)
    requires |stack| <= max
    ensures CompositeEnd(OpenText(dictionary) + s, stack, max)
            == CompositeGoesOn(s, stack + [if dictionary then GREATER else RBRACKET], max, |OpenText(dictionary) + s|)
  {
    var t := OpenText(dictionary) + s;
    assert t[|OpenText(dictionary)|..] == s;
  }

  lemma BracketCloses(dictionary: bool, s: seq<byte>, stack: seq<byte>, max: u32)
    requires stack != [] && |stack| <= max
    ensures CompositeEnd(
              CloseText(dictionary) + s, stack + [if dictionary then GREATER else RBRACKET], max)
            == CompositeEnd(s, stack, max)
    ensures CompositeEnd(CloseText(dictionary) + s, [if dictionary then GREATER else RBRACKET], max) == Good((), s)
  {
    var t := CloseText(dictionary) + s;
    assert t[|CloseText(dictionary)|..] == s;
    var more := stack + [if dictionary then GREATER else RBRACKET];
    assert more[..|more| - 1] == stack;
  }

  lemma NestedPassed(
      dictionary: bool, inner: Inside, next: Inside, rest: seq<byte>, stack: seq<byte>, max: u32)
    requires InsideSpelled(inner) && InsideSpelled(next) && stack != [] && |stack| <= max
    ensures PassesInside(Nested(dictionary, inner, next), rest, stack, max)
    decreases Nested(dictionary, inner, next), 0
  {
    hide CompositeEnd;
    var after := InsideText(next, rest);
    var closed := CloseText(dictionary) + after;
    var more := stack + [if dictionary then GREATER else RBRACKET];
    BracketOpens(dictionary, InsideText(inner, closed), stack, max);
    if |more| <= max {
      InsidePassed(inner, closed, more, max);
      BracketCloses(dictionary, after, stack, max);
      InsidePassed(next, rest, stack, max);
    }
  }

  lemma CompositePassed(dictionary: bool, inside: Inside, rest: seq<byte>, max: u32)
    requires InsideSpelled(inside)
    ensures var r := CompositeEnd(OpenText(dictionary) + InsideText(inside, CloseText(dictionary) + rest), [], max);
            if 1 + Depth(inside) <= max && StringsFit(inside) then r == Good((), rest) else r.Bad?
  {
    hide CompositeEnd;
    var closed := CloseText(dictionary) + rest;
    var stack := [if dictionary then GREATER else RBRACKET];
    BracketOpens(dictionary, InsideText(inside, closed), [], max);
    assert [] + stack == stack;
    if 1 <= max {
      InsidePassed(inside, closed, stack, max);
      BracketCloses(dictionary, rest, stack, max);
    }
  }

  // ---------------------------------------------------------------------------------------------
  // Tokens
  // ---------------------------------------------------------------------------------------------

  lemma {:induction false} InsideSplits(inside: Inside, a: seq<byte>, b: seq<byte>)
    ensures InsideText(inside, a + b) == InsideText(inside, a) + b
  {
    match inside
    case EndInside =>
    case Other(_, next) =>
      InsideSplits(next, a, b);
    case Quoted(body, next) =>
      InsideSplits(next, a, b);
      assert [CLOSE] + (InsideText(next, a) + b) == [CLOSE] + InsideText(next, a) + b;
      CosRoundTrip.LiteralSplits(body, [CLOSE] + InsideText(next, a), b);
    case Digits(hex, next) =>
      InsideSplits(next, a, b);
      assert hex + ([GREATER] + (InsideText(next, a) + b)) == hex + ([GREATER] + InsideText(next, a)) + b;
    case Nested(dictionary, inner, next) =>
      InsideSplits(next, a, b);
      var closed := CloseText(dictionary) + InsideText(next, a);
      assert CloseText(dictionary) + (InsideText(next, a) + b) == closed + b;
      InsideSplits(inner, closed, b);
  }

  lemma Joined(a: seq<byte>, b: seq<byte>, c: seq<byte>)
    ensures a + (b + c) == a + b + c && [] + c == c && a + [] == a
  {
  }

  /** The text of a token stands in front of what follows it. */
  lemma TokenSplits(token: Written, rest: seq<byte>)
    ensures TokenText(token, rest) == TokenText(token, []) + rest
  {
    hide CosSyntax.NameText, LiteralText, InsideText;
    match token
    case NameText(pieces) =>
      CosRoundTrip.NameSplits(pieces, [], rest);
      Joined([SLASH], CosSyntax.NameText(pieces, []), rest);
    case StringText(body) =>
      CosRoundTrip.LiteralSplits(body, [CLOSE], rest);
      Joined([CLOSE], [], rest);
      Joined([OPEN], LiteralText(body, [CLOSE]), rest);
    case HexText(hex) =>
      Joined([GREATER], [], rest);
      Joined(hex, [GREATER], rest);
      Joined([LESS], hex + [GREATER], rest);
    case CompositeText(dictionary, inside) =>
      InsideSplits(inside, CloseText(dictionary), rest);
      Joined(CloseText(dictionary), [], rest);
      Joined(OpenText(dictionary), InsideText(inside, CloseText(dictionary)), rest);
    case Word(word) =>
      Joined(word, [], rest);
  }

  /** A token is read as what it says with the cursor behind it, or refused. */
  predicate TokenOutcome(token: Written, rest: seq<byte>, limits: ContentLimits, isNumber: NumberTest)
    requires TokenSpelled(token) && TokenText(token, rest) != []
  {
    var r := TokenAt(TokenText(token, rest), limits, isNumber);
    if TokenFits(token, limits, isNumber) then r == Good(Some(TokenValue(token, limits, isNumber)), rest) else r.Bad?
  }

  lemma TokenReads(token: Written, rest: seq<byte>, limits: ContentLimits, isNumber: NumberTest)
    requires TokenSpelled(token) && TokenEnds(token, rest)
    ensures TokenText(token, rest) != [] && SkipBlanks(TokenText(token, rest)) == TokenText(token, rest)
    ensures TokenOutcome(token, rest, limits, isNumber)
  {
    match token
    case NameText(pieces) =>
      NameReads(pieces, rest, limits, isNumber);
    case StringText(body) =>
      StringReads(body, rest, limits, isNumber);
    case HexText(hex) =>
      HexReads(hex, rest, limits, isNumber);
    case CompositeText(dictionary, inside) =>
      CompositeReads(dictionary, inside, rest, limits, isNumber);
    case Word(word) =>
      WordReads(word, rest, limits, isNumber);
  }

  lemma NameReads(pieces: seq<NamePiece>, rest: seq<byte>, limits: ContentLimits, isNumber: NumberTest)
    requires NameOk(pieces) && WordEnds(rest)
    ensures TokenOutcome(NameText(pieces), rest, limits, isNumber)
  {
    var word := CosSyntax.NameText(pieces, []);
    NameIsRegular(pieces);
    NameDecodes(pieces);
    CosRoundTrip.NameSplits(pieces, [], rest);
    assert [] + rest == rest;
    hide RegularRun, DecodeName, CosSyntax.NameText, NameOk;
    RegularRunIs(word, rest);
    assert ([SLASH] + (word + rest))[1..] == word + rest;
  }

  lemma StringReads(body: Literal, rest: seq<byte>, limits: ContentLimits, isNumber: NumberTest)
    requires LiteralOk(body)
    ensures TokenOutcome(StringText(body), rest, limits, isNumber)
  {
    StringPassed(body, rest);
    TokenSplits(StringText(body), rest);
    var t := LiteralText(body, [CLOSE] + rest);
    hide LiteralEnd, LiteralText, Nesting, LiteralOk;
    assert ([OPEN] + t)[1..] == t;
  }

  lemma HexReads(hex: seq<byte>, rest: seq<byte>, limits: ContentLimits, isNumber: NumberTest)
    requires HexSpelled(hex)
    ensures TokenOutcome(HexText(hex), rest, limits, isNumber)
  {
    HexPassed(hex, rest);
    TokenSplits(HexText(hex), rest);
    var t := hex + ([GREATER] + rest);
    assert t[0] != LESS;
    hide HexEnd;
    assert ([LESS] + t)[1..] == t;
  }

  lemma CompositeReads(dictionary: bool, inside: Inside, rest: seq<byte>, limits: ContentLimits, isNumber: NumberTest)
    requires InsideSpelled(inside)
    ensures TokenOutcome(CompositeText(dictionary, inside), rest, limits, isNumber)
  {
    CompositePassed(dictionary, inside, rest, limits.maxObjectDepth);
    TokenSplits(CompositeText(dictionary, inside), rest);
    hide CompositeEnd, InsideText, InsideSpelled, StringsFit, Depth;
  }

  lemma KeywordsSpelled(word: seq<byte>)
    ensures IsKeyword(word) <==> Characters(word) in {"true", "false", "null", "R"}
  {
    var text := Characters(word);
    if text == "true" || text == "null" {
      assert word == [text[0] as int, text[1] as int, text[2] as int, text[3] as int];
    } else if text == "false" {
      assert word == [text[0] as int, text[1] as int, text[2] as int, text[3] as int, text[4] as int];
    } else if text == "R" {
      assert word == [text[0] as int];
    }
    assert Characters(TRUE) == "true" && Characters(FALSE) == "false";
    assert Characters(NULL) == "null" && Characters(KEYWORD_R) == "R";
  }

  /** A word is read as the integer it spells. */
  lemma IntegerWordIs(word: seq<byte>)
    ensures IntegerWord(word) == IntegerSpelled(word)
  {
    var n := SignLength(word);
    var digits := word[n..];
    assert word[..n] == [] || word[..n] == [PLUS] || word[..n] == [MINUS];
    if AllDigits(digits) {
      DecimalIsPositional(digits);
    }
  }

  lemma WordMeans(word: seq<byte>, limits: ContentLimits, isNumber: NumberTest)
    requires WordSpelled(word)
    ensures var token := WordToken(word, limits, isNumber);
            WordMeaning(word, limits, isNumber) == if token.Ok? then Some(token.value) else None
  {
    KeywordsSpelled(word);
    IntegerWordIs(word);
    hide IntegerWord, IntegerSpelled, IsKeyword;
  }

  lemma WordReads(word: seq<byte>, rest: seq<byte>, limits: ContentLimits, isNumber: NumberTest)
    requires WordSpelled(word) && WordEnds(rest)
    ensures TokenOutcome(Word(word), rest, limits, isNumber)
  {
    RegularRunIs(word, rest);
    WordMeans(word, limits, isNumber);
    hide RegularRun, WordToken, WordMeaning;
    assert IsRegular(word[0]);
  }

  lemma NextReads(gap: seq<Blank>, token: Written, rest: seq<byte>, limits: ContentLimits, isNumber: NumberTest)
    requires GapFits(gap) && TokenSpelled(token) && TokenEnds(token, rest) && TokenFits(token, limits, isNumber)
    ensures NextToken(GapText(gap, TokenText(token, rest)), limits, isNumber)
            == Good(Some(TokenValue(token, limits, isNumber)), rest)
  {
    SkipBlanksOverGap(gap, TokenText(token, rest));
    TokenReads(token, rest, limits, isNumber);
    hide SkipBlanks, TokenText, TokenAt, TokenFits, TokenValue, GapText;
  }

  lemma OperatorReads(gap: seq<Blank>, word: seq<byte>, rest: seq<byte>, limits: ContentLimits, isNumber: NumberTest)
    requires GapFits(gap) && WordSpelled(word) && WordEnds(rest) && IsOperator(word, limits, isNumber)
    ensures NextToken(GapText(gap, word + rest), limits, isNumber) == Good(Some(OperatorToken(word)), rest)
  {
    NextReads(gap, Word(word), rest, limits, isNumber);
  }

  // ---------------------------------------------------------------------------------------------
  // Inline images
  // ---------------------------------------------------------------------------------------------

  /** Data are read to their end exactly when `EI` does not stand alone in them and they are within the cap. */
  lemma {:induction false} DataReadIff(
      data: seq<byte>, last: byte, rest: seq<byte>, afterWs: bool, scanned: nat, max: nat)
    requires IsWs(last) && WordEnds(rest)
    ensures DataEnd(data + ([last] + (EI + rest)), afterWs, scanned, max) == Good((), rest)
            <==> !EndsWithin(data, afterWs) && scanned + |data| + 1 <= max
  {
    var tail := [last] + (EI + rest);
    var s := data + tail;
    if data == [] {
      assert s == tail && s[1..] == EI + rest && (EI + rest)[2..] == rest;
      assert !EndsData(s, afterWs);
      assert EndsData(EI + rest, true) by {
        assert (EI + rest)[..2] == EI;
      }
    } else {
      assert s[0] == data[0] && s[1..] == data[1..] + tail;
      EndsDataSame(data, tail, afterWs);
      DataReadIff(data[1..], last, rest, IsWs(data[0]), scanned + 1, max);
    }
  }

  lemma EndsDataSame(data: seq<byte>, tail: seq<byte>, afterWs: bool)
    requires data != [] && tail != [] && IsWs(tail[0])
    ensures EndsData(data + tail, afterWs) <==> EndsData(data, afterWs)
  {
    var s := data + tail;
    if |data| >= 2 {
      assert s[..2] == data[..2];
    } else {
      assert s[1] == tail[0];
    }
  }

  lemma {:induction false} EntriesRead(
      items: seq<Item>, rest: seq<byte>, key: Option<seq<byte>>, entries: ImageEntries, limits: ContentLimits,
      isNumber: NumberTest, after: seq<byte>)
    requires TokensOk(items, rest, limits, isNumber)
    requires OperatorToken(ID) !in TokensValue(items, rest, limits, isNumber)
    requires NextToken(rest, limits, isNumber) == Good(Some(OperatorToken(ID)), after)
    ensures ImageEntriesOf(TokensText(items, rest), key, entries, limits, isNumber)
            == Good(EntriesFrom(TokensValue(items, rest, limits, isNumber), key, entries), after)
  {
    hide TokenText, GapText, NextToken, TokenValue, TokenFits, TokenSpelled;
    if items == [] {
      assert Matches(ID, "ID");
    } else {
      var more := TokensText(items[1..], rest);
      NextReads(items[0].gap, items[0].token, more, limits, isNumber);
      var values := TokensValue(items, rest, limits, isNumber);
      assert values[1..] == TokensValue(items[1..], rest, limits, isNumber);
      assert values[0] == TokenValue(items[0].token, limits, isNumber);
      match values[0]
      case OperatorToken(word) =>
        IdIsId(word);
        EntriesRead(
          items[1..], rest, None, if key.Some? then entries[key.value := KeywordOperand(word)] else entries, limits,
          isNumber, after);
      case OperandToken(operand) =>
        if key.Some? {
          EntriesRead(items[1..], rest, None, entries[key.value := operand], limits, isNumber, after);
        } else {
          EntriesRead(
            items[1..], rest, if operand.NameOperand? then Some(operand.name) else None, entries, limits, isNumber, after);
        }
    }
  }

  lemma IdIsId(word: seq<byte>)
    ensures Matches(word, "ID") <==> word == ID
  {
    assert Ascii("ID") == ID;
  }

  /** An inline image is read as what it says, up to its `EI`, exactly when its data allow it. */
  lemma ImageReadIff(image: ImageText, rest: seq<byte>, limits: ContentLimits, isNumber: NumberTest)
    requires ImageSpelled(image, rest, limits, isNumber)
    ensures ParseImage(ImageTextOf(image, rest), limits, isNumber)
            == Good(ImageValue(image, rest, limits, isNumber), rest)
            <==> DataOk(image.data, limits)
  {
    hide TokensText, TokensOk, TokensValue, ImageEntriesOf, EntriesFrom, ImageOf, DataEnd, EndsWithin, GapText, NextToken;
    var data := DataText(image, rest);
    var behind := GapText(image.gap, ID + data);
    assert IsRegular(ID[0]) && IsRegular(ID[1]);
    OperatorReads(image.gap, ID, data, limits, isNumber);
    EntriesRead(image.entries, behind, None, map[], limits, isNumber, data);
    var s := image.data + ([image.last] + (EI + rest));
    assert data[0] == image.first && data[1..] == s;
    assert ImageDataEnd(data, limits.maxInlineImageBytes) == DataEnd(s, true, 0, limits.maxInlineImageBytes);
    DataReadIff(image.data, image.last, rest, true, 0, limits.maxInlineImageBytes);
    var end := DataEnd(s, true, 0, limits.maxInlineImageBytes);
    assert end.Good? ==> end.value == ();
  }

  // ---------------------------------------------------------------------------------------------
  // Operations and streams
  // ---------------------------------------------------------------------------------------------

  lemma {:induction false} PrefixBytes(all: seq<Operand>, n: nat)
    requires n <= |all|
    ensures TotalBytes(all[..n]) <= TotalBytes(all)
  {
    if n == |all| {
      assert all[..n] == all;
    } else {
      assert all[..|all| - 1][..n] == all[..n];
      PrefixBytes(all[..|all| - 1], n);
    }
  }

  /** No cap is in the way of any of these operands. */
  predicate AllFit(all: seq<Operand>, limits: ContentLimits) {
    |all| <= limits.maxOperandCount && TotalBytes(all) <= limits.maxOperandBytes && TotalBytes(all) <= 0xFFFF_FFFF_FFFF_FFFF
  }

  lemma NextFits(all: seq<Operand>, n: nat, limits: ContentLimits)
    requires AllFit(all, limits) && n < |all|
    ensures !CapReached(all[..n], all[n], limits) && TotalBytes(all[..n]) + ByteLen(all[n]) <= 0xFFFF_FFFF_FFFF_FFFF
  {
    PrefixBytes(all, n + 1);
    assert all[..n + 1][..n] == all[..n];
  }

  lemma {:induction false} OperandsRead(
      items: seq<Item>, rest: seq<byte>, all: seq<Operand>, n: nat, seen: nat, limits: ContentLimits,
      isNumber: NumberTest)
    requires TokensOk(items, rest, limits, isNumber) && AllOperands(TokensValue(items, rest, limits, isNumber))
    requires AllFit(all, limits) && n <= |all| && all[n..] == OperandsOf(TokensValue(items, rest, limits, isNumber))
    ensures ContentOf(TokensText(items, rest), all[..n], 0, seen, limits, isNumber)
            == ContentOf(rest, all, 0, seen, limits, isNumber)
  {
    hide TokenText, GapText, NextToken, TokenValue, TokenFits, TokenSpelled, AllFit, AfterOperator, ByteLen, TotalBytes;
    if items == [] {
      assert all[..n] == all;
    } else {
      var more := TokensText(items[1..], rest);
      NextReads(items[0].gap, items[0].token, more, limits, isNumber);
      var values := TokensValue(items, rest, limits, isNumber);
      assert values[1..] == TokensValue(items[1..], rest, limits, isNumber);
      assert AllOperands(values[1..]);
      assert values[0] == TokenValue(items[0].token, limits, isNumber) && values[0] == OperandToken(all[n]) by {
        assert all[n..][0] == all[n];
      }
      assert all[n + 1..] == all[n..][1..];
      NextFits(all, n, limits);
      OperandsRead(items[1..], rest, all, n + 1, seen, limits, isNumber);
      assert all[..n] + [all[n]] == all[..n + 1];
      OperandOnce(TokensText(items, rest), all[n], more, all[..n], seen, limits, isNumber);
    }
  }

  lemma OperandOnce(
      s: seq<byte>, operand: Operand, rest: seq<byte>, operands: seq<Operand>, seen: nat, limits: ContentLimits,
      isNumber: NumberTest)
    requires NextToken(s, limits, isNumber) == Good(Some(OperandToken(operand)), rest)
    requires !CapReached(operands, operand, limits) && TotalBytes(operands) + ByteLen(operand) <= 0xFFFF_FFFF_FFFF_FFFF
    ensures ContentOf(s, operands, 0, seen, limits, isNumber)
            == ContentOf(rest, operands + [operand], 0, seen, limits, isNumber)
  {
    hide NextToken, CapReached, TotalBytes, ByteLen, AfterOperator;
  }

  /** One operation is read as one step, and reading goes on behind it. */
  lemma OperationReads(o: Operation, rest: seq<byte>, seen: nat, limits: ContentLimits, isNumber: NumberTest)
    requires OperationSpelled(o, rest, limits, isNumber) && OperationFits(o, rest, limits, isNumber)
    requires seen < limits.maxOps
    ensures ContentOf(OperationText(o, rest), [], 0, seen, limits, isNumber)
            == Prepend([StepFor(o, rest, limits, isNumber)], ContentOf(rest, [], 0, seen + 1, limits, isNumber))
  {
    var after := AfterWord(o, rest);
    var behind := GapText(o.gap, o.word + after);
    var all := StepFor(o, rest, limits, isNumber).operands;
    assert all[..0] == [] && all[0..] == all;
    OperandsRead(o.operands, behind, all, 0, seen, limits, isNumber);
    OperatorReads(o.gap, o.word, after, limits, isNumber);
    if o.image.Some? {
      ImageReadIff(o.image.value, rest, limits, isNumber);
    }
    hide TokensText, TokensOk, TokensValue, GapText, NextToken, ParseImage, ImageTextOf, ImageValue, ImageSpelled;
    hide FaultOf, WordToken, AfterOperand;
    OperatorOnce(behind, o.word, after, all, seen, limits, isNumber);
  }

  lemma OperatorOnce(
      s: seq<byte>, word: seq<byte>, rest: seq<byte>, operands: seq<Operand>, seen: nat, limits: ContentLimits,
      isNumber: NumberTest)
    requires NextToken(s, limits, isNumber) == Good(Some(OperatorToken(word)), rest)
    ensures ContentOf(s, operands, 0, seen, limits, isNumber)
            == AfterOperator(word, rest, operands, 0, seen, limits, isNumber)
  {
    hide NextToken, AfterOperator, AfterOperand;
  }

  /** The round trip: a written stream, within the caps, is read as exactly its operations. */
  lemma {:induction false} ContentUndoesWriting(
      operations: seq<Operation>, gap: seq<Blank>, seen: nat, limits: ContentLimits, isNumber: NumberTest)
    requires StreamOk(operations, gap, limits, isNumber) && seen + |operations| <= limits.maxOps
    ensures ContentOf(StreamText(operations, gap), [], 0, seen, limits, isNumber)
            == Content(StepsFor(operations, gap, limits, isNumber), [], 0, Finished)
  {
    hide OperationText, OperationSpelled, OperationFits, StepFor, NextToken;
    if operations == [] {
      NothingLeft(gap, seen, limits, isNumber);
    } else {
      var rest := StreamText(operations[1..], gap);
      OperationReads(operations[0], rest, seen, limits, isNumber);
      ContentUndoesWriting(operations[1..], gap, seen + 1, limits, isNumber);
    }
  }

  lemma NothingLeft(gap: seq<Blank>, seen: nat, limits: ContentLimits, isNumber: NumberTest)
    requires GapFits(gap)
    ensures ContentOf(GapText(gap, []), [], 0, seen, limits, isNumber) == Content([], [], 0, Finished)
  {
    SkipBlanksOverGap(gap, []);
    assert SkipBlanks([]) == [];
  }

  // ---------------------------------------------------------------------------------------------
  // The tokenizer against the object parser
  // ---------------------------------------------------------------------------------------------

  /** A name the object parser reads is the same name in a content stream, and ends at the same place. */
  lemma {:induction false} NamesAgree(s: seq<byte>, acc: seq<byte>, limits: Limits)
    requires |acc| <= limits.maxNameBytes
    ensures var r := NameBytes(s, acc, limits);
            r.Good? ==> r.value == acc + DecodeName(s[..RegularRun(s)]) && r.rest == s[RegularRun(s)..]
  {
    hide NameBytes, DecodeName, RegularRun;
    if NameBytes(s, acc, limits).Good? {
      var n := RegularRun(s);
      var k, b := NameByteRead(s, acc, limits);
      if k > 0 {
        NamesAgree(s[k..], acc + [b], limits);
        var more := DecodeName(s[k..][..n - k]);
        assert acc + [b] + more == acc + ([b] + more);
        assert s[k..][n - k..] == s[n..];
      } else {
        assert acc + [] == acc;
      }
    }
  }

  /** One byte of a name: `b` is spelled by `k` bytes; none at its end. */
  lemma NameByteRead(s: seq<byte>, acc: seq<byte>, limits: Limits) returns (k: nat, b: byte)
    requires |acc| <= limits.maxNameBytes && NameBytes(s, acc, limits).Good?
    ensures k == 0 ==> DecodeName(s[..RegularRun(s)]) == [] && NameBytes(s, acc, limits) == Good(acc, s[RegularRun(s)..])
    ensures k > 0 ==>
              && k <= RegularRun(s) && |acc| < limits.maxNameBytes
              && NameBytes(s, acc, limits) == NameBytes(s[k..], acc + [b], limits)
              && RegularRun(s) == k + RegularRun(s[k..])
              && DecodeName(s[..RegularRun(s)]) == [b] + DecodeName(s[k..][..RegularRun(s) - k])
  {
    var n := RegularRun(s);
    if n == 0 {
      k, b := 0, 0;
      assert s[..0] == [] && s[0..] == s;
    } else if s[0] == HASH {
      k, b := 3, HexPair(s[1], s[2]).value;
      HexIsRegular(s);
      assert s[1..][1..] == s[2..] && s[2..][1..] == s[3..];
      assert s[..n][3..] == s[3..][..n - 3];
    } else {
      k, b := 1, s[0];
      assert s[..n][1..] == s[1..][..n - 1];
    }
  }

  lemma HexIsRegular(s: seq<byte>)
    requires |s| >= 3 && HexPair(s[1], s[2]).Some?
    ensures IsRegular(s[1]) && IsRegular(s[2])
  {
  }

  predicate OpensNothing(b: byte) {
    Delimiter(b) && b != SLASH && b != OPEN && b != LESS && b != LBRACKET
  }

  /** A word that is nothing but an operator name, and too long for one. */
  predicate IsLongOperator(word: seq<byte>, limits: ContentLimits, isNumber: NumberTest) {
    WordSpelled(word) && WordMeaning(word, limits, isNumber).None?
  }

  lemma {:induction false} LiteralErrors(s: seq<byte>, depth: u32)
    requires depth > 0
    ensures LiteralEnd(s, depth).Bad? ==> !LiteralEnd(s, depth).error.LimitExceeded?
    decreases |s|
  {
    if s != [] && s[0] == BACKSLASH {
      if |s| > 1 {
        LiteralErrors(s[2..], depth);
      }
    } else if s != [] && s[0] == OPEN {
      if depth < 0xFFFF_FFFF {
        LiteralErrors(s[1..], depth + 1);
      }
    } else if s != [] && s[0] == CLOSE {
      if depth > 1 {
        LiteralErrors(s[1..], depth - 1);
      }
    } else if s != [] {
      LiteralErrors(s[1..], depth);
    }
  }

  lemma {:induction false} HexErrors(s: seq<byte>)
    ensures HexEnd(s).Bad? ==> HexEnd(s).error == Malformed
  {
    if s != [] && s[0] != GREATER {
      HexErrors(s[1..]);
    }
  }

  lemma {:induction false} CompositeErrors(s: seq<byte>, stack: seq<byte>, max: u32)
    ensures CompositeEnd(s, stack, max).Bad? ==> CompositeEnd(s, stack, max).error != LimitExceeded(MaxOperatorNameBytes)
    decreases |s|, 1
  {
    hide LiteralEnd, HexEnd;
    if s == [] {
    } else if s[0] == LBRACKET {
      GoesOnErrors(s[1..], stack + [RBRACKET], max, |s|);
    } else if StartsWith(s, DICT_OPEN) {
      GoesOnErrors(s[2..], stack + [GREATER], max, |s|);
    } else if s[0] == RBRACKET || StartsWith(s, DICT_CLOSE) {
      if |stack| > 1 {
        GoesOnErrors(s[if s[0] == RBRACKET then 1 else 2..], stack[..|stack| - 1], max, |s|);
      }
    } else if s[0] == OPEN {
      LiteralErrors(s[1..], 1);
      if LiteralEnd(s[1..], 1).Good? {
        GoesOnErrors(LiteralEnd(s[1..], 1).rest, stack, max, |s|);
      }
    } else if s[0] == LESS {
      HexErrors(s[1..]);
      if HexEnd(s[1..]).Good? {
        GoesOnErrors(HexEnd(s[1..]).rest, stack, max, |s|);
      }
    } else {
      GoesOnErrors(s[1..], stack, max, |s|);
    }
  }

  lemma GoesOnErrors(s: seq<byte>, stack: seq<byte>, max: u32, bound: nat)
    requires |s| < bound
    ensures var r := CompositeGoesOn(s, stack, max, bound); r.Bad? ==> r.error != LimitExceeded(MaxOperatorNameBytes)
    decreases bound, 0
  {
    hide CompositeEnd;
    if |stack| <= max {
      CompositeErrors(s, stack, max);
    }
  }

  lemma WordNameErrorIff(t: seq<byte>, limits: ContentLimits, isNumber: NumberTest)
    requires t != [] && Regular(t[0])
    ensures TokenAt(t, limits, isNumber) == Bad(LimitExceeded(MaxOperatorNameBytes))
       <==> IsLongOperator(t[..RegularRun(t)], limits, isNumber)
  {
    WordMeans(t[..RegularRun(t)], limits, isNumber);
    assert IsRegular(t[0]);
    hide WordToken, WordMeaning, LiteralEnd, HexEnd, CompositeEnd, DecodeName;
  }

  lemma DelimiterNameErrorIff(t: seq<byte>, limits: ContentLimits, isNumber: NumberTest)
    requires t != [] && Delimiter(t[0]) && t[0] != PERCENT
    ensures TokenAt(t, limits, isNumber) == Bad(LimitExceeded(MaxOperatorNameBytes)) <==> OpensNothing(t[0])
  {
    assert WordToken([], limits, isNumber) == Err(LimitExceeded(MaxOperatorNameBytes)) by {
      assert IntegerWord([]).None?;
    }
    hide LiteralEnd, HexEnd, CompositeEnd, DecodeName, WordToken;
    if t[0] == OPEN {
      LiteralErrors(t[1..], 1);
    } else if t[0] == LESS || t[0] == LBRACKET {
      CompositeErrors(t, [], limits.maxObjectDepth);
      HexErrors(t[1..]);
    } else if OpensNothing(t[0]) {
      assert t[..0] == [];
    }
  }

  /** The error of an operator name is reported exactly for a delimiter that opens nothing, where no name
      stands, and for a name over its cap. */
  lemma OperatorNameErrorIff(t: seq<byte>, limits: ContentLimits, isNumber: NumberTest)
    requires t != [] && !IsWs(t[0]) && t[0] != PERCENT
    ensures TokenAt(t, limits, isNumber) == Bad(LimitExceeded(MaxOperatorNameBytes))
       <==> OpensNothing(t[0]) || (Regular(t[0]) && IsLongOperator(t[..RegularRun(t)], limits, isNumber))
  {
    hide TokenAt, IsLongOperator;
    if Regular(t[0]) {
      WordNameErrorIff(t, limits, isNumber);
    } else {
      DelimiterNameErrorIff(t, limits, isNumber);
    }
  }

  // ---------------------------------------------------------------------------------------------
  // Comments inside arrays
  // ---------------------------------------------------------------------------------------------

  /** A byte to which the scan of an array or a dictionary pays no attention. */
  predicate Unnoticed(b: byte) {
    b != LBRACKET && b != RBRACKET && b != OPEN && b != LESS && b != GREATER
  }

  lemma {:induction false} UnnoticedPassed(text: seq<byte>, rest: seq<byte>, stack: seq<byte>, maxDepth: u32)
    requires (forall k | 0 <= k < |text| :: Unnoticed(text[k])) && |stack| <= maxDepth
    ensures CompositeEnd(text + rest, stack, maxDepth) == CompositeEnd(rest, stack, maxDepth)
    decreases |text|
  {
    if text == [] {
      assert text + rest == rest;
    } else {
      hide LiteralEnd, HexEnd;
      var s := text + rest;
      assert s[0] == text[0] && Unnoticed(text[0]) && s[1..] == text[1..] + rest;
      assert !StartsWith(s, DICT_OPEN) && !StartsWith(s, DICT_CLOSE);
      UnnoticedPassed(text[1..], rest, stack, maxDepth);
    }
  }

  /** A comment inside an array or a dictionary is not skipped: it is passed over when the scan notices
      none of its bytes, and otherwise read as content from the first byte noticed, so that a closing
      bracket in it ends an array. */
  lemma CommentReadAsContent(comment: seq<byte>, eol: byte, rest: seq<byte>, stack: seq<byte>, maxDepth: u32)
    requires (eol == LF || eol == CR) && |stack| <= maxDepth
    ensures var k := FirstNoticed(comment);
            var r := CompositeEnd([PERCENT] + comment + [eol] + rest, stack, maxDepth);
            if k == |comment| then r == CompositeEnd(rest, stack, maxDepth)
            else
              && r == CompositeEnd(comment[k..] + [eol] + rest, stack, maxDepth)
              && (comment[k] == RBRACKET && stack == [RBRACKET] ==> r == Good((), comment[k + 1..] + [eol] + rest))
  {
    hide LiteralEnd, HexEnd, CompositeGoesOn;
    var k := FirstNoticed(comment);
    if k == |comment| {
      assert [PERCENT] + comment + [eol] + rest == ([PERCENT] + comment + [eol]) + rest;
      UnnoticedPassed([PERCENT] + comment + [eol], rest, stack, maxDepth);
    } else {
      var s := comment[k..] + [eol] + rest;
      assert [PERCENT] + comment + [eol] + rest == ([PERCENT] + comment[..k]) + s;
      UnnoticedPassed([PERCENT] + comment[..k], s, stack, maxDepth);
      assert s[0] == comment[k] && s[1..] == comment[k + 1..] + [eol] + rest;
    }
  }

  function FirstNoticed(s: seq<byte>): (k: nat)
    ensures k <= |s| && (k < |s| ==> !Unnoticed(s[k]))
    ensures forall i | 0 <= i < k :: Unnoticed(s[i])
  {
    if s == [] || !Unnoticed(s[0]) then 0 else 1 + FirstNoticed(s[1..])
  }
}
