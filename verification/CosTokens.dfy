/** Each token of the concrete syntax is read back, and read no further than it goes. */
module CosTokens {
  import opened Bytes
  import opened Cos
  import opened CosParsing
  import opened CosSyntax
  import opened StandardTables

  /** Either the value and the exact rest, or an error. */
  predicate Outcome<T(==)>(r: Parsed<T>, accepted: bool, value: T, rest: seq<byte>) {
    if accepted then r == Good(value, rest) else r.Bad?
  }

  // ---------------------------------------------------------------------------------------------
  // Gaps
  // ---------------------------------------------------------------------------------------------

  lemma {:induction false} SkipLineOver(text: seq<byte>, rest: seq<byte>)
    requires forall k | 0 <= k < |text| :: text[k] != LF && text[k] != CR
    ensures SkipLine(text + rest) == SkipLine(rest)
  {
    if text == [] {
      assert text + rest == rest;
    } else {
      assert (text + rest)[1..] == text[1..] + rest;
      SkipLineOver(text[1..], rest);
    }
  }

  lemma SkipLineOverText(text: seq<byte>, eol: byte, rest: seq<byte>)
    requires (eol == LF || eol == CR) && LF !in text && CR !in text
    ensures SkipLine(text + ([eol] + rest)) == rest
  {
    SkipLineOver(text, [eol] + rest);
    assert ([eol] + rest)[1..] == rest;
  }

  lemma CommentIsNoMarker(text: seq<byte>, eol: byte, rest: seq<byte>)
    requires BlankOk(Comment(text, eol))
    ensures !StartsWith([PERCENT] + (text + ([eol] + rest)), EOF_MARKER)
  {
    var s := [PERCENT] + (text + ([eol] + rest));
    var t := [PERCENT] + text;
    assert s == t + ([eol] + rest);
    if |t| >= 5 {
      assert s[..5] == t[..5];
    } else {
      assert s[|t|] == eol;
    }
  }

  lemma SkipWsOnce(b: byte, rest: seq<byte>)
    requires IsWs(b)
    ensures SkipWs([b] + rest) == SkipWs(rest)
  {
    assert ([b] + rest)[1..] == rest;
  }

  lemma SkipSpaceOverBlank(blank: Blank, rest: seq<byte>)
    requires BlankOk(blank)
    ensures SkipSpace(GapText([blank], rest)) == SkipSpace(rest)
  {
    assert GapText([blank][1..], rest) == rest;
    match blank
    case White(b) =>
      SkipWsOnce(b, rest);
    case Comment(text, eol) =>
      var s := [PERCENT] + (text + ([eol] + rest));
      CommentIsNoMarker(text, eol, rest);
      assert !IsWs(PERCENT) && SkipWs(s) == s;
      assert SkipSpace(s) == SkipSpace(SkipLine(s));
      assert s[1..] == text + ([eol] + rest);
      SkipLineOverText(text, eol, rest);
  }

  lemma GapStep(gap: seq<Blank>, rest: seq<byte>)
    requires gap != []
    ensures GapText(gap, rest) == GapText([gap[0]], GapText(gap[1..], rest))
  {
    var tail := GapText(gap[1..], rest);
    assert GapText([gap[0]][1..], tail) == tail;
  }

  /** A gap is skipped whatever follows it. */
  lemma {:induction false} SkipSpaceOverGap(gap: seq<Blank>, rest: seq<byte>)
    requires GapOk(gap)
    ensures SkipSpace(GapText(gap, rest)) == SkipSpace(rest)
  {
    if gap != [] {
      GapStep(gap, rest);
      SkipSpaceOverBlank(gap[0], GapText(gap[1..], rest));
      SkipSpaceOverGap(gap[1..], rest);
    }
  }

  predicate Starts(s: seq<byte>) {
    s != [] && !IsWs(s[0]) && s[0] != PERCENT
  }

  lemma SkipSpaceToToken(gap: seq<Blank>, token: seq<byte>)
    requires GapOk(gap) && Starts(token)
    ensures SkipSpace(GapText(gap, token)) == token
  {
    SkipSpaceOverGap(gap, token);
  }

  /** After white space has been skipped, comments may follow. */
  lemma {:induction false} SkipWsOverGap(gap: seq<Blank>, rest: seq<byte>)
    requires GapOk(gap) && Starts(rest)
    ensures var t := SkipWs(GapText(gap, rest)); t != [] && (t == rest || t[0] == PERCENT)
  {
    if gap != [] {
      match gap[0]
      case White(b) =>
        SkipWsOnce(b, GapText(gap[1..], rest));
        SkipWsOverGap(gap[1..], rest);
      case Comment(text, eol) =>
    }
  }

  lemma SkipSpaceAfterWs(s: seq<byte>)
    ensures SkipSpace(SkipWs(s)) == SkipSpace(s)
  {
    assert SkipWs(SkipWs(s)) == SkipWs(s);
  }

  lemma {:induction false} SkipWsOverWhite(white: seq<byte>, rest: seq<byte>)
    requires AllWhite(white) && !StartsWithWs(rest)
    ensures SkipWs(white + rest) == rest
  {
    if white == [] {
      assert white + rest == rest;
    } else {
      assert white + rest == [white[0]] + (white[1..] + rest);
      SkipWsOnce(white[0], white[1..] + rest);
      SkipWsOverWhite(white[1..], rest);
    }
  }

  // ---------------------------------------------------------------------------------------------
  // Names
  // ---------------------------------------------------------------------------------------------

  lemma {:induction false} NameParses(pieces: seq<NamePiece>, rest: seq<byte>, acc: seq<byte>, limits: Limits)
    requires NameOk(pieces) && NameEnds(rest) && |acc| <= limits.maxNameBytes
    ensures Outcome(
      NameBytes(NameText(pieces, rest), acc, limits),
      |acc| + |NameValue(pieces)| <= limits.maxNameBytes, acc + NameValue(pieces), rest)
  {
    if pieces == [] {
      assert acc + NameValue(pieces) == acc;
    } else {
      var s := NameText(pieces, rest);
      var tail := NameText(pieces[1..], rest);
      var first := match pieces[0] case Plain(b) => b case HexEscape(high, low) => HexPair(high, low).value;
      assert PieceOk(pieces[0]);
      assert pieces[0].Plain? ==> s[0] != HASH && s[1..] == tail;
      assert pieces[0].HexEscape? ==> s[0] == HASH && s[3..] == tail && s[1] == pieces[0].high && s[2] == pieces[0].low;
      assert NameValue(pieces) == [first] + NameValue(pieces[1..]);
      if |acc| + 1 <= limits.maxNameBytes {
        NameParses(pieces[1..], rest, acc + [first], limits);
        assert acc + [first] + NameValue(pieces[1..]) == acc + NameValue(pieces);
      }
    }
  }

  lemma NameTokenParses(pieces: seq<NamePiece>, rest: seq<byte>, limits: Limits)
    requires NameOk(pieces) && NameEnds(rest)
    ensures Outcome(
      ParseName([SLASH] + NameText(pieces, rest), limits), |NameValue(pieces)| <= limits.maxNameBytes, NameValue(pieces), rest)
  {
    NameParses(pieces, rest, [], limits);
    assert [] + NameValue(pieces) == NameValue(pieces);
  }

  // ---------------------------------------------------------------------------------------------
  // Literal strings
  // ---------------------------------------------------------------------------------------------

  /** Reading goes on after the body with what it means; it fails when a cap is exceeded inside it. */
  predicate ReadsBody(body: Literal, rest: seq<byte>, depth: u32, acc: seq<byte>, limits: Limits)
    requires depth > 0 && |acc| <= limits.maxStringBytes
  {
    if LiteralAccepted(body, depth, |acc|, limits) then
      LiteralBytes(LiteralText(body, rest), depth, acc, limits)
      == LiteralBytes(rest, depth, acc + LiteralValue(body), limits)
    else LiteralBytes(LiteralText(body, rest), depth, acc, limits).Bad?
  }

  lemma {:induction false} LiteralReads(body: Literal, rest: seq<byte>, depth: u32, acc: seq<byte>, limits: Limits)
    requires LiteralOk(body) && depth > 0 && |acc| <= limits.maxStringBytes
    ensures ReadsBody(body, rest, depth, acc, limits)
    decreases body, 1
  {
    match body
    case EndLiteral =>
      assert acc + LiteralValue(body) == acc;
    case Raw(b, next) =>
      RawReads(b, next, rest, depth, acc, limits);
    case Escaped(code, next) =>
      EscapedReads(code, next, rest, depth, acc, limits);
    case Group(inner, next) =>
      GroupReads(inner, next, rest, depth, acc, limits);
  }

  lemma RawOnce(b: byte, s: seq<byte>, depth: u32, acc: seq<byte>, limits: Limits)
    requires b != BACKSLASH && b != OPEN && b != CLOSE && depth > 0 && |acc| <= limits.maxStringBytes
    ensures var r := LiteralBytes([b] + s, depth, acc, limits);
            if |acc| + 1 <= limits.maxStringBytes then r == LiteralBytes(s, depth, acc + [b], limits) else r.Bad?
  {
    assert ([b] + s)[1..] == s;
  }

  /** A byte in front of a body is one byte more to read. */
  lemma ByteInFront(body: Literal, b: byte, next: Literal, depth: u32, acc: seq<byte>, limits: Limits)
    requires LiteralValue(body) == [b] + LiteralValue(next) && Nesting(body) == Nesting(next)
    ensures LiteralAccepted(body, depth, |acc|, limits) <==> LiteralAccepted(next, depth, |acc| + 1, limits)
    ensures LiteralAccepted(body, depth, |acc|, limits) ==> |acc| + 1 <= limits.maxStringBytes
    ensures acc + [b] + LiteralValue(next) == acc + LiteralValue(body)
  {
  }

  lemma RawReads(b: byte, next: Literal, rest: seq<byte>, depth: u32, acc: seq<byte>, limits: Limits)
    requires LiteralOk(Raw(b, next)) && depth > 0 && |acc| <= limits.maxStringBytes
    ensures ReadsBody(Raw(b, next), rest, depth, acc, limits)
    decreases next, 2
  {
    hide LiteralBytes, LiteralAccepted;
    RawOnce(b, LiteralText(next, rest), depth, acc, limits);
    ByteInFront(Raw(b, next), b, next, depth, acc, limits);
    if |acc| + 1 <= limits.maxStringBytes {
      LiteralReads(next, rest, depth, acc + [b], limits);
    }
  }

  lemma EscapeOnce(code: byte, s: seq<byte>, depth: u32, acc: seq<byte>, limits: Limits)
    requires depth > 0 && |acc| <= limits.maxStringBytes
    ensures var r := LiteralBytes([BACKSLASH, code] + s, depth, acc, limits);
            if |acc| + 1 <= limits.maxStringBytes then
              r == LiteralBytes(s, depth, acc + [EscapeValue(code)], limits)
            else r.Bad?
  {
    assert ([BACKSLASH, code] + s)[2..] == s;
  }

  lemma EscapedReads(code: byte, next: Literal, rest: seq<byte>, depth: u32, acc: seq<byte>, limits: Limits)
    requires LiteralOk(next) && depth > 0 && |acc| <= limits.maxStringBytes
    ensures ReadsBody(Escaped(code, next), rest, depth, acc, limits)
    decreases next, 2
  {
    hide LiteralBytes, LiteralAccepted, EscapeValue;
    EscapeOnce(code, LiteralText(next, rest), depth, acc, limits);
    ByteInFront(Escaped(code, next), EscapeValue(code), next, depth, acc, limits);
    if |acc| + 1 <= limits.maxStringBytes {
      LiteralReads(next, rest, depth, acc + [EscapeValue(code)], limits);
    }
  }

  lemma OpenOnce(s: seq<byte>, depth: u32, acc: seq<byte>, limits: Limits)
    requires depth > 0 && |acc| <= limits.maxStringBytes
    ensures var r := LiteralBytes([OPEN] + s, depth, acc, limits);
            if depth < 0xFFFF_FFFF && |acc| + 1 <= limits.maxStringBytes then
              r == LiteralBytes(s, depth + 1, acc + [OPEN], limits)
            else r.Bad?
  {
    assert ([OPEN] + s)[1..] == s;
  }

  lemma CloseOnce(s: seq<byte>, depth: u32, acc: seq<byte>, limits: Limits)
    requires depth > 1 && |acc| <= limits.maxStringBytes
    ensures var r := LiteralBytes([CLOSE] + s, depth, acc, limits);
            if |acc| + 1 <= limits.maxStringBytes then
              r == LiteralBytes(s, depth - 1, acc + [CLOSE], limits)
            else r.Bad?
  {
    assert ([CLOSE] + s)[1..] == s;
  }

  lemma GroupAccepted(inner: Literal, next: Literal, depth: u32, read: nat, limits: Limits)
    requires depth > 0
    ensures LiteralValue(Group(inner, next)) == [OPEN] + LiteralValue(inner) + [CLOSE] + LiteralValue(next)
    ensures LiteralAccepted(Group(inner, next), depth, read, limits) <==>
            && depth < 0xFFFF_FFFF && LiteralAccepted(inner, depth + 1, read + 1, limits)
            && LiteralAccepted(next, depth, read + 1 + |LiteralValue(inner)| + 1, limits)
  {
  }

  lemma GroupReads(inner: Literal, next: Literal, rest: seq<byte>, depth: u32, acc: seq<byte>, limits: Limits)
    requires LiteralOk(inner) && LiteralOk(next) && depth > 0 && |acc| <= limits.maxStringBytes
    ensures ReadsBody(Group(inner, next), rest, depth, acc, limits)
    decreases Group(inner, next), 0
  {
    hide LiteralBytes, LiteralAccepted, LiteralValue;
    GroupAccepted(inner, next, depth, |acc|, limits);
    ghost var after := LiteralText(next, rest);
    OpenOnce(LiteralText(inner, [CLOSE] + after), depth, acc, limits);
    if depth < 0xFFFF_FFFF && |acc| + 1 <= limits.maxStringBytes {
      var acc1 := acc + [OPEN];
      LiteralReads(inner, [CLOSE] + after, depth + 1, acc1, limits);
      if LiteralAccepted(inner, depth + 1, |acc1|, limits) {
        AcceptedFits(inner, depth + 1, |acc1|, limits);
        var acc2 := acc1 + LiteralValue(inner);
        CloseOnce(after, depth + 1, acc2, limits);
        if |acc2| + 1 <= limits.maxStringBytes {
          LiteralReads(next, rest, depth, acc2 + [CLOSE], limits);
          assert acc2 + [CLOSE] + LiteralValue(next) == acc + LiteralValue(Group(inner, next));
        } else {
          NotAcceptedWhenFull(next, depth, |acc2| + 1, limits);
        }
      }
    } else {
      NotAcceptedWhenFull(inner, depth, |acc| + 1, limits);
    }
  }

  lemma AcceptedFits(body: Literal, depth: u32, read: nat, limits: Limits)
    requires LiteralAccepted(body, depth, read, limits)
    ensures read + |LiteralValue(body)| <= limits.maxStringBytes
  {
  }

  lemma NotAcceptedWhenFull(body: Literal, depth: u32, read: nat, limits: Limits)
    ensures read > limits.maxStringBytes ==> forall d: u32 :: !LiteralAccepted(body, d, read, limits)
  {
  }

  lemma LiteralStringParses(body: Literal, rest: seq<byte>, limits: Limits)
    requires LiteralOk(body)
    ensures Outcome(
      ParseLiteral([OPEN] + LiteralText(body, [CLOSE] + rest), limits),
      LiteralAccepted(body, 1, 0, limits), LiteralValue(body), rest)
  {
    LiteralReads(body, [CLOSE] + rest, 1, [], limits);
    assert [] + LiteralValue(body) == LiteralValue(body);
    assert ([CLOSE] + rest)[1..] == rest;
  }

  // ---------------------------------------------------------------------------------------------
  // Hexadecimal strings
  // ---------------------------------------------------------------------------------------------

  function HexDigits(hex: Hex): seq<byte> {
    match hex
    case EndHex(_) => []
    case LoneDigit(_, high, _) => [high]
    case TwoDigits(_, high, _, low, next) => [high, low] + HexDigits(next)
  }

  lemma {:induction false} HexCharsOverWhite(white: seq<byte>, rest: seq<byte>, acc: seq<byte>)
    requires AllWhite(white)
    ensures HexChars(white + rest, acc) == HexChars(rest, acc)
  {
    if white == [] {
      assert white + rest == rest;
    } else {
      assert (white + rest)[1..] == white[1..] + rest;
      HexCharsOverWhite(white[1..], rest, acc);
    }
  }

  lemma HexCharsOverDigit(digit: byte, rest: seq<byte>, acc: seq<byte>)
    requires HexDigit(digit).Some?
    ensures HexChars([digit] + rest, acc) == HexChars(rest, acc + [digit])
  {
    assert ([digit] + rest)[1..] == rest;
  }

  lemma {:induction false} HexCharsRead(hex: Hex, rest: seq<byte>, acc: seq<byte>)
    requires HexOk(hex)
    ensures HexChars(HexText(hex, [GREATER] + rest), acc) == (acc + HexDigits(hex), rest)
  {
    var end := [GREATER] + rest;
    assert end[1..] == rest;
    match hex
    case EndHex(white) =>
      HexCharsOverWhite(white, end, acc);
      assert acc + HexDigits(hex) == acc;
    case LoneDigit(white, high, after) =>
      HexCharsOverWhite(white, [high] + (after + end), acc);
      HexCharsOverDigit(high, after + end, acc);
      HexCharsOverWhite(after, end, acc + [high]);
    case TwoDigits(white, high, between, low, next) =>
      var tail := HexText(next, end);
      HexCharsOverWhite(white, [high] + (between + ([low] + tail)), acc);
      HexCharsOverDigit(high, between + ([low] + tail), acc);
      HexCharsOverWhite(between, [low] + tail, acc + [high]);
      HexCharsOverDigit(low, tail, acc + [high]);
      HexCharsRead(next, rest, acc + [high] + [low]);
      assert acc + [high] + [low] + HexDigits(next) == acc + HexDigits(hex);
  }

  /** The digits of a hexadecimal string as the decoder pairs them up. */
  function Padded(digits: seq<byte>): (r: seq<byte>)
    ensures |r| % 2 == 0
  {
    if |digits| % 2 == 0 then digits else digits + [48]
  }

  lemma {:induction false} HexBytesRead(hex: Hex)
    requires HexOk(hex)
    ensures HexBytes(Padded(HexDigits(hex))) == Some(HexValue(hex))
  {
    match hex
    case EndHex(_) =>
    case LoneDigit(_, high, _) =>
      var pair := Padded(HexDigits(hex));
      assert pair == [high, 48] && pair[2..] == [];
      var h: int := HexDigit(high).value;
      assert h < 16 && HexPair(high, 48) == Some(16 * h);
      assert HexBytes(pair[2..]) == Some([]);
      assert HexBytes(pair) == Some([16 * h] + []);
      assert [16 * h] + [] == [16 * h];
      assert HexValue(hex) == [16 * h];
    case TwoDigits(_, high, _, low, next) =>
      HexBytesRead(next);
      var all := Padded(HexDigits(hex));
      assert all == [high, low] + Padded(HexDigits(next));
      assert all[2..] == Padded(HexDigits(next));
  }

  lemma HexStringParses(hex: Hex, rest: seq<byte>, limits: Limits)
    requires HexOk(hex)
    ensures Outcome(
      ParseHex([LESS] + HexText(hex, [GREATER] + rest), limits),
      |HexValue(hex)| <= limits.maxStringBytes, HexValue(hex), rest)
  {
    var s := [LESS] + HexText(hex, [GREATER] + rest);
    assert s[1..] == HexText(hex, [GREATER] + rest);
    HexCharsRead(hex, rest, []);
    assert [] + HexDigits(hex) == HexDigits(hex);
    HexBytesRead(hex);
  }

  // ---------------------------------------------------------------------------------------------
  // Numbers and references
  // ---------------------------------------------------------------------------------------------

  lemma FirstDigit(digits: seq<byte>)
    requires digits != []
    ensures var first: int := digits[0];
            Positional(digits) == (first - 48) * PowerOfTen(|digits| - 1) + Positional(digits[1..])
  {
  }

  lemma TenTimes(first: int, n: nat)
    requires n > 0
    ensures first * PowerOfTen(n) == 10 * (first * PowerOfTen(n - 1))
  {
    var p := PowerOfTen(n - 1);
    assert first * (10 * p) == 10 * (first * p);
  }

  lemma {:induction false} PositionalOfLast(digits: seq<byte>)
    requires digits != []
    ensures var last: int := digits[|digits| - 1];
            Positional(digits) == 10 * Positional(digits[..|digits| - 1]) + last - 48
  {
    FirstDigit(digits);
    if |digits| > 1 {
      hide PowerOfTen, Positional;
      var front := digits[..|digits| - 1];
      PositionalOfLast(digits[1..]);
      FirstDigit(front);
      assert front[1..] == digits[1..][..|digits| - 2];
      TenTimes(digits[0] as int - 48, |front|);
    } else {
      assert digits[1..] == [] && digits[..0] == [];
      assert PowerOfTen(0) == 1;
    }
  }

  /** Every digit counts ten times the next, and only a minus sign makes the number negative. */
  lemma {:induction false} DecimalIsPositional(digits: seq<byte>)
    requires AllDigits(digits)
    ensures Decimal(digits) == Positional(digits)
    ensures SignedValue([MINUS], digits) == -Positional(digits)
    ensures SignedValue([PLUS], digits) == SignedValue([], digits) == Positional(digits)
  {
    if digits != [] {
      DecimalIsPositional(digits[..|digits| - 1]);
      PositionalOfLast(digits);
    }
  }

  lemma {:induction false} DigitRunIs(digits: seq<byte>, rest: seq<byte>)
    requires AllDigits(digits) && (rest == [] || !IsDigit(rest[0]))
    ensures DigitRun(digits + rest) == |digits|
    ensures (digits + rest)[..|digits|] == digits && (digits + rest)[|digits|..] == rest
  {
    if digits == [] {
      assert digits + rest == rest;
    } else {
      assert (digits + rest)[1..] == digits[1..] + rest;
      DigitRunIs(digits[1..], rest);
    }
  }

  lemma {:induction false} NumberRunIs(body: seq<byte>, rest: seq<byte>)
    requires forall k | 0 <= k < |body| :: IsDigit(body[k]) || body[k] == DOT
    requires NumberEnds(rest)
    ensures NumberRun(body + rest) == |body|
    ensures (body + rest)[..|body|] == body && (body + rest)[|body|..] == rest
  {
    if body == [] {
      assert body + rest == rest;
    } else {
      assert (body + rest)[1..] == body[1..] + rest;
      NumberRunIs(body[1..], rest);
    }
  }

  predicate NumberBody(body: seq<byte>) {
    body != [] && forall k | 0 <= k < |body| :: IsDigit(body[k]) || body[k] == DOT
  }

  lemma NumberTokenFrom(s: seq<byte>, sign: seq<byte>, body: seq<byte>, rest: seq<byte>)
    requires SkipSpace(s) == s == sign + (body + rest) && SignLength(s) == |sign|
    requires NumberRun(body + rest) == |body|
    ensures var number := NumberOf(sign, body);
            ParseNumberToken(s) == if number.Ok? then Good(number.value, rest) else Bad(number.error)
  {
    hide NumberOf, SkipSpace, SignLength, NumberRun;
    assert s[..|sign|] == sign && s[|sign|..] == body + rest;
    assert (body + rest)[..|body|] == body && (body + rest)[|body|..] == rest;
  }

  lemma SignedStarts(sign: seq<byte>, body: seq<byte>, rest: seq<byte>)
    requires SignOk(sign) && NumberBody(body)
    ensures var s := sign + (body + rest); SkipSpace(s) == s && SignLength(s) == |sign|
  {
    var s := sign + (body + rest);
    assert s[0] == if sign == [] then body[0] else sign[0];
    assert !IsWs(s[0]) && s[0] != PERCENT;
  }

  lemma NumberTokenParses(sign: seq<byte>, body: seq<byte>, rest: seq<byte>)
    requires SignOk(sign) && NumberBody(body) && NumberEnds(rest)
    ensures var number := NumberOf(sign, body);
            ParseNumberToken(sign + (body + rest)) == if number.Ok? then Good(number.value, rest) else Bad(number.error)
  {
    hide NumberOf, SkipSpace, SignLength, NumberRun;
    SignedStarts(sign, body, rest);
    NumberRunIs(body, rest);
    NumberTokenFrom(sign + (body + rest), sign, body, rest);
  }

  lemma IntegerTokenReads(sign: seq<byte>, digits: seq<byte>, rest: seq<byte>)
    requires IntegerOk(sign, digits) && NumberEnds(rest)
    ensures ParseNumberToken(sign + (digits + rest)) == Good(IntegerNumber(SignedValue(sign, digits)), rest)
  {
    assert DOT !in digits;
    NumberTokenParses(sign, digits, rest);
  }

  lemma RealBodyIsReal(whole: seq<byte>, fraction: seq<byte>)
    requires AllDigits(whole) && AllDigits(fraction) && whole + fraction != []
    ensures var body := whole + [DOT] + fraction;
            NumberBody(body) && (IsRealBody(body) <==> IsFinite(whole)) && DOT in body
  {
    hide IsFinite;
    var body := whole + [DOT] + fraction;
    assert body[|whole|] == DOT && body[..|whole|] == whole && body[|whole| + 1..] == fraction;
    assert |whole| + |fraction| == |whole + fraction|;
    forall k | 0 <= k < |body|
      ensures IsDigit(body[k]) || body[k] == DOT
    {
      if k < |whole| {
        assert body[k] == whole[k];
      } else if k > |whole| {
        assert body[k] == fraction[k - |whole| - 1];
      }
    }
  }

  lemma RealTokenParses(sign: seq<byte>, whole: seq<byte>, fraction: seq<byte>, rest: seq<byte>)
    requires SignOk(sign) && AllDigits(whole) && AllDigits(fraction) && whole + fraction != [] && NumberEnds(rest)
    ensures Outcome(
      ParseNumberOrReference(sign + ((whole + [DOT] + fraction) + rest)), IsFinite(whole),
      Real(sign + (whole + [DOT] + fraction)), rest)
  {
    hide IsFinite, IsRealBody, ParseReferenceTail;
    RealBodyIsReal(whole, fraction);
    NumberTokenParses(sign, whole + [DOT] + fraction, rest);
  }

  /** What the lookahead after an integer finds. */
  lemma TailFinds(rest: seq<byte>)
    ensures OverlongFollows(rest) ==> ParseReferenceTail(rest) == Bad(Malformed)
    ensures ReferenceFollows(rest) ==> ParseReferenceTail(rest).Good? && ParseReferenceTail(rest).value.Some?
    ensures !OverlongFollows(rest) && !ReferenceFollows(rest) ==> ParseReferenceTail(rest) == Good(None, rest)
  {
    if StartsWithWs(rest) {
      SkipSpaceAfterWs(rest);
      var t := SkipSpace(rest);
      var n := DigitRun(t);
      assert ParseUnsigned(SkipWs(rest), 0xFFFF) ==
             if n == 0 then Good(None, t)
             else if Decimal(t[..n]) > 0xFFFF then Bad(Malformed)
             else Good(Some(Decimal(t[..n])), t[n..]);
      assert n == 0 ==> Decimal(t[..n]) == 0;
    }
  }

  /** What the lookahead makes of an integer. */
  lemma IntegerThenTail(s: seq<byte>, v: i64, rest: seq<byte>)
    requires ParseNumberToken(s) == Good(IntegerNumber(v), rest)
    ensures var tail := ParseReferenceTail(rest);
            var r := ParseNumberOrReference(s);
            && (tail.Bad? ==> r.Bad?)
            && (tail.Good? && tail.value.None? ==> r == Good(Integer(v), rest))
            && (tail.Good? && tail.value.Some? ==> (r == Good(Integer(v), rest) <==> v == 0))
  {
    hide ParseNumberToken, ParseReferenceTail;
    var tail := ParseReferenceTail(rest);
    if tail.Good? && tail.value.Some? {
      GenerationFits(rest);
    }
  }

  lemma GenerationFits(rest: seq<byte>)
    requires ParseReferenceTail(rest).Good? && ParseReferenceTail(rest).value.Some?
    ensures ParseReferenceTail(rest).value.value < 0x1_0000
  {
  }

  /** The outcome of an integer, except that an `R` after it may make it a reference. */
  lemma IntegerParses(sign: seq<byte>, digits: seq<byte>, rest: seq<byte>)
    requires IntegerOk(sign, digits) && NumberEnds(rest)
    ensures var r := ParseNumberOrReference(sign + (digits + rest));
            var v := SignedValue(sign, digits);
            && (!ReferenceFollows(rest) ==> Outcome(r, !OverlongFollows(rest), Integer(v), rest))
            && (ReferenceFollows(rest) ==> (r == Good(Integer(v), rest) <==> v == 0))
  {
    IntegerTokenReads(sign, digits, rest);
    TailFinds(rest);
    hide OverlongFollows, ReferenceFollows, ParseReferenceTail, ParseNumberToken, ParseNumberOrReference, SignedValue;
    IntegerThenTail(sign + (digits + rest), SignedValue(sign, digits), rest);
  }

  lemma ReferenceTailReads(gap: seq<Blank>, generation: seq<byte>, white: seq<byte>, rest: seq<byte>)
    requires gap != [] && gap[0].White? && GapOk(gap)
    requires generation != [] && AllDigits(generation) && Decimal(generation) < 0x1_0000
    requires white != [] && AllWhite(white)
    ensures ParseReferenceTail(GapText(gap, generation + (white + ([LETTER_R] + rest))))
         == Good(Some(Decimal(generation)), rest)
  {
    var end := [LETTER_R] + rest;
    var after := white + end;
    var token := generation + after;
    var s := GapText(gap, token);
    assert BlankOk(gap[0]) && StartsWithWs(s);
    assert token[0] == generation[0] && IsDigit(generation[0]);
    assert Starts(token);
    SkipSpaceAfterWs(s);
    SkipSpaceToToken(gap, token);
    assert after[0] == white[0] && !IsDigit(after[0]);
    DigitRunIs(generation, after);
    SkipWsOverWhite(white, end);
    assert end[1..] == rest;
  }

  lemma ReferenceFrom(s: seq<byte>, number: positiveU32, tail: seq<byte>, generation: u16, rest: seq<byte>)
    requires ParseNumberToken(s) == Good(IntegerNumber(number), tail)
    requires ParseReferenceTail(tail) == Good(Some(generation), rest)
    ensures ParseNumberOrReference(s) == Good(Reference(ObjectKey(number, generation)), rest)
  {
    hide ParseNumberToken, ParseReferenceTail;
  }

  lemma ReferenceParses(sign: seq<byte>, number: seq<byte>, gap: seq<Blank>, generation: seq<byte>, white: seq<byte>,
                        rest: seq<byte>)
    requires ReferenceOk(sign, number, gap, generation, white)
    ensures ParseNumberOrReference(Text(ReferenceToken(sign, number, gap, generation, white), rest))
         == Good(Reference(ObjectKey(Decimal(number), Decimal(generation))), rest)
  {
    hide ParseNumberToken, ParseReferenceTail, ParseNumberOrReference;
    var tail := GapText(gap, generation + (white + ([LETTER_R] + rest)));
    assert BlankOk(gap[0]) && IsWs(tail[0]);
    assert number != [] by {
      assert Decimal([]) == 0;
    }
    assert SignedValue(sign, number) == Decimal(number);
    IntegerTokenReads(sign, number, tail);
    ReferenceTailReads(gap, generation, white, rest);
    ReferenceFrom(sign + (number + tail), Decimal(number), tail, Decimal(generation), rest);
  }
}
