/** The cursor that reads the tokens of a content stream, and its agreement with the functions of the bytes. */
module ContentTokens {
  import opened Bytes
  import opened Cos
  import opened CosParsing
  import opened ContentParsing
  import opened ByteParsing

  class ContentTokenizer {
    const bytes: seq<byte>
    const limits: ContentLimits
    const isNumber: NumberTest
    var pos: nat

    constructor (bytes: seq<byte>, limits: ContentLimits, isNumber: NumberTest)
      ensures this.bytes == bytes && this.limits == limits && this.isNumber == isNumber
      ensures Valid() && Rest() == bytes
    {
      this.bytes, this.limits, this.isNumber := bytes, limits, isNumber;
      pos := 0;
    }

    ghost predicate Valid()
      reads this
    {
      pos <= |bytes|
    }

    /** The bytes not yet read. */
    ghost function Rest(): seq<byte>
      requires Valid()
      reads this
    {
      bytes[pos..]
    }

    function CurrentByte(): (r: Option<byte>)
      requires Valid()
      reads this
      ensures r == if Rest() == [] then None else Some(Rest()[0])
    {
      if pos < |bytes| then Some(bytes[pos]) else None
    }

    predicate Sees(expected: seq<byte>)
      requires Valid()
      reads this
      ensures Sees(expected) <==> StartsWith(Rest(), expected)
    {
      StartsAt(bytes, pos, expected);
      pos + |expected| <= |bytes| && bytes[pos..pos + |expected|] == expected
    }

    method Advance(n: nat)
      requires Valid() && pos + n <= |bytes|
      modifies `pos
      ensures Valid() && n <= |old(Rest())| && Rest() == old(Rest())[n..] && pos == old(pos) + n
    {
      Suffix(bytes, pos, n);
      pos := pos + n;
    }

    method SkipWhite()
      requires Valid()
      modifies `pos
      ensures Valid() && Rest() == SkipWs(old(Rest()))
    {
      while CurrentByte().Some? && IsWs(CurrentByte().value)
        invariant Valid() && SkipWs(Rest()) == SkipWs(old(Rest()))
        decreases |bytes| - pos
      {
        Advance(1);
      }
    }

    method SkipToLineEnd()
      requires Valid()
      modifies `pos
      ensures Valid() && Rest() == LineEnd(old(Rest()))
    {
      while CurrentByte().Some? && CurrentByte().value != CR && CurrentByte().value != LF
        invariant Valid() && LineEnd(Rest()) == LineEnd(old(Rest()))
        decreases |bytes| - pos
      {
        Advance(1);
      }
    }

    method SkipWsAndComments()
      requires Valid()
      modifies `pos
      ensures Valid() && Rest() == SkipBlanks(old(Rest()))
    {
      while true
        invariant Valid() && SkipBlanks(Rest()) == SkipBlanks(old(Rest()))
        decreases |bytes| - pos
      {
        SkipWhite();
        if CurrentByte() != Some(PERCENT) {
          return;
        }
        SkipToLineEnd();
      }
    }

    method ConsumeUntilDelimiter() returns (word: seq<byte>)
      requires Valid()
      modifies `pos
      ensures Valid() && var n := RegularRun(old(Rest())); word == old(Rest())[..n] && Rest() == old(Rest())[n..]
    {
      var start := pos;
      while CurrentByte().Some? && IsRegular(CurrentByte().value)
        invariant Valid() && start <= pos && RegularRun(old(Rest())) == pos - start + RegularRun(Rest())
        decreases |bytes| - pos
      {
        Advance(1);
      }
      Piece(bytes, start, pos);
      Suffix(bytes, start, pos - start);
      word := bytes[start..pos];
    }

    /** From the byte after the opening parenthesis on. */
    method ConsumeLiteralString() returns (r: Result<()>)
      requires Valid()
      modifies `pos
      ensures Valid() && old(pos) <= pos && Agrees(r, Rest(), LiteralEnd(old(Rest()), 1))
    {
      var depth: u32 := 1;
      while CurrentByte().Some?
        invariant Valid() && old(pos) <= pos && depth > 0 && LiteralEnd(Rest(), depth) == LiteralEnd(old(Rest()), 1)
        decreases |bytes| - pos
      {
        var b := CurrentByte().value;
        if b == BACKSLASH {
          if pos + 2 > |bytes| {
            return Err(Malformed);
          }
          Advance(2);
        } else if b == OPEN {
          if depth == 0xFFFF_FFFF {
            return Err(ArithmeticOverflow);
          }
          depth := depth + 1;
          Advance(1);
        } else if b == CLOSE {
          Advance(1);
          if depth == 1 {
            return Ok(());
          }
          depth := depth - 1;
        } else {
          Advance(1);
        }
      }
      return Err(Malformed);
    }

    /** From the byte after the opening bracket on. */
    method ConsumeHexString() returns (r: Result<()>)
      requires Valid()
      modifies `pos
      ensures Valid() && old(pos) <= pos && Agrees(r, Rest(), HexEnd(old(Rest())))
    {
      while CurrentByte().Some?
        invariant Valid() && old(pos) <= pos && HexEnd(Rest()) == HexEnd(old(Rest()))
        decreases |bytes| - pos
      {
        var b := CurrentByte().value;
        Advance(1);
        if b == GREATER {
          return Ok(());
        }
      }
      return Err(Malformed);
    }

    method ConsumeCompositeRange() returns (r: Result<()>)
      requires Valid()
      modifies `pos
      ensures Valid() && Agrees(r, Rest(), CompositeEnd(old(Rest()), [], limits.maxObjectDepth))
    {
      var stack: seq<byte> := [];
      while CurrentByte().Some?
        invariant Valid()
        invariant CompositeEnd(Rest(), stack, limits.maxObjectDepth) == CompositeEnd(old(Rest()), [], limits.maxObjectDepth)
        decreases |bytes| - pos
      {
        var step := CompositeStep(stack);
        if step.Err? {
          return Err(step.error);
        }
        if step.value.None? {
          return Ok(());
        }
        stack := step.value.value;
        if |stack| > limits.maxObjectDepth {
          return Err(LimitExceeded(MaxObjectDepth));
        }
      }
      return Err(Malformed);
    }

    /** One round of the loop above: the stack after it, or nothing at the end. */
    method CompositeStep(stack: seq<byte>) returns (r: Result<Option<seq<byte>>>)
      requires Valid() && Rest() != []
      modifies `pos
      ensures Valid() && old(pos) < pos
      ensures var spec := CompositeEnd(old(Rest()), stack, limits.maxObjectDepth);
              match r
              case Err(e) => spec == Bad(e)
              case Ok(None) => spec == Good((), Rest())
              case Ok(Some(next)) =>
                spec == if |next| > limits.maxObjectDepth then Bad(LimitExceeded(MaxObjectDepth))
                        else CompositeEnd(Rest(), next, limits.maxObjectDepth)
    {
      hide LiteralEnd, HexEnd;
      var b := CurrentByte().value;
      if b == LBRACKET {
        Advance(1);
        return Ok(Some(stack + [RBRACKET]));
      } else if Sees(DICT_OPEN) {
        Advance(2);
        return Ok(Some(stack + [GREATER]));
      } else if b == RBRACKET || Sees(DICT_CLOSE) {
        if stack == [] || stack[|stack| - 1] != b {
          Advance(1);
          return Err(Malformed);
        }
        Advance(if b == RBRACKET then 1 else 2);
        return Ok(if |stack| == 1 then None else Some(stack[..|stack| - 1]));
      } else if b == OPEN || b == LESS {
        Advance(1);
        var skipped := SkipString(b == OPEN);
        return if skipped.Err? then Err(skipped.error) else Ok(Some(stack));
      }
      Advance(1);
      return Ok(Some(stack));
    }

    method SkipString(literal: bool) returns (r: Result<()>)
      requires Valid()
      modifies `pos
      ensures Valid() && old(pos) <= pos
      ensures Agrees(r, Rest(), if literal then LiteralEnd(old(Rest()), 1) else HexEnd(old(Rest())))
    {
      if literal {
        r := ConsumeLiteralString();
      } else {
        r := ConsumeHexString();
      }
    }

    method NextToken() returns (r: Result<Option<Token>>)
      requires Valid()
      modifies `pos
      ensures Valid() && Agrees(r, Rest(), ContentParsing.NextToken(old(Rest()), limits, isNumber))
      ensures r.Ok? && r.value.Some? ==> old(pos) < pos
      ensures r.Ok? && r.value.Some? && r.value.value.OperatorToken? ==> IsRegular(bytes[pos - 1])
    {
      hide SkipBlanks, TokenAt;
      SkipWsAndComments();
      if CurrentByte().None? {
        return Ok(None);
      }
      r := ReadToken();
    }

    method ReadToken() returns (r: Result<Option<Token>>)
      requires Valid() && Rest() != []
      modifies `pos
      ensures Valid() && Agrees(r, Rest(), TokenAt(old(Rest()), limits, isNumber))
      ensures r.Ok? ==> old(pos) < pos
      ensures r.Ok? && r.value.Some? && r.value.value.OperatorToken? ==> IsRegular(bytes[pos - 1])
    {
      hide RegularRun, DecodeName, LiteralEnd, HexEnd, CompositeEnd, WordToken;
      var b := CurrentByte().value;
      if b == SLASH {
        Advance(1);
        var word := ConsumeUntilDelimiter();
        var name := ReadName(word);
        return if |name| > limits.maxNameBytes then Err(LimitExceeded(MaxNameBytes))
               else Ok(Some(OperandToken(NameOperand(name))));
      } else if b == OPEN || b == LBRACKET || b == LESS {
        r := ReadExtent(b);
      } else {
        var word := ConsumeUntilDelimiter();
        var token := ReadWord(word);
        if token.Err? {
          return Err(token.error);
        }
        return Ok(Some(token.value));
      }
    }

    /** Strings, arrays and dictionaries. */
    method ReadExtent(b: byte) returns (r: Result<Option<Token>>)
      requires Valid() && Rest() != [] && b == Rest()[0] && (b == OPEN || b == LBRACKET || b == LESS)
      modifies `pos
      ensures Valid() && Agrees(r, Rest(), TokenAt(old(Rest()), limits, isNumber))
      ensures r.Ok? ==> old(pos) < pos && r.value.Some? && r.value.value.OperandToken?
    {
      hide RegularRun, DecodeName, LiteralEnd, HexEnd, CompositeEnd, WordToken;
      var start := pos;
      var dictionary := Sees(DICT_OPEN);
      var end: Result<()>;
      if b == LBRACKET || dictionary {
        end := ConsumeCompositeRange();
      } else {
        Advance(1);
        end := SkipString(b == OPEN);
      }
      if end.Err? {
        return Err(end.error);
      }
      Piece(bytes, start, pos);
      if dictionary {
        return if pos - start > limits.maxOperandBytes then Err(LimitExceeded(MaxOperandBytes))
               else Ok(Some(OperandToken(CompositeOperand(bytes[start..pos]))));
      }
      return Ok(Some(OperandToken(BytesOperand(pos - start))));
    }

    method ReadWord(word: seq<byte>) returns (r: Result<Token>)
      ensures r == WordToken(word, limits, isNumber)
    {
      if IsKeyword(word) {
        return Ok(OperandToken(KeywordOperand(word)));
      }
      var integer := IntegerWord(word);
      if integer.Some? {
        return Ok(OperandToken(IntegerOperand(integer.value)));
      }
      if word != [] && isNumber(word) {
        return Ok(OperandToken(BytesOperand(|word|)));
      }
      if word == [] || |word| > limits.maxOperatorNameBytes {
        return Err(LimitExceeded(MaxOperatorNameBytes));
      }
      return Ok(OperatorToken(word));
    }

    method ReadName(word: seq<byte>) returns (name: seq<byte>)
      ensures name == DecodeName(word)
    {
      name := [];
      var i := 0;
      while i < |word|
        invariant 0 <= i <= |word| && name + DecodeName(word[i..]) == DecodeName(word)
      {
        var b := word[i];
        if b == HASH && i + 2 < |word| && HexPair(word[i + 1], word[i + 2]).Some? {
          b := HexPair(word[i + 1], word[i + 2]).value;
          Suffix(word, i, 3);
          i := i + 3;
        } else {
          Suffix(word, i, 1);
          i := i + 1;
        }
        assert name + ([b] + DecodeName(word[i..])) == name + [b] + DecodeName(word[i..]);
        name := name + [b];
      }
      assert word[i..] == [] && name + [] == name;
    }

    // -------------------------------------------------------------------------------------------
    // Inline images
    // -------------------------------------------------------------------------------------------

    method ParseInlineImage() returns (r: Result<InlineImage>)
      requires Valid()
      modifies `pos
      ensures Valid() && (r.Ok? ==> old(pos) <= pos) && Agrees(r, Rest(), ParseImage(old(Rest()), limits, isNumber))
    {
      hide ImageEntriesOf, ImageDataEnd, ImageOf;
      var entries := ReadImageEntries();
      if entries.Err? {
        return Err(entries.error);
      }
      var data := ConsumeInlineImageData();
      if data.Err? {
        return Err(data.error);
      }
      return Ok(ImageOf(entries.value));
    }

    method ReadImageEntries() returns (r: Result<ImageEntries>)
      requires Valid()
      modifies `pos
      ensures Valid() && (r.Ok? ==> old(pos) <= pos)
      ensures Agrees(r, Rest(), ImageEntriesOf(old(Rest()), None, map[], limits, isNumber))
      ensures r.Ok? && pos < |bytes| ==> pos > 0 && IsRegular(bytes[pos - 1])
    {
      hide ContentParsing.NextToken;
      var entries: ImageEntries := map[];
      var key: Option<seq<byte>> := None;
      while true
        invariant Valid() && old(pos) <= pos
        invariant ImageEntriesOf(Rest(), key, entries, limits, isNumber)
               == ImageEntriesOf(old(Rest()), None, map[], limits, isNumber)
        decreases |bytes| - pos
      {
        var token := NextToken();
        if token.Err? {
          return Err(token.error);
        }
        match token.value {
          case None =>
            return Ok(entries);
          case Some(OperatorToken(word)) =>
            if Matches(word, "ID") {
              return Ok(entries);
            }
            if key.Some? {
              entries := entries[key.value := KeywordOperand(word)];
            }
            key := None;
          case Some(OperandToken(operand)) =>
            if key.Some? {
              entries := entries[key.value := operand];
              key := None;
            } else if operand.NameOperand? {
              key := Some(operand.name);
            }
        }
      }
    }

    method ConsumeInlineImageData() returns (r: Result<()>)
      requires Valid() && (pos < |bytes| ==> pos > 0 && IsRegular(bytes[pos - 1]))
      modifies `pos
      ensures Valid() && old(pos) <= pos && Agrees(r, Rest(), ImageDataEnd(old(Rest()), limits.maxInlineImageBytes))
    {
      ghost var spec := ImageDataEnd(Rest(), limits.maxInlineImageBytes);
      if CurrentByte().Some? && IsWs(CurrentByte().value) {
        Advance(1);
      }
      var start := pos;
      while pos < |bytes|
        invariant Valid() && start <= pos && old(pos) <= pos && (pos < |bytes| ==> pos > 0)
        invariant spec == DataEnd(Rest(), pos > 0 && IsWs(bytes[pos - 1]), pos - start, limits.maxInlineImageBytes)
      {
        if pos - start > limits.maxInlineImageBytes {
          return Err(LimitExceeded(MaxInlineImageBytes));
        }
        if IsWs(bytes[pos - 1]) && Sees(EI) && (pos + 2 == |bytes| || !IsRegular(bytes[pos + 2])) {
          Advance(2);
          return Ok(());
        }
        Advance(1);
      }
      return Err(Malformed);
    }
  }
}
