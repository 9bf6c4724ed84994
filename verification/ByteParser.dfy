/** The cursor over a byte source that reads objects, and its agreement with the functions of the bytes. */
module ByteParsing {
  import opened Bytes
  import opened Cos
  import opened CosParsing
  import opened Source
  import opened FileParsing
  import FilterChain

  /** A method's result against what the bytes say: the same value with the cursor behind it, or the
      same error. */
  ghost predicate Agrees<T>(r: Result<T>, rest: seq<byte>, spec: Parsed<T>) {
    if spec.Good? then r == Ok(spec.value) && rest == spec.rest else r == Err(spec.error)
  }

  lemma StartsAt(s: seq<byte>, i: nat, expected: seq<byte>)
    requires i <= |s|
    ensures OccursAt(s, expected, i) <==> expected <= s[i..]
  {
    if i + |expected| <= |s| {
      Piece(s, i, i + |expected|);
    }
  }

  /** The outcome of one round of the file loop is the one that the bytes determine. */
  ghost predicate NextAgrees(
      next: Next, r: Result<Option<(Store, seq<Trailer>)>>, objects: Store, trailers: seq<Trailer>, facts: seq<ParseFact>)
  {
    match next
    case Failed(error) => r == Err(error)
    case Done(state) => r == Ok(None) && state == FileState(objects, trailers, facts)
    case Continue(state, _) => r == Ok(Some((state.objects, state.trailers))) && facts == state.facts
  }

  class ByteParser {
    const source: Storage
    const limits: Limits
    var pos: nat
    var parseFacts: seq<ParseFact>
    var factCapReported: bool

    constructor (source: Storage, limits: Limits)
      ensures Valid() && this.source == source && this.limits == limits && Rest() == source.bytes && parseFacts == []
    {
      this.source := source;
      this.limits := limits;
      pos := 0;
      parseFacts := [];
      factCapReported := false;
    }

    ghost predicate Valid()
      reads this
    {
      pos <= |source.bytes|
    }

    /** The bytes not yet read. */
    ghost function Rest(): seq<byte>
      requires Valid()
      reads this
    {
      source.bytes[pos..]
    }

    function PeekByte(): (r: Option<byte>)
      requires Valid()
      reads this
      ensures r == if Rest() == [] then None else Some(Rest()[0])
    {
      if pos < |source.bytes| then Some(source.bytes[pos]) else None
    }

    predicate LooksAt(expected: seq<byte>)
      requires Valid()
      reads this
      ensures LooksAt(expected) <==> StartsWith(Rest(), expected)
    {
      StartsAt(source.bytes, pos, expected);
      source.StartsWith(pos, expected)
    }

    method Advance(n: nat)
      requires Valid() && pos + n <= |source.bytes|
      modifies `pos
      ensures Valid() && n <= |old(Rest())| && Rest() == old(Rest())[n..] && pos == old(pos) + n
    {
      Suffix(source.bytes, pos, n);
      pos := pos + n;
    }

    method SkipWhite()
      requires Valid()
      modifies `pos
      ensures Valid() && Rest() == SkipWs(old(Rest()))
    {
      while PeekByte().Some? && IsWs(PeekByte().value)
        invariant Valid() && SkipWs(Rest()) == SkipWs(old(Rest()))
        decreases |source.bytes| - pos
      {
        Advance(1);
      }
    }

    method SkipLine()
      requires Valid()
      modifies `pos
      ensures Valid() && Rest() == CosParsing.SkipLine(old(Rest()))
    {
      while PeekByte().Some?
        invariant Valid() && CosParsing.SkipLine(Rest()) == CosParsing.SkipLine(old(Rest()))
        decreases |source.bytes| - pos
      {
        var b := PeekByte().value;
        Advance(1);
        if b == CosParsing.LF || b == CosParsing.CR {
          return;
        }
      }
    }

    method SkipWsAndComments()
      requires Valid()
      modifies `pos
      ensures Valid() && Rest() == SkipSpace(old(Rest()))
    {
      while true
        invariant Valid() && SkipSpace(Rest()) == SkipSpace(old(Rest()))
        decreases |source.bytes| - pos
      {
        ghost var s := Rest();
        SkipWhite();
        if LooksAt(EOF_MARKER) || PeekByte() != Some(PERCENT) {
          return;
        }
        SkipLine();
        assert SkipSpace(s) == SkipSpace(Rest());
      }
    }

    /** White space is required; comments do not count. */
    method SkipRequiredWs() returns (r: Result<()>)
      requires Valid()
      modifies `pos
      ensures Valid() && Rest() == SkipWs(old(Rest()))
      ensures r == if StartsWithWs(old(Rest())) then Ok(()) else Err(Malformed)
    {
      var start := pos;
      SkipWhite();
      return if pos == start then Err(Malformed) else Ok(());
    }

    method ConsumeBytes(expected: seq<byte>) returns (r: Result<()>)
      requires Valid()
      modifies `pos
      ensures Valid()
      ensures if StartsWith(old(Rest()), expected) then r == Ok(()) && Rest() == old(Rest())[|expected|..]
              else r == Err(Malformed) && Rest() == old(Rest())
    {
      if !LooksAt(expected) {
        return Err(Malformed);
      }
      Advance(|expected|);
      return Ok(());
    }

    // -------------------------------------------------------------------------------------------
    // Numbers
    // -------------------------------------------------------------------------------------------

    method SkipDigits() returns (digits: seq<byte>)
      requires Valid()
      modifies `pos
      ensures Valid() && var n := DigitRun(old(Rest())); digits == old(Rest())[..n] && Rest() == old(Rest())[n..]
    {
      var start := pos;
      while PeekByte().Some? && IsDigit(PeekByte().value)
        invariant Valid() && start <= pos && DigitRun(old(Rest())) == pos - start + DigitRun(Rest())
        decreases |source.bytes| - pos
      {
        Advance(1);
      }
      Piece(source.bytes, start, pos);
      Suffix(source.bytes, start, pos - start);
      digits := source.bytes[start..pos];
    }

    method ParseUnsigned(max: nat) returns (r: Result<Option<nat>>)
      requires Valid()
      modifies `pos
      ensures Valid() && Agrees(r, Rest(), CosParsing.ParseUnsigned(old(Rest()), max))
    {
      SkipWsAndComments();
      var digits := SkipDigits();
      if digits == [] {
        return Ok(None);
      }
      var value := Decimal(digits);
      return if value > max then Err(Malformed) else Ok(Some(value));
    }

    method SkipSign() returns (sign: seq<byte>)
      requires Valid()
      modifies `pos
      ensures Valid() && var n := SignLength(old(Rest())); sign == old(Rest())[..n] && Rest() == old(Rest())[n..]
    {
      if PeekByte() == Some(PLUS) || PeekByte() == Some(MINUS) {
        sign := [PeekByte().value];
        Advance(1);
      } else {
        sign := [];
      }
    }

    method SkipNumber() returns (body: seq<byte>)
      requires Valid()
      modifies `pos
      ensures Valid() && var n := NumberRun(old(Rest())); body == old(Rest())[..n] && Rest() == old(Rest())[n..]
    {
      var start := pos;
      while PeekByte().Some? && (IsDigit(PeekByte().value) || PeekByte().value == DOT)
        invariant Valid() && start <= pos && NumberRun(old(Rest())) == pos - start + NumberRun(Rest())
        decreases |source.bytes| - pos
      {
        Advance(1);
      }
      Piece(source.bytes, start, pos);
      Suffix(source.bytes, start, pos - start);
      body := source.bytes[start..pos];
    }

    method ParseNumberToken() returns (r: Result<Number>)
      requires Valid()
      modifies `pos
      ensures Valid() && Agrees(r, Rest(), CosParsing.ParseNumberToken(old(Rest())))
    {
      hide NumberOf, SkipSpace, SignLength, NumberRun;
      SkipWsAndComments();
      var sign := SkipSign();
      var body := SkipNumber();
      return NumberOf(sign, body);
    }

    /** Backtracks to the end of the first number unless a whole reference follows. */
    method ParseNumberOrReference() returns (r: Result<CosObject>)
      requires Valid()
      modifies `pos
      ensures Valid() && Agrees(r, Rest(), CosParsing.ParseNumberOrReference(old(Rest())))
    {
      hide CosParsing.ParseNumberToken, CosParsing.ParseUnsigned, SkipWs, StartsWithWs;
      var firstStart := pos;
      var first := ParseNumberToken();
      if first.Err? {
        return Err(first.error);
      }
      if first.value.IntegerNumber? {
        var afterFirst := pos;
        var gap := SkipRequiredWs();
        if gap.Ok? {
          var generation := ParseUnsigned(0xFFFF);
          if generation.Err? {
            return Err(generation.error);
          }
          if generation.value.Some? {
            gap := SkipRequiredWs();
            if gap.Ok? && LooksAt([LETTER_R]) {
              var end := ConsumeBytes([LETTER_R]);
              var number: int := first.value.value;
              if number < 0 || number >= 0x1_0000_0000 {
                return Err(Malformed);
              }
              if number != 0 && generation.value.value < 0x1_0000 {
                return Ok(Reference(ObjectKey(number, generation.value.value)));
              }
            }
          }
        }
        pos := afterFirst;
      }
      pos := firstStart;
      first := ParseNumberToken();
      return match first.value
        case IntegerNumber(value) => Ok(Integer(value))
        case RealNumber(digits) => Ok(Real(digits));
    }

    // -------------------------------------------------------------------------------------------
    // Names and strings
    // -------------------------------------------------------------------------------------------

    method NextByte() returns (b: Option<byte>)
      requires Valid()
      modifies `pos
      ensures Valid()
      ensures if old(Rest()) == [] then b == None && Rest() == []
              else b == Some(old(Rest())[0]) && Rest() == old(Rest())[1..]
    {
      b := PeekByte();
      if b.Some? {
        Advance(1);
      }
    }

    method ParseName() returns (r: Result<seq<byte>>)
      requires Valid()
      modifies `pos
      ensures Valid() && Agrees(r, Rest(), CosParsing.ParseName(old(Rest()), limits))
    {
      var start := ConsumeBytes([SLASH]);
      if start.Err? {
        return Err(start.error);
      }
      ghost var all := Rest();
      var bytes := [];
      while PeekByte().Some? && !IsDelimiter(PeekByte().value) && !IsWs(PeekByte().value)
        invariant Valid() && |bytes| <= limits.maxNameBytes
        invariant NameBytes(Rest(), bytes, limits) == NameBytes(all, [], limits)
        decreases |source.bytes| - pos
      {
        ghost var s := Rest();
        var b := PeekByte().value;
        Advance(1);
        if b == HASH {
          var high := NextByte();
          if high.None? {
            return Err(Malformed);
          }
          var low := NextByte();
          if low.None? {
            return Err(Malformed);
          }
          if HexPair(high.value, low.value).None? {
            return Err(Malformed);
          }
          assert Rest() == s[3..] by {
            Suffix(s, 1, 1);
            Suffix(s, 2, 1);
          }
          bytes := bytes + [HexPair(high.value, low.value).value];
        } else {
          bytes := bytes + [b];
        }
        if |bytes| > limits.maxNameBytes {
          return Err(LimitExceeded(MaxNameBytes));
        }
      }
      return Ok(bytes);
    }

    method ParseLiteralString() returns (r: Result<seq<byte>>)
      requires Valid()
      modifies `pos
      ensures Valid() && Agrees(r, Rest(), ParseLiteral(old(Rest()), limits))
    {
      var start := ConsumeBytes([OPEN]);
      if start.Err? {
        return Err(start.error);
      }
      ghost var all := Rest();
      var depth: u32 := 1;
      var bytes := [];
      while PeekByte().Some?
        invariant Valid() && depth > 0 && |bytes| <= limits.maxStringBytes
        invariant LiteralBytes(Rest(), depth, bytes, limits) == LiteralBytes(all, 1, [], limits)
        decreases |source.bytes| - pos
      {
        var b := PeekByte().value;
        ghost var s := Rest();
        Advance(1);
        if b == BACKSLASH {
          var escaped := NextByte();
          if escaped.None? {
            return Err(Malformed);
          }
          Suffix(s, 1, 1);
          bytes := bytes + [Unescape(escaped.value)];
        } else if b == OPEN {
          if depth == 0xFFFF_FFFF {
            return Err(ArithmeticOverflow);
          }
          depth := depth + 1;
          bytes := bytes + [b];
        } else if b == CLOSE {
          if depth == 1 {
            return Ok(bytes);
          }
          depth := depth - 1;
          bytes := bytes + [b];
        } else {
          bytes := bytes + [b];
        }
        if |bytes| > limits.maxStringBytes {
          return Err(LimitExceeded(MaxStringBytes));
        }
      }
      return Err(Malformed);
    }

    method ReadHexChars() returns (chars: seq<byte>)
      requires Valid()
      modifies `pos
      ensures Valid() && HexChars(old(Rest()), []) == (chars, Rest())
    {
      chars := [];
      while PeekByte().Some?
        invariant Valid() && HexChars(Rest(), chars) == HexChars(old(Rest()), [])
        decreases |source.bytes| - pos
      {
        var b := PeekByte().value;
        Advance(1);
        if b == GREATER {
          return;
        }
        if !IsWs(b) {
          chars := chars + [b];
        }
      }
    }

    method ParseHexString() returns (r: Result<seq<byte>>)
      requires Valid()
      modifies `pos
      ensures Valid() && Agrees(r, Rest(), ParseHex(old(Rest()), limits))
    {
      hide HexBytes, HexChars;
      var start := ConsumeBytes([LESS]);
      if start.Err? {
        return Err(start.error);
      }
      var nibbles := ReadHexChars();
      if |nibbles| % 2 != 0 {
        nibbles := nibbles + [48];
      }
      var bytes := PairUp(nibbles);
      return
        if bytes.None? then Err(Malformed)
        else if |bytes.value| > limits.maxStringBytes then Err(LimitExceeded(MaxStringBytes))
        else Ok(bytes.value);
    }

    // -------------------------------------------------------------------------------------------
    // Objects
    // -------------------------------------------------------------------------------------------

    method ParseObject(depth: u32) returns (r: Result<CosObject>)
      requires Valid()
      modifies `pos
      ensures Valid() && Agrees(r, Rest(), CosParsing.ParseObject(old(Rest()), depth, limits))
      decreases |source.bytes| - pos, 1
    {
      hide ParseItems, ParseEntries, ParseLeaf;
      if depth > limits.maxObjectDepth {
        return Err(LimitExceeded(MaxObjectDepth));
      }
      SkipWsAndComments();
      if LooksAt(DICT_OPEN) {
        var entries := ParseDictionary(depth);
        return if entries.Err? then Err(entries.error) else Ok(Dict(entries.value));
      }
      if LooksAt([LBRACKET]) {
        var items := ParseArray(depth);
        return if items.Err? then Err(items.error) else Ok(Array(items.value));
      }
      if PeekByte().None? {
        return Err(Malformed);
      }
      r := ReadLeaf();
    }

    method ReadLeaf() returns (r: Result<CosObject>)
      requires Valid() && Rest() != []
      modifies `pos
      ensures Valid() && Agrees(r, Rest(), ParseLeaf(old(Rest()), limits))
    {
      hide CosParsing.ParseName, ParseLiteral, ParseHex, CosParsing.ParseNumberOrReference;
      var b := PeekByte().value;
      if b == SLASH {
        var bytes := ParseName();
        return if bytes.Err? then Err(bytes.error) else Ok(Name(bytes.value));
      } else if b == OPEN {
        var bytes := ParseLiteralString();
        return if bytes.Err? then Err(bytes.error) else Ok(String(bytes.value));
      } else if b == LESS {
        var bytes := ParseHexString();
        return if bytes.Err? then Err(bytes.error) else Ok(String(bytes.value));
      } else if b == LETTER_T && LooksAt(TRUE) {
        var word := ConsumeBytes(TRUE);
        return Ok(Boolean(true));
      } else if b == LETTER_F && LooksAt(FALSE) {
        var word := ConsumeBytes(FALSE);
        return Ok(Boolean(false));
      } else if b == LETTER_N && LooksAt(NULL) {
        var word := ConsumeBytes(NULL);
        return Ok(Null);
      } else if b == MINUS || b == PLUS || b == DOT || IsDigit(b) {
        r := ParseNumberOrReference();
      } else {
        return Err(Malformed);
      }
    }

    method ParseArray(depth: u32) returns (r: Result<seq<CosObject>>)
      requires Valid() && StartsWith(Rest(), [LBRACKET])
      modifies `pos
      ensures Valid() && Agrees(r, Rest(), ParseItems(old(Rest())[1..], depth, [], limits))
      decreases |source.bytes| - pos, 0
    {
      hide CosParsing.ParseObject;
      var start := ConsumeBytes([LBRACKET]);
      var values := [];
      while true
        invariant Valid() && pos > old(pos)
        invariant ParseItems(Rest(), depth, values, limits) == ParseItems(old(Rest())[1..], depth, [], limits)
        decreases |source.bytes| - pos
      {
        SkipWsAndComments();
        if LooksAt([RBRACKET]) {
          var end := ConsumeBytes([RBRACKET]);
          return Ok(values);
        }
        var value := ParseObject(Deeper(depth));
        if value.Err? {
          return Err(value.error);
        }
        if |values| + 1 > limits.maxArrayLen {
          return Err(LimitExceeded(MaxArrayLen));
        }
        values := values + [value.value];
      }
    }

    method ParseDictionary(depth: u32) returns (r: Result<Dictionary>)
      requires Valid()
      modifies `pos
      ensures Valid()
      ensures if StartsWith(old(Rest()), DICT_OPEN)
              then Agrees(r, Rest(), ParseEntries(old(Rest())[2..], depth, map[], limits))
              else r == Err(Malformed)
      decreases |source.bytes| - pos, 0
    {
      hide CosParsing.ParseObject, CosParsing.ParseName;
      var start := ConsumeBytes(DICT_OPEN);
      if start.Err? {
        return Err(start.error);
      }
      var dictionary := map[];
      while true
        invariant Valid() && pos > old(pos)
        invariant ParseEntries(Rest(), depth, dictionary, limits) == ParseEntries(old(Rest())[2..], depth, map[], limits)
        decreases |source.bytes| - pos
      {
        SkipWsAndComments();
        if LooksAt(DICT_CLOSE) {
          var end := ConsumeBytes(DICT_CLOSE);
          return Ok(dictionary);
        }
        var key := ParseName();
        if key.Err? {
          return Err(key.error);
        }
        var value := ParseObject(Deeper(depth));
        if value.Err? {
          return Err(value.error);
        }
        if |dictionary| + 1 > limits.maxDictEntries {
          return Err(LimitExceeded(MaxDictEntries));
        }
        dictionary := dictionary[key.value := value.value];
      }
    }

    // -------------------------------------------------------------------------------------------
    // Streams and indirect objects
    // -------------------------------------------------------------------------------------------

    method PushFact(fact: ParseFact)
      modifies `parseFacts, `factCapReported
      ensures parseFacts == PushFacts(old(parseFacts), [fact], limits.maxParseFacts)
      ensures factCapReported == (old(factCapReported) || |old(parseFacts)| >= limits.maxParseFacts)
    {
      assert [fact][1..] == [];
      if |parseFacts| >= limits.maxParseFacts {
        factCapReported := true;
        return;
      }
      parseFacts := parseFacts + [fact];
    }

    method PeekStreamMarker() returns (found: bool)
      requires Valid()
      modifies `pos
      ensures Valid() && pos == old(pos) && found == StartsWith(SkipSpace(Rest()), STREAM)
    {
      var saved := pos;
      SkipWsAndComments();
      found := LooksAt(STREAM);
      pos := saved;
    }

    method SkipStreamEol() returns (crlf: bool)
      requires Valid()
      modifies `pos
      ensures Valid() && crlf == StartsWith(old(Rest()), CRLF) && Rest() == DataAfterKeyword(old(Rest()))
    {
      crlf := LooksAt(CRLF);
      if crlf {
        Advance(2);
      } else if LooksAt([CosParsing.LF]) || LooksAt([CosParsing.CR]) {
        Advance(1);
      }
    }

    /** Moves to the data of a stream; tells whether the keyword's line ended as it should. */
    method ParseStreamKeyword() returns (r: Result<bool>)
      requires Valid()
      modifies `pos
      ensures Valid()
      ensures var t := SkipSpace(old(Rest()));
              if StartsWith(t, STREAM) then r == Ok(StartsWith(t[6..], CRLF)) && Rest() == DataAfterKeyword(t[6..])
              else r == Err(Malformed)
    {
      hide SkipSpace, DataAfterKeyword;
      SkipWsAndComments();
      var keyword := ConsumeBytes(STREAM);
      if keyword.Err? {
        return Err(keyword.error);
      }
      var crlf := SkipStreamEol();
      return Ok(crlf);
    }

    method ReportStream(key: ObjectKey, dictionary: Dictionary, dataStart: nat, extent: (nat, nat), crlf: bool,
                        ghost raw: (seq<byte>, nat, nat))
      requires dataStart <= extent.0
      modifies `parseFacts, `factCapReported
      ensures parseFacts == PushFacts(
                              old(parseFacts),
                              StreamFacts(key, StreamFound(source.bytes, dataStart, extent, raw, dictionary, crlf)),
                              limits.maxParseFacts)
    {
      hide PushFacts, StreamFacts, StreamFound;
      var declared := DeclaredLength(dictionary);
      var discovered := extent.0 - dataStart;
      PushFact(StreamLength(key, if declared.Some? then declared.value else discovered, discovered));
      PushFact(KeywordSpacing(key, crlf, HasEolBefore(source.bytes, extent.1)));
      TwoFacts(old(parseFacts), key, source.bytes, dataStart, extent, raw, dictionary, crlf, limits.maxParseFacts);
    }

    method ParseStream(key: ObjectKey, dictionary: Dictionary) returns (r: Result<StreamObject>)
      requires Valid()
      modifies `pos, `parseFacts, `factCapReported
      ensures Valid() && Agrees(r, Rest(), StreamAt(source, old(Rest()), dictionary, limits))
      ensures r.Ok? ==> parseFacts == PushFacts(old(parseFacts), StreamFacts(key, r.value), limits.maxParseFacts)
    {
      hide StreamExtent, DeclaredLength, SkipSpace, DataAfterKeyword, StreamFound, PushFacts, StreamSource, OccursAt,
        StreamFacts;
      var crlf := ParseStreamKeyword();
      if crlf.Err? {
        return Err(crlf.error);
      }
      var dataStart := pos;
      var declared := DeclaredLength(dictionary);
      var extent := FindStreamExtent(source, dataStart, declared, limits.maxStreamDeclaredBytes);
      if extent.Err? {
        return Err(extent.error);
      }
      ExtentIsWellFormed(source.bytes, dataStart, declared, limits.maxStreamDeclaredBytes);
      KeywordAt(source.bytes, extent.value.1, ENDSTREAM);
      pos := extent.value.1;
      var end := ConsumeBytes(ENDSTREAM);
      var raw := StreamSource(source, dataStart, extent.value.0);
      ReportStream(key, dictionary, dataStart, extent.value, crlf.value, if raw.Ok? then raw.value else ([], 0, 0));
      if raw.Err? {
        return Err(raw.error);
      }
      return Ok(StreamFound(source.bytes, dataStart, extent.value, raw.value, dictionary, crlf.value));
    }

    method ParseObjectNumber() returns (r: Result<Option<ObjectKey>>)
      requires Valid()
      modifies `pos
      ensures Valid() && Agrees(r, Rest(), ParseObjectHeader(old(Rest())))
    {
      hide CosParsing.ParseUnsigned, SkipWs;
      var start := pos;
      var number := ParseUnsigned(0xFFFF_FFFF);
      if number.Err? {
        return Err(number.error);
      }
      if number.value.None? {
        return Ok(None);
      }
      var gap := SkipRequiredWs();
      if gap.Err? {
        return Err(gap.error);
      }
      var generation := ParseUnsigned(0xFFFF);
      if generation.Err? {
        return Err(generation.error);
      }
      if generation.value.None? {
        pos := start;
        return Ok(None);
      }
      gap := SkipRequiredWs();
      if gap.Err? {
        return Err(gap.error);
      }
      if !LooksAt(OBJ) {
        pos := start;
        return Ok(None);
      }
      var keyword := ConsumeBytes(OBJ);
      if number.value.value == 0 || number.value.value > 0xFFFF_FFFF || generation.value.value > 0xFFFF {
        return Err(Malformed);
      }
      return Ok(Some(ObjectKey(number.value.value, generation.value.value)));
    }

    method ParseBody(key: ObjectKey) returns (r: Result<CosObject>)
      requires Valid()
      modifies `pos, `parseFacts, `factCapReported
      ensures Valid() && Agrees(r, Rest(), BodyAt(source, old(Rest()), limits))
      ensures r.Ok? ==>
                parseFacts == PushFacts(
                  old(parseFacts), FactsOf(IndirectObject(key, 0, r.value)), limits.maxParseFacts)
    {
      hide CosParsing.ParseObject, StreamAt, SkipSpace, StreamFacts;
      var parsed := ParseObject(0);
      if parsed.Err? {
        return Err(parsed.error);
      }
      NeverAStream(old(Rest()), 0, limits);
      var value := parsed.value;
      if value.Dict? {
        var marker := PeekStreamMarker();
        if marker {
          var stream := ParseStream(key, value.entries);
          if stream.Err? {
            return Err(stream.error);
          }
          value := Stream(stream.value);
        }
      }
      SkipWsAndComments();
      if LooksAt(ENDOBJ) {
        var keyword := ConsumeBytes(ENDOBJ);
      }
      return Ok(value);
    }

    method ParseIndirectObject() returns (r: Result<Option<IndirectObject>>)
      requires Valid()
      modifies `pos, `parseFacts, `factCapReported
      ensures Valid() && Agrees(r, Rest(), IndirectAt(source, old(Rest()), limits))
      ensures r.Ok? ==>
                parseFacts == if r.value.None? then old(parseFacts)
                              else PushFacts(old(parseFacts), FactsOf(r.value.value), limits.maxParseFacts)
    {
      hide ParseObjectHeader, BodyAt, StreamFacts, PushFacts;
      var start := pos;
      var key := ParseObjectNumber();
      if key.Err? {
        return Err(key.error);
      }
      if key.value.None? {
        return Ok(None);
      }
      var body := ParseBody(key.value.value);
      if body.Err? {
        return Err(body.error);
      }
      return Ok(Some(IndirectObject(key.value.value, start, body.value)));
    }

    // -------------------------------------------------------------------------------------------
    // Cross-reference sections and trailers
    // -------------------------------------------------------------------------------------------

    method ParseFixedDigits(n: nat) returns (found: bool)
      requires Valid()
      modifies `pos
      ensures Valid() && found == HasDigits(old(Rest()), n) && Rest() == AfterDigits(old(Rest()), n)
    {
      if pos + n > |source.bytes| {
        return false;
      }
      Piece(source.bytes, pos, pos + n);
      found := AllDigits(source.bytes[pos..pos + n]);
      if found {
        Advance(n);
      }
    }

    method SkipEntrySpaces()
      requires Valid()
      modifies `pos
      ensures Valid() && Rest() == SkipXrefSpaces(old(Rest()))
    {
      while PeekByte() == Some(9) || PeekByte() == Some(32)
        invariant Valid() && SkipXrefSpaces(Rest()) == SkipXrefSpaces(old(Rest()))
        decreases |source.bytes| - pos
      {
        Advance(1);
      }
    }

    /** Whether an end of line comes at or after the start of the line. */
    method LineHadEol(lineStart: nat) returns (found: bool)
      requires lineStart <= |source.bytes|
      ensures var s := source.bytes[lineStart..]; found == (CosParsing.LF in s || CosParsing.CR in s)
    {
      var lf := FindInStorage(source, [CosParsing.LF], lineStart, |source.bytes|);
      OneByteFound(source.bytes, CosParsing.LF, lineStart);
      if lf.Some? {
        return lf.value >= lineStart;
      }
      var cr := FindInStorage(source, [CosParsing.CR], lineStart, |source.bytes|);
      OneByteFound(source.bytes, CosParsing.CR, lineStart);
      return cr.Some?;
    }

    method ParseXrefEntry() returns (ok: bool)
      requires Valid()
      modifies `pos
      ensures Valid() && (ok, Rest()) == XrefEntry(old(Rest()))
    {
      hide HasDigits, AfterDigits, SkipXrefSpaces;
      var lineStart := pos;
      var offset := ParseFixedDigits(10);
      SkipEntrySpaces();
      var generation := ParseFixedDigits(5);
      SkipEntrySpaces();
      var marker := NextByte();
      var eol := LineHadEol(lineStart);
      ok := offset && generation && (marker == Some(LETTER_N) || marker == Some(LETTER_F)) && eol;
    }

    method ParseXrefEntries(count: nat, before: XrefState) returns (r: Result<XrefState>)
      requires Valid()
      modifies `pos
      ensures Valid() && Agrees(r, Rest(), XrefEntries(old(Rest()), count, before, limits))
    {
      hide XrefEntry, CosParsing.SkipLine;
      var x := before;
      for i := 0 to count
        invariant Valid()
        invariant XrefEntries(Rest(), count - i, x, limits) == XrefEntries(old(Rest()), count, before, limits)
      {
        var ok := ParseXrefEntry();
        if x.entries + 1 > limits.maxObjects {
          return Err(LimitExceeded(MaxObjects));
        }
        x := XrefState(x.entries + 1, x.compliant && ok);
        SkipLine();
      }
      return Ok(x);
    }

    predicate AtXrefEnd()
      requires Valid()
      reads this
      ensures AtXrefEnd() <==> EndsXref(Rest())
    {
      pos >= |source.bytes| || LooksAt(TRAILER) || LooksAt(STARTXREF) || LooksAt(EOF_MARKER)
    }

    method ParseXrefSubsections() returns (r: Result<XrefState>)
      requires Valid()
      modifies `pos
      ensures Valid() && Agrees(r, Rest(), XrefSubsections(old(Rest()), XrefState(0, true), limits))
    {
      hide CosParsing.ParseUnsigned, XrefEntries, CosParsing.SkipLine, SkipWs, SkipSpace, EndsXref;
      var x := XrefState(0, true);
      while true
        invariant Valid()
        invariant XrefSubsections(Rest(), x, limits) == XrefSubsections(old(Rest()), XrefState(0, true), limits)
        decreases |source.bytes| - pos
      {
        SkipSpaceTwice(Rest());
        SkipWsAndComments();
        ghost var t := Rest();
        if AtXrefEnd() {
          return Ok(x);
        }
        var first := ParseUnsigned(0xFFFF_FFFF);
        if first.Err? {
          return Err(first.error);
        }
        if first.value.None? {
          NothingRead(t, 0xFFFF_FFFF);
          x := x.(compliant := false);
          SkipLine();
          continue;
        }
        var gap := SkipRequiredWs();
        if gap.Err? {
          return Err(gap.error);
        }
        var count := ParseUnsigned(0xFFFF_FFFF);
        if count.Err? {
          return Err(count.error);
        }
        if count.value.None? {
          x := x.(compliant := false);
          SkipLine();
          continue;
        }
        SkipLine();
        var entries := ParseXrefEntries(count.value.value, x);
        if entries.Err? {
          return Err(entries.error);
        }
        x := entries.value;
      }
    }

    method PushXrefChainFacts(section: nat, dictionary: Dictionary) returns (r: Result<()>)
      modifies `parseFacts, `factCapReported
      ensures var facts := ChainFacts(section, dictionary);
              if facts.Err? then r == Err(facts.error)
              else r == Ok(()) && parseFacts == PushFacts(old(parseFacts), facts.value, limits.maxParseFacts)
    {
      hide OffsetOf;
      var prev := OffsetOf(dictionary, "Prev");
      if prev.Err? {
        return Err(prev.error);
      }
      if prev.value.Some? {
        PushFact(PrevChain(section, prev.value.value));
      }
      var hybrid := OffsetOf(dictionary, "XRefStm");
      if hybrid.Err? {
        return Err(hybrid.error);
      }
      if hybrid.value.Some? {
        PushFact(HybridReference(section, hybrid.value.value));
      }
      return Ok(());
    }

    /** The trailer at the cursor; `trailers` grows by it. */
    method ParseTrailer(objects: Store, trailers: seq<Trailer>) returns (r: Result<seq<Trailer>>)
      requires Valid() && StartsWith(Rest(), TRAILER)
      modifies `pos, `parseFacts, `factCapReported
      ensures Valid()
      ensures StateAgrees(r, objects, TrailerAt(source, old(Rest()), FileState(objects, trailers, old(parseFacts)), limits))
    {
      hide ParseEntries, PushFacts, ChainFacts;
      var keyword := ConsumeBytes(TRAILER);
      SkipWsAndComments();
      var offset := pos;
      var dictionary := ParseDictionary(0);
      if dictionary.Err? {
        return Err(dictionary.error);
      }
      var chain := PushXrefChainFacts(offset, dictionary.value);
      if chain.Err? {
        return Err(chain.error);
      }
      return Ok(trailers + [Trailer(dictionary.value, offset)]);
    }

    /** The parser and the trailers it has collected are in the state the bytes lead to. */
    ghost predicate StateAgrees(r: Result<seq<Trailer>>, objects: Store, spec: Parsed<FileState>)
      requires Valid()
      reads this
    {
      if spec.Good? then r.Ok? && FileState(objects, r.value, parseFacts) == spec.value && Rest() == spec.rest
      else r == Err(spec.error)
    }

    method ParseTrailerAfter(objects: Store, trailers: seq<Trailer>) returns (r: Result<seq<Trailer>>)
      requires Valid()
      modifies `pos, `parseFacts, `factCapReported
      ensures Valid()
      ensures StateAgrees(r, objects, TrailerAfter(source, old(Rest()), FileState(objects, trailers, old(parseFacts)), limits))
    {
      hide TrailerAt;
      while true
        invariant Valid() && parseFacts == old(parseFacts)
        invariant var state := FileState(objects, trailers, old(parseFacts));
                  TrailerAfter(source, Rest(), state, limits) == TrailerAfter(source, old(Rest()), state, limits)
        decreases |source.bytes| - pos
      {
        SkipWsAndComments();
        if pos >= |source.bytes| {
          return Ok(trailers);
        }
        if LooksAt(TRAILER) {
          r := ParseTrailer(objects, trailers);
          return;
        }
        if AtXrefEnd() {
          return Ok(trailers);
        }
        SkipLine();
      }
    }

    method ParseXrefAndTrailer(objects: Store, trailers: seq<Trailer>) returns (r: Result<seq<Trailer>>)
      requires Valid() && StartsWith(Rest(), XREF)
      modifies `pos, `parseFacts, `factCapReported
      ensures Valid()
      ensures StateAgrees(r, objects, XrefAt(source, old(Rest()), FileState(objects, trailers, old(parseFacts)), limits))
    {
      hide XrefSubsections, TrailerAfter, PushFacts;
      var offset := pos;
      var keyword := ConsumeBytes(XREF);
      var x := ParseXrefSubsections();
      if x.Err? {
        return Err(x.error);
      }
      PushFact(XrefSection(offset, x.value.compliant));
      r := ParseTrailerAfter(objects, trailers);
    }

    // -------------------------------------------------------------------------------------------
    // The file
    // -------------------------------------------------------------------------------------------

    method ParsePostEofFact()
      requires Valid() && StartsWith(Rest(), EOF_MARKER)
      modifies `pos, `parseFacts, `factCapReported
      ensures Valid() && parseFacts == PushFacts(old(parseFacts), PostEofFacts(old(Rest())[5..]), limits.maxParseFacts)
    {
      var keyword := ConsumeBytes(EOF_MARKER);
      var remaining := |source.bytes| - pos - TrailingWhite(source.bytes[pos..]);
      if remaining > 0 {
        PushFact(PostEofData(remaining));
      }
    }

    /** One round of the loop below. */
    method ParseNext(objects: Store, trailers: seq<Trailer>) returns (r: Result<Option<(Store, seq<Trailer>)>>)
      requires Valid()
      modifies `pos, `parseFacts, `factCapReported
      ensures var next := NextOf(source, old(Rest()), FileState(objects, trailers, old(parseFacts)), limits);
              NextAgrees(next, r, objects, trailers, parseFacts) && (next.Continue? ==> Valid() && Rest() == next.rest)
    {
      hide XrefAt, TrailerAt, IndirectAt, PushFacts, PostEofFacts, CosParsing.SkipLine, FactsOf, SkipSpace, StartsWith;
      SkipSpaceTwice(Rest());
      SkipWsAndComments();
      if LooksAt(EOF_MARKER) {
        ParsePostEofFact();
        return Ok(None);
      }
      if LooksAt(STARTXREF) {
        SkipLine();
        return Ok(Some((objects, trailers)));
      }
      if LooksAt(XREF) {
        var section := ParseXrefAndTrailer(objects, trailers);
        return if section.Err? then Err(section.error) else Ok(Some((objects, section.value)));
      }
      if LooksAt(TRAILER) {
        var trailer := ParseTrailer(objects, trailers);
        return if trailer.Err? then Err(trailer.error) else Ok(Some((objects, trailer.value)));
      }
      r := ParseNextObject(objects, trailers);
    }

    /** A round where no keyword stands: an indirect object, or one byte stepped over. */
    method ParseNextObject(objects: Store, trailers: seq<Trailer>) returns (r: Result<Option<(Store, seq<Trailer>)>>)
      requires Valid() && SkipSpace(Rest()) == Rest()
      requires !StartsWith(Rest(), EOF_MARKER) && !StartsWith(Rest(), STARTXREF)
      requires !StartsWith(Rest(), XREF) && !StartsWith(Rest(), TRAILER)
      modifies `pos, `parseFacts, `factCapReported
      ensures var next := NextOf(source, old(Rest()), FileState(objects, trailers, old(parseFacts)), limits);
              NextAgrees(next, r, objects, trailers, parseFacts) && (next.Continue? ==> Valid() && Rest() == next.rest)
    {
      hide XrefAt, TrailerAt, IndirectAt, PushFacts, PostEofFacts, CosParsing.SkipLine, FactsOf, SkipSpace, StartsWith;
      var before := pos;
      Suffix(source.bytes, before, if before < |source.bytes| then 1 else 0);
      var found := ParseIndirectObject();
      if found.Err? {
        return Err(found.error);
      }
      match found.value
      case Some(o) =>
        return if |objects| + 1 > limits.maxObjects then Err(LimitExceeded(MaxObjects))
          else Ok(Some((objects[o.key := o], trailers)));
      case None =>
        pos := before + 1;
        return if before < |source.bytes| then Ok(Some((objects, trailers))) else Ok(None);
    }

    /** Reads the file from the cursor on: the objects, trailers and facts the bytes determine. */
    method ParseTopLevelObjects() returns (r: Result<FileState>)
      requires Valid()
      modifies `pos, `parseFacts, `factCapReported
      ensures r == TopLevel(source, old(Rest()), FileState(map[], [], old(parseFacts)), limits)
      ensures r.Ok? ==> parseFacts == r.value.facts
    {
      hide NextOf;
      var objects: Store := map[];
      var trailers: seq<Trailer> := [];
      while pos < |source.bytes|
        invariant Valid()
        invariant TopLevel(source, Rest(), FileState(objects, trailers, parseFacts), limits)
               == TopLevel(source, old(Rest()), FileState(map[], [], old(parseFacts)), limits)
        decreases |source.bytes| - pos
      {
        var next := ParseNext(objects, trailers);
        if next.Err? {
          return Err(next.error);
        }
        match next.value
        case None =>
          return Ok(FileState(objects, trailers, parseFacts));
        case Some(collected) =>
          objects, trailers := collected.0, collected.1;
      }
      return Ok(FileState(objects, trailers, parseFacts));
    }
  }

  function PrependTo(bytes: seq<byte>, more: Option<seq<byte>>): Option<seq<byte>> {
    if more.None? then None else Some(bytes + more.value)
  }

  lemma PrependNothing(more: Option<seq<byte>>)
    ensures PrependTo([], more) == more
  {
    if more.Some? {
      assert [] + more.value == more.value;
    }
  }

  /** The bytes that pairs of digits spell. */
  method PairUp(nibbles: seq<byte>) returns (r: Option<seq<byte>>)
    requires |nibbles| % 2 == 0
    ensures r == HexBytes(nibbles)
  {
    var bytes := [];
    var k := 0;
    assert nibbles[0..] == nibbles;
    PrependNothing(HexBytes(nibbles));
    while k < |nibbles|
      invariant 0 <= k <= |nibbles| && k % 2 == 0
      invariant HexBytes(nibbles) == PrependTo(bytes, HexBytes(nibbles[k..]))
    {
      var pair := HexPair(nibbles[k], nibbles[k + 1]);
      if pair.None? {
        return None;
      }
      Suffix(nibbles, k, 2);
      HexOnce(nibbles[k..], bytes, pair.value);
      bytes := bytes + [pair.value];
      k := k + 2;
    }
    assert HexBytes(nibbles[k..]) == Some([]) && bytes + [] == bytes;
    return Some(bytes);
  }

  lemma HexOnce(s: seq<byte>, bytes: seq<byte>, first: byte)
    requires |s| >= 2 && |s| % 2 == 0 && HexPair(s[0], s[1]) == Some(first)
    ensures PrependTo(bytes, HexBytes(s)) == PrependTo(bytes + [first], HexBytes(s[2..]))
  {
    var more := HexBytes(s[2..]);
    if more.Some? {
      assert bytes + ([first] + more.value) == bytes + [first] + more.value;
    }
  }

  lemma KeywordAt(bytes: seq<byte>, pos: nat, keyword: seq<byte>)
    requires OccursAt(bytes, keyword, pos)
    ensures pos + |keyword| <= |bytes| && StartsWith(bytes[pos..], keyword)
    ensures bytes[pos..][|keyword|..] == bytes[pos + |keyword|..]
  {
    StartsAt(bytes, pos, keyword);
    Suffix(bytes, pos, |keyword|);
  }

  /** The two facts a stream is reported with. */
  lemma TwoFacts(facts: seq<ParseFact>, key: ObjectKey, bytes: seq<byte>, dataStart: nat, extent: (nat, nat),
                 raw: (seq<byte>, nat, nat), d: Dictionary, crlf: bool, cap: nat)
    requires dataStart <= extent.0
    ensures var declared := DeclaredLength(d);
            var discovered := extent.0 - dataStart;
            var first := StreamLength(key, if declared.Some? then declared.value else discovered, discovered);
            var second := KeywordSpacing(key, crlf, HasEolBefore(bytes, extent.1));
            PushFacts(facts, StreamFacts(key, StreamFound(bytes, dataStart, extent, raw, d, crlf)), cap)
            == PushFacts(PushFacts(facts, [first], cap), [second], cap)
  {
    hide DeclaredLength, HasEolBefore;
    var all := StreamFacts(key, StreamFound(bytes, dataStart, extent, raw, d, crlf));
    assert all[1..] == [all[1]] && [all[0]][1..] == [];
  }

  lemma NeverAStream(s: seq<byte>, depth: u32, limits: Limits)
    ensures CosParsing.ParseObject(s, depth, limits).Good? ==> !CosParsing.ParseObject(s, depth, limits).value.Stream?
  {
    hide ParseItems, ParseEntries;
  }

  lemma NothingRead(t: seq<byte>, max: nat)
    requires SkipSpace(t) == t && CosParsing.ParseUnsigned(t, max).Good? && CosParsing.ParseUnsigned(t, max).value.None?
    ensures CosParsing.ParseUnsigned(t, max).rest == t
  {
  }

  lemma OneByteFound(bytes: seq<byte>, b: byte, start: nat)
    requires start <= |bytes|
    ensures FindIn(bytes, [b], start, |bytes|).Some? <==> b in bytes[start..]
    ensures FindIn(bytes, [b], start, |bytes|).Some? ==> FindIn(bytes, [b], start, |bytes|).value >= start
  {
    var s := bytes[start..|bytes|];
    assert s == bytes[start..];
    if b in s {
      var i :| 0 <= i < |s| && s[i] == b;
      assert s[i..i + 1] == [b];
      assert OccursAt(s, [b], i);
    }
    if Find(s, [b], 0).Some? {
      var i := Find(s, [b], 0).value;
      assert s[i..i + 1] == [b] && s[i] == b;
    }
  }
}
