/** A file of printed indirect objects is parsed to exactly these objects, and no file makes the parser
    exceed its limits. */
module FileRoundTrip {
  import opened Bytes
  import opened Cos
  import opened CosParsing
  import opened CosSyntax
  import opened CosTokens
  import opened CosRoundTrip
  import opened CosLimits
  import opened Source
  import opened FileParsing

  // ---------------------------------------------------------------------------------------------
  // How files are written
  // ---------------------------------------------------------------------------------------------

  /** What stands between `obj` and `endobj`. */
  datatype Content =
    | Direct(gap: seq<Blank>, c: Syntax)
    | Streamed(gap: seq<Blank>, entries: Entries, before: seq<Blank>, crlf: bool, data: seq<byte>, eol: Eol)

  datatype Part = Part(
    gap: seq<Blank>, number: seq<byte>, middle: seq<Blank>, generation: seq<byte>, white: seq<byte>,
    content: Content, closing: seq<Blank>)

  function DataText(data: seq<byte>, eol: Eol, rest: seq<byte>): seq<byte> {
    data + (eol.Bytes() + (ENDSTREAM + rest))
  }

  function StreamText(before: seq<Blank>, crlf: bool, data: seq<byte>, eol: Eol, rest: seq<byte>): seq<byte> {
    GapText(before, STREAM + ((if crlf then CRLF else [CosParsing.LF]) + DataText(data, eol, rest)))
  }

  function ContentText(content: Content, rest: seq<byte>): seq<byte> {
    match content
    case Direct(gap, c) => GapText(gap, Text(c, rest))
    case Streamed(gap, entries, before, crlf, data, eol) =>
      GapText(gap, DICT_OPEN + EntriesText(entries, StreamText(before, crlf, data, eol, rest)))
  }

  function EndText(p: Part, rest: seq<byte>): seq<byte> {
    GapText(p.closing, ENDOBJ + rest)
  }

  /** A part from its number on. */
  function BodyText(p: Part, rest: seq<byte>): seq<byte> {
    p.number + GapText(p.middle, p.generation + (p.white + (OBJ + ContentText(p.content, EndText(p, rest)))))
  }

  function FileText(parts: seq<Part>, rest: seq<byte>): seq<byte> {
    if parts == [] then rest else GapText(parts[0].gap, BodyText(parts[0], FileText(parts[1..], rest)))
  }

  predicate HeaderOk(p: Part) {
    && AllDigits(p.number) && 0 < Decimal(p.number) < 0x1_0000_0000
    && p.middle != [] && p.middle[0].White? && GapOk(p.middle)
    && p.generation != [] && AllDigits(p.generation) && Decimal(p.generation) < 0x1_0000
    && p.white != [] && AllWhite(p.white)
  }

  /** Well spelled, within the limits, and with the right length when it is a stream. */
  predicate ContentOk(content: Content, rest: seq<byte>, limits: Limits) {
    match content
    case Direct(gap, c) => GapOk(gap) && Spelled(c) && Separated(c, rest) && Accepted(c, rest, 0, limits)
    case Streamed(gap, entries, before, crlf, data, eol) =>
      var after := StreamText(before, crlf, data, eol, rest);
      && GapOk(gap) && EntriesSpelled(entries) && EntriesSeparated(entries, after)
      && EntriesAccepted(entries, after, 0, map[], limits)
      && GapOk(before)
      && DeclaredLength(EntriesValue(entries, map[])) == Some(|data|) && |data| <= limits.maxStreamDeclaredBytes
  }

  predicate PartOk(p: Part, rest: seq<byte>, limits: Limits) {
    GapOk(p.gap) && GapOk(p.closing) && HeaderOk(p) && ContentOk(p.content, EndText(p, rest), limits)
  }

  predicate FileOk(parts: seq<Part>, rest: seq<byte>, limits: Limits) {
    parts == [] || (PartOk(parts[0], FileText(parts[1..], rest), limits) && FileOk(parts[1..], rest, limits))
  }

  function KeyOf(p: Part): ObjectKey
    requires HeaderOk(p)
  {
    ObjectKey(Decimal(p.number), Decimal(p.generation))
  }

  /** A line ends in front of `endstream`, the keyword's own line when there are no data. */
  predicate EndsLine(data: seq<byte>, eol: Eol) {
    !eol.NoEol? || data == [] || data[|data| - 1] == CosParsing.LF || data[|data| - 1] == CosParsing.CR
  }

  /** The facts a part leaves behind. */
  function PartFacts(p: Part): seq<ParseFact>
    requires HeaderOk(p)
  {
    match p.content
    case Direct(_, _) => []
    case Streamed(_, _, _, crlf, data, eol) =>
      [StreamLength(KeyOf(p), |data|, |data|), KeywordSpacing(KeyOf(p), crlf, EndsLine(data, eol))]
  }

  function PartsFacts(parts: seq<Part>): seq<ParseFact>
    requires forall k | 0 <= k < |parts| :: HeaderOk(parts[k])
  {
    if parts == [] then [] else PartFacts(parts[0]) + PartsFacts(parts[1..])
  }

  /** The object holds what the content wrote: the value, or the dictionary, the raw bytes and how the
      keywords were spaced. */
  predicate Holds(o: CosObject, content: Content, rest: seq<byte>, limits: Limits)
    requires ContentOk(content, rest, limits)
  {
    match content
    case Direct(_, c) => o == Value(c)
    case Streamed(_, entries, _, crlf, data, eol) =>
      && o.Stream? && o.stream.dictionary == EntriesValue(entries, map[])
      && o.stream.RawBytes() == Ok(data) && o.stream.discoveredLength == |data|
      && o.stream.declaredLength == Some(|data|)
      && o.stream.streamKeywordCrlfCompliant == crlf && o.stream.endstreamKeywordEolCompliant == EndsLine(data, eol)
  }

  // ---------------------------------------------------------------------------------------------
  // One object
  // ---------------------------------------------------------------------------------------------

  /** The bytes not yet read are the end of the source. */
  predicate IsRest(source: Storage, s: seq<byte>) {
    |s| <= |source.bytes| && source.bytes[Position(source, s)..] == s
  }

  lemma DropRest(source: Storage, a: seq<byte>, b: seq<byte>)
    requires IsRest(source, a + b)
    ensures IsRest(source, b)
  {
    var i := Position(source, a + b);
    assert source.bytes[i..][|a|..] == source.bytes[i + |a|..];
    assert (a + b)[|a|..] == b;
  }

  lemma {:induction false} DropGap(source: Storage, gap: seq<Blank>, rest: seq<byte>)
    requires IsRest(source, GapText(gap, rest))
    ensures IsRest(source, rest)
  {
    hide IsRest;
    if gap != [] {
      var tail := GapText(gap[1..], rest);
      match gap[0] {
        case White(b) =>
          DropRest(source, [b], tail);
        case Comment(text, eol) =>
          assert [PERCENT] + (text + ([eol] + tail)) == [PERCENT] + text + [eol] + tail;
          DropRest(source, [PERCENT] + text + [eol], tail);
      }
      DropGap(source, gap[1..], rest);
    }
  }

  lemma AfterEndobj(p: Part, rest: seq<byte>)
    requires GapOk(p.closing)
    ensures AfterObject(EndText(p, rest)) == rest
  {
    SkipSpaceToToken(p.closing, ENDOBJ + rest);
    assert (ENDOBJ + rest)[..6] == ENDOBJ && (ENDOBJ + rest)[6..] == rest;
  }

  lemma FivePieces(a: seq<byte>, b: seq<byte>, c: seq<byte>, d: seq<byte>, e: seq<byte>)
    ensures var all := a + b + c + d + e;
            && a + (b + (c + (d + e))) == all
            && all[|a|..|a| + |b|] == b && all[|a| + |b| + |c| + |d|..] == e
  {
  }

  /** The data of a stream written with its right length. */
  lemma DataFound(source: Storage, dataStart: nat, data: seq<byte>, eol: Eol, rest: seq<byte>, max: nat)
    requires dataStart <= |source.bytes| && source.bytes[dataStart..] == DataText(data, eol, rest) && |data| <= max
    ensures var end := dataStart + |data|;
            && StreamExtent(source.bytes, dataStart, Some(|data|), max) == Ok((end, end + |eol.Bytes()|))
            && end <= |source.bytes| && source.bytes[dataStart..end] == data
            && source.bytes[end + |eol.Bytes()| + |ENDSTREAM|..] == rest
  {
    hide StreamExtent, Eol.Bytes;
    var before := source.bytes[..dataStart];
    var e := eol.Bytes();
    assert source.bytes == before + source.bytes[dataStart..];
    FivePieces(before, data, e, ENDSTREAM, rest);
    RightLengthRecoversData(before, data, eol, rest, max);
  }

  lemma KeywordLine(crlf: bool, data: seq<byte>)
    ensures var t := STREAM + ((if crlf then CRLF else [CosParsing.LF]) + data);
            && StartsWith(t, STREAM) && DataAfterKeyword(t[6..]) == data && StartsWith(t[6..], CRLF) == crlf
  {
    var line := if crlf then CRLF else [CosParsing.LF];
    var t := STREAM + (line + data);
    assert t[..6] == STREAM && t[6..] == line + data;
    assert (line + data)[|line|..] == data;
    assert (line + data)[0] == line[0];
    if crlf {
      assert (line + data)[..2] == CRLF;
    }
  }

  lemma StreamParses(source: Storage, before: seq<Blank>, crlf: bool, data: seq<byte>, eol: Eol, rest: seq<byte>,
                     d: Dictionary, limits: Limits)
    requires IsRest(source, StreamText(before, crlf, data, eol, rest)) && GapOk(before)
    requires DeclaredLength(d) == Some(|data|) && |data| <= limits.maxStreamDeclaredBytes
    ensures var s := StreamText(before, crlf, data, eol, rest);
            && StartsWith(SkipSpace(s), STREAM)
            && var r := StreamAt(source, s, d, limits);
               && r.Good? && r.rest == rest
               && r.value.dictionary == d && r.value.RawBytes() == Ok(data) && r.value.discoveredLength == |data|
               && r.value.declaredLength == Some(|data|)
               && r.value.streamKeywordCrlfCompliant == crlf
               && r.value.endstreamKeywordEolCompliant == EndsLine(data, eol)
  {
    hide StreamExtent, DeclaredLength, OccursAt, IsRest, HasEolBefore, DataAfterKeyword, SkipSpace, EndsLine, Eol.Bytes,
      DataText;
    var line := if crlf then CRLF else [CosParsing.LF];
    var text := DataText(data, eol, rest);
    var t := STREAM + (line + text);
    SkipSpaceToToken(before, t);
    KeywordLine(crlf, text);
    DropGap(source, before, t);
    assert t == (STREAM + line) + text;
    DropRest(source, STREAM + line, text);
    var dataStart := DataPosition(source, text);
    DataFound(source, dataStart, data, eol, rest, limits.maxStreamDeclaredBytes);
    LineBefore(source, STREAM + line, text);
    LineEndsIff(source, dataStart, data, eol, rest);
    StreamSourceBytes(source, dataStart, dataStart + |data|);
  }

  lemma LineBefore(source: Storage, line: seq<byte>, text: seq<byte>)
    requires IsRest(source, line + text) && line != []
    ensures var i := Position(source, line + text) + |line|;
            0 < i <= |source.bytes| && source.bytes[i - 1] == line[|line| - 1] && i == |source.bytes| - |text|
  {
    var i := Position(source, line + text);
    assert source.bytes[i..][|line| - 1] == (line + text)[|line| - 1];
  }

  lemma LineEndsIff(source: Storage, dataStart: nat, data: seq<byte>, eol: Eol, rest: seq<byte>)
    requires 0 < dataStart <= |source.bytes| && source.bytes[dataStart..] == DataText(data, eol, rest)
    requires source.bytes[dataStart - 1] == CosParsing.LF
    ensures HasEolBefore(source.bytes, dataStart + |data| + |eol.Bytes()|) == EndsLine(data, eol)
  {
    var text := DataText(data, eol, rest);
    assert forall k | 0 <= k < |text| :: source.bytes[dataStart + k] == text[k] by {
      assert forall k | 0 <= k < |text| :: source.bytes[dataStart..][k] == text[k];
    }
    assert text == data + eol.Bytes() + (ENDSTREAM + rest);
    var front := data + eol.Bytes();
    if front != [] {
      assert source.bytes[dataStart + (|front| - 1)] == front[|front| - 1];
    }
  }

  lemma DataPosition(source: Storage, s: seq<byte>) returns (i: nat)
    requires IsRest(source, s)
    ensures |s| <= |source.bytes| && i == Position(source, s) && source.bytes[i..] == s
  {
    i := Position(source, s);
  }

  lemma HeaderParses(p: Part, rest: seq<byte>)
    requires HeaderOk(p)
    ensures ParseObjectHeader(BodyText(p, rest))
         == Good(Some(KeyOf(p)), ContentText(p.content, EndText(p, rest)))
  {
    var content := ContentText(p.content, EndText(p, rest));
    var end := OBJ + content;
    var afterGeneration := p.white + end;
    var token := p.generation + afterGeneration;
    var afterNumber := GapText(p.middle, token);
    assert BlankOk(p.middle[0]) && StartsWithWs(afterNumber);
    assert p.number != [] by {
      assert Decimal([]) == 0;
    }
    UnsignedReads([], p.number, afterNumber, 0xFFFF_FFFF);
    assert IsDigit(p.generation[0]) && Starts(token);
    UnsignedReadsAfterWs(p.middle, p.generation, afterGeneration, 0xFFFF);
    SkipWsOverWhite(p.white, end);
    assert end[..3] == OBJ && end[3..] == content;
    HeaderFrom(BodyText(p, rest), Decimal(p.number), afterNumber, Decimal(p.generation), afterGeneration, content);
  }

  lemma HeaderFrom(s: seq<byte>, number: positiveU32, afterNumber: seq<byte>, generation: u16,
                   afterGeneration: seq<byte>, content: seq<byte>)
    requires ParseUnsigned(s, 0xFFFF_FFFF) == Good(Some(number), afterNumber) && StartsWithWs(afterNumber)
    requires ParseUnsigned(SkipWs(afterNumber), 0xFFFF) == Good(Some(generation), afterGeneration)
    requires StartsWithWs(afterGeneration) && StartsWith(SkipWs(afterGeneration), OBJ)
    requires SkipWs(afterGeneration)[3..] == content
    ensures ParseObjectHeader(s) == Good(Some(ObjectKey(number, generation)), content)
  {
    hide ParseUnsigned, SkipWs;
  }

  lemma UnsignedReads(gap: seq<Blank>, digits: seq<byte>, rest: seq<byte>, max: nat)
    requires GapOk(gap) && digits != [] && AllDigits(digits) && Decimal(digits) <= max
    requires rest == [] || !IsDigit(rest[0])
    ensures ParseUnsigned(GapText(gap, digits + rest), max) == Good(Some(Decimal(digits)), rest)
  {
    assert IsDigit(digits[0]) && Starts(digits + rest);
    SkipSpaceToToken(gap, digits + rest);
    DigitRunIs(digits, rest);
  }

  lemma UnsignedReadsAfterWs(gap: seq<Blank>, digits: seq<byte>, rest: seq<byte>, max: nat)
    requires GapOk(gap) && digits != [] && AllDigits(digits) && Decimal(digits) <= max
    requires rest == [] || !IsDigit(rest[0])
    ensures ParseUnsigned(SkipWs(GapText(gap, digits + rest)), max) == Good(Some(Decimal(digits)), rest)
  {
    UnsignedReads(gap, digits, rest, max);
    SkipSpaceAfterWs(GapText(gap, digits + rest));
  }

  lemma DirectParses(source: Storage, gap: seq<Blank>, c: Syntax, p: Part, rest: seq<byte>, limits: Limits)
    requires p.content == Direct(gap, c) && PartOk(p, rest, limits)
    requires |GapText(gap, Text(c, EndText(p, rest)))| <= |source.bytes|
    ensures BodyAt(source, GapText(gap, Text(c, EndText(p, rest))), limits) == Good(Value(c), rest)
  {
    hide ParseObject, Accepted, Value, Spelled, Separated, StreamAt;
    var end := EndText(p, rest);
    PrintInFront(c, end);
    ParseUndoesPrintIff(gap, c, end, 0, limits);
    SkipSpaceToToken(p.closing, ENDOBJ + rest);
    AfterEndobj(p, rest);
  }

  lemma StreamedParses(source: Storage, p: Part, rest: seq<byte>, limits: Limits)
    requires p.content.Streamed? && PartOk(p, rest, limits)
    requires IsRest(source, ContentText(p.content, EndText(p, rest)))
    ensures var r := BodyAt(source, ContentText(p.content, EndText(p, rest)), limits);
            r.Good? && r.rest == rest && Holds(r.value, p.content, EndText(p, rest), limits)
  {
    hide ParseObject, ParseEntries, EntriesAccepted, EntriesSpelled, EntriesSeparated, EntriesValue, StreamAt, DeclaredLength,
      StreamText, IsRest, SkipSpace, AfterObject, EntriesText;
    var Streamed(gap, entries, before, crlf, data, eol) := p.content;
    var end := EndText(p, rest);
    var text := StreamText(before, crlf, data, eol, end);
    var token := DICT_OPEN + EntriesText(entries, text);
    SkipSpaceOverGap(gap, token);
    ParseObjectAfterSpace(GapText(gap, token), 0, limits);
    ParseObjectAfterSpace(token, 0, limits);
    DictOnce(EntriesText(entries, text), 0, limits);
    EntriesParse(entries, text, 0, map[], limits);
    DropGap(source, gap, token);
    DropRest(source, DICT_OPEN, EntriesText(entries, text));
    DropEntries(source, entries, text);
    StreamParses(source, before, crlf, data, eol, end, EntriesValue(entries, map[]), limits);
    AfterEndobj(p, rest);
    RestFits(source, GapText(gap, token));
  }

  lemma RestFits(source: Storage, s: seq<byte>)
    requires IsRest(source, s)
    ensures |s| <= |source.bytes|
  {
  }

  lemma DropEntries(source: Storage, entries: Entries, rest: seq<byte>)
    requires IsRest(source, EntriesText(entries, rest))
    ensures IsRest(source, rest)
  {
    hide EntriesText;
    assert [] + rest == rest;
    EntriesSplit(entries, [], rest);
    DropRest(source, EntriesText(entries, []), rest);
  }

  lemma ContentParses(source: Storage, p: Part, rest: seq<byte>, limits: Limits)
    requires PartOk(p, rest, limits) && IsRest(source, ContentText(p.content, EndText(p, rest)))
    ensures var r := BodyAt(source, ContentText(p.content, EndText(p, rest)), limits);
            r.Good? && r.rest == rest && Holds(r.value, p.content, EndText(p, rest), limits)
  {
    hide BodyAt;
    match p.content
    case Direct(gap, c) =>
      DirectParses(source, gap, c, p, rest, limits);
    case Streamed(_, _, _, _, _, _) =>
      StreamedParses(source, p, rest, limits);
  }

  lemma DropHeader(source: Storage, p: Part, rest: seq<byte>)
    requires IsRest(source, BodyText(p, rest))
    ensures IsRest(source, ContentText(p.content, EndText(p, rest)))
  {
    hide IsRest, ContentText;
    var content := ContentText(p.content, EndText(p, rest));
    DropRest(source, p.number, GapText(p.middle, p.generation + (p.white + (OBJ + content))));
    DropGap(source, p.middle, p.generation + (p.white + (OBJ + content)));
    assert p.generation + (p.white + (OBJ + content)) == p.generation + p.white + OBJ + content;
    DropRest(source, p.generation + p.white + OBJ, content);
  }

  /** An indirect object is read back with the cursor behind its `endobj`. */
  lemma PartParses(source: Storage, p: Part, rest: seq<byte>, limits: Limits)
    requires PartOk(p, rest, limits) && IsRest(source, BodyText(p, rest))
    ensures var r := IndirectAt(source, BodyText(p, rest), limits);
            && r.Good? && r.rest == rest && r.value.Some?
            && r.value.value.key == KeyOf(p)
            && r.value.value.offset == Position(source, BodyText(p, rest))
            && Holds(r.value.value.value, p.content, EndText(p, rest), limits)
  {
    hide BodyAt, ParseObjectHeader, BodyText, ContentText, Holds, KeyOf;
    HeaderParses(p, rest);
    DropHeader(source, p, rest);
    ContentParses(source, p, rest, limits);
    RestFits(source, BodyText(p, rest));
  }

  // ---------------------------------------------------------------------------------------------
  // Whole files
  // ---------------------------------------------------------------------------------------------

  predicate WritesKey(parts: seq<Part>, key: ObjectKey) {
    exists i | 0 <= i < |parts| :: HeaderOk(parts[i]) && KeyOf(parts[i]) == key
  }

  /** The last part with a key is the one whose content the store holds under it. */
  ghost predicate Stored(objects: Store, parts: seq<Part>, rest: seq<byte>, limits: Limits)
    requires FileOk(parts, rest, limits)
  {
    parts == [] || (
      && (!WritesKey(parts[1..], KeyOf(parts[0])) ==>
            var key := KeyOf(parts[0]);
            && key in objects && objects[key].key == key
            && Holds(objects[key].value, parts[0].content, EndText(parts[0], FileText(parts[1..], rest)), limits))
      && Stored(objects, parts[1..], rest, limits))
  }

  /** What the parts do not write is left as it was, and nothing else is added. */
  ghost predicate OthersKept(before: Store, after: Store, parts: seq<Part>) {
    && (forall k | k in before && !WritesKey(parts, k) :: k in after && after[k] == before[k])
    && (forall k | k in after :: k in before || WritesKey(parts, k))
  }

  lemma NumberStartsNoKeyword(s: seq<byte>)
    requires s != [] && IsDigit(s[0])
    ensures !StartsWith(s, EOF_MARKER) && !StartsWith(s, STARTXREF) && !StartsWith(s, XREF) && !StartsWith(s, TRAILER)
  {
  }

  lemma NextIsPart(source: Storage, p: Part, rest: seq<byte>, state: FileState, limits: Limits)
    returns (o: IndirectObject)
    requires PartOk(p, rest, limits) && IsRest(source, GapText(p.gap, BodyText(p, rest)))
    requires |state.objects| + 1 <= limits.maxObjects
    ensures |GapText(p.gap, BodyText(p, rest))| <= |source.bytes|
    ensures NextOf(source, GapText(p.gap, BodyText(p, rest)), state, limits) == Continue(Insert(state, o, limits), rest)
    ensures o.key == KeyOf(p) && Holds(o.value, p.content, EndText(p, rest), limits)
  {
    hide IndirectAt, SkipSpace, Insert, Holds, KeyOf, IsRest, ContentOk, TrailerAt, XrefAt;
    var s := BodyText(p, rest);
    assert s != [] && IsDigit(s[0]) && Starts(s) by {
      assert p.number != [] by {
        assert Decimal([]) == 0;
      }
      assert s[0] == p.number[0];
    }
    SkipSpaceToToken(p.gap, s);
    NumberStartsNoKeyword(s);
    DropGap(source, p.gap, s);
    RestFits(source, GapText(p.gap, s));
    RestFits(source, s);
    PartParses(source, p, rest, limits);
    o := IndirectAt(source, s, limits).value.value;
  }

  lemma InsertedSize(m: Store, key: ObjectKey, o: IndirectObject)
    ensures |m[key := o]| <= |m| + 1
  {
    assert m[key := o].Keys == m.Keys + {key};
  }

  lemma {:induction false} DropParts(source: Storage, parts: seq<Part>, rest: seq<byte>)
    requires IsRest(source, FileText(parts, rest))
    ensures IsRest(source, rest)
  {
    hide IsRest;
    if parts != [] {
      var p := parts[0];
      var tail := FileText(parts[1..], rest);
      DropGap(source, p.gap, BodyText(p, tail));
      DropHeader(source, p, tail);
      DropContent(source, p.content, EndText(p, tail));
      DropGap(source, p.closing, ENDOBJ + tail);
      DropRest(source, ENDOBJ, tail);
      DropParts(source, parts[1..], rest);
    }
  }

  lemma DropContent(source: Storage, content: Content, rest: seq<byte>)
    requires IsRest(source, ContentText(content, rest))
    ensures IsRest(source, rest)
  {
    hide IsRest;
    match content
    case Direct(gap, c) =>
      DropGap(source, gap, Text(c, rest));
      PrintInFront(c, rest);
      DropRest(source, Print(c), rest);
    case Streamed(gap, entries, before, crlf, data, eol) =>
      var line := if crlf then CRLF else [CosParsing.LF];
      var text := StreamText(before, crlf, data, eol, rest);
      DropGap(source, gap, DICT_OPEN + EntriesText(entries, text));
      DropRest(source, DICT_OPEN, EntriesText(entries, text));
      DropEntries(source, entries, text);
      DropGap(source, before, STREAM + (line + DataText(data, eol, rest)));
      DropRest(source, STREAM, line + DataText(data, eol, rest));
      DropRest(source, line, DataText(data, eol, rest));
      DropRest(source, data, eol.Bytes() + (ENDSTREAM + rest));
      DropRest(source, eol.Bytes(), ENDSTREAM + rest);
      DropRest(source, ENDSTREAM, rest);
  }

  lemma FactsAre(o: IndirectObject, p: Part, rest: seq<byte>, limits: Limits)
    requires HeaderOk(p) && ContentOk(p.content, rest, limits)
    requires o.key == KeyOf(p) && Holds(o.value, p.content, rest, limits)
    ensures FactsOf(o) == PartFacts(p)
  {
    hide Value, EntriesValue, EndsLine, Accepted, EntriesAccepted, Separated, EntriesSeparated, DeclaredLength;
    if p.content.Direct? {
      ValueIsNoStream(p.content.c);
    }
  }

  lemma ValueIsNoStream(c: Syntax)
    requires Spelled(c)
    ensures !Value(c).Stream?
  {
  }

  lemma {:induction false} PushBoth(facts: seq<ParseFact>, a: seq<ParseFact>, b: seq<ParseFact>, cap: nat)
    ensures PushFacts(PushFacts(facts, a, cap), b, cap) == PushFacts(facts, a + b, cap)
    decreases a
  {
    if a == [] {
      assert a + b == b;
    } else {
      assert (a + b)[0] == a[0] && (a + b)[1..] == a[1..] + b;
      PushBoth(if |facts| >= cap then facts else facts + [a[0]], a[1..], b, cap);
    }
  }

  lemma InsertedFacts(state: FileState, o: IndirectObject, p: Part, rest: seq<byte>, limits: Limits)
    requires PartOk(p, rest, limits) && HeaderOk(p) && o.key == KeyOf(p) && Holds(o.value, p.content, EndText(p, rest), limits)
    ensures Insert(state, o, limits).facts == PushFacts(state.facts, PartFacts(p), limits.maxParseFacts)
  {
    hide Holds, ContentOk, FactsOf, PartFacts, PushFacts;
    FactsAre(o, p, EndText(p, rest), limits);
  }

  /** Parts written one after the other are all found, whatever follows them: a later part replaces an
      earlier one with its key, and nothing else enters the store. */
  lemma {:induction false} PartsParse(source: Storage, parts: seq<Part>, tail: seq<byte>, state: FileState, limits: Limits)
    returns (after: FileState)
    requires FileOk(parts, tail, limits) && IsRest(source, FileText(parts, tail))
    requires |state.objects| + |parts| <= limits.maxObjects
    ensures |FileText(parts, tail)| <= |source.bytes| && |tail| <= |source.bytes|
    ensures TopLevel(source, FileText(parts, tail), state, limits) == TopLevel(source, tail, after, limits)
    ensures after.trailers == state.trailers && |after.objects| <= |state.objects| + |parts|
    ensures forall k | 0 <= k < |parts| :: HeaderOk(parts[k])
    ensures after.facts == PushFacts(state.facts, PartsFacts(parts), limits.maxParseFacts)
    ensures Stored(after.objects, parts, tail, limits) && OthersKept(state.objects, after.objects, parts)
  {
    hide NextOf, Holds, PartOk, IsRest, KeyOf, EndText, HeaderOk, PartFacts;
    RestFits(source, FileText(parts, tail));
    if parts == [] {
      after := state;
    } else {
      var p := parts[0];
      var rest := FileText(parts[1..], tail);
      HeaderIsOk(p, rest, limits);
      var o := NextIsPart(source, p, rest, state, limits);
      DropParts(source, [p], rest);
      var next := Insert(state, o, limits);
      InsertedSize(state.objects, o.key, o);
      InsertedFacts(state, o, p, rest, limits);
      after := PartsParse(source, parts[1..], tail, next, limits);
      PushBoth(state.facts, PartFacts(p), PartsFacts(parts[1..]), limits.maxParseFacts);
      FirstStored(state.objects, after.objects, o, parts, tail, limits);
    }
  }

  /** The file round trip without a cross-reference section: the parts up to an end-of-file marker. */
  lemma FileParses(source: Storage, parts: seq<Part>, tail: seq<byte>, state: FileState, limits: Limits)
    returns (objects: Store)
    requires FileOk(parts, tail, limits) && IsRest(source, FileText(parts, tail))
    requires tail != [] && StartsWith(SkipSpace(tail), EOF_MARKER)
    requires |state.objects| + |parts| <= limits.maxObjects
    ensures var r := TopLevel(source, FileText(parts, tail), state, limits);
            r.Ok? && r.value.objects == objects && r.value.trailers == state.trailers
    ensures Stored(objects, parts, tail, limits) && OthersKept(state.objects, objects, parts)
  {
    hide TopLevel, FileOk, IsRest, Stored, OthersKept;
    var after := PartsParse(source, parts, tail, state, limits);
    EofEnds(source, tail, after, limits);
    objects := after.objects;
  }

  lemma HeaderIsOk(p: Part, rest: seq<byte>, limits: Limits)
    requires PartOk(p, rest, limits)
    ensures HeaderOk(p)
  {
  }

  lemma EofEnds(source: Storage, tail: seq<byte>, state: FileState, limits: Limits)
    requires tail != [] && |tail| <= |source.bytes| && StartsWith(SkipSpace(tail), EOF_MARKER)
    ensures var r := TopLevel(source, tail, state, limits);
            r.Ok? && r.value.objects == state.objects && r.value.trailers == state.trailers
  {
    hide SkipSpace, IndirectAt, XrefAt, TrailerAt, PostEofFacts, PushFacts;
  }

  lemma FirstStored(before: Store, after: Store, o: IndirectObject, parts: seq<Part>, tail: seq<byte>, limits: Limits)
    requires parts != [] && FileOk(parts, tail, limits)
    requires HeaderOk(parts[0]) && o.key == KeyOf(parts[0])
    requires Holds(o.value, parts[0].content, EndText(parts[0], FileText(parts[1..], tail)), limits)
    requires Stored(after, parts[1..], tail, limits) && OthersKept(before[o.key := o], after, parts[1..])
    ensures Stored(after, parts, tail, limits) && OthersKept(before, after, parts)
  {
    hide Holds, PartOk, KeyOf, EndText, HeaderOk;
    forall key
      ensures WritesKey(parts, key) <==> key == KeyOf(parts[0]) || WritesKey(parts[1..], key)
    {
      if WritesKey(parts[1..], key) {
        var i :| 0 <= i < |parts[1..]| && HeaderOk(parts[1..][i]) && KeyOf(parts[1..][i]) == key;
        assert parts[i + 1] == parts[1..][i];
      }
      if WritesKey(parts, key) {
        var i :| 0 <= i < |parts| && HeaderOk(parts[i]) && KeyOf(parts[i]) == key;
        assert i > 0 ==> parts[i] == parts[1..][i - 1];
      }
    }
  }

  // ---------------------------------------------------------------------------------------------
  // Limits over whole files
  // ---------------------------------------------------------------------------------------------

  predicate ObjectWithin(o: CosObject, limits: Limits) {
    if o.Stream? then
      && Within(Dict(o.stream.dictionary), 0, limits)
      && o.stream.RawBytes().Ok? && |o.stream.RawBytes().value| == o.stream.discoveredLength
      && o.stream.discoveredLength <= limits.maxStreamDeclaredBytes
    else Within(o, 0, limits)
  }

  predicate TrailerWithin(source: Storage, trailer: Trailer, limits: Limits) {
    Within(Dict(trailer.dictionary), 0, limits) && trailer.offset <= |source.bytes|
  }

  /** What holds of the parser's state between any two rounds of its loop. */
  ghost predicate StateWithin(source: Storage, state: FileState, limits: Limits) {
    && |state.objects| <= limits.maxObjects
    && |state.facts| <= limits.maxParseFacts
    && (forall k | k in state.objects ::
          && state.objects[k].key == k && state.objects[k].offset <= |source.bytes|
          && ObjectWithin(state.objects[k].value, limits))
    && (forall i | 0 <= i < |state.trailers| :: TrailerWithin(source, state.trailers[i], limits))
  }

  lemma StreamIsWithin(source: Storage, s: seq<byte>, d: Dictionary, limits: Limits)
    requires |s| <= |source.bytes| && StreamAt(source, s, d, limits).Good? && Within(Dict(d), 0, limits)
    ensures ObjectWithin(Stream(StreamAt(source, s, d, limits).value), limits)
  {
    hide StreamExtent, DeclaredLength, OccursAt, HasEolBefore, DataAfterKeyword, SkipSpace, Within;
    var dataStart := Position(source, DataAfterKeyword(SkipSpace(s)[6..]));
    ExtentIsWellFormed(source.bytes, dataStart, DeclaredLength(d), limits.maxStreamDeclaredBytes);
    var extent := StreamExtent(source.bytes, dataStart, DeclaredLength(d), limits.maxStreamDeclaredBytes);
    EndIsInside(source.bytes, extent.value.0, extent.value.1);
    StreamSourceBytes(source, dataStart, extent.value.0);
  }

  lemma EndIsInside(bytes: seq<byte>, end: nat, keyword: nat)
    requires end <= keyword && OccursAt(bytes, ENDSTREAM, keyword)
    ensures end <= |bytes|
  {
  }

  lemma IndirectIsWithin(source: Storage, s: seq<byte>, limits: Limits)
    requires |s| <= |source.bytes|
    requires IndirectAt(source, s, limits).Good? && IndirectAt(source, s, limits).value.Some?
    ensures ObjectWithin(IndirectAt(source, s, limits).value.value.value, limits)
    ensures IndirectAt(source, s, limits).value.value.offset <= |source.bytes|
  {
    hide ParseObject, StreamAt, SkipSpace, AfterObject, ParseObjectHeader, ObjectWithin, Within;
    var t := ParseObjectHeader(s).rest;
    var parsed := ParseObject(t, 0, limits);
    ParsedIsWithin(t, 0, limits);
    if parsed.value.Dict? && StartsWith(SkipSpace(parsed.rest), STREAM) {
      StreamIsWithin(source, parsed.rest, parsed.value.entries, limits);
    } else {
      NoStreamWithin(parsed.value, limits);
    }
  }

  lemma NoStreamWithin(o: CosObject, limits: Limits)
    requires Within(o, 0, limits)
    ensures ObjectWithin(o, limits)
  {
  }

  lemma TrailerKeeps(source: Storage, s: seq<byte>, state: FileState, limits: Limits)
    requires |s| <= |source.bytes| && StartsWith(s, TRAILER) && StateWithin(source, state, limits)
    ensures var r := TrailerAt(source, s, state, limits); r.Good? ==> StateWithin(source, r.value, limits)
  {
    hide ObjectWithin, SkipSpace, ParseEntries, ChainFacts, PushFacts, EntriesWithin, TrailerWithin;
    var t := SkipSpace(s[7..]);
    if StartsWith(t, DICT_OPEN) && ParseEntries(t[2..], 0, map[], limits).Good? {
      NothingWithin(limits);
      EntriesAreWithin(t[2..], 0, map[], limits);
      DictionaryWithin(source, Trailer(ParseEntries(t[2..], 0, map[], limits).value, Position(source, t)), limits);
    }
  }

  lemma DictionaryWithin(source: Storage, trailer: Trailer, limits: Limits)
    requires |trailer.dictionary| <= limits.maxDictEntries && EntriesWithin(trailer.dictionary, Deeper(0), limits)
    requires trailer.offset <= |source.bytes|
    ensures TrailerWithin(source, trailer, limits)
  {
  }

  lemma NothingWithin(limits: Limits)
    ensures EntriesWithin(map[], Deeper(0), limits)
  {
  }

  lemma {:induction false} TrailerAfterKeeps(source: Storage, s: seq<byte>, state: FileState, limits: Limits)
    requires |s| <= |source.bytes| && StateWithin(source, state, limits)
    ensures var r := TrailerAfter(source, s, state, limits); r.Good? ==> StateWithin(source, r.value, limits)
    decreases |s|
  {
    hide StateWithin, TrailerAt;
    var t := SkipSpace(s);
    if StartsWith(t, TRAILER) {
      TrailerKeeps(source, t, state, limits);
    } else if !EndsXref(t) {
      TrailerAfterKeeps(source, SkipLine(t), state, limits);
    }
  }

  lemma FactsKeep(source: Storage, state: FileState, facts: seq<ParseFact>, limits: Limits)
    requires StateWithin(source, state, limits)
    ensures StateWithin(source, state.Facts(facts, limits.maxParseFacts), limits)
  {
    hide ObjectWithin, TrailerWithin, PushFacts;
  }

  lemma XrefKeeps(source: Storage, s: seq<byte>, state: FileState, limits: Limits)
    requires |s| <= |source.bytes| && StartsWith(s, XREF) && StateWithin(source, state, limits)
    ensures var r := XrefAt(source, s, state, limits); r.Good? ==> StateWithin(source, r.value, limits)
  {
    hide StateWithin, TrailerAfter, XrefSubsections, FileState.Facts;
    var x := XrefSubsections(s[4..], XrefState(0, true), limits);
    if x.Good? {
      var fact := XrefSection(Position(source, s), x.value.compliant);
      FactsKeep(source, state, [fact], limits);
      TrailerAfterKeeps(source, x.rest, state.Facts([fact], limits.maxParseFacts), limits);
    }
  }

  lemma InsertKeeps(source: Storage, state: FileState, o: IndirectObject, limits: Limits)
    requires StateWithin(source, state, limits) && |state.objects| + 1 <= limits.maxObjects
    requires ObjectWithin(o.value, limits) && o.offset <= |source.bytes|
    ensures StateWithin(source, Insert(state, o, limits), limits)
  {
    hide ObjectWithin, TrailerWithin, PushFacts, FactsOf;
    InsertedSize(state.objects, o.key, o);
  }

  lemma RoundKeeps(source: Storage, s: seq<byte>, state: FileState, limits: Limits)
    requires |s| <= |source.bytes| && StateWithin(source, state, limits)
    ensures var next := NextOf(source, s, state, limits); !next.Failed? ==> StateWithin(source, next.state, limits)
  {
    hide StateWithin, XrefAt, TrailerAt, IndirectAt, PostEofFacts, ObjectWithin, Insert, SkipSpace, FileState.Facts;
    var t := SkipSpace(s);
    CapHolds(source, state, limits);
    if StartsWith(t, EOF_MARKER) {
      FactsKeep(source, state, PostEofFacts(t[5..]), limits);
    } else if StartsWith(t, STARTXREF) {
    } else if StartsWith(t, XREF) {
      XrefKeeps(source, t, state, limits);
    } else if StartsWith(t, TRAILER) {
      TrailerKeeps(source, t, state, limits);
    } else if IndirectAt(source, t, limits).Good? && IndirectAt(source, t, limits).value.Some? {
      IndirectIsWithin(source, t, limits);
      if |state.objects| + 1 <= limits.maxObjects {
        InsertKeeps(source, state, IndirectAt(source, t, limits).value.value, limits);
      }
    }
  }

  lemma CapHolds(source: Storage, state: FileState, limits: Limits)
    requires StateWithin(source, state, limits)
    ensures |state.objects| <= limits.maxObjects
  {
  }

  /** Whatever the file, the parser ends within its limits or with an error. */
  lemma {:induction false} EveryFileStaysWithinLimits(source: Storage, s: seq<byte>, state: FileState, limits: Limits)
    requires |s| <= |source.bytes| && StateWithin(source, state, limits)
    ensures var r := TopLevel(source, s, state, limits); r.Ok? ==> StateWithin(source, r.value, limits)
    decreases |s|
  {
    hide StateWithin, NextOf;
    RoundKeeps(source, s, state, limits);
    var next := NextOf(source, s, state, limits);
    if s != [] && next.Continue? {
      EveryFileStaysWithinLimits(source, next.rest, next.state, limits);
    }
  }

  // ---------------------------------------------------------------------------------------------
  // The two representations of a source
  // ---------------------------------------------------------------------------------------------

  /** The same but for where the raw bytes of a stream are kept. */
  predicate SameObject(a: CosObject, b: CosObject) {
    if a.Stream? && b.Stream? then
      && a.stream.RawBytes() == b.stream.RawBytes()
      && a.stream.(rawStart := 0, rawEnd := 0, rawSource := []) == b.stream.(rawStart := 0, rawEnd := 0, rawSource := [])
    else a == b
  }

  ghost predicate SameState(a: FileState, b: FileState) {
    && a.trailers == b.trailers && a.facts == b.facts
    && a.objects.Keys == b.objects.Keys
    && forall k | k in a.objects ::
         && a.objects[k].key == b.objects[k].key && a.objects[k].offset == b.objects[k].offset
         && SameObject(a.objects[k].value, b.objects[k].value)
  }

  predicate SameFound(a: Parsed<Option<IndirectObject>>, b: Parsed<Option<IndirectObject>>) {
    match a
    case Bad(error) => b == a
    case Good(None, _) => b == a
    case Good(Some(o), rest) =>
      && b.Good? && b.rest == rest && b.value.Some? && o.key == b.value.value.key && o.offset == b.value.value.offset
      && SameObject(o.value, b.value.value.value)
  }

  lemma SameStream(bytes: seq<byte>, s: seq<byte>, d: Dictionary, limits: Limits)
    requires |s| <= |bytes|
    ensures var a := StreamAt(Memory(bytes), s, d, limits);
            var b := StreamAt(SpillFile(bytes), s, d, limits);
            if a.Good? then b.Good? && a.rest == b.rest && SameObject(Stream(a.value), Stream(b.value)) else a == b
  {
    hide StreamExtent, DeclaredLength, OccursAt, HasEolBefore, DataAfterKeyword, SkipSpace;
    var t := SkipSpace(s);
    if StartsWith(t, STREAM) {
      var dataStart := Position(Memory(bytes), DataAfterKeyword(t[6..]));
      var extent := StreamExtent(bytes, dataStart, DeclaredLength(d), limits.maxStreamDeclaredBytes);
      if extent.Ok? {
        ExtentIsWellFormed(bytes, dataStart, DeclaredLength(d), limits.maxStreamDeclaredBytes);
        EndIsInside(bytes, extent.value.0, extent.value.1);
        StreamSourceBytes(Memory(bytes), dataStart, extent.value.0);
        StreamSourceBytes(SpillFile(bytes), dataStart, extent.value.0);
      }
    }
  }

  lemma SameIndirect(bytes: seq<byte>, s: seq<byte>, limits: Limits)
    requires |s| <= |bytes|
    ensures SameFound(IndirectAt(Memory(bytes), s, limits), IndirectAt(SpillFile(bytes), s, limits))
  {
    hide ParseObject, StreamAt, SkipSpace, AfterObject, ParseObjectHeader, SameObject;
    var header := ParseObjectHeader(s);
    if header.Good? && header.value.Some? {
      var parsed := ParseObject(header.rest, 0, limits);
      if parsed.Good? {
        SameStreamOrSelf(bytes, parsed.rest, parsed.value, limits);
      }
    }
  }

  lemma SameStreamOrSelf(bytes: seq<byte>, s: seq<byte>, o: CosObject, limits: Limits)
    requires |s| <= |bytes|
    ensures SameObject(o, o)
    ensures o.Dict? ==>
              var a := StreamAt(Memory(bytes), s, o.entries, limits);
              var b := StreamAt(SpillFile(bytes), s, o.entries, limits);
              if a.Good? then b.Good? && a.rest == b.rest && SameObject(Stream(a.value), Stream(b.value)) else a == b
  {
    hide StreamAt;
    if o.Dict? {
      SameStream(bytes, s, o.entries, limits);
    }
  }

  ghost predicate SameParsed(a: Parsed<FileState>, b: Parsed<FileState>) {
    if a.Good? then b.Good? && a.rest == b.rest && SameState(a.value, b.value) else a == b
  }

  lemma SameFacts(a: FileState, b: FileState, facts: seq<ParseFact>, cap: nat)
    requires SameState(a, b)
    ensures SameState(a.Facts(facts, cap), b.Facts(facts, cap))
  {
    hide SameObject, PushFacts;
  }

  lemma SameTrailer(bytes: seq<byte>, s: seq<byte>, a: FileState, b: FileState, limits: Limits)
    requires |s| <= |bytes| && StartsWith(s, TRAILER) && SameState(a, b)
    ensures SameParsed(TrailerAt(Memory(bytes), s, a, limits), TrailerAt(SpillFile(bytes), s, b, limits))
  {
    hide SkipSpace, ParseEntries, ChainFacts, SameObject, PushFacts;
  }

  lemma {:induction false} SameTrailerAfter(bytes: seq<byte>, s: seq<byte>, a: FileState, b: FileState, limits: Limits)
    requires |s| <= |bytes| && SameState(a, b)
    ensures SameParsed(TrailerAfter(Memory(bytes), s, a, limits), TrailerAfter(SpillFile(bytes), s, b, limits))
    decreases |s|
  {
    hide TrailerAt, SameState;
    var t := SkipSpace(s);
    if StartsWith(t, TRAILER) {
      SameTrailer(bytes, t, a, b, limits);
    } else if !EndsXref(t) {
      SameTrailerAfter(bytes, SkipLine(t), a, b, limits);
    }
  }

  lemma SameXref(bytes: seq<byte>, s: seq<byte>, a: FileState, b: FileState, limits: Limits)
    requires |s| <= |bytes| && StartsWith(s, XREF) && SameState(a, b)
    ensures SameParsed(XrefAt(Memory(bytes), s, a, limits), XrefAt(SpillFile(bytes), s, b, limits))
  {
    hide XrefSubsections, TrailerAfter, SameState, FileState.Facts;
    var x := XrefSubsections(s[4..], XrefState(0, true), limits);
    if x.Good? {
      var facts := [XrefSection(|bytes| - |s|, x.value.compliant)];
      SameFacts(a, b, facts, limits.maxParseFacts);
      SameTrailerAfter(
        bytes, x.rest, a.Facts(facts, limits.maxParseFacts), b.Facts(facts, limits.maxParseFacts), limits);
    }
  }

  lemma SameInsert(a: FileState, b: FileState, o: IndirectObject, p: IndirectObject, limits: Limits)
    requires SameState(a, b) && o.key == p.key && o.offset == p.offset && SameObject(o.value, p.value)
    ensures SameState(Insert(a, o, limits), Insert(b, p, limits))
  {
    assert FactsOf(o) == FactsOf(p);
    hide SameObject, PushFacts, FactsOf;
  }

  ghost predicate SameNext(a: Next, b: Next) {
    match a
    case Failed(_) => a == b
    case Done(state) => b.Done? && SameState(state, b.state)
    case Continue(state, rest) => b.Continue? && rest == b.rest && SameState(state, b.state)
  }

  lemma SameRound(bytes: seq<byte>, s: seq<byte>, a: FileState, b: FileState, limits: Limits)
    requires |s| <= |bytes| && SameState(a, b)
    ensures SameNext(NextOf(Memory(bytes), s, a, limits), NextOf(SpillFile(bytes), s, b, limits))
  {
    hide SameState, XrefAt, TrailerAt, IndirectAt, PostEofFacts, SameObject, Insert, SkipSpace, FileState.Facts;
    var t := SkipSpace(s);
    SameCount(a, b);
    if StartsWith(t, EOF_MARKER) {
      SameFacts(a, b, PostEofFacts(t[5..]), limits.maxParseFacts);
    } else if StartsWith(t, STARTXREF) {
    } else if StartsWith(t, XREF) {
      SameXref(bytes, t, a, b, limits);
    } else if StartsWith(t, TRAILER) {
      SameTrailer(bytes, t, a, b, limits);
    } else {
      SameIndirect(bytes, t, limits);
      var o := IndirectAt(Memory(bytes), t, limits);
      if o.Good? && o.value.Some? {
        SameInsert(a, b, o.value.value, IndirectAt(SpillFile(bytes), t, limits).value.value, limits);
      }
    }
  }

  lemma SameCount(a: FileState, b: FileState)
    requires SameState(a, b)
    ensures |a.objects| == |b.objects|
  {
    assert |a.objects| == |a.objects.Keys| && |b.objects| == |b.objects.Keys|;
  }

  /** A spilled source and one in memory give the same file. */
  lemma {:induction false} RepresentationDoesNotMatter(
      bytes: seq<byte>, s: seq<byte>, a: FileState, b: FileState, limits: Limits)
    requires |s| <= |bytes| && SameState(a, b)
    ensures var x := TopLevel(Memory(bytes), s, a, limits);
            var y := TopLevel(SpillFile(bytes), s, b, limits);
            if x.Ok? then y.Ok? && SameState(x.value, y.value) else x == y
    decreases |s|
  {
    hide SameState, NextOf;
    SameRound(bytes, s, a, b, limits);
    var next := NextOf(Memory(bytes), s, a, limits);
    if s != [] && next.Continue? {
      RepresentationDoesNotMatter(bytes, next.rest, next.state, NextOf(SpillFile(bytes), s, b, limits).state, limits);
    }
  }
}
