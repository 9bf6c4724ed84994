/** What the file parser does with the indirect objects, cross-reference sections and trailers of a file,
    as functions of the source and the bytes not yet read. */
module FileParsing {
  import opened Bytes
  import opened Cos
  import opened CosParsing
  import opened Source
  import FilterChain

  const OBJ: seq<byte> := [111, 98, 106]
  const ENDOBJ: seq<byte> := [101, 110, 100, 111, 98, 106]
  const STREAM: seq<byte> := [115, 116, 114, 101, 97, 109]
  const XREF: seq<byte> := [120, 114, 101, 102]
  const STARTXREF: seq<byte> := [115, 116, 97, 114, 116, 120, 114, 101, 102]
  const TRAILER: seq<byte> := [116, 114, 97, 105, 108, 101, 114]
  const CRLF: seq<byte> := [13, 10]

  datatype Trailer = Trailer(dictionary: Dictionary, offset: nat)

  datatype ParseFact =
    | StreamLength(key: ObjectKey, declared: nat, discovered: nat)
    | KeywordSpacing(key: ObjectKey, streamKeyword: bool, endstreamKeyword: bool)
    | XrefSection(offset: nat, compliant: bool)
    | PrevChain(section: nat, offset: nat)
    | HybridReference(section: nat, offset: nat)
    | PostEofData(bytes: nat)

  type Store = map<ObjectKey, IndirectObject>

  datatype FileState = FileState(objects: Store, trailers: seq<Trailer>, facts: seq<ParseFact>) {
    function Facts(more: seq<ParseFact>, cap: nat): FileState {
      this.(facts := PushFacts(facts, more, cap))
    }
  }

  /** Facts beyond the cap are dropped. */
  function PushFacts(facts: seq<ParseFact>, more: seq<ParseFact>, cap: nat): (r: seq<ParseFact>)
    ensures |r| <= |facts| + |more|
    ensures |facts| <= cap ==> |r| <= cap
    decreases more
  {
    if more == [] then facts
    else PushFacts(if |facts| >= cap then facts else facts + [more[0]], more[1..], cap)
  }

  // ---------------------------------------------------------------------------------------------
  // Streams and indirect objects
  // ---------------------------------------------------------------------------------------------

  function DeclaredLength(d: Dictionary): Option<nat> {
    var length := IntegerOf(Get(d, "Length"));
    if length.None? then None
    else
      var n: int := length.value;
      if n < 0 then None else Some(n)
  }

  /** The data begin after one end of line, a lone carriage return included. */
  function DataAfterKeyword(s: seq<byte>): (r: seq<byte>)
    ensures |r| <= |s|
  {
    if StartsWith(s, CRLF) then s[2..]
    else if s != [] && (s[0] == CosParsing.LF || s[0] == CosParsing.CR) then s[1..]
    else s
  }

  predicate HasEolBefore(bytes: seq<byte>, pos: nat) {
    0 < pos <= |bytes| && (bytes[pos - 1] == CosParsing.LF || bytes[pos - 1] == CosParsing.CR)
  }

  function Position(source: Storage, s: seq<byte>): nat
    requires |s| <= |source.bytes|
  {
    |source.bytes| - |s|
  }

  /** The stream whose dictionary has just been read. */
  ghost function StreamAt(source: Storage, s: seq<byte>, d: Dictionary, limits: Limits): (r: Parsed<StreamObject>)
    requires |s| <= |source.bytes|
    ensures r.Good? ==> |r.rest| < |s|
  {
    var t := SkipSpace(s);
    if !StartsWith(t, STREAM) then Bad(Malformed)
    else
      var dataStart := Position(source, DataAfterKeyword(t[6..]));
      var extent := StreamExtent(source.bytes, dataStart, DeclaredLength(d), limits.maxStreamDeclaredBytes);
      if extent.Err? then Bad(extent.error)
      else
        ExtentIsWellFormed(source.bytes, dataStart, DeclaredLength(d), limits.maxStreamDeclaredBytes);
        var raw := StreamSource(source, dataStart, extent.value.0);
        if raw.Err? then Bad(raw.error)
        else Good(
          StreamFound(source.bytes, dataStart, extent.value, raw.value, d, StartsWith(t[6..], CRLF)),
          source.bytes[extent.value.1 + |ENDSTREAM|..])
  }

  function StreamFound(
      bytes: seq<byte>, dataStart: nat, extent: (nat, nat), raw: (seq<byte>, nat, nat), d: Dictionary, crlf: bool)
    : StreamObject
    requires dataStart <= extent.0
  {
    var filters := FilterChain.StreamFilters(d);
    StreamObject(
      d, raw.1, raw.2, DeclaredLength(d), extent.0 - dataStart, filters,
      FilterChain.StreamDecodeParams(d, |filters|), raw.0, crlf, HasEolBefore(bytes, extent.1))
  }

  function StreamFacts(key: ObjectKey, stream: StreamObject): seq<ParseFact> {
    var declared := if stream.declaredLength.Some? then stream.declaredLength.value else stream.discoveredLength;
    [StreamLength(key, declared, stream.discoveredLength),
     KeywordSpacing(key, stream.streamKeywordCrlfCompliant, stream.endstreamKeywordEolCompliant)]
  }

  function FactsOf(o: IndirectObject): seq<ParseFact> {
    if o.value.Stream? then StreamFacts(o.key, o.value.stream) else []
  }

  /** The `endobj` keyword may be missing. */
  function AfterObject(s: seq<byte>): (r: seq<byte>)
    ensures |r| <= |s|
  {
    var t := SkipSpace(s);
    if StartsWith(t, ENDOBJ) then t[6..] else t
  }

  /** The object after `number generation obj`. */
  ghost function BodyAt(source: Storage, s: seq<byte>, limits: Limits): (r: Parsed<CosObject>)
    requires |s| <= |source.bytes|
    ensures r.Good? ==> |r.rest| < |s|
  {
    var (parsed, rest) :- ParseObject(s, 0, limits);
    if parsed.Dict? && StartsWith(SkipSpace(rest), STREAM) then
      var (stream, after) :- StreamAt(source, rest, parsed.entries, limits);
      Good(Stream(stream), AfterObject(after))
    else Good(parsed, AfterObject(rest))
  }

  /** The number, the generation and `obj`; nothing when they are not there. */
  function ParseObjectHeader(s: seq<byte>): (r: Parsed<Option<ObjectKey>>)
    ensures r.Good? ==> |r.rest| <= |s|
    ensures r.Good? && r.value.Some? ==> |r.rest| < |s|
  {
    var (number, afterNumber) :- ParseUnsigned(s, 0xFFFF_FFFF);
    if number.None? then Good(None, afterNumber)
    else if !StartsWithWs(afterNumber) then Bad(Malformed)
    else
      var (generation, afterGeneration) :- ParseUnsigned(SkipWs(afterNumber), 0xFFFF);
      if generation.None? then Good(None, s)
      else if !StartsWithWs(afterGeneration) then Bad(Malformed)
      else
        var t := SkipWs(afterGeneration);
        if !StartsWith(t, OBJ) then Good(None, s)
        else if number.value == 0 || number.value > 0xFFFF_FFFF || generation.value > 0xFFFF then Bad(Malformed)
        else Good(Some(ObjectKey(number.value, generation.value)), t[3..])
  }

  ghost function IndirectAt(source: Storage, s: seq<byte>, limits: Limits): (r: Parsed<Option<IndirectObject>>)
    requires |s| <= |source.bytes|
    ensures r.Good? ==> |r.rest| <= |s|
    ensures r.Good? && r.value.Some? ==> |r.rest| < |s|
  {
    var (key, afterHeader) :- ParseObjectHeader(s);
    if key.None? then Good(None, afterHeader)
    else
      var (body, rest) :- BodyAt(source, afterHeader, limits);
      Good(Some(IndirectObject(key.value, Position(source, s), body)), rest)
  }

  // ---------------------------------------------------------------------------------------------
  // Cross-reference sections and trailers
  // ---------------------------------------------------------------------------------------------

  function SkipXrefSpaces(s: seq<byte>): (r: seq<byte>)
    ensures |r| <= |s|
  {
    if s != [] && (s[0] == 9 || s[0] == 32) then SkipXrefSpaces(s[1..]) else s
  }

  predicate HasDigits(s: seq<byte>, n: nat) {
    |s| >= n && AllDigits(s[..n])
  }

  function AfterDigits(s: seq<byte>, n: nat): (r: seq<byte>)
    ensures |r| <= |s|
  {
    if HasDigits(s, n) then s[n..] else s
  }

  /** What is left of a line after its marker, and whether the entry is well formed. */
  function XrefEntry(s: seq<byte>): (r: (bool, seq<byte>))
    ensures |r.1| <= |s|
  {
    var generation := SkipXrefSpaces(AfterDigits(s, 10));
    var marker := SkipXrefSpaces(AfterDigits(generation, 5));
    var kind := if marker == [] then None else Some(marker[0]);
    var ok := && HasDigits(s, 10) && HasDigits(generation, 5)
              && (kind == Some(LETTER_N) || kind == Some(LETTER_F))
              && (CosParsing.LF in s || CosParsing.CR in s);
    (ok, if marker == [] then [] else marker[1..])
  }

  /** The entries read so far and whether everything was well formed. */
  datatype XrefState = XrefState(entries: nat, compliant: bool)

  function XrefEntries(s: seq<byte>, count: nat, x: XrefState, limits: Limits): (r: Parsed<XrefState>)
    ensures r.Good? ==> |r.rest| <= |s|
    ensures r.Good? && x.entries <= limits.maxObjects ==> r.value.entries <= limits.maxObjects
    decreases count
  {
    if count == 0 then Good(x, s)
    else
      var (ok, after) := XrefEntry(s);
      if x.entries + 1 > limits.maxObjects then Bad(LimitExceeded(MaxObjects))
      else XrefEntries(SkipLine(after), count - 1, XrefState(x.entries + 1, x.compliant && ok), limits)
  }

  predicate EndsXref(t: seq<byte>) {
    t == [] || StartsWith(t, TRAILER) || StartsWith(t, STARTXREF) || StartsWith(t, EOF_MARKER)
  }

  function XrefSubsections(s: seq<byte>, x: XrefState, limits: Limits): (r: Parsed<XrefState>)
    ensures r.Good? ==> |r.rest| <= |s|
    decreases |s|
  {
    var t := SkipSpace(s);
    if EndsXref(t) then Good(x, t)
    else
      var (first, afterFirst) :- ParseUnsigned(t, 0xFFFF_FFFF);
      if first.None? then XrefSubsections(SkipLine(t), x.(compliant := false), limits)
      else if !StartsWithWs(afterFirst) then Bad(Malformed)
      else
        var (count, afterCount) :- ParseUnsigned(SkipWs(afterFirst), 0xFFFF_FFFF);
        if count.None? then XrefSubsections(SkipLine(afterCount), x.(compliant := false), limits)
        else
          var (y, rest) :- XrefEntries(SkipLine(afterCount), count.value, x, limits);
          XrefSubsections(rest, y, limits)
  }

  function OffsetOf(d: Dictionary, key: string): Result<Option<nat>>
    requires forall c | c in key :: c as int < 256
  {
    var value := IntegerOf(Get(d, key));
    if value.None? then Ok(None)
    else
      var n: int := value.value;
      if n < 0 then Err(Malformed) else Ok(Some(n))
  }

  function ChainFacts(section: nat, d: Dictionary): Result<seq<ParseFact>> {
    var prev :- OffsetOf(d, "Prev");
    var hybrid :- OffsetOf(d, "XRefStm");
    Ok((if prev.Some? then [PrevChain(section, prev.value)] else [])
       + (if hybrid.Some? then [HybridReference(section, hybrid.value)] else []))
  }

  /** The trailer whose keyword is at the front. */
  function TrailerAt(source: Storage, s: seq<byte>, state: FileState, limits: Limits): (r: Parsed<FileState>)
    requires |s| <= |source.bytes| && StartsWith(s, TRAILER)
    ensures r.Good? ==> |r.rest| < |s|
  {
    var t := SkipSpace(s[7..]);
    if !StartsWith(t, DICT_OPEN) then Bad(Malformed)
    else
      var (d, rest) :- ParseEntries(t[2..], 0, map[], limits);
      var facts := ChainFacts(Position(source, t), d);
      if facts.Err? then Bad(facts.error)
      else Good(
        state.Facts(facts.value, limits.maxParseFacts).(trailers := state.trailers + [Trailer(d, Position(source, t))]),
        rest)
  }

  /** The trailer after a cross-reference section, if there is one. */
  function TrailerAfter(source: Storage, s: seq<byte>, state: FileState, limits: Limits): (r: Parsed<FileState>)
    requires |s| <= |source.bytes|
    ensures r.Good? ==> |r.rest| <= |s|
    decreases |s|
  {
    var t := SkipSpace(s);
    if t == [] then Good(state, t)
    else if StartsWith(t, TRAILER) then TrailerAt(source, t, state, limits)
    else if EndsXref(t) then Good(state, t)
    else TrailerAfter(source, SkipLine(t), state, limits)
  }

  function XrefAt(source: Storage, s: seq<byte>, state: FileState, limits: Limits): (r: Parsed<FileState>)
    requires |s| <= |source.bytes| && StartsWith(s, XREF)
    ensures r.Good? ==> |r.rest| < |s|
  {
    var (x, rest) :- XrefSubsections(s[4..], XrefState(0, true), limits);
    var fact := XrefSection(Position(source, s), x.compliant);
    TrailerAfter(source, rest, state.Facts([fact], limits.maxParseFacts), limits)
  }

  // ---------------------------------------------------------------------------------------------
  // The file
  // ---------------------------------------------------------------------------------------------

  function TrailingWhite(s: seq<byte>): (n: nat)
    ensures n <= |s|
  {
    if s != [] && IsWs(s[|s| - 1]) then 1 + TrailingWhite(s[..|s| - 1]) else 0
  }

  function PostEofFacts(s: seq<byte>): seq<ParseFact> {
    if |s| > TrailingWhite(s) then [PostEofData(|s| - TrailingWhite(s))] else []
  }

  datatype Next = Done(state: FileState) | Failed(error: ParseError) | Continue(state: FileState, rest: seq<byte>)

  function Onward(after: Parsed<FileState>): Next {
    if after.Bad? then Failed(after.error) else Continue(after.value, after.rest)
  }

  /** What stands at the front of `s`; a byte that begins nothing is stepped over. */
  ghost function NextOf(source: Storage, s: seq<byte>, state: FileState, limits: Limits): (next: Next)
    requires |s| <= |source.bytes|
    ensures next.Continue? && s != [] ==> |next.rest| < |s|
    ensures s == [] ==> !next.Continue?
  {
    var t := SkipSpace(s);
    if StartsWith(t, EOF_MARKER) then Done(state.Facts(PostEofFacts(t[5..]), limits.maxParseFacts))
    else if StartsWith(t, STARTXREF) then Continue(state, SkipLine(t))
    else if StartsWith(t, XREF) then Onward(XrefAt(source, t, state, limits))
    else if StartsWith(t, TRAILER) then Onward(TrailerAt(source, t, state, limits))
    else
      var found := IndirectAt(source, t, limits);
      if found.Bad? then Failed(found.error)
      else if found.value.Some? then
        if |state.objects| + 1 > limits.maxObjects then Failed(LimitExceeded(MaxObjects))
        else Continue(Insert(state, found.value.value, limits), found.rest)
      else if t == [] then Done(state)
      else Continue(state, t[1..])
  }

  /** Everything from the bytes `s` on. */
  ghost function TopLevel(source: Storage, s: seq<byte>, state: FileState, limits: Limits): Result<FileState>
    requires |s| <= |source.bytes|
    decreases |s|
  {
    if s == [] then Ok(state)
    else match NextOf(source, s, state, limits)
      case Done(last) => Ok(last)
      case Failed(error) => Err(error)
      case Continue(more, rest) => TopLevel(source, rest, more, limits)
  }

  function Insert(state: FileState, o: IndirectObject, limits: Limits): FileState {
    state.Facts(FactsOf(o), limits.maxParseFacts).(objects := state.objects[o.key := o])
  }
}
