/** A whole file of the classic form: objects, cross-reference table, trailer, `startxref` and the end-of-file
    marker. When it is read, what is recorded of it, and when its table is called compliant. */
module XrefRoundTrip {
  import opened Bytes
  import opened Cos
  import opened CosParsing
  import opened CosSyntax
  import opened CosTokens
  import opened CosRoundTrip
  import opened Source
  import opened FileParsing
  import opened FileRoundTrip

  // ---------------------------------------------------------------------------------------------
  // How cross-reference tables are written
  // ---------------------------------------------------------------------------------------------

  const SPACE: byte := 32

  /** The two bytes that end an entry, section 7.5.4 of ISO 32000-1. */
  datatype EntryEnd = SpaceCr | SpaceLf | CrLf {
    function Bytes(): (r: seq<byte>)
      ensures |r| == 2
    {
      match this
      case SpaceCr => [SPACE, CosParsing.CR]
      case SpaceLf => [SPACE, CosParsing.LF]
      case CrLf => [CosParsing.CR, CosParsing.LF]
    }
  }

  /** Ten digits, a space, five digits, a space, a letter and the end: twenty bytes. */
  datatype XrefLine = XrefLine(offset: seq<byte>, generation: seq<byte>, free: bool, end: EntryEnd)

  datatype Subsection = Subsection(
    gap: seq<Blank>, first: seq<byte>, count: seq<byte>, eol: Eol, lines: seq<XrefLine>)

  datatype Section = Section(
    gap: seq<Blank>, subsections: seq<Subsection>, before: seq<Blank>, middle: seq<Blank>, entries: Entries)

  /** `startxref`, the offset and the gap in front of the end-of-file marker. */
  datatype Start = Start(gap: seq<Blank>, eol: Eol, middle: seq<Blank>, offset: seq<byte>, white: seq<Blank>)

  function Letter(free: bool): byte {
    if free then LETTER_F else LETTER_N
  }

  function LineText(line: XrefLine, rest: seq<byte>): seq<byte> {
    line.offset + ([SPACE] + (line.generation + ([SPACE] + ([Letter(line.free)] + (line.end.Bytes() + rest)))))
  }

  function LinesText(lines: seq<XrefLine>, rest: seq<byte>): seq<byte> {
    if lines == [] then rest else LineText(lines[0], LinesText(lines[1..], rest))
  }

  function HeadingText(s: Subsection, rest: seq<byte>): seq<byte> {
    s.first + ([SPACE] + (s.count + (s.eol.Bytes() + rest)))
  }

  function SubsectionsText(subsections: seq<Subsection>, rest: seq<byte>): seq<byte> {
    if subsections == [] then rest
    else
      var s := subsections[0];
      GapText(s.gap, HeadingText(s, LinesText(s.lines, SubsectionsText(subsections[1..], rest))))
  }

  function DictionaryText(section: Section, rest: seq<byte>): seq<byte> {
    DICT_OPEN + EntriesText(section.entries, rest)
  }

  function TrailerText(section: Section, rest: seq<byte>): seq<byte> {
    TRAILER + GapText(section.middle, DictionaryText(section, rest))
  }

  /** A section from its keyword on. */
  function TableText(section: Section, rest: seq<byte>): seq<byte> {
    XREF + SubsectionsText(section.subsections, GapText(section.before, TrailerText(section, rest)))
  }

  function SectionText(section: Section, rest: seq<byte>): seq<byte> {
    GapText(section.gap, TableText(section, rest))
  }

  /** From the first digit of the offset on. */
  function EndingText(offset: seq<byte>, white: seq<Blank>, after: seq<byte>): seq<byte> {
    offset + GapText(white, EOF_MARKER + after)
  }

  function StartText(start: Start, after: seq<byte>): seq<byte> {
    GapText(start.gap,
      STARTXREF + (start.eol.Bytes() + GapText(start.middle, EndingText(start.offset, start.white, after))))
  }

  predicate LineOk(line: XrefLine) {
    |line.offset| == 10 && AllDigits(line.offset) && |line.generation| == 5 && AllDigits(line.generation)
  }

  predicate LinesOk(lines: seq<XrefLine>) {
    forall k | 0 <= k < |lines| :: LineOk(lines[k])
  }

  /** A heading gives an object number and the right number of entries. */
  predicate SubsectionOk(s: Subsection) {
    && GapOk(s.gap) && !s.eol.NoEol? && LinesOk(s.lines)
    && s.first != [] && AllDigits(s.first) && Decimal(s.first) < 0x1_0000_0000
    && s.count != [] && AllDigits(s.count) && Decimal(s.count) == |s.lines| < 0x1_0000_0000
  }

  predicate SectionOk(section: Section, rest: seq<byte>, limits: Limits) {
    && GapOk(section.gap) && GapOk(section.before) && GapOk(section.middle)
    && (forall k | 0 <= k < |section.subsections| :: SubsectionOk(section.subsections[k]))
    && EntriesSpelled(section.entries) && EntriesSeparated(section.entries, rest)
    && EntriesAccepted(section.entries, rest, 0, map[], limits)
  }

  predicate StartOk(start: Start) {
    && GapOk(start.gap) && !start.eol.NoEol? && GapOk(start.middle)
    && start.offset != [] && AllDigits(start.offset)
    && start.white != [] && start.white[0].White? && GapOk(start.white)
  }

  function EntryCount(subsections: seq<Subsection>): nat {
    if subsections == [] then 0 else |subsections[0].lines| + EntryCount(subsections[1..])
  }

  // ---------------------------------------------------------------------------------------------
  // Lines
  // ---------------------------------------------------------------------------------------------

  /** Of a carriage return and a line feed only the first is taken with the line. */
  function Leftover(late: bool): seq<byte> {
    if late then [CosParsing.LF] else []
  }

  lemma FixedDigits(digits: seq<byte>, rest: seq<byte>)
    requires AllDigits(digits)
    ensures HasDigits(digits + rest, |digits|) && AfterDigits(digits + rest, |digits|) == rest
  {
    assert (digits + rest)[..|digits|] == digits && (digits + rest)[|digits|..] == rest;
  }

  lemma OneSpace(b: byte, rest: seq<byte>)
    requires b != 9 && b != 32
    ensures SkipXrefSpaces([SPACE] + ([b] + rest)) == [b] + rest
  {
    assert ([SPACE] + ([b] + rest))[1..] == [b] + rest;
    assert SkipXrefSpaces([b] + rest) == [b] + rest;
  }

  lemma EndHasEol(line: XrefLine, rest: seq<byte>)
    ensures CosParsing.LF in LineText(line, rest) || CosParsing.CR in LineText(line, rest)
  {
    var e := line.end.Bytes();
    assert e[1] in e;
    assert e[1] in e + rest;
  }

  lemma EntryReads(line: XrefLine, rest: seq<byte>)
    requires LineOk(line)
    ensures XrefEntry(LineText(line, rest)) == (true, line.end.Bytes() + rest)
  {
    hide HasDigits, AfterDigits, SkipXrefSpaces;
    var after := line.end.Bytes() + rest;
    var marker := [Letter(line.free)] + after;
    var generation := line.generation + ([SPACE] + marker);
    FixedDigits(line.offset, [SPACE] + generation);
    assert generation == [line.generation[0]] + generation[1..] && IsDigit(line.generation[0]);
    OneSpace(line.generation[0], generation[1..]);
    FixedDigits(line.generation, [SPACE] + marker);
    OneSpace(Letter(line.free), after);
    assert marker[1..] == after;
    EndHasEol(line, rest);
  }

  /** An entry that begins behind a line feed is not recognised. */
  lemma LateEntry(line: XrefLine, rest: seq<byte>)
    ensures XrefEntry([CosParsing.LF] + LineText(line, rest)) == (false, LineText(line, rest))
  {
    var s := [CosParsing.LF] + LineText(line, rest);
    assert !HasDigits(s, 10) && !HasDigits(s, 5) by {
      assert |s| >= 5 ==> !IsDigit(s[..5][0]);
      assert |s| >= 10 ==> !IsDigit(s[..10][0]);
    }
    assert s[1..] == LineText(line, rest);
  }

  lemma EndSkipped(end: EntryEnd, rest: seq<byte>)
    ensures SkipLine(end.Bytes() + rest) == Leftover(end.CrLf?) + rest
  {
    var s := end.Bytes() + rest;
    assert s[1..] == [end.Bytes()[1]] + rest;
    assert s[1..][1..] == rest;
    if end.CrLf? {
      assert SkipLine(s) == s[1..];
    } else {
      assert SkipLine(s) == SkipLine(s[1..]) == s[1..][1..];
    }
  }

  lemma LineSkipped(line: XrefLine, rest: seq<byte>)
    requires LineOk(line)
    ensures SkipLine(LineText(line, rest)) == Leftover(line.end.CrLf?) + rest
  {
    hide SkipLine, Leftover;
    var text := line.offset + [SPACE] + line.generation + [SPACE] + [Letter(line.free)];
    assert LineText(line, rest) == text + (line.end.Bytes() + rest);
    SkipLineOver(text, line.end.Bytes() + rest);
    EndSkipped(line.end, rest);
  }

  // ---------------------------------------------------------------------------------------------
  // Entries in step
  // ---------------------------------------------------------------------------------------------

  /** No entry begins behind a line feed that was left over. */
  predicate InStep(lines: seq<XrefLine>, late: bool) {
    lines == [] || (!late && InStep(lines[1..], lines[0].end.CrLf?))
  }

  predicate LateAfter(lines: seq<XrefLine>, late: bool) {
    if lines == [] then late else LateAfter(lines[1..], lines[0].end.CrLf?)
  }

  predicate TableInStep(subsections: seq<Subsection>) {
    forall k | 0 <= k < |subsections| :: InStep(subsections[k].lines, subsections[k].eol.CrLfEol?)
  }

  /** Entries are in step exactly when no line in front of one ends in a carriage return and a line feed. */
  lemma {:induction false} InStepIff(lines: seq<XrefLine>, late: bool)
    ensures InStep(lines, late) <==>
            lines == [] || (!late && forall k | 0 <= k < |lines| - 1 :: !lines[k].end.CrLf?)
    decreases lines
  {
    if lines != [] {
      InStepIff(lines[1..], lines[0].end.CrLf?);
      assert forall k | 0 <= k < |lines| - 1 :: lines[1..][k] == lines[k + 1];
      if InStep(lines, late) {
        forall k | 0 <= k < |lines| - 1
          ensures !lines[k].end.CrLf?
        {
          assert k > 0 ==> lines[1..][k - 1] == lines[k];
        }
      }
    }
  }

  lemma EntryStep(line: XrefLine, rest: seq<byte>, late: bool)
    requires LineOk(line)
    ensures var (ok, after) := XrefEntry(Leftover(late) + LineText(line, rest));
            ok == !late && SkipLine(after) == Leftover(line.end.CrLf?) + rest
  {
    hide XrefEntry, SkipLine, LineText;
    if late {
      LateEntry(line, rest);
      LineSkipped(line, rest);
    } else {
      assert [] + LineText(line, rest) == LineText(line, rest);
      EntryReads(line, rest);
      EndSkipped(line.end, rest);
    }
  }

  lemma {:induction false} LinesRead(lines: seq<XrefLine>, rest: seq<byte>, late: bool, x: XrefState, limits: Limits)
    requires LinesOk(lines) && x.entries <= limits.maxObjects
    ensures XrefEntries(Leftover(late) + LinesText(lines, rest), |lines|, x, limits) ==
            if x.entries + |lines| > limits.maxObjects then Bad(LimitExceeded(MaxObjects))
            else Good(XrefState(x.entries + |lines|, x.compliant && InStep(lines, late)),
                      Leftover(LateAfter(lines, late)) + rest)
    decreases lines
  {
    hide XrefEntry, SkipLine, LineText, Leftover, LineOk;
    if lines != [] {
      var line := lines[0];
      assert LineOk(line);
      EntryStep(line, LinesText(lines[1..], rest), late);
      if x.entries + 1 <= limits.maxObjects {
        LinesRead(lines[1..], rest, line.end.CrLf?, XrefState(x.entries + 1, x.compliant && !late), limits);
      }
    }
  }

  // ---------------------------------------------------------------------------------------------
  // Subsections
  // ---------------------------------------------------------------------------------------------

  lemma SkipLeftover(late: bool, s: seq<byte>)
    ensures SkipSpace(Leftover(late) + s) == SkipSpace(s)
  {
    if late {
      assert ([CosParsing.LF] + s)[1..] == s;
    } else {
      assert [] + s == s;
    }
  }

  lemma EolSkipped(eol: Eol, rest: seq<byte>)
    requires !eol.NoEol?
    ensures SkipLine(eol.Bytes() + rest) == Leftover(eol.CrLfEol?) + rest
  {
    var s := eol.Bytes() + rest;
    assert s[1..] == eol.Bytes()[1..] + rest;
    assert eol.Bytes()[1..] == Leftover(eol.CrLfEol?);
  }

  lemma DigitStartsNoEnd(t: seq<byte>)
    requires t != [] && IsDigit(t[0])
    ensures !EndsXref(t) && Starts(t)
  {
  }

  /** The two numbers of a heading. */
  lemma HeadingReads(s: Subsection, rest: seq<byte>)
    requires SubsectionOk(s)
    ensures var afterCount := s.eol.Bytes() + rest;
            var afterFirst := [SPACE] + (s.count + afterCount);
            && HeadingText(s, rest) != [] && IsDigit(HeadingText(s, rest)[0])
            && ParseUnsigned(HeadingText(s, rest), 0xFFFF_FFFF) == Good(Some(Decimal(s.first)), afterFirst)
            && ParseUnsigned(SkipWs(afterFirst), 0xFFFF_FFFF) == Good(Some(|s.lines|), afterCount)
  {
    hide ParseUnsigned, SkipWs, Decimal, LinesOk;
    var afterCount := s.eol.Bytes() + rest;
    var afterFirst := [SPACE] + (s.count + afterCount);
    UnsignedReads([], s.first, afterFirst, 0xFFFF_FFFF);
    assert afterCount[0] == s.eol.Bytes()[0];
    var gap := [White(SPACE)];
    assert gap[1..] == [];
    assert GapText(gap, s.count + afterCount) == [SPACE] + GapText(gap[1..], s.count + afterCount);
    UnsignedReadsAfterWs(gap, s.count, afterCount, 0xFFFF_FFFF);
  }

  /** One round of the loop over subsections. */
  lemma HeadingStep(t: seq<byte>, first: nat, afterFirst: seq<byte>, count: nat, afterCount: seq<byte>,
                    x: XrefState, limits: Limits)
    requires t != [] && IsDigit(t[0])
    requires ParseUnsigned(t, 0xFFFF_FFFF) == Good(Some(first), afterFirst) && StartsWithWs(afterFirst)
    requires ParseUnsigned(SkipWs(afterFirst), 0xFFFF_FFFF) == Good(Some(count), afterCount)
    ensures XrefSubsections(t, x, limits) ==
            var entries := XrefEntries(SkipLine(afterCount), count, x, limits);
            if entries.Bad? then Bad(entries.error) else XrefSubsections(entries.rest, entries.value, limits)
  {
    hide ParseUnsigned, XrefEntries, SkipWs, SkipLine;
    DigitStartsNoEnd(t);
    SkipSpaceToToken([], t);
  }

  lemma SubsectionsAfterSpace(s: seq<byte>, x: XrefState, limits: Limits)
    ensures XrefSubsections(s, x, limits) == XrefSubsections(SkipSpace(s), x, limits)
  {
    hide ParseUnsigned, XrefEntries, SkipLine;
    SkipSpaceTwice(s);
  }

  /** All subsections, up to the trailer: the number of entries and whether all of them were in step. */
  lemma {:induction false} SubsectionsRead(
      subsections: seq<Subsection>, end: seq<byte>, late: bool, x: XrefState, limits: Limits)
    requires forall k | 0 <= k < |subsections| :: SubsectionOk(subsections[k])
    requires EndsXref(SkipSpace(end)) && x.entries <= limits.maxObjects
    ensures XrefSubsections(Leftover(late) + SubsectionsText(subsections, end), x, limits) ==
            var entries := x.entries + EntryCount(subsections);
            if entries > limits.maxObjects then Bad(LimitExceeded(MaxObjects))
            else Good(XrefState(entries, x.compliant && TableInStep(subsections)), SkipSpace(end))
    decreases subsections
  {
    hide XrefSubsections, XrefEntries, SkipSpace, SkipLine, SkipWs, ParseUnsigned, SubsectionOk, Leftover, EndsXref;
    var s := Leftover(late) + SubsectionsText(subsections, end);
    SkipLeftover(late, SubsectionsText(subsections, end));
    SubsectionsAfterSpace(s, x, limits);
    if subsections == [] {
      NoSubsection(end, x, limits);
    } else {
      var sub := subsections[0];
      var more := SubsectionsText(subsections[1..], end);
      assert SubsectionOk(sub);
      SubsectionStep(sub, more, x, limits);
      if x.entries + |sub.lines| <= limits.maxObjects {
        var y := XrefState(x.entries + |sub.lines|, x.compliant && InStep(sub.lines, sub.eol.CrLfEol?));
        SubsectionsRead(subsections[1..], end, LateAfter(sub.lines, sub.eol.CrLfEol?), y, limits);
        TableStep(subsections);
      }
    }
  }

  lemma NoSubsection(end: seq<byte>, x: XrefState, limits: Limits)
    requires EndsXref(SkipSpace(end))
    ensures XrefSubsections(SkipSpace(end), x, limits) == Good(x, SkipSpace(end))
  {
    hide ParseUnsigned, XrefEntries, SkipLine, EndsXref;
    SkipSpaceTwice(end);
  }

  lemma TableStep(subsections: seq<Subsection>)
    requires subsections != []
    ensures TableInStep(subsections) <==>
            InStep(subsections[0].lines, subsections[0].eol.CrLfEol?) && TableInStep(subsections[1..])
  {
    hide InStep;
    if TableInStep(subsections[1..]) {
      forall k | 0 < k < |subsections|
        ensures InStep(subsections[k].lines, subsections[k].eol.CrLfEol?)
          <==> InStep(subsections[1..][k - 1].lines, subsections[1..][k - 1].eol.CrLfEol?)
      {
        assert subsections[1..][k - 1] == subsections[k];
      }
    }
  }

  lemma SubsectionStep(sub: Subsection, more: seq<byte>, x: XrefState, limits: Limits)
    requires SubsectionOk(sub) && x.entries <= limits.maxObjects
    ensures var t := SkipSpace(GapText(sub.gap, HeadingText(sub, LinesText(sub.lines, more))));
            XrefSubsections(t, x, limits) ==
            if x.entries + |sub.lines| > limits.maxObjects then Bad(LimitExceeded(MaxObjects))
            else XrefSubsections(
              Leftover(LateAfter(sub.lines, sub.eol.CrLfEol?)) + more,
              XrefState(x.entries + |sub.lines|, x.compliant && InStep(sub.lines, sub.eol.CrLfEol?)), limits)
  {
    hide XrefSubsections, XrefEntries, SkipSpace, SkipLine, SkipWs, ParseUnsigned, Leftover, Decimal, LinesText, HeadingText;
    var lines := LinesText(sub.lines, more);
    var t := HeadingText(sub, lines);
    var afterCount := sub.eol.Bytes() + lines;
    var afterFirst := [SPACE] + (sub.count + afterCount);
    HeadingReads(sub, lines);
    DigitStartsNoEnd(t);
    SkipSpaceToToken(sub.gap, t);
    HeadingStep(t, Decimal(sub.first), afterFirst, |sub.lines|, afterCount, x, limits);
    EolSkipped(sub.eol, lines);
    LinesRead(sub.lines, more, sub.eol.CrLfEol?, x, limits);
  }

  // ---------------------------------------------------------------------------------------------
  // The section with its trailer
  // ---------------------------------------------------------------------------------------------

  function TrailerOf(source: Storage, section: Section, rest: seq<byte>): Trailer
    requires EntriesSpelled(section.entries) && |DictionaryText(section, rest)| <= |source.bytes|
  {
    Trailer(EntriesValue(section.entries, map[]), Position(source, DictionaryText(section, rest)))
  }

  /** The state with what a section adds to it: its own fact, the facts of its trailer, and the trailer. */
  function WithSection(state: FileState, table: ParseFact, chain: seq<ParseFact>, trailer: Trailer, limits: Limits)
    : FileState
  {
    state.Facts([table], limits.maxParseFacts).Facts(chain, limits.maxParseFacts).(trailers := state.trailers + [trailer])
  }

  lemma TrailerReads(source: Storage, section: Section, rest: seq<byte>, state: FileState, limits: Limits)
    requires SectionOk(section, rest, limits) && IsRest(source, TrailerText(section, rest))
    ensures |TrailerText(section, rest)| <= |source.bytes| && |DictionaryText(section, rest)| <= |source.bytes|
    ensures StartsWith(TrailerText(section, rest), TRAILER)
    ensures var trailer := TrailerOf(source, section, rest);
            var facts := ChainFacts(trailer.offset, trailer.dictionary);
            TrailerAt(source, TrailerText(section, rest), state, limits) ==
            if facts.Err? then Bad(facts.error)
            else Good(state.Facts(facts.value, limits.maxParseFacts).(trailers := state.trailers + [trailer]), rest)
  {
    hide ParseEntries, EntriesAccepted, EntriesSpelled, EntriesSeparated, EntriesValue, ChainFacts, PushFacts,
      SkipSpace, IsRest, EntriesText, GapText;
    var dictionary := DictionaryText(section, rest);
    var after := GapText(section.middle, dictionary);
    assert (TRAILER + after)[..7] == TRAILER && (TRAILER + after)[7..] == after;
    assert dictionary[..2] == DICT_OPEN && dictionary[2..] == EntriesText(section.entries, rest);
    SkipSpaceToToken(section.middle, dictionary);
    EntriesParse(section.entries, rest, 0, map[], limits);
    DropRest(source, TRAILER, after);
    DropGap(source, section.middle, dictionary);
    RestFits(source, TRAILER + after);
    RestFits(source, dictionary);
  }

  /** The bytes of a section that come after its keyword are still in the source. */
  lemma DropTable(source: Storage, section: Section, rest: seq<byte>)
    requires IsRest(source, TableText(section, rest))
    ensures IsRest(source, TrailerText(section, rest))
  {
    hide IsRest, TrailerText;
    var trailer := TrailerText(section, rest);
    var end := GapText(section.before, trailer);
    DropRest(source, XREF, SubsectionsText(section.subsections, end));
    DropSubsections(source, section.subsections, end);
    DropGap(source, section.before, trailer);
  }

  lemma {:induction false} DropSubsections(source: Storage, subsections: seq<Subsection>, rest: seq<byte>)
    requires IsRest(source, SubsectionsText(subsections, rest))
    ensures IsRest(source, rest)
    decreases subsections
  {
    hide IsRest;
    if subsections != [] {
      var s := subsections[0];
      var more := SubsectionsText(subsections[1..], rest);
      var lines := LinesText(s.lines, more);
      DropGap(source, s.gap, HeadingText(s, lines));
      assert HeadingText(s, lines) == (s.first + [SPACE] + s.count + s.eol.Bytes()) + lines;
      DropRest(source, s.first + [SPACE] + s.count + s.eol.Bytes(), lines);
      DropLines(source, s.lines, more);
      DropSubsections(source, subsections[1..], rest);
    }
  }

  lemma {:induction false} DropLines(source: Storage, lines: seq<XrefLine>, rest: seq<byte>)
    requires IsRest(source, LinesText(lines, rest))
    ensures IsRest(source, rest)
    decreases lines
  {
    hide IsRest, EntryEnd.Bytes;
    if lines != [] {
      var l := lines[0];
      var more := LinesText(lines[1..], rest);
      var text := l.offset + [SPACE] + l.generation + [SPACE] + [Letter(l.free)] + l.end.Bytes();
      assert LineText(l, more) == text + more;
      DropRest(source, text, more);
      DropLines(source, lines[1..], rest);
    }
  }

  /** A section is read whole: its fact says whether its entries are in step, and its trailer is kept. */
  lemma SectionReads(source: Storage, section: Section, rest: seq<byte>, state: FileState, limits: Limits)
    requires SectionOk(section, rest, limits) && IsRest(source, TableText(section, rest))
    ensures |TableText(section, rest)| <= |source.bytes| && |DictionaryText(section, rest)| <= |source.bytes|
    ensures StartsWith(TableText(section, rest), XREF)
    ensures var trailer := TrailerOf(source, section, rest);
            var chain := ChainFacts(trailer.offset, trailer.dictionary);
            var table := XrefSection(Position(source, TableText(section, rest)), TableInStep(section.subsections));
            XrefAt(source, TableText(section, rest), state, limits) ==
            if EntryCount(section.subsections) > limits.maxObjects then Bad(LimitExceeded(MaxObjects))
            else if chain.Err? then Bad(chain.error)
            else Good(WithSection(state, table, chain.value, trailer, limits), rest)
  {
    hide IsRest, XrefSubsections, TrailerAt, ChainFacts, PushFacts, SkipSpace, DictionaryText, TrailerOf,
      SubsectionsText, GapText, TableInStep, SubsectionOk, EntriesAccepted, EntriesSpelled, EntriesSeparated;
    var trailer := TrailerText(section, rest);
    var end := GapText(section.before, trailer);
    var text := SubsectionsText(section.subsections, end);
    assert (XREF + text)[..4] == XREF && (XREF + text)[4..] == text;
    DropTable(source, section, rest);
    RestFits(source, XREF + text);
    assert Starts(trailer);
    SkipSpaceToToken(section.before, trailer);
    SkipSpaceTwice(end);
    var table := XrefSection(Position(source, XREF + text), TableInStep(section.subsections));
    TrailerReads(source, section, rest, state.Facts([table], limits.maxParseFacts), limits);
    assert Leftover(false) + text == text;
    SubsectionsRead(section.subsections, end, false, XrefState(0, true), limits);
  }

  // ---------------------------------------------------------------------------------------------
  // The end of the file
  // ---------------------------------------------------------------------------------------------

  lemma {:induction false} DecimalOfEnd(digits: seq<byte>)
    requires digits != [] && AllDigits(digits)
    ensures AllDigits(digits[1..]) && Decimal(digits[1..]) <= Decimal(digits)
    decreases |digits|
  {
    if |digits| > 1 {
      var front := digits[..|digits| - 1];
      DecimalOfEnd(front);
      assert digits[1..][..|digits| - 2] == front[1..];
      assert digits[1..][|digits| - 2] == digits[|digits| - 1];
    }
  }

  lemma MarkerEnds(source: Storage, white: seq<Blank>, after: seq<byte>, state: FileState, limits: Limits)
    requires GapOk(white) && |GapText(white, EOF_MARKER + after)| <= |source.bytes|
    ensures SkipSpace(GapText(white, EOF_MARKER + after)) == EOF_MARKER + after
    ensures TopLevel(source, GapText(white, EOF_MARKER + after), state, limits)
         == Ok(state.Facts(PostEofFacts(after), limits.maxParseFacts))
  {
    hide IndirectAt, XrefAt, TrailerAt, PostEofFacts, PushFacts;
    var s := EOF_MARKER + after;
    assert s[..5] == EOF_MARKER && s[5..] == after;
    SkipSpaceOverGap(white, s);
    MarkerIsNoSpace(s);
    GapKeeps(white, s);
  }

  lemma MarkerIsNoSpace(s: seq<byte>)
    requires StartsWith(s, EOF_MARKER)
    ensures SkipSpace(s) == s
  {
    assert s[0] == EOF_MARKER[0];
  }

  lemma {:induction false} GapKeeps(gap: seq<Blank>, rest: seq<byte>)
    ensures |GapText(gap, rest)| >= |rest|
  {
    if gap != [] {
      GapKeeps(gap[1..], rest);
    }
  }

  /** A number in front of the marker begins no object: it is refused when it is too large, and passed over. */
  lemma OffsetIsNoHeader(offset: seq<byte>, white: seq<Blank>, after: seq<byte>)
    requires offset != [] && AllDigits(offset) && white != [] && white[0].White? && GapOk(white)
    ensures var s := EndingText(offset, white, after);
            ParseObjectHeader(s) == if Decimal(offset) > 0xFFFF_FFFF then Bad(Malformed) else Good(None, s)
  {
    hide SkipWs, SkipSpace, Decimal;
    var gap := GapText(white, EOF_MARKER + after);
    var s := offset + gap;
    assert BlankOk(white[0]) && gap[0] == white[0].b;
    assert IsDigit(s[0]) && Starts(s) && s != [];
    SkipSpaceToToken([], s);
    DigitRunIs(offset, gap);
    assert s[..|offset|] == offset && s[|offset|..] == gap;
    NoGeneration(white, after);
  }

  lemma NoGeneration(white: seq<Blank>, after: seq<byte>)
    requires GapOk(white)
    ensures ParseUnsigned(SkipWs(GapText(white, EOF_MARKER + after)), 0xFFFF) == Good(None, EOF_MARKER + after)
  {
    hide SkipWs, SkipSpace;
    var s := EOF_MARKER + after;
    SkipSpaceAfterWs(GapText(white, s));
    SkipSpaceOverGap(white, s);
    assert s[..5] == EOF_MARKER;
    MarkerIsNoSpace(s);
    assert s[0] == EOF_MARKER[0];
  }

  /** The digits of the offset are stepped over one by one, unless the number is too large. */
  lemma {:induction false} OffsetPassed(
      source: Storage, offset: seq<byte>, white: seq<Blank>, after: seq<byte>, state: FileState, limits: Limits)
    requires AllDigits(offset) && white != [] && white[0].White? && GapOk(white)
    requires |EndingText(offset, white, after)| <= |source.bytes|
    ensures TopLevel(source, EndingText(offset, white, after), state, limits) ==
            if Decimal(offset) > 0xFFFF_FFFF then Err(Malformed)
            else Ok(state.Facts(PostEofFacts(after), limits.maxParseFacts))
    decreases |offset|
  {
    hide PostEofFacts, FileState.Facts, ParseObjectHeader, BodyAt, XrefAt, TrailerAt, SkipSpace, Decimal, GapText;
    var gap := GapText(white, EOF_MARKER + after);
    var s := offset + gap;
    if offset == [] {
      assert s == gap;
      assert Decimal([]) == 0 by {
        NoDigits();
      }
      MarkerEnds(source, white, after, state, limits);
    } else {
      assert IsDigit(s[0]) && Starts(s) && s != [];
      SkipSpaceToToken([], s);
      assert GapText([], s) == s by {
        NoGap(s);
      }
      NumberStartsNoKeyword(s);
      OffsetIsNoHeader(offset, white, after);
      if Decimal(offset) <= 0xFFFF_FFFF {
        assert s[1..] == offset[1..] + gap;
        DecimalOfEnd(offset);
        OffsetPassed(source, offset[1..], white, after, state, limits);
      }
    }
  }

  lemma NoDigits()
    ensures Decimal([]) == 0
  {
  }

  lemma NoGap(s: seq<byte>)
    ensures GapText([], s) == s
  {
  }

  /** White space and comments in front make no difference. */
  lemma TopLevelAfterSpace(source: Storage, s: seq<byte>, t: seq<byte>, state: FileState, limits: Limits)
    requires |s| <= |source.bytes| && |t| <= |source.bytes| && s != [] && t != []
    requires SkipSpace(s) == SkipSpace(t)
    ensures TopLevel(source, s, state, limits) == TopLevel(source, t, state, limits)
  {
    hide SkipSpace, IndirectAt, XrefAt, TrailerAt, PostEofFacts, PushFacts;
    assert NextOf(source, s, state, limits) == NextOf(source, t, state, limits);
  }

  /** The keyword's line is stepped over. */
  lemma StartKeyword(source: Storage, gap: seq<Blank>, eol: Eol, text: seq<byte>, state: FileState, limits: Limits)
    requires GapOk(gap) && !eol.NoEol? && |GapText(gap, STARTXREF + (eol.Bytes() + text))| <= |source.bytes|
    ensures |Leftover(eol.CrLfEol?) + text| <= |source.bytes|
    ensures TopLevel(source, GapText(gap, STARTXREF + (eol.Bytes() + text)), state, limits)
         == TopLevel(source, Leftover(eol.CrLfEol?) + text, state, limits)
  {
    hide SkipSpace, IndirectAt, XrefAt, TrailerAt, PostEofFacts, PushFacts, SkipLine, Eol.Bytes;
    var after := eol.Bytes() + text;
    var t := STARTXREF + after;
    assert t[0] == STARTXREF[0] && t[..9] == STARTXREF;
    SkipSpaceToToken(gap, t);
    KeywordLineSkipped(after);
    EolSkipped(eol, text);
    GapKeeps(gap, t);
  }

  lemma KeywordLineSkipped(after: seq<byte>)
    ensures SkipLine(STARTXREF + after) == SkipLine(after)
    ensures var t := STARTXREF + after; StartsWith(t, STARTXREF) && !StartsWith(t, EOF_MARKER)
  {
    SkipLineOver(STARTXREF, after);
    assert (STARTXREF + after)[0] == STARTXREF[0];
    assert STARTXREF <= STARTXREF + after;
  }

  /** The last lines of a file: `startxref`, its number, and the marker, with anything after it. */
  lemma StartReads(source: Storage, start: Start, after: seq<byte>, state: FileState, limits: Limits)
    requires StartOk(start) && |StartText(start, after)| <= |source.bytes|
    ensures TopLevel(source, StartText(start, after), state, limits) ==
            if Decimal(start.offset) > 0xFFFF_FFFF then Err(Malformed)
            else Ok(state.Facts(PostEofFacts(after), limits.maxParseFacts))
  {
    hide TopLevel, SkipSpace, PostEofFacts, FileState.Facts, Decimal, Eol.Bytes, Leftover, EndingText, GapText;
    var ending := EndingText(start.offset, start.white, after);
    var text := GapText(start.middle, ending);
    EndingBegins(start, after);
    StartKeyword(source, start.gap, start.eol, text, state, limits);
    SkipLeftover(start.eol.CrLfEol?, text);
    SkipSpaceOverGap(start.middle, ending);
    GapKeeps(start.middle, ending);
    TopLevelAfterSpace(source, Leftover(start.eol.CrLfEol?) + text, ending, state, limits);
    OffsetPassed(source, start.offset, start.white, after, state, limits);
  }

  lemma EndingBegins(start: Start, after: seq<byte>)
    requires StartOk(start)
    ensures EndingText(start.offset, start.white, after) != []
  {
  }

  // ---------------------------------------------------------------------------------------------
  // The whole file
  // ---------------------------------------------------------------------------------------------

  function WholeText(parts: seq<Part>, section: Section, start: Start, after: seq<byte>): seq<byte> {
    FileText(parts, SectionText(section, StartText(start, after)))
  }

  /** A file of the classic form is read to its objects and its trailer, whatever follows the end-of-file
      marker, unless its table has too many entries, its trailer a negative offset, or `startxref` a number
      of more than 32 bits. Its table is recorded as compliant exactly when its entries are in step. */
  lemma WholeFileParses(source: Storage, parts: seq<Part>, section: Section, start: Start, after: seq<byte>,
                        state: FileState, limits: Limits)
    returns (body: FileState)
    requires IsRest(source, WholeText(parts, section, start, after))
    requires FileOk(parts, SectionText(section, StartText(start, after)), limits)
    requires SectionOk(section, StartText(start, after), limits) && StartOk(start)
    requires |state.objects| + |parts| <= limits.maxObjects
    ensures body.trailers == state.trailers
    ensures forall k | 0 <= k < |parts| :: HeaderOk(parts[k])
    ensures body.facts == PushFacts(state.facts, PartsFacts(parts), limits.maxParseFacts)
    ensures Stored(body.objects, parts, SectionText(section, StartText(start, after)), limits)
    ensures OthersKept(state.objects, body.objects, parts)
    ensures |WholeText(parts, section, start, after)| <= |source.bytes|
    ensures |TableText(section, StartText(start, after))| <= |source.bytes|
    ensures |DictionaryText(section, StartText(start, after))| <= |source.bytes|
    ensures var rest := StartText(start, after);
            var trailer := TrailerOf(source, section, rest);
            var chain := ChainFacts(trailer.offset, trailer.dictionary);
            var table := XrefSection(Position(source, TableText(section, rest)), TableInStep(section.subsections));
            TopLevel(source, WholeText(parts, section, start, after), state, limits) ==
            if EntryCount(section.subsections) > limits.maxObjects then Err(LimitExceeded(MaxObjects))
            else if chain.Err? then Err(chain.error)
            else if Decimal(start.offset) > 0xFFFF_FFFF then Err(Malformed)
            else Ok(WithSection(body, table, chain.value, trailer, limits).Facts(PostEofFacts(after), limits.maxParseFacts))
  {
    hide TopLevel, IsRest, FileOk, SectionOk, StartOk, Stored, OthersKept, TrailerOf, ChainFacts, TableInStep, WithSection,
      PostEofFacts, FileState.Facts, Decimal, StartText, TableText, DictionaryText, FileText, PartsFacts, PushFacts, HeaderOk;
    var rest := StartText(start, after);
    SectionSpelled(section, rest, limits);
    body := PartsParse(source, parts, SectionText(section, rest), state, limits);
    DropParts(source, parts, SectionText(section, rest));
    SectionThenRest(source, section, rest, body, limits);
    if EntryCount(section.subsections) <= limits.maxObjects {
      var trailer := TrailerOf(source, section, rest);
      var chain := ChainFacts(trailer.offset, trailer.dictionary);
      if chain.Ok? {
        var table := XrefSection(Position(source, TableText(section, rest)), TableInStep(section.subsections));
        StartReads(source, start, after, WithSection(body, table, chain.value, trailer, limits), limits);
      }
    }
  }

  lemma SectionSpelled(section: Section, rest: seq<byte>, limits: Limits)
    requires SectionOk(section, rest, limits)
    ensures EntriesSpelled(section.entries)
  {
  }

  lemma SectionThenRest(source: Storage, section: Section, rest: seq<byte>, state: FileState, limits: Limits)
    requires SectionOk(section, rest, limits) && IsRest(source, SectionText(section, rest))
    ensures |SectionText(section, rest)| <= |source.bytes| && |rest| <= |source.bytes|
    ensures |TableText(section, rest)| <= |source.bytes| && |DictionaryText(section, rest)| <= |source.bytes|
    ensures var trailer := TrailerOf(source, section, rest);
            var chain := ChainFacts(trailer.offset, trailer.dictionary);
            var table := XrefSection(Position(source, TableText(section, rest)), TableInStep(section.subsections));
            TopLevel(source, SectionText(section, rest), state, limits) ==
            if EntryCount(section.subsections) > limits.maxObjects then Err(LimitExceeded(MaxObjects))
            else if chain.Err? then Err(chain.error)
            else TopLevel(source, rest, WithSection(state, table, chain.value, trailer, limits), limits)
  {
    hide IsRest, SkipSpace, IndirectAt, XrefAt, TrailerAt, PostEofFacts, ChainFacts, TrailerOf, DictionaryText,
      WithSection, TableInStep, EntriesAccepted, EntriesSpelled, EntriesSeparated;
    var t := TableText(section, rest);
    DropGap(source, section.gap, t);
    SectionReads(source, section, rest, state, limits);
    TableBegins(section, rest);
    SkipSpaceToToken(section.gap, t);
    RestFits(source, GapText(section.gap, t));
    XrefEndsInside(source, section, rest);
  }

  lemma TableBegins(section: Section, rest: seq<byte>)
    ensures var t := TableText(section, rest);
            && t != [] && Starts(t) && GapText(section.gap, t) != []
            && !StartsWith(t, EOF_MARKER) && !StartsWith(t, STARTXREF)
  {
    var t := TableText(section, rest);
    assert t[0] == XREF[0];
    GapKeeps(section.gap, t);
  }

  lemma XrefEndsInside(source: Storage, section: Section, rest: seq<byte>)
    requires IsRest(source, TableText(section, rest))
    ensures |rest| <= |source.bytes|
  {
    hide IsRest, DictionaryText;
    DropTable(source, section, rest);
    var dictionary := DictionaryText(section, rest);
    DropRest(source, TRAILER, GapText(section.middle, dictionary));
    DropGap(source, section.middle, dictionary);
    DictionaryEnds(source, section, rest);
  }

  lemma DictionaryEnds(source: Storage, section: Section, rest: seq<byte>)
    requires IsRest(source, DictionaryText(section, rest))
    ensures |rest| <= |source.bytes|
  {
    hide IsRest, EntriesText;
    DropRest(source, DICT_OPEN, EntriesText(section.entries, rest));
    DropEntries(source, section.entries, rest);
    RestFits(source, rest);
  }

  /** A table of one entry, written with carriage returns and line feeds throughout as the standard allows,
      is recorded as malformed. */
  lemma CrLfTableIsMalformed(end: seq<byte>, limits: Limits)
    requires EndsXref(SkipSpace(end)) && limits.maxObjects > 0
    ensures var line := XrefLine(Ascii("0000000000"), Ascii("65535"), true, CrLf);
            var table := Subsection([White(CosParsing.CR), White(CosParsing.LF)], Ascii("0"), Ascii("1"), CrLfEol, [line]);
            XrefSubsections(SubsectionsText([table], end), XrefState(0, true), limits) ==
            Good(XrefState(1, false), SkipSpace(end))
  {
    hide SkipSpace, XrefSubsections, EndsXref;
    var line := XrefLine(Ascii("0000000000"), Ascii("65535"), true, CrLf);
    var table := Subsection([White(CosParsing.CR), White(CosParsing.LF)], Ascii("0"), Ascii("1"), CrLfEol, [line]);
    assert Decimal(Ascii("0")) == 0 && Decimal(Ascii("1")) == 1;
    assert LineOk(line) && SubsectionOk(table);
    assert Leftover(false) + SubsectionsText([table], end) == SubsectionsText([table], end);
    SubsectionsRead([table], end, false, XrefState(0, true), limits);
    assert EntryCount([table]) == 1;
    assert !InStep(table.lines, true);
    assert [table][0] == table;
  }
}
